/**
 * The bot's persistent store: the SQLite tables `users`, `tasks` and
 * `task_photos`, held in memory by class `Database`. Every method of the
 * class is one statement (or the two statements) the source runs against
 * SQLite; `CURRENT_TIMESTAMP` is the abstract, never-decreasing `clock`.
 */
module Store {
  import opened Wrappers
  import opened Text

  type Timestamp = nat

  datatype Role = Executor | Manager | Inactive

  /** Task status; `New` is the literal "Новая" and `Completed` the literal "Выполнено". */
  datatype Status = New | Completed | Approved | Redo

  /** The `kind` column of `task_photos`, restricted to 'before' and 'after'. */
  datatype PhotoKind = Before | After

  /** A row of `users`. */
  datatype User = User(
    userId: int,
    username: string,
    role: Role,
    category: Option<string>,
    lastActive: Timestamp,
    createdAt: Timestamp)

  /** A row of `get_users_by_category`: the columns user_id and username. */
  datatype Contact = Contact(userId: int, username: string)

  /** A row of `tasks`, with the legacy single before/after photo columns. */
  datatype Task = Task(
    id: int,
    createdBy: int,
    photoBeforeId: string,
    photoBeforePath: string,
    comment: string,
    status: Status,
    category: string,
    completedBy: Option<int>,
    photoAfterId: Option<string>,
    photoAfterPath: Option<string>,
    createdAt: Timestamp,
    completedAt: Option<Timestamp>)

  /** A row of `task_photos`; `rowId` is the AUTOINCREMENT key. */
  datatype TaskPhoto = TaskPhoto(rowId: nat, taskId: int, kind: PhotoKind, fileId: string, filePath: string)

  // ---------------------------------------------------------------------
  // Task rows

  /** The row `create_task` inserts: status New, nothing about completion. */
  function NewTaskRow(id: int, createdBy: int, photoId: string, photoPath: string,
                      comment: string, category: string, now: Timestamp): (t: Task)
    ensures t.id == id && t.status == New && t.createdAt == now
    ensures t.createdBy == createdBy && t.photoBeforeId == photoId && t.photoBeforePath == photoPath
    ensures t.comment == comment && t.category == category
    ensures t.completedBy.None? && t.photoAfterId.None? && t.photoAfterPath.None? && t.completedAt.None?
  {
    Task(id, createdBy, photoId, photoPath, comment, New, category, None, None, None, now, None)
  }

  /** True when the two rows agree on everything `update_task_status` never writes. */
  predicate SameIdentity(t: Task, u: Task)
  {
    t.id == u.id && t.createdBy == u.createdBy && t.photoBeforeId == u.photoBeforeId
    && t.photoBeforePath == u.photoBeforePath && t.comment == u.comment
    && t.category == u.category && t.createdAt == u.createdAt
  }

  /**
   * The row after `update_task_status`: Completed is the only status that
   * carries a payload; any other status leaves the completion columns alone.
   */
  function StatusUpdated(t: Task, status: Status, completedBy: Option<int>,
                         afterId: Option<string>, afterPath: Option<string>, now: Timestamp): (r: Task)
    ensures SameIdentity(r, t) && r.status == status
    ensures status == Completed ==>
      r.completedBy == completedBy && r.photoAfterId == afterId
      && r.photoAfterPath == afterPath && r.completedAt == Some(now)
    ensures status != Completed ==> r == t.(status := status)
  {
    if status == Completed then
      t.(status := status, completedBy := completedBy, photoAfterId := afterId,
         photoAfterPath := afterPath, completedAt := Some(now))
    else
      t.(status := status)
  }

  /** The row after `reset_task_to_new`. */
  function ResetRow(t: Task): (r: Task)
    ensures SameIdentity(r, t) && r.status == New
    ensures r.completedBy.None? && r.photoAfterId.None? && r.photoAfterPath.None? && r.completedAt.None?
  {
    t.(status := New, completedBy := None, photoAfterId := None, photoAfterPath := None, completedAt := None)
  }

  /**
   * The WHERE clause of `get_tasks`: a filter is applied only when it is
   * truthy, and the filters that apply are combined with AND.
   */
  predicate Matches(t: Task, status: Option<Status>, category: Option<string>)
  {
    (status.Some? ==> t.status == status.value)
    && (Truthy(category) ==> t.category == category.value)
  }

  /** ORDER BY created_at DESC. */
  predicate NewestFirst(s: seq<Task>)
  {
    forall i, j :: 0 <= i < j < |s| ==> s[i].createdAt >= s[j].createdAt
  }

  predicate DistinctIds(s: seq<Task>)
  {
    forall i, j :: 0 <= i < j < |s| ==> s[i].id != s[j].id
  }

  predicate Distinct(s: seq<int>)
  {
    forall i, j :: 0 <= i < j < |s| ==> s[i] != s[j]
  }

  /** Places `t` into a newest-first list, before the first row that is not newer than it. */
  function InsertNewestFirst(s: seq<Task>, t: Task): (r: seq<Task>)
    ensures multiset(r) == multiset(s) + multiset{t}
  {
    if s == [] || s[0].createdAt <= t.createdAt then
      [t] + s
    else
      assert s == [s[0]] + s[1..];
      [s[0]] + InsertNewestFirst(s[1..], t)
  }

  /** Insertion keeps a newest-first list newest first. */
  lemma {:induction false} InsertKeepsNewestFirst(s: seq<Task>, t: Task)
    requires NewestFirst(s)
    ensures NewestFirst(InsertNewestFirst(s, t))
  {
    if s != [] && s[0].createdAt > t.createdAt {
      var rest := InsertNewestFirst(s[1..], t);
      InsertKeepsNewestFirst(s[1..], t);
      forall x | x in rest ensures s[0].createdAt >= x.createdAt {
        assert x in multiset(rest);
        assert x in multiset(s[1..]) || x == t;
      }
      assert forall j :: 0 < j < |rest| + 1 ==> ([s[0]] + rest)[j] == rest[j - 1];
    }
  }

  /** Insertion of a row with a fresh id keeps the ids distinct. */
  lemma {:induction false} DistinctIdsAfterInsert(s: seq<Task>, t: Task)
    requires DistinctIds(s) && forall x :: x in s ==> x.id != t.id
    ensures DistinctIds(InsertNewestFirst(s, t))
  {
    if s != [] && s[0].createdAt > t.createdAt {
      var rest := InsertNewestFirst(s[1..], t);
      DistinctIdsAfterInsert(s[1..], t);
      forall x | x in rest ensures s[0].id != x.id {
        assert x in multiset(rest);
        assert x in multiset(s[1..]) || x == t;
        if x != t {
          var k :| 0 <= k < |s[1..]| && s[1..][k] == x;
          assert s[k + 1] == x;
        }
      }
      assert forall j :: 0 < j < |rest| + 1 ==> ([s[0]] + rest)[j] == rest[j - 1];
    }
  }

  /** What the scan in `GetTasks` needs from one insertion. */
  lemma InsertFacts(s: seq<Task>, t: Task)
    requires NewestFirst(s) && DistinctIds(s) && forall x :: x in s ==> x.id != t.id
    ensures NewestFirst(InsertNewestFirst(s, t)) && DistinctIds(InsertNewestFirst(s, t))
    ensures forall x :: x in InsertNewestFirst(s, t) <==> x in s || x == t
    ensures |InsertNewestFirst(s, t)| == |s| + 1
  {
    InsertKeepsNewestFirst(s, t);
    DistinctIdsAfterInsert(s, t);
    var r := InsertNewestFirst(s, t);
    assert |multiset(r)| == |r|;
    forall x ensures x in r <==> x in multiset(r) { }
    forall x ensures x in s <==> x in multiset(s) { }
  }

  // ---------------------------------------------------------------------
  // Photo rows

  /** `SELECT ... FROM task_photos WHERE task_id = ?`, in row order. */
  function PhotosOf(rows: seq<TaskPhoto>, taskId: int): (r: seq<TaskPhoto>)
    ensures |r| <= |rows|
    ensures forall p :: p in r <==> p in rows && p.taskId == taskId
  {
    if rows == [] then []
    else (if rows[0].taskId == taskId then [rows[0]] else []) + PhotosOf(rows[1..], taskId)
  }

  /** The table after `DELETE FROM task_photos WHERE task_id = ?`. */
  function WithoutPhotosOf(rows: seq<TaskPhoto>, taskId: int): (r: seq<TaskPhoto>)
    ensures |r| <= |rows|
    ensures forall p :: p in r <==> p in rows && p.taskId != taskId
  {
    if rows == [] then []
    else (if rows[0].taskId != taskId then [rows[0]] else []) + WithoutPhotosOf(rows[1..], taskId)
  }

  /** Appending a row adds it to its own task's photos and to no other task's. */
  lemma {:induction false} PhotosOfAppend(rows: seq<TaskPhoto>, p: TaskPhoto, taskId: int)
    ensures PhotosOf(rows + [p], taskId) == PhotosOf(rows, taskId) + (if p.taskId == taskId then [p] else [])
  {
    if rows != [] {
      assert (rows + [p])[1..] == rows[1..] + [p];
      PhotosOfAppend(rows[1..], p, taskId);
    }
  }

  /** Deleting one task's photos empties that task's list and leaves every other task's list as it was. */
  lemma {:induction false} PhotosOfWithout(rows: seq<TaskPhoto>, deleted: int, taskId: int)
    ensures PhotosOf(WithoutPhotosOf(rows, deleted), taskId) == if taskId == deleted then [] else PhotosOf(rows, taskId)
  {
    if rows != [] {
      PhotosOfWithout(rows[1..], deleted, taskId);
      var head := if rows[0].taskId != deleted then [rows[0]] else [];
      assert WithoutPhotosOf(rows, deleted) == head + WithoutPhotosOf(rows[1..], deleted);
      PhotosOfConcat(head, WithoutPhotosOf(rows[1..], deleted), taskId);
    }
  }

  /** Deleting a task's photo rows twice is deleting them once. */
  lemma {:induction false} WithoutPhotosOfIdempotent(rows: seq<TaskPhoto>, taskId: int)
    ensures WithoutPhotosOf(WithoutPhotosOf(rows, taskId), taskId) == WithoutPhotosOf(rows, taskId)
  {
    if rows != [] {
      WithoutPhotosOfIdempotent(rows[1..], taskId);
      var w := WithoutPhotosOf(rows, taskId);
      if rows[0].taskId == taskId {
        assert w == WithoutPhotosOf(rows[1..], taskId);
      } else {
        assert w == [rows[0]] + WithoutPhotosOf(rows[1..], taskId);
        assert w[0] == rows[0] && w[1..] == WithoutPhotosOf(rows[1..], taskId);
      }
    }
  }

  lemma {:induction false} PhotosOfConcat(a: seq<TaskPhoto>, b: seq<TaskPhoto>, taskId: int)
    ensures PhotosOf(a + b, taskId) == PhotosOf(a, taskId) + PhotosOf(b, taskId)
  {
    if a != [] {
      assert (a + b)[1..] == a[1..] + b;
      PhotosOfConcat(a[1..], b, taskId);
    } else {
      assert a + b == b;
    }
  }

  /** A non-empty set has a member: each table scan below picks its next key this way. */
  lemma SomeMember<T>(s: set<T>) returns (y: T)
    requires s != {}
    ensures y in s
  {
    if forall x :: x !in s {
      assert false;
    }
    y :| y in s;
  }

  // ---------------------------------------------------------------------
  // Minimal free id

  /** `id` is the smallest positive integer that is not in `ids`. */
  ghost predicate IsMinFree(ids: set<int>, id: int)
  {
    id >= 1 && id !in ids && forall k :: 1 <= k < id ==> k in ids
  }

  /** The id `create_task` picks: it counts up from 1 until it meets an id no task has. */
  method MinFreeId(ids: set<int>) returns (id: int)
    ensures id >= 1 && id !in ids
    ensures forall k :: 1 <= k < id ==> k in ids
  {
    id := 1;
    while id in ids
      invariant id >= 1
      invariant forall k :: 1 <= k < id ==> k in ids
      decreases set k | k in ids && k >= id
    {
      ghost var above := set k | k in ids && k >= id;
      id := id + 1;
      assert id - 1 in above && (set k | k in ids && k >= id) < above;
    }
  }

  /** There is one minimal free id, so the allocation is determined by the existing ids alone. */
  lemma MinFreeUnique(ids: set<int>, a: int, b: int)
    requires IsMinFree(ids, a) && IsMinFree(ids, b)
    ensures a == b
  {
  }

  // ---------------------------------------------------------------------
  // The database

  class Database {
    var users: map<int, User>
    var tasks: map<int, Task>
    var photos: seq<TaskPhoto>
    var nextPhotoRowId: nat
    var clock: Timestamp

    /**
     * Keys agree with the rows' primary-key columns, AUTOINCREMENT is ahead
     * of every photo row, and nothing is stamped later than the clock.
     */
    ghost predicate Valid()
      reads this
    {
      && (forall id :: id in tasks ==> tasks[id].id == id && tasks[id].createdAt <= clock)
      && (forall id :: id in tasks && tasks[id].completedAt.Some? ==> tasks[id].completedAt.value <= clock)
      && (forall uid :: uid in users ==>
            users[uid].userId == uid && users[uid].lastActive <= clock && users[uid].createdAt <= clock)
      && (forall i :: 0 <= i < |photos| ==> photos[i].rowId < nextPhotoRowId)
    }

    /** `init_db` on an empty database file. */
    constructor ()
      ensures Valid()
      ensures users == map[] && tasks == map[] && photos == [] && nextPhotoRowId == 1 && clock == 0
    {
      users, tasks, photos, nextPhotoRowId, clock := map[], map[], [], 1, 0;
    }

    /** Time passes; the clock never goes back. */
    method AdvanceClock(now: Timestamp)
      requires Valid() && clock <= now
      modifies this`clock
      ensures Valid() && clock == now
    {
      clock := now;
    }

    // ----- task_photos

    method AddTaskPhoto(taskId: int, kind: PhotoKind, fileId: string, filePath: string)
      requires Valid()
      modifies this`photos, this`nextPhotoRowId
      ensures Valid()
      ensures photos == old(photos) + [TaskPhoto(old(nextPhotoRowId), taskId, kind, fileId, filePath)]
      ensures nextPhotoRowId == old(nextPhotoRowId) + 1
      ensures GetTaskPhotos(taskId) == old(GetTaskPhotos(taskId)) + [TaskPhoto(old(nextPhotoRowId), taskId, kind, fileId, filePath)]
      ensures forall other :: other != taskId ==> GetTaskPhotos(other) == old(GetTaskPhotos(other))
    {
      var row := TaskPhoto(nextPhotoRowId, taskId, kind, fileId, filePath);
      forall other ensures PhotosOf(photos + [row], other) == PhotosOf(photos, other) + (if other == taskId then [row] else []) {
        PhotosOfAppend(photos, row, other);
      }
      photos := photos + [row];
      nextPhotoRowId := nextPhotoRowId + 1;
    }

    function GetTaskPhotos(taskId: int): (r: seq<TaskPhoto>)
      reads this
      ensures forall p :: p in r <==> p in photos && p.taskId == taskId
    {
      PhotosOf(photos, taskId)
    }

    method DeleteAllTaskPhotos(taskId: int)
      requires Valid()
      modifies this`photos
      ensures Valid()
      ensures photos == WithoutPhotosOf(old(photos), taskId)
      ensures GetTaskPhotos(taskId) == []
      ensures forall other :: other != taskId ==> GetTaskPhotos(other) == old(GetTaskPhotos(other))
    {
      forall other ensures PhotosOf(WithoutPhotosOf(photos, taskId), other) == if other == taskId then [] else PhotosOf(photos, other) {
        PhotosOfWithout(photos, taskId, other);
      }
      photos := WithoutPhotosOf(photos, taskId);
    }

    // ----- users

    /** `INSERT OR REPLACE`: the whole row is replaced; a falsy category is stored as NULL. */
    method SetUserRole(userId: int, username: string, role: Role, category: Option<string>)
      requires Valid()
      modifies this`users
      ensures Valid()
      ensures users == old(users)[userId := User(userId, username, role, if Truthy(category) then category else None, clock, clock)]
    {
      var stored := if Truthy(category) then category else None;
      users := users[userId := User(userId, username, role, stored, clock, clock)];
    }

    /** UPDATE of username and category, or INSERT as an executor when no row was updated. */
    method SetUserCategory(userId: int, username: string, category: string)
      requires Valid()
      modifies this`users
      ensures Valid()
      ensures userId in old(users) ==>
        users == old(users)[userId := old(users[userId]).(username := username, category := Some(category), lastActive := clock)]
      ensures userId !in old(users) ==>
        users == old(users)[userId := User(userId, username, Executor, Some(category), clock, clock)]
    {
      if userId in users {
        users := users[userId := users[userId].(username := username, category := Some(category), lastActive := clock)];
      } else {
        users := users[userId := User(userId, username, Executor, Some(category), clock, clock)];
      }
    }

    method UpdateLastActive(userId: int)
      requires Valid()
      modifies this`users
      ensures Valid()
      ensures userId in old(users) ==> users == old(users)[userId := old(users[userId]).(lastActive := clock)]
      ensures userId !in old(users) ==> users == old(users)
    {
      if userId in users {
        users := users[userId := users[userId].(lastActive := clock)];
      }
    }

    /** The soft delete: role inactive, category NULL; no row is created for an unknown user. */
    method MarkUserInactive(userId: int)
      requires Valid()
      modifies this`users
      ensures Valid()
      ensures userId in old(users) ==>
        users == old(users)[userId := old(users[userId]).(role := Inactive, category := None, lastActive := clock)]
      ensures userId !in old(users) ==> users == old(users)
    {
      if userId in users {
        users := users[userId := users[userId].(role := Inactive, category := None, lastActive := clock)];
      }
    }

    /** An unknown user is an executor. */
    function GetUserRole(userId: int): (r: Role)
      reads this
      ensures userId in users ==> r == users[userId].role
      ensures userId !in users ==> r == Executor
    {
      if userId in users then users[userId].role else Executor
    }

    function GetUsername(userId: int): (r: Option<string>)
      reads this
      ensures r.Some? <==> userId in users
      ensures r.Some? ==> r.value == users[userId].username
    {
      if userId in users then Some(users[userId].username) else None
    }

    function GetLastActive(userId: int): (r: Option<Timestamp>)
      reads this
      ensures r.Some? <==> userId in users
      ensures r.Some? ==> r.value == users[userId].lastActive
    {
      if userId in users then Some(users[userId].lastActive) else None
    }

    /** None for a missing user and for a NULL or empty category. */
    function GetUserCategory(userId: int): (r: Option<string>)
      reads this
      ensures r.Some? <==> userId in users && Truthy(users[userId].category)
      ensures r.Some? ==> r.value != "" && Some(r.value) == users[userId].category
    {
      if userId in users && Truthy(users[userId].category) then users[userId].category else None
    }

    /** `SELECT user_id, username FROM users WHERE category = ?` (any role). */
    method GetUsersByCategory(category: string) returns (r: seq<Contact>)
      requires Valid()
      ensures forall c :: c in r <==> c.userId in users && users[c.userId].category == Some(category)
                                      && c.username == users[c.userId].username
      ensures forall i, j :: 0 <= i < j < |r| ==> r[i].userId != r[j].userId
    {
      var remaining := users.Keys;
      r := [];
      while remaining != {}
        invariant remaining <= users.Keys
        invariant forall c :: c in r <==>
                    c.userId in users && c.userId !in remaining && users[c.userId].category == Some(category)
                    && c.username == users[c.userId].username
        invariant forall i, j :: 0 <= i < j < |r| ==> r[i].userId != r[j].userId
        decreases remaining
      {
        ghost var member := SomeMember(remaining);
        var uid :| uid in remaining;
        if users[uid].category == Some(category) {
          assert forall c :: c in r ==> c.userId != uid;
          r := r + [Contact(uid, users[uid].username)];
        }
        remaining := remaining - {uid};
      }
    }

    /** `SELECT user_id FROM users WHERE role = ?`. */
    method UsersWithRole(role: Role) returns (r: seq<int>)
      requires Valid()
      ensures forall u :: u in r <==> u in users && users[u].role == role
      ensures Distinct(r)
    {
      var remaining := users.Keys;
      r := [];
      while remaining != {}
        invariant remaining <= users.Keys
        invariant forall u :: u in r <==> u in users && u !in remaining && users[u].role == role
        invariant Distinct(r)
        decreases remaining
      {
        ghost var member := SomeMember(remaining);
        var uid :| uid in remaining;
        if users[uid].role == role {
          r := r + [uid];
        }
        remaining := remaining - {uid};
      }
    }

    method GetAllExecutors() returns (r: seq<int>)
      requires Valid()
      ensures forall u :: u in r <==> u in users && users[u].role == Executor
      ensures Distinct(r)
    {
      r := UsersWithRole(Executor);
    }

    method GetAllManagers() returns (r: seq<int>)
      requires Valid()
      ensures forall u :: u in r <==> u in users && users[u].role == Manager
      ensures Distinct(r)
    {
      r := UsersWithRole(Manager);
    }

    // ----- tasks

    /** Inserts a New task under the smallest positive id not in use and returns that id. */
    method CreateTask(createdBy: int, photoId: string, photoPath: string, comment: string, category: string)
      returns (taskId: int)
      requires Valid()
      modifies this`tasks
      ensures Valid()
      ensures IsMinFree(old(tasks).Keys, taskId)
      ensures tasks == old(tasks)[taskId := NewTaskRow(taskId, createdBy, photoId, photoPath, comment, category, clock)]
    {
      taskId := MinFreeId(tasks.Keys);
      tasks := tasks[taskId := NewTaskRow(taskId, createdBy, photoId, photoPath, comment, category, clock)];
    }

    function GetTask(taskId: int): (r: Option<Task>)
      reads this
      ensures r.Some? <==> taskId in tasks
      ensures r.Some? ==> r.value == tasks[taskId]
    {
      if taskId in tasks then Some(tasks[taskId]) else None
    }

    /** The ids of the rows `get_tasks(status, category)` selects. */
    ghost function MatchingIds(status: Option<Status>, category: Option<string>): set<int>
      reads this
    {
      set id | id in tasks && Matches(tasks[id], status, category)
    }

    /** `get_tasks`: exactly the matching rows, each once, newest first. */
    method GetTasks(status: Option<Status>, category: Option<string>) returns (r: seq<Task>)
      requires Valid()
      ensures forall t :: t in r <==> t.id in tasks && tasks[t.id] == t && Matches(t, status, category)
      ensures DistinctIds(r)
      ensures NewestFirst(r)
      ensures |r| == |MatchingIds(status, category)|
    {
      var remaining := tasks.Keys;
      r := [];
      while remaining != {}
        invariant remaining <= tasks.Keys
        invariant forall t :: t in r <==> t.id in tasks && t.id !in remaining && tasks[t.id] == t && Matches(t, status, category)
        invariant DistinctIds(r)
        invariant NewestFirst(r)
        invariant |r| == |MatchingIds(status, category) - remaining|
        decreases remaining
      {
        ghost var member := SomeMember(remaining);
        var id :| id in remaining;
        var t := tasks[id];
        ghost var done := MatchingIds(status, category) - remaining;
        if Matches(t, status, category) {
          assert forall x :: x in r ==> x.id != t.id;
          assert MatchingIds(status, category) - (remaining - {id}) == done + {id};
          InsertFacts(r, t);
          r := InsertNewestFirst(r, t);
        } else {
          assert MatchingIds(status, category) - (remaining - {id}) == done;
        }
        remaining := remaining - {id};
      }
    }

    /** `update_task_status`; a missing task id changes nothing. */
    method UpdateTaskStatus(taskId: int, status: Status, completedBy: Option<int>,
                            afterId: Option<string>, afterPath: Option<string>)
      requires Valid()
      modifies this`tasks
      ensures Valid()
      ensures taskId in old(tasks) ==>
        tasks == old(tasks)[taskId := StatusUpdated(old(tasks[taskId]), status, completedBy, afterId, afterPath, clock)]
      ensures taskId !in old(tasks) ==> tasks == old(tasks)
    {
      if taskId in tasks {
        tasks := tasks[taskId := StatusUpdated(tasks[taskId], status, completedBy, afterId, afterPath, clock)];
      }
    }

    method UpdateTaskComment(taskId: int, comment: string)
      requires Valid()
      modifies this`tasks
      ensures Valid()
      ensures taskId in old(tasks) ==> tasks == old(tasks)[taskId := old(tasks[taskId]).(comment := comment)]
      ensures taskId !in old(tasks) ==> tasks == old(tasks)
    {
      if taskId in tasks {
        tasks := tasks[taskId := tasks[taskId].(comment := comment)];
      }
    }

    /** Replaces the legacy before-photo columns only; `task_photos` is not touched. */
    method UpdateTaskPhoto(taskId: int, photoId: string, photoPath: string)
      requires Valid()
      modifies this`tasks
      ensures Valid()
      ensures taskId in old(tasks) ==>
        tasks == old(tasks)[taskId := old(tasks[taskId]).(photoBeforeId := photoId, photoBeforePath := photoPath)]
      ensures taskId !in old(tasks) ==> tasks == old(tasks)
    {
      if taskId in tasks {
        tasks := tasks[taskId := tasks[taskId].(photoBeforeId := photoId, photoBeforePath := photoPath)];
      }
    }

    /** Back to New with the completion columns cleared; comment, category, creator, before photo and photo rows stay. */
    method ResetTaskToNew(taskId: int)
      requires Valid()
      modifies this`tasks
      ensures Valid()
      ensures taskId in old(tasks) ==> tasks == old(tasks)[taskId := ResetRow(old(tasks[taskId]))]
      ensures taskId !in old(tasks) ==> tasks == old(tasks)
    {
      if taskId in tasks {
        tasks := tasks[taskId := ResetRow(tasks[taskId])];
      }
    }

    /** Deletes the photo rows first and then the task row. */
    method DeleteTask(taskId: int)
      requires Valid()
      modifies this`tasks, this`photos
      ensures Valid()
      ensures tasks == old(tasks) - {taskId}
      ensures photos == WithoutPhotosOf(old(photos), taskId)
      ensures GetTask(taskId) == None && GetTaskPhotos(taskId) == []
      ensures forall other :: other != taskId ==> GetTask(other) == old(GetTask(other))
      ensures forall other :: other != taskId ==> GetTaskPhotos(other) == old(GetTaskPhotos(other))
    {
      DeleteAllTaskPhotos(taskId);
      tasks := tasks - {taskId};
    }
  }
}
