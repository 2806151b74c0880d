/**
 * The handler branches that read or change the store, as methods of one
 * bot over one database. `files` is the set of photo files on disk and
 * `sessions` maps each Telegram user id to its conversation state. Chat
 * output is dropped; a branch that notifies users returns their ids.
 */
module Handlers {
  import opened Wrappers
  import opened Text
  import opened Store
  import opened Flow

  class Bot {
    const db: Database
    var files: set<string>
    var sessions: map<int, UserData>

    ghost predicate Valid()
      reads this, db
    {
      db.Valid()
    }

    constructor (db: Database)
      requires db.Valid()
      ensures Valid() && this.db == db && files == {} && sessions == map[]
    {
      this.db := db;
      files := {};
      sessions := map[];
    }

    /** A user nobody has talked to yet has an empty `user_data`. */
    function SessionOf(userId: int): UserData
      reads this
    {
      if userId in sessions then sessions[userId] else Cleared
    }

    /** `get_task` of an id that may be None (no row has a NULL id). */
    function Lookup(id: Option<int>): (r: Option<Task>)
      reads db
      ensures r.Some? <==> id.Some? && id.value in db.tasks
      ensures r.Some? ==> r.value == db.tasks[id.value]
    {
      if id.Some? then db.GetTask(id.value) else None
    }

    /** Who is listed as the audience of a new task in `category`. */
    ghost predicate InAudience(category: string, u: int)
      reads db
    {
      u in db.users && db.users[u].username != ""
      && if category == OtherCategory then db.users[u].role == Executor
         else db.users[u].category == Some(category)
    }

    // ---------------------------------------------------------------------
    // Queries

    /** The executor's list: New tasks of the user's category, then its Redo tasks; nothing without a category. */
    method ExecutorTaskList(userId: int) returns (r: seq<Task>)
      requires Valid()
      ensures db.GetUserCategory(userId).None? ==> r == []
      ensures db.GetUserCategory(userId).Some? ==>
        var c := db.GetUserCategory(userId).value;
        (forall t :: t in r <==> t.id in db.tasks && db.tasks[t.id] == t && t.category == c && (t.status == New || t.status == Redo))
        && (forall i, j :: 0 <= i < j < |r| && r[j].status == New ==> r[i].status == New)
        && |r| == |db.MatchingIds(Some(New), Some(c))| + |db.MatchingIds(Some(Redo), Some(c))|
    {
      var category := db.GetUserCategory(userId);
      if category.None? {
        return [];
      }
      var newOnes := db.GetTasks(Some(New), category);
      var redo := db.GetTasks(Some(Redo), category);
      r := newOnes + redo;
      assert forall i :: 0 <= i < |newOnes| ==> newOnes[i] in newOnes;
      assert forall j :: 0 <= j < |redo| ==> redo[j] in redo;
    }

    /** The count shown on each category button: its New tasks plus its Redo tasks. */
    method CategoryCounts() returns (counts: seq<nat>)
      requires Valid()
      ensures |counts| == |Categories|
      ensures forall i :: 0 <= i < |Categories| ==>
        counts[i] == |db.MatchingIds(Some(New), Some(Categories[i]))| + |db.MatchingIds(Some(Redo), Some(Categories[i]))|
    {
      counts := [];
      var i := 0;
      while i < |Categories|
        invariant 0 <= i <= |Categories| && |counts| == i
        invariant forall k :: 0 <= k < i ==>
          counts[k] == |db.MatchingIds(Some(New), Some(Categories[k]))| + |db.MatchingIds(Some(Redo), Some(Categories[k]))|
      {
        var newOnes := db.GetTasks(Some(New), Some(Categories[i]));
        var redo := db.GetTasks(Some(Redo), Some(Categories[i]));
        counts := counts + [|newOnes| + |redo|];
        i := i + 1;
      }
    }

    /**
     * The users named in the reply to a new task: for "Прочее" every
     * executor, otherwise everyone whose category is the task's, in both
     * cases only those with a non-empty username.
     */
    method CreationAudience(category: string) returns (ids: seq<int>, names: seq<string>)
      requires Valid()
      ensures |names| == |ids|
      ensures forall i :: 0 <= i < |ids| ==> ids[i] in db.users && names[i] == db.users[ids[i]].username
      ensures forall u :: u in ids <==> InAudience(category, u)
      ensures Distinct(ids)
    {
      ids, names := [], [];
      if category == OtherCategory {
        var executors := db.GetAllExecutors();
        var i := 0;
        while i < |executors|
          invariant 0 <= i <= |executors| && |names| == |ids|
          invariant forall k :: 0 <= k < |ids| ==> ids[k] in db.users && names[k] == db.users[ids[k]].username
          invariant forall u :: u in ids <==> u in executors[..i] && u in db.users && db.users[u].username != ""
          invariant Distinct(ids)
        {
          var name := db.GetUsername(executors[i]);
          if Truthy(name) {
            assert executors[i] !in executors[..i];
            ids, names := ids + [executors[i]], names + [name.value];
          }
          assert executors[..i + 1] == executors[..i] + [executors[i]];
          i := i + 1;
        }
        assert executors[..i] == executors;
      } else {
        var users := db.GetUsersByCategory(category);
        var i := 0;
        while i < |users|
          invariant 0 <= i <= |users| && |names| == |ids|
          invariant forall k :: 0 <= k < |ids| ==> ids[k] in db.users && names[k] == db.users[ids[k]].username
          invariant forall u :: u in ids <==> exists k :: 0 <= k < i && users[k].userId == u && users[k].username != ""
          invariant Distinct(ids)
        {
          assert users[i] in users;
          if users[i].username != "" {
            assert users[i].userId !in ids;
            ids, names := ids + [users[i].userId], names + [users[i].username];
          }
          i := i + 1;
        }
        forall u | InAudience(category, u) ensures u in ids {
          var c := Contact(u, db.users[u].username);
          assert c in users;
          var k :| 0 <= k < |users| && users[k] == c;
        }
      }
    }

    // ---------------------------------------------------------------------
    // Files

    /** `purge_task_files`: removes the task's files from disk and its photo rows from the store. */
    method PurgeTaskFiles(taskId: int)
      requires Valid()
      modifies this`files, db`photos
      ensures Valid()
      ensures files == old(files) - TaskFiles(old(db.GetTask(taskId)), old(db.GetTaskPhotos(taskId)))
      ensures old(db.GetTask(taskId)).Some? ==> db.photos == WithoutPhotosOf(old(db.photos), taskId)
      ensures old(db.GetTask(taskId)).None? ==> db.photos == old(db.photos)
    {
      var task := db.GetTask(taskId);
      if task.None? {
        return;
      }
      var t := task.value;
      if t.photoBeforePath != "" {
        files := files - {t.photoBeforePath};
      }
      if Truthy(t.photoAfterPath) {
        files := files - {t.photoAfterPath.value};
      }
      ghost var kept := files;
      assert kept == old(files) - LegacyPaths(t);
      RemoveRowFiles(db.GetTaskPhotos(taskId));
      assert files == old(files) - (LegacyPaths(t) + RowPaths(db.GetTaskPhotos(taskId)));
      db.DeleteAllTaskPhotos(taskId);
    }

    /** The loop of `purge_task_files` over the task's photo rows. */
    method RemoveRowFiles(rows: seq<TaskPhoto>)
      modifies this`files
      ensures files == old(files) - RowPaths(rows)
    {
      var i := 0;
      assert RowPaths(rows[..0]) == {};
      while i < |rows|
        invariant 0 <= i <= |rows|
        invariant files == old(files) - RowPaths(rows[..i])
      {
        RowPathsSnoc(rows[..i], rows[i]);
        assert rows[..i + 1] == rows[..i] + [rows[i]];
        if rows[i].filePath != "" {
          files := files - {rows[i].filePath};
        }
        i := i + 1;
      }
      assert rows[..i] == rows;
    }

    // ---------------------------------------------------------------------
    // Buttons

    /** `/start` and the "restart" button: an empty session and an executor row without a category. */
    method Start(userId: int, handle: Option<string>) returns (counts: seq<nat>)
      requires Valid()
      modifies this`sessions, db`users
      ensures Valid()
      ensures sessions == old(sessions)[userId := Cleared]
      ensures db.users == old(db.users)[userId := User(userId, DisplayName(handle), Executor, None, db.clock, db.clock)]
      ensures |counts| == |Categories|
      ensures forall i :: 0 <= i < |Categories| ==>
        counts[i] == |db.MatchingIds(Some(New), Some(Categories[i]))| + |db.MatchingIds(Some(Redo), Some(Categories[i]))|
    {
      sessions := sessions[userId := Cleared];
      db.SetUserRole(userId, DisplayName(handle), Executor, None);
      counts := CategoryCounts();
    }

    /**
     * "set_category_<name>": the user becomes an executor of that category.
     * An empty name is not stored by the role upsert, so the category upsert
     * then stores it; either way the row ends up the same.
     */
    method SelectCategory(userId: int, handle: Option<string>, category: string) returns (visible: seq<Task>)
      requires Valid()
      modifies db`users
      ensures Valid()
      ensures db.users == old(db.users)[userId := User(userId, DisplayName(handle), Executor, Some(category), db.clock, db.clock)]
      ensures category == "" ==> visible == []
      ensures category != "" ==>
        forall t :: t in visible <==> t.id in db.tasks && db.tasks[t.id] == t && t.category == category && (t.status == New || t.status == Redo)
    {
      var name := DisplayName(handle);
      db.SetUserRole(userId, name, Executor, Some(category));
      if db.GetUserCategory(userId) != Some(category) {
        db.SetUserCategory(userId, name, category);
      }
      visible := ExecutorTaskList(userId);
    }

    /** "become_manager": the next text is read as the access code. */
    method BecomeManager(userId: int)
      modifies this`sessions
      ensures sessions == old(sessions)[userId := old(SessionOf(userId)).(waitingForCode := true)]
    {
      sessions := sessions[userId := SessionOf(userId).(waitingForCode := true)];
    }

    /** "broadcast_start" (managers only): the next text is a broadcast. */
    method BroadcastStart(userId: int)
      requires Valid()
      modifies this`sessions
      ensures db.GetUserRole(userId) != Manager ==> sessions == old(sessions)
      ensures db.GetUserRole(userId) == Manager ==>
        sessions == old(sessions)[userId := old(SessionOf(userId)).(broadcasting := true, returnToManagerMenu := true)]
    {
      if db.GetUserRole(userId) == Manager {
        sessions := sessions[userId := SessionOf(userId).(broadcasting := true, returnToManagerMenu := true)];
      }
    }

    /** "create_task_<category>" (managers only): the next photo starts a task in that category; any album is forgotten. */
    method StartTaskCreation(userId: int, category: string)
      requires Valid()
      modifies this`sessions
      ensures db.GetUserRole(userId) != Manager ==> sessions == old(sessions)
      ensures db.GetUserRole(userId) == Manager ==>
        sessions == old(sessions)[userId := old(SessionOf(userId)).(creatingTask := true, taskStep := Some(PhotoStep),
                                              taskCategory := Some(category), albumId := None, albumTaskId := None)]
    {
      if db.GetUserRole(userId) == Manager {
        sessions := sessions[userId := SessionOf(userId).(creatingTask := true, taskStep := Some(PhotoStep),
                                                          taskCategory := Some(category), albumId := None, albumTaskId := None)];
      }
    }

    /**
     * The screens that end by drawing the manager's task list ("view_tasks_manager",
     * "review_tasks", both for managers only) or that open one task for review
     * ("review_<id>", no role check, only when the task exists): afterwards
     * "back" leads to the manager menu.
     */
    method OpenManagerScreen(userId: int, managersOnly: bool, taskId: Option<int>)
      requires Valid()
      modifies this`sessions
      ensures (managersOnly && db.GetUserRole(userId) != Manager) || (taskId.Some? && taskId.value !in db.tasks) ==>
        sessions == old(sessions)
      ensures !(managersOnly && db.GetUserRole(userId) != Manager) && !(taskId.Some? && taskId.value !in db.tasks) ==>
        sessions == old(sessions)[userId := old(SessionOf(userId)).(returnToManagerMenu := true)]
    {
      if managersOnly && db.GetUserRole(userId) != Manager {
        return;
      }
      if taskId.Some? && db.GetTask(taskId.value).None? {
        return;
      }
      sessions := sessions[userId := SessionOf(userId).(returnToManagerMenu := true)];
    }

    /** "keep_task_<id>": no role check; the task list is redrawn. */
    method KeepTask(userId: int)
      modifies this`sessions
      ensures sessions == old(sessions)[userId := old(SessionOf(userId)).(returnToManagerMenu := true)]
    {
      sessions := sessions[userId := SessionOf(userId).(returnToManagerMenu := true)];
    }

    /** "edit_comment_<id>" (managers only): the next text replaces the comment. */
    method EditCommentButton(userId: int, taskId: int)
      requires Valid()
      modifies this`sessions
      ensures db.GetUserRole(userId) != Manager ==> sessions == old(sessions)
      ensures db.GetUserRole(userId) == Manager ==>
        sessions == old(sessions)[userId := old(SessionOf(userId)).(editingComment := true, taskId := Some(taskId))]
    {
      if db.GetUserRole(userId) == Manager {
        sessions := sessions[userId := SessionOf(userId).(editingComment := true, taskId := Some(taskId))];
      }
    }

    /** "edit_photo_<id>" (managers only): the next photo replaces the before photo. */
    method EditPhotoButton(userId: int, taskId: int)
      requires Valid()
      modifies this`sessions
      ensures db.GetUserRole(userId) != Manager ==> sessions == old(sessions)
      ensures db.GetUserRole(userId) == Manager ==>
        sessions == old(sessions)[userId := old(SessionOf(userId)).(editingPhoto := true, taskId := Some(taskId))]
    {
      if db.GetUserRole(userId) == Manager {
        sessions := sessions[userId := SessionOf(userId).(editingPhoto := true, taskId := Some(taskId))];
      }
    }

    /** "complete_<id>": no role check; the next photo completes the task. */
    method CompleteButton(userId: int, taskId: int)
      modifies this`sessions
      ensures sessions == old(sessions)[userId := old(SessionOf(userId)).(completingTask := true, taskId := Some(taskId))]
    {
      sessions := sessions[userId := SessionOf(userId).(completingTask := true, taskId := Some(taskId))];
    }

    /** "redo_<id>" (managers only): the next text is the redo request. */
    method RedoButton(userId: int, taskId: int)
      requires Valid()
      modifies this`sessions
      ensures db.GetUserRole(userId) != Manager ==> sessions == old(sessions)
      ensures db.GetUserRole(userId) == Manager ==>
        sessions == old(sessions)[userId := old(SessionOf(userId)).(redoingTask := true, taskId := Some(taskId))]
    {
      if db.GetUserRole(userId) == Manager {
        sessions := sessions[userId := SessionOf(userId).(redoingTask := true, taskId := Some(taskId))];
      }
    }

    /** "approve_<id>" (managers only): Approved, whatever the current status. */
    method Approve(userId: int, taskId: int)
      requires Valid()
      modifies db`tasks
      ensures Valid()
      ensures old(db.GetUserRole(userId)) != Manager || taskId !in old(db.tasks) ==> db.tasks == old(db.tasks)
      ensures old(db.GetUserRole(userId)) == Manager && taskId in old(db.tasks) ==>
        db.tasks == old(db.tasks)[taskId := old(db.tasks[taskId]).(status := Approved)]
    {
      if db.GetUserRole(userId) == Manager {
        db.UpdateTaskStatus(taskId, Approved, None, None, None);
      }
    }

    /**
     * "confirm_delete_<id>" and "delete_approved_<id>" (managers only, and
     * neither looks at the status): the files, the photo rows and the task go.
     */
    method DeleteTask(userId: int, taskId: int)
      requires Valid()
      modifies this`files, this`sessions, db`tasks, db`photos
      ensures Valid()
      ensures old(db.GetUserRole(userId)) != Manager ==>
        files == old(files) && sessions == old(sessions) && db.tasks == old(db.tasks) && db.photos == old(db.photos)
      ensures old(db.GetUserRole(userId)) == Manager ==>
        files == old(files) - TaskFiles(old(db.GetTask(taskId)), old(db.GetTaskPhotos(taskId)))
        && db.tasks == old(db.tasks) - {taskId}
        && db.photos == WithoutPhotosOf(old(db.photos), taskId)
        && sessions == old(sessions)[userId := old(SessionOf(userId)).(returnToManagerMenu := true)]
    {
      if db.GetUserRole(userId) != Manager {
        return;
      }
      WithoutPhotosOfIdempotent(db.photos, taskId);
      PurgeTaskFiles(taskId);
      db.DeleteTask(taskId);
      sessions := sessions[userId := SessionOf(userId).(returnToManagerMenu := true)];
    }

    /**
     * "back_to_menu": leaves task creation and broadcasting; shows the manager
     * menu only to a manager coming back from a manager screen, and turns any
     * other manager into an executor without a category.
     */
    method BackToMenu(userId: int, handle: Option<string>) returns (managerMenu: bool)
      requires Valid()
      modifies this`sessions, db`users
      ensures Valid()
      ensures managerMenu <==> old(SessionOf(userId)).returnToManagerMenu && old(db.GetUserRole(userId)) == Manager
      ensures db.GetUserRole(userId) == Manager <==> managerMenu
      ensures sessions == old(sessions)[userId := old(SessionOf(userId)).(creatingTask := false, taskStep := None, taskId := None,
                                          taskCategory := None, broadcasting := false, returnToManagerMenu := false)]
      ensures !managerMenu && old(db.GetUserRole(userId)) == Manager ==>
        db.users == old(db.users)[userId := User(userId, DisplayName(handle), Executor, None, db.clock, db.clock)]
      ensures managerMenu || old(db.GetUserRole(userId)) != Manager ==> db.users == old(db.users)
    {
      var s := SessionOf(userId);
      sessions := sessions[userId := s.(creatingTask := false, taskStep := None, taskId := None,
                                        taskCategory := None, broadcasting := false, returnToManagerMenu := false)];
      var role := db.GetUserRole(userId);
      if s.returnToManagerMenu && role == Manager {
        managerMenu := true;
      } else {
        managerMenu := false;
        if role == Manager {
          db.SetUserRole(userId, DisplayName(handle), Executor, None);
        }
      }
    }

    // ---------------------------------------------------------------------
    // Text messages

    /** The access code: a match makes the user a manager (the row is replaced, so the category goes). */
    method SubmitManagerCode(userId: int, handle: Option<string>, text: string, managerCode: string)
      requires Valid()
      modifies this`sessions, db`users
      ensures Valid()
      ensures text == managerCode ==>
        db.users == old(db.users)[userId := User(userId, DisplayName(handle), Manager, None, db.clock, db.clock)]
        && sessions == old(sessions)[userId := old(SessionOf(userId)).(waitingForCode := false)]
      ensures text != managerCode ==> db.users == old(db.users) && sessions == old(sessions)
    {
      if text == managerCode {
        db.SetUserRole(userId, DisplayName(handle), Manager, None);
        sessions := sessions[userId := SessionOf(userId).(waitingForCode := false)];
      }
    }

    /** A broadcast goes to every executor; delivery itself is not modelled. */
    method SendBroadcast(userId: int) returns (recipients: seq<int>)
      requires Valid()
      modifies this`sessions
      ensures sessions == old(sessions)[userId := old(SessionOf(userId)).(broadcasting := false)]
      ensures forall u :: u in recipients <==> u in db.users && db.users[u].role == Executor
    {
      recipients := db.GetAllExecutors();
      sessions := sessions[userId := SessionOf(userId).(broadcasting := false)];
    }

    /** The comment for the task created from a photo without caption; the manager may then send the next photo. */
    method SubmitCreationComment(userId: int, text: string) returns (audience: seq<int>, names: seq<string>)
      requires Valid()
      modifies this`sessions, db`tasks
      ensures Valid()
      ensures var s := old(SessionOf(userId));
        (s.taskId.Some? && s.taskId.value in old(db.tasks) ==>
           db.tasks == old(db.tasks)[s.taskId.value := old(db.tasks[s.taskId.value]).(comment := text)])
        && (s.taskId.None? || s.taskId.value !in old(db.tasks) ==> db.tasks == old(db.tasks))
        && sessions == old(sessions)[userId := s.(taskId := None, taskStep := Some(PhotoStep), returnToManagerMenu := true)]
        && (forall u :: u in audience <==> InAudience(s.taskCategory.GetOr(UnspecifiedCategory), u))
      ensures |names| == |audience|
    {
      var s := SessionOf(userId);
      if s.taskId.Some? {
        db.UpdateTaskComment(s.taskId.value, text);
      }
      audience, names := CreationAudience(s.taskCategory.GetOr(UnspecifiedCategory));
      sessions := sessions[userId := s.(taskId := None, taskStep := Some(PhotoStep), returnToManagerMenu := true)];
    }

    /** The redo request: the comment gets the request appended and the task becomes Redo; all executors are told. */
    method SubmitRedoRequest(userId: int, handle: Option<string>, text: string) returns (notified: seq<int>)
      requires Valid()
      modifies this`sessions, db`tasks
      ensures Valid()
      ensures var s := old(SessionOf(userId));
        sessions == old(sessions)[userId := s.(redoingTask := false, taskId := None)]
        && (old(Lookup(s.taskId)).None? ==> db.tasks == old(db.tasks) && notified == [])
        && (old(Lookup(s.taskId)).Some? ==>
              var t := old(Lookup(s.taskId)).value;
              db.tasks == old(db.tasks)[t.id := t.(comment := RedoComment(t.comment, ManagerName(handle), text), status := Redo)]
              && forall u :: u in notified <==> u in db.users && db.users[u].role == Executor)
    {
      var s := SessionOf(userId);
      var task := Lookup(s.taskId);
      if task.None? {
        notified := [];
      } else {
        var t := task.value;
        db.UpdateTaskComment(t.id, RedoComment(t.comment, ManagerName(handle), text));
        db.UpdateTaskStatus(t.id, Redo, None, None, None);
        notified := db.GetAllExecutors();
      }
      sessions := sessions[userId := s.(redoingTask := false, taskId := None)];
    }

    /**
     * A new comment: it replaces the old one; a Completed or Approved task is
     * sent back to New, its legacy after photo is removed from disk and all
     * executors are told. Photo rows are kept.
     */
    method SubmitEditedComment(userId: int, text: string) returns (notified: seq<int>)
      requires Valid()
      modifies this`sessions, this`files, db`tasks
      ensures Valid()
      ensures var s := old(SessionOf(userId));
        sessions == old(sessions)[userId := s.(editingComment := false, taskId := None)]
        && (old(Lookup(s.taskId)).None? ==> db.tasks == old(db.tasks) && files == old(files) && notified == [])
        && (old(Lookup(s.taskId)).Some? ==>
              var t := old(Lookup(s.taskId)).value;
              (Reopens(t.status) ==>
                 db.tasks == old(db.tasks)[t.id := ResetRow(t.(comment := text))]
                 && files == old(files) - (if Truthy(t.photoAfterPath) then {t.photoAfterPath.value} else {})
                 && forall u :: u in notified <==> u in db.users && db.users[u].role == Executor)
              && (!Reopens(t.status) ==>
                 db.tasks == old(db.tasks)[t.id := t.(comment := text)] && files == old(files) && notified == []))
    {
      var s := SessionOf(userId);
      var task := Lookup(s.taskId);
      if s.taskId.Some? {
        db.UpdateTaskComment(s.taskId.value, text);
      }
      sessions := sessions[userId := s.(editingComment := false, taskId := None)];
      notified := [];
      if task.Some? && Reopens(task.value.status) {
        notified := Reopen(task.value);
      }
    }

    /** The old legacy before file of the task, if any, goes from disk and the new one is saved. */
    method SwapBeforeFile(task: Option<Task>, path: string)
      modifies this`files
      ensures task.None? ==> files == old(files) + {path}
      ensures task.Some? ==>
        files == old(files) - (if task.value.photoBeforePath != "" then {task.value.photoBeforePath} else {}) + {path}
    {
      if task.Some? && task.value.photoBeforePath != "" {
        files := files - {task.value.photoBeforePath};
      }
      files := files + {path};
    }

    /**
     * The tail both edit branches share for a Completed or Approved task: its
     * legacy after file goes from disk, the row goes back to New, and all
     * executors are told.
     */
    method Reopen(t: Task) returns (notified: seq<int>)
      requires Valid() && t.id in db.tasks
      modifies this`files, db`tasks
      ensures Valid()
      ensures db.tasks == old(db.tasks)[t.id := ResetRow(old(db.tasks[t.id]))]
      ensures files == old(files) - (if Truthy(t.photoAfterPath) then {t.photoAfterPath.value} else {})
      ensures forall u :: u in notified <==> u in db.users && db.users[u].role == Executor
    {
      if Truthy(t.photoAfterPath) {
        files := files - {t.photoAfterPath.value};
      }
      db.ResetTaskToNew(t.id);
      notified := db.GetAllExecutors();
    }

    /**
     * `handle_message`: the first branch whose flag is set handles the text.
     * `notified` are the users the branch messages; `audience` the users the
     * creation-comment branch only names in its reply.
     */
    method HandleMessage(userId: int, handle: Option<string>, text: string, managerCode: string)
      returns (route: MessageRoute, notified: seq<int>, audience: seq<int>)
      requires Valid()
      modifies this`sessions, this`files, db`tasks, db`users
      ensures Valid()
      ensures route == MessageRouteOf(old(SessionOf(userId)))
      ensures route != CodeEntry ==> db.users == old(db.users)
      ensures route != EditedComment ==> files == old(files)
      ensures route == CodeEntry || route == BroadcastText || route == OtherText ==> db.tasks == old(db.tasks)
      ensures route != CreationComment ==> audience == []
      ensures route == CodeEntry || route == CreationComment || route == OtherText ==> notified == []
      ensures route == OtherText ==> sessions == old(sessions)
      ensures route == CodeEntry ==>
        (text == managerCode ==>
           db.users == old(db.users)[userId := User(userId, DisplayName(handle), Manager, None, db.clock, db.clock)]
           && sessions == old(sessions)[userId := old(SessionOf(userId)).(waitingForCode := false)])
        && (text != managerCode ==> sessions == old(sessions))
      ensures route == BroadcastText ==>
        sessions == old(sessions)[userId := old(SessionOf(userId)).(broadcasting := false)]
        && forall u :: u in notified <==> u in db.users && db.users[u].role == Executor
      ensures route == CreationComment ==>
        var s := old(SessionOf(userId));
        (s.taskId.Some? && s.taskId.value in old(db.tasks) ==>
           db.tasks == old(db.tasks)[s.taskId.value := old(db.tasks[s.taskId.value]).(comment := text)])
        && (s.taskId.None? || s.taskId.value !in old(db.tasks) ==> db.tasks == old(db.tasks))
        && sessions == old(sessions)[userId := s.(taskId := None, taskStep := Some(PhotoStep), returnToManagerMenu := true)]
        && (forall u :: u in audience <==> InAudience(s.taskCategory.GetOr(UnspecifiedCategory), u))
      ensures route == RedoRequest ==>
        var s := old(SessionOf(userId));
        var task := old(Lookup(s.taskId));
        sessions == old(sessions)[userId := s.(redoingTask := false, taskId := None)]
        && (task.None? ==> db.tasks == old(db.tasks) && notified == [])
        && (task.Some? ==>
              var t := task.value;
              db.tasks == old(db.tasks)[t.id := t.(comment := RedoComment(t.comment, ManagerName(handle), text), status := Redo)]
              && forall u :: u in notified <==> u in db.users && db.users[u].role == Executor)
      ensures route == EditedComment ==>
        var s := old(SessionOf(userId));
        var task := old(Lookup(s.taskId));
        sessions == old(sessions)[userId := s.(editingComment := false, taskId := None)]
        && (task.None? ==> db.tasks == old(db.tasks) && files == old(files) && notified == [])
        && (task.Some? ==>
              var t := task.value;
              (Reopens(t.status) ==>
                 db.tasks == old(db.tasks)[t.id := ResetRow(t.(comment := text))]
                 && files == old(files) - (if Truthy(t.photoAfterPath) then {t.photoAfterPath.value} else {})
                 && forall u :: u in notified <==> u in db.users && db.users[u].role == Executor)
              && (!Reopens(t.status) ==>
                 db.tasks == old(db.tasks)[t.id := t.(comment := text)] && files == old(files) && notified == []))
    {
      route := MessageRouteOf(SessionOf(userId));
      notified, audience := [], [];
      match route
      case CodeEntry => SubmitManagerCode(userId, handle, text, managerCode);
      case BroadcastText => notified := SendBroadcast(userId);
      case CreationComment => var names; audience, names := SubmitCreationComment(userId, text);
      case RedoRequest => notified := SubmitRedoRequest(userId, handle, text);
      case EditedComment => notified := SubmitEditedComment(userId, text);
      case OtherText =>
    }

    // ---------------------------------------------------------------------
    // Photos

    /** A later photo of an album: one more row for the album's task, saved under the album's naming. */
    method AppendAlbumPhoto(userId: int, fileId: string, mediaGroup: Option<string>)
      requires Valid() && AlbumContinues(SessionOf(userId), mediaGroup)
      modifies this`files, db`photos, db`nextPhotoRowId
      ensures Valid()
      ensures var s := old(SessionOf(userId));
        var path := AlbumPhotoPath(s.albumKind.value, s.albumTaskId.value, fileId);
        files == old(files) + {path}
        && db.photos == old(db.photos) + [TaskPhoto(old(db.nextPhotoRowId), s.albumTaskId.value, s.albumKind.value, fileId, path)]
    {
      var s := SessionOf(userId);
      var path := AlbumPhotoPath(s.albumKind.value, s.albumTaskId.value, fileId);
      files := files + {path};
      db.AddTaskPhoto(s.albumTaskId.value, s.albumKind.value, fileId, path);
    }

    /** `create_task` followed by the matching 'before' row. */
    method NewTaskWithPhoto(userId: int, fileId: string, path: string, comment: string, category: string) returns (id: int)
      requires Valid()
      modifies db`tasks, db`photos, db`nextPhotoRowId
      ensures Valid()
      ensures IsMinFree(old(db.tasks).Keys, id)
      ensures db.tasks == old(db.tasks)[id := NewTaskRow(id, userId, fileId, path, comment, category, db.clock)]
      ensures db.photos == old(db.photos) + [TaskPhoto(old(db.nextPhotoRowId), id, Before, fileId, path)]
    {
      id := db.CreateTask(userId, fileId, path, comment, category);
      db.AddTaskPhoto(id, Before, fileId, path);
    }

    /**
     * A photo while creating a task. A photo that continues the current
     * album only adds a 'before' row to the album's task. Otherwise a New
     * task is created under the smallest free id with this photo as its
     * before photo and one matching 'before' row; its comment is the caption
     * when the caption has text, else a placeholder awaiting the comment.
     */
    method CreateFromPhoto(userId: int, fileId: string, mediaGroup: Option<string>, caption: Option<string>)
      returns (created: Option<int>, audience: seq<int>)
      requires Valid()
      modifies this`files, this`sessions, db`tasks, db`photos, db`nextPhotoRowId
      ensures Valid()
      ensures files == old(files) + {BeforePhotoPath(fileId)}
      ensures created.None? <==> InOpenAlbum(old(SessionOf(userId)), mediaGroup)
      ensures created.None? ==>
        db.tasks == old(db.tasks)
        && db.photos == old(db.photos) + [TaskPhoto(old(db.nextPhotoRowId), old(SessionOf(userId)).albumTaskId.value,
                                                    Before, fileId, BeforePhotoPath(fileId))]
      ensures created.Some? ==>
        IsMinFree(old(db.tasks).Keys, created.value)
        && db.tasks == old(db.tasks)[created.value := NewTaskRow(created.value, userId, fileId, BeforePhotoPath(fileId),
                                                       if HasText(caption) then caption.value else CommentPlaceholder,
                                                       old(SessionOf(userId)).taskCategory.GetOr(OtherCategory), db.clock)]
        && db.photos == old(db.photos) + [TaskPhoto(old(db.nextPhotoRowId), created.value, Before, fileId, BeforePhotoPath(fileId))]
      ensures sessions == old(sessions)[userId := AfterCreationPhoto(old(SessionOf(userId)), mediaGroup, HasText(caption), created)]
      ensures HasText(caption) ==>
        forall u :: u in audience <==> InAudience(old(SessionOf(userId)).taskCategory.GetOr(OtherCategory), u)
      ensures !HasText(caption) ==> audience == []
    {
      var s := SessionOf(userId);
      var captioned := HasText(caption);
      var category := s.taskCategory.GetOr(OtherCategory);
      created := StoreCreationPhoto(s, userId, fileId, mediaGroup, if captioned then caption.value else CommentPlaceholder, category);
      audience := [];
      if captioned {
        var names;
        audience, names := CreationAudience(category);
      }
      sessions := sessions[userId := AfterCreationPhoto(s, mediaGroup, captioned, created)];
    }

    /** The store and disk part of a creation photo. */
    method StoreCreationPhoto(s: UserData, userId: int, fileId: string, mediaGroup: Option<string>, comment: string, category: string)
      returns (created: Option<int>)
      requires Valid()
      modifies this`files, db`tasks, db`photos, db`nextPhotoRowId
      ensures Valid()
      ensures files == old(files) + {BeforePhotoPath(fileId)}
      ensures created.None? <==> InOpenAlbum(s, mediaGroup)
      ensures created.None? ==>
        db.tasks == old(db.tasks)
        && db.photos == old(db.photos) + [TaskPhoto(old(db.nextPhotoRowId), s.albumTaskId.value, Before, fileId, BeforePhotoPath(fileId))]
      ensures created.Some? ==>
        IsMinFree(old(db.tasks).Keys, created.value)
        && db.tasks == old(db.tasks)[created.value := NewTaskRow(created.value, userId, fileId, BeforePhotoPath(fileId), comment, category, db.clock)]
        && db.photos == old(db.photos) + [TaskPhoto(old(db.nextPhotoRowId), created.value, Before, fileId, BeforePhotoPath(fileId))]
    {
      var path := BeforePhotoPath(fileId);
      files := files + {path};
      if InOpenAlbum(s, mediaGroup) {
        db.AddTaskPhoto(s.albumTaskId.value, Before, fileId, path);
        created := None;
      } else {
        var id := NewTaskWithPhoto(userId, fileId, path, comment, category);
        created := Some(id);
      }
    }

    /**
     * A photo while completing a task. A single photo, or the first photo of
     * an album, sets Completed with the sender as completer and this photo
     * as the legacy after photo; every stored photo adds one 'after' row and
     * notifies all managers. Without a task id in the session the row cannot
     * be inserted (task_id is NOT NULL) and the branch stops after the status
     * step, which then matched no row.
     */
    method CompleteWithPhoto(userId: int, fileId: string, mediaGroup: Option<string>)
      returns (stored: bool, notified: seq<int>)
      requires Valid()
      modifies this`files, this`sessions, db`tasks, db`photos, db`nextPhotoRowId
      ensures Valid()
      ensures var s := old(SessionOf(userId));
        var path := AfterPhotoPath(s.taskId, fileId);
        files == old(files) + {path}
        && (stored <==> s.taskId.Some?)
        && (stored && StartsCompletion(s, mediaGroup) && s.taskId.value in old(db.tasks) ==>
              db.tasks == old(db.tasks)[s.taskId.value :=
                StatusUpdated(old(db.tasks[s.taskId.value]), Completed, Some(userId), Some(fileId), Some(path), db.clock)])
        && (!stored || !StartsCompletion(s, mediaGroup) || s.taskId.value !in old(db.tasks) ==> db.tasks == old(db.tasks))
        && (stored ==>
              db.photos == old(db.photos) + [TaskPhoto(old(db.nextPhotoRowId), s.taskId.value, After, fileId, path)]
              && sessions == old(sessions)[userId := AfterCompletion(s, mediaGroup)]
              && forall u :: u in notified <==> u in db.users && db.users[u].role == Manager)
        && (!stored ==>
              db.photos == old(db.photos) && notified == []
              && sessions == old(sessions)[userId := AfterFailedCompletion(s, mediaGroup)])
    {
      var s := SessionOf(userId);
      var path := AfterPhotoPath(s.taskId, fileId);
      files := files + {path};
      if s.taskId.None? {
        sessions := sessions[userId := AfterFailedCompletion(s, mediaGroup)];
        return false, [];
      }
      StoreCompletionPhoto(userId, s.taskId.value, StartsCompletion(s, mediaGroup), fileId, path);
      sessions := sessions[userId := AfterCompletion(s, mediaGroup)];
      notified := db.GetAllManagers();
      stored := true;
    }

    /**
     * The store part of a stored completion photo: a photo that starts the
     * completion sets Completed (a missing task matches no row), and every
     * photo adds one 'after' row.
     */
    method StoreCompletionPhoto(userId: int, taskId: int, starts: bool, fileId: string, path: string)
      requires Valid()
      modifies db`tasks, db`photos, db`nextPhotoRowId
      ensures Valid()
      ensures starts && taskId in old(db.tasks) ==>
        db.tasks == old(db.tasks)[taskId := StatusUpdated(old(db.tasks[taskId]), Completed, Some(userId), Some(fileId), Some(path), db.clock)]
      ensures !starts || taskId !in old(db.tasks) ==> db.tasks == old(db.tasks)
      ensures db.photos == old(db.photos) + [TaskPhoto(old(db.nextPhotoRowId), taskId, After, fileId, path)]
    {
      if starts {
        db.UpdateTaskStatus(taskId, Completed, Some(userId), Some(fileId), Some(path));
      }
      db.AddTaskPhoto(taskId, After, fileId, path);
    }

    /**
     * A replacement before photo: the old legacy before file is removed, the
     * new one saved, and the legacy before columns point at it ('before' rows
     * are not touched). A Completed or Approved task is then sent back to New,
     * its legacy after file removed, and all executors are told.
     */
    method ReplaceTaskPhoto(userId: int, fileId: string) returns (notified: seq<int>)
      requires Valid()
      modifies this`sessions, this`files, db`tasks
      ensures Valid()
      ensures var s := old(SessionOf(userId));
        var path := EditedPhotoPath(s.taskId, fileId);
        sessions == old(sessions)[userId := s.(editingPhoto := false, taskId := None)]
        && (old(Lookup(s.taskId)).None? ==> db.tasks == old(db.tasks) && files == old(files) + {path} && notified == [])
        && (old(Lookup(s.taskId)).Some? ==>
              var t := old(Lookup(s.taskId)).value;
              var edited := t.(photoBeforeId := fileId, photoBeforePath := path);
              var saved := old(files) - (if t.photoBeforePath != "" then {t.photoBeforePath} else {}) + {path};
              (Reopens(t.status) ==>
                 db.tasks == old(db.tasks)[t.id := ResetRow(edited)]
                 && files == saved - (if Truthy(t.photoAfterPath) then {t.photoAfterPath.value} else {})
                 && forall u :: u in notified <==> u in db.users && db.users[u].role == Executor)
              && (!Reopens(t.status) ==> db.tasks == old(db.tasks)[t.id := edited] && files == saved && notified == []))
    {
      var s := SessionOf(userId);
      var task := Lookup(s.taskId);
      var path := EditedPhotoPath(s.taskId, fileId);
      SwapBeforeFile(task, path);
      if s.taskId.Some? {
        db.UpdateTaskPhoto(s.taskId.value, fileId, path);
      }
      sessions := sessions[userId := s.(editingPhoto := false, taskId := None)];
      notified := [];
      if task.Some? && Reopens(task.value.status) {
        notified := Reopen(task.value);
      }
    }

    /**
     * `handle_photo`: album continuation first, then creation, completion and
     * photo edit. `created` is the task a creation photo opened, `notified`
     * the users the branch messages, `audience` the users a captioned
     * creation photo only names in its reply.
     */
    method HandlePhoto(userId: int, fileId: string, mediaGroup: Option<string>, caption: Option<string>)
      returns (route: PhotoRoute, created: Option<int>, notified: seq<int>, audience: seq<int>)
      requires Valid()
      modifies this`files, this`sessions, db`tasks, db`photos, db`nextPhotoRowId
      ensures Valid()
      ensures route == PhotoRouteOf(old(SessionOf(userId)), mediaGroup)
      ensures route != CreationPhoto ==> created.None? && audience == []
      ensures route == AlbumPhoto || route == CreationPhoto || route == OtherPhoto ==> notified == []
      ensures route == AlbumPhoto || route == OtherPhoto ==> db.tasks == old(db.tasks)
      ensures route == EditPhoto || route == OtherPhoto ==> db.photos == old(db.photos)
      ensures route == AlbumPhoto || route == OtherPhoto ==> sessions == old(sessions)
      ensures route == OtherPhoto ==> files == old(files)
      ensures route == AlbumPhoto ==>
        var s := old(SessionOf(userId));
        var path := AlbumPhotoPath(s.albumKind.value, s.albumTaskId.value, fileId);
        files == old(files) + {path}
        && db.photos == old(db.photos) + [TaskPhoto(old(db.nextPhotoRowId), s.albumTaskId.value, s.albumKind.value, fileId, path)]
      ensures route == CreationPhoto ==>
        var s := old(SessionOf(userId));
        var path := BeforePhotoPath(fileId);
        files == old(files) + {path}
        && (created.None? <==> InOpenAlbum(s, mediaGroup))
        && (created.None? ==>
              db.tasks == old(db.tasks)
              && db.photos == old(db.photos) + [TaskPhoto(old(db.nextPhotoRowId), s.albumTaskId.value, Before, fileId, path)])
        && (created.Some? ==>
              IsMinFree(old(db.tasks).Keys, created.value)
              && db.tasks == old(db.tasks)[created.value := NewTaskRow(created.value, userId, fileId, path,
                                                             if HasText(caption) then caption.value else CommentPlaceholder,
                                                             s.taskCategory.GetOr(OtherCategory), db.clock)]
              && db.photos == old(db.photos) + [TaskPhoto(old(db.nextPhotoRowId), created.value, Before, fileId, path)])
        && sessions == old(sessions)[userId := AfterCreationPhoto(s, mediaGroup, HasText(caption), created)]
        && (HasText(caption) ==> forall u :: u in audience <==> InAudience(s.taskCategory.GetOr(OtherCategory), u))
        && (!HasText(caption) ==> audience == [])
      ensures route == CompletionPhoto ==>
        var s := old(SessionOf(userId));
        var path := AfterPhotoPath(s.taskId, fileId);
        files == old(files) + {path}
        && (s.taskId.Some? && StartsCompletion(s, mediaGroup) && s.taskId.value in old(db.tasks) ==>
              db.tasks == old(db.tasks)[s.taskId.value :=
                StatusUpdated(old(db.tasks[s.taskId.value]), Completed, Some(userId), Some(fileId), Some(path), db.clock)])
        && (s.taskId.None? || !StartsCompletion(s, mediaGroup) || s.taskId.value !in old(db.tasks) ==> db.tasks == old(db.tasks))
        && (s.taskId.Some? ==>
              db.photos == old(db.photos) + [TaskPhoto(old(db.nextPhotoRowId), s.taskId.value, After, fileId, path)]
              && sessions == old(sessions)[userId := AfterCompletion(s, mediaGroup)]
              && forall u :: u in notified <==> u in db.users && db.users[u].role == Manager)
        && (s.taskId.None? ==>
              db.photos == old(db.photos) && notified == []
              && sessions == old(sessions)[userId := AfterFailedCompletion(s, mediaGroup)])
      ensures route == EditPhoto ==>
        var s := old(SessionOf(userId));
        var path := EditedPhotoPath(s.taskId, fileId);
        var task := old(Lookup(s.taskId));
        sessions == old(sessions)[userId := s.(editingPhoto := false, taskId := None)]
        && (task.None? ==> db.tasks == old(db.tasks) && files == old(files) + {path} && notified == [])
        && (task.Some? ==>
              var t := task.value;
              var edited := t.(photoBeforeId := fileId, photoBeforePath := path);
              var saved := old(files) - (if t.photoBeforePath != "" then {t.photoBeforePath} else {}) + {path};
              (Reopens(t.status) ==>
                 db.tasks == old(db.tasks)[t.id := ResetRow(edited)]
                 && files == saved - (if Truthy(t.photoAfterPath) then {t.photoAfterPath.value} else {})
                 && forall u :: u in notified <==> u in db.users && db.users[u].role == Executor)
              && (!Reopens(t.status) ==> db.tasks == old(db.tasks)[t.id := edited] && files == saved && notified == []))
    {
      route := PhotoRouteOf(SessionOf(userId), mediaGroup);
      created, notified, audience := None, [], [];
      match route
      case AlbumPhoto => AppendAlbumPhoto(userId, fileId, mediaGroup);
      case CreationPhoto => created, audience := CreateFromPhoto(userId, fileId, mediaGroup, caption);
      case CompletionPhoto => var stored; stored, notified := CompleteWithPhoto(userId, fileId, mediaGroup);
      case EditPhoto => notified := ReplaceTaskPhoto(userId, fileId);
      case OtherPhoto =>
    }
  }
}
