/**
 * Short runs of the workflow on a fresh database, each ending in what the
 * bot promises its users: a task goes from a manager's photo through an
 * executor's photo to approval, ids of deleted tasks are handed out again,
 * an album of completion photos completes its task once, and the users
 * without the manager role cannot approve.
 */
module Scenarios {
  import opened Wrappers
  import opened Text
  import opened Store
  import opened Flow
  import opened Handlers

  /** When the store holds one task, an exact listing of a category holds nothing else. */
  lemma OnlyTaskVisible(tasks: map<int, Task>, t: Task, visible: seq<Task>, category: string)
    requires tasks == map[t.id := t]
    requires forall v :: v in visible <==> v.id in tasks && tasks[v.id] == v && v.category == category && (v.status == New || v.status == Redo)
    ensures forall v :: v in visible ==> v == t
  {
  }

  /** A caption whose first character is not whitespace has text. */
  lemma LeadingCharHasText(caption: string)
    requires caption != [] && !IsSpace(caption[0])
    ensures HasText(Some(caption))
  {
    StripEmptyIffAllSpace(caption);
  }

  /** A wrong access code changes nothing; the right one makes the executor of "Зал" a manager without a category. */
  method CodeEntry() returns (afterWrong: User, afterRight: User)
    ensures afterWrong.role == Executor && afterWrong.category == Some("Зал")
    ensures afterRight.role == Manager && afterRight.category == None && afterRight.username == "boss"
  {
    var db := new Database();
    db.SetUserRole(1, "boss", Executor, Some("Зал"));
    var bot := new Bot(db);
    bot.BecomeManager(1);
    bot.SubmitManagerCode(1, Some("boss"), "1111", "secret");
    afterWrong := db.users[1];
    bot.SubmitManagerCode(1, Some("boss"), "secret", "secret");
    afterRight := db.users[1];
  }

  /** Manager 1 posts a photo captioned "Пол" in "Зал": task 1 is created with the caption as its comment. */
  method Creation() returns (t: Task)
    ensures t.id == 1 && t.createdBy == 1 && t.comment == "Пол" && t.category == "Зал" && t.status == New
    ensures t.photoBeforeId == "before" && t.photoBeforePath == BeforePhotoPath("before")
  {
    var db := new Database();
    db.SetUserRole(1, "boss", Manager, None);
    var bot := new Bot(db);
    bot.StartTaskCreation(1, "Зал");
    ghost var s := bot.SessionOf(1);
    assert s.taskCategory == Some("Зал") && !InOpenAlbum(s, None);
    LeadingCharHasText("Пол");
    assert db.tasks.Keys == {};
    var created, audience := bot.CreateFromPhoto(1, "before", None, Some("Пол"));
    MinFreeUnique({}, created.value, 1);
    t := db.tasks[1];
  }

  /** Executor 2 picks "Зал" and is shown its one new task. */
  method CategoryChoice() returns (t: Task, visible: seq<Task>)
    ensures t.id == 1 && t.category == "Зал"
    ensures t in visible && forall v :: v in visible ==> v == t
  {
    var db := new Database();
    assert db.tasks.Keys == {};
    var id := db.CreateTask(1, "b", "photos/before_b.jpg", "Пол", "Зал");
    MinFreeUnique({}, id, 1);
    t := db.tasks[1];
    var bot := new Bot(db);
    visible := bot.SelectCategory(2, Some("worker"), "Зал");
    assert db.tasks == map[1 := t];
    OnlyTaskVisible(db.tasks, t, visible, "Зал");
  }

  /** Executor 2 completes task 1 with one photo, manager 1 is told and approves it. */
  method Lifecycle() returns (t: Task, notified: seq<int>)
    ensures t.status == Approved && t.completedBy == Some(2) && t.photoAfterId == Some("after")
    ensures 1 in notified && forall u :: u in notified ==> u == 1
  {
    var db := new Database();
    db.SetUserRole(1, "boss", Manager, None);
    assert db.tasks.Keys == {};
    var id := db.CreateTask(1, "b", "photos/before_b.jpg", "Пол", "Зал");
    MinFreeUnique({}, id, 1);
    var bot := new Bot(db);
    bot.CompleteButton(2, 1);
    var stored;
    stored, notified := bot.CompleteWithPhoto(2, "after", None);
    bot.Approve(1, 1);
    t := db.tasks[1];
  }

  /** After task 1 of tasks 1 and 2 is deleted, the next task gets id 1 again. */
  method IdReuse() returns (ids: seq<int>)
    ensures ids == [1, 2, 1]
  {
    var db := new Database();
    assert db.tasks.Keys == {};
    var a := db.CreateTask(7, "f1", "photos/before_f1.jpg", "a", "Касса");
    MinFreeUnique({}, a, 1);
    assert db.tasks.Keys == {1};
    var b := db.CreateTask(7, "f2", "photos/before_f2.jpg", "b", "Касса");
    MinFreeUnique({1}, b, 2);
    db.DeleteTask(1);
    assert db.tasks.Keys == {2};
    var c := db.CreateTask(7, "f3", "photos/before_f3.jpg", "c", "Касса");
    MinFreeUnique({2}, c, 1);
    ids := [a, b, c];
  }

  /** Two photos of one album complete task 1 once: the status follows the first photo, both become 'after' rows. */
  method AlbumCompletion() returns (t: Task, rows: seq<TaskPhoto>, second: PhotoRoute)
    ensures t.status == Completed && t.photoAfterId == Some("p1") && t.completedBy == Some(2)
    ensures second == AlbumPhoto
    ensures |rows| == 2 && rows[0].kind == After && rows[1].kind == After
    ensures rows[0].fileId == "p1" && rows[1].fileId == "p2"
  {
    var db := new Database();
    assert db.tasks.Keys == {};
    var id := db.CreateTask(1, "b", "photos/before_b.jpg", "Окна", "Зал");
    MinFreeUnique({}, id, 1);
    var bot := new Bot(db);
    bot.CompleteButton(2, 1);
    var stored, notified := bot.CompleteWithPhoto(2, "p1", Some("album"));
    CompletionAlbumStitched(Cleared.(completingTask := true, taskId := Some(1)), Some("album"), 1);
    second := PhotoRouteOf(bot.SessionOf(2), Some("album"));
    bot.AppendAlbumPhoto(2, "p2", Some("album"));
    t := db.tasks[1];
    rows := db.photos;
  }

  /**
   * Task 1 is created at time 0 and task 2 once the clock reads 5: each row
   * carries the time of its creation, and the listing shows task 2 first.
   */
  method LaterTaskListedFirst() returns (first: Task, second: Task, listed: seq<Task>)
    ensures first.id == 1 && first.createdAt == 0
    ensures second.id == 2 && second.createdAt == 5
    ensures first in listed && second in listed
    ensures forall i, j :: 0 <= i < |listed| && 0 <= j < |listed| && listed[i] == second && listed[j] == first ==> i < j
  {
    var db := new Database();
    assert db.tasks.Keys == {};
    var a := db.CreateTask(1, "f1", "photos/before_f1.jpg", "a", "Зал");
    MinFreeUnique({}, a, 1);
    db.AdvanceClock(5);
    assert db.tasks.Keys == {1};
    var b := db.CreateTask(1, "f2", "photos/before_f2.jpg", "b", "Зал");
    MinFreeUnique({1}, b, 2);
    first, second := db.tasks[1], db.tasks[2];
    listed := db.GetTasks(None, None);
  }

  /** An executor pressing approve or delete changes nothing. */
  method ExecutorCannotApprove() returns (t: Task, remaining: set<int>)
    ensures t.status == Completed
    ensures remaining == {1}
  {
    var db := new Database();
    assert db.tasks.Keys == {};
    var id := db.CreateTask(1, "b", "photos/before_b.jpg", "Окна", "Зал");
    MinFreeUnique({}, id, 1);
    db.UpdateTaskStatus(1, Completed, Some(2), Some("a"), Some("photos/after_1_a.jpg"));
    db.SetUserRole(2, "worker", Executor, None);
    var bot := new Bot(db);
    bot.Approve(2, 1);
    bot.DeleteTask(2, 1);
    t := db.tasks[1];
    remaining := db.tasks.Keys;
  }
}
