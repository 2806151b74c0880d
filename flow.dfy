/**
 * The pure part of the chat workflow: a user's conversation state (the
 * bot's per-user `user_data` dictionary), the routing of an incoming text
 * or photo to one handler branch, the photo file names the handlers
 * build, and the comment a redo request appends.
 */
module Flow {
  import opened Wrappers
  import opened Text
  import opened Store

  const OtherCategory := "Прочее"
  const UnspecifiedCategory := "Не указана"
  const CommentPlaceholder := "Введите комментарий..."
  const DefaultUserName := "Пользователь"
  const DefaultManagerName := "Менеджер"

  /** The categories offered on the executor's start keyboard, in display order. */
  const Categories: seq<string> := ["Касса", "Саладет", "Панировка", "Улица", "Зал", "Прочее"]

  /** `username or "Пользователь"`: the name stored for a Telegram user who may have no handle. */
  function DisplayName(handle: Option<string>): (s: string)
    ensures s != ""
    ensures Truthy(handle) ==> s == handle.value
  {
    if Truthy(handle) then handle.value else DefaultUserName
  }

  /** `username or "Менеджер"`: the manager name written into a redo comment. */
  function ManagerName(handle: Option<string>): (s: string)
    ensures s != ""
    ensures Truthy(handle) ==> s == handle.value
  {
    if Truthy(handle) then handle.value else DefaultManagerName
  }

  // ---------------------------------------------------------------------
  // Redo comments

  const RedoMarker := "\n\n⚠️ Переделать - @"

  /** The comment after a redo request: the old comment, a marker naming the manager, then the request. */
  function RedoComment(comment: string, manager: string, request: string): (r: string)
    ensures |r| == |comment| + |RedoMarker| + |manager| + 2 + |request|
    ensures r[..|comment|] == comment
    ensures r[|comment|..|comment| + |RedoMarker|] == RedoMarker
    ensures r[|comment| + |RedoMarker|..|r| - |request|] == manager + ": "
    ensures r[|r| - |request|..] == request
  {
    comment + RedoMarker + manager + ": " + request
  }

  /** Redo requests only ever add to a comment: the text before a redo survives any number of later ones. */
  lemma {:induction false} RedoHistoryKept(comment: string, managers: seq<string>, requests: seq<string>)
    requires |managers| == |requests|
    ensures comment <= RedoAll(comment, managers, requests)
    ensures |RedoAll(comment, managers, requests)| >= |comment| + |requests| * (|RedoMarker| + 2)
    decreases |managers|
  {
    if managers != [] {
      var once := RedoComment(comment, managers[0], requests[0]);
      assert comment <= once;
      RedoHistoryKept(once, managers[1..], requests[1..]);
    }
  }

  /** A sequence of redo requests applied in order. */
  function RedoAll(comment: string, managers: seq<string>, requests: seq<string>): string
    requires |managers| == |requests|
    decreases |managers|
  {
    if managers == [] then comment
    else RedoAll(RedoComment(comment, managers[0], requests[0]), managers[1..], requests[1..])
  }

  // ---------------------------------------------------------------------
  // Photo files

  /** How an optional task id reads inside an f-string: `None` when it is missing. */
  function IdText(id: Option<int>): (r: string)
    ensures '_' !in r
  {
    assert id.Some? ==> forall i :: 0 <= i < |IntToString(id.value)| ==> IntToString(id.value)[i] != '_';
    if id.Some? then IntToString(id.value) else "None"
  }

  /** Where a "before" photo is saved: `photos/before_<file id>.jpg`. */
  function BeforePhotoPath(fileId: string): (p: string)
    ensures |p| == 18 + |fileId|
    ensures p[..14] == "photos/before_" && p[14..|p| - 4] == fileId && p[|p| - 4..] == ".jpg"
  {
    "photos/before_" + fileId + ".jpg"
  }

  /** Where an "after" photo is saved: `photos/after_<task id>_<file id>.jpg`. */
  function AfterPhotoPath(taskId: Option<int>, fileId: string): (p: string)
    ensures |p| == 18 + |IdText(taskId)| + |fileId|
    ensures p[..13] == "photos/after_" && p[13..13 + |IdText(taskId)|] == IdText(taskId)
    ensures p[13 + |IdText(taskId)|] == '_' && p[14 + |IdText(taskId)|..|p| - 4] == fileId && p[|p| - 4..] == ".jpg"
  {
    PathSlices("photos/after_", IdText(taskId), fileId);
    "photos/after_" + IdText(taskId) + "_" + fileId + ".jpg"
  }

  /** Where a replacement "before" photo is saved: `photos/before_<task id>_<file id>.jpg`. */
  function EditedPhotoPath(taskId: Option<int>, fileId: string): (p: string)
    ensures |p| == 19 + |IdText(taskId)| + |fileId|
    ensures p[..14] == "photos/before_" && p[14..14 + |IdText(taskId)|] == IdText(taskId)
    ensures p[14 + |IdText(taskId)|] == '_' && p[15 + |IdText(taskId)|..|p| - 4] == fileId && p[|p| - 4..] == ".jpg"
  {
    PathSlices("photos/before_", IdText(taskId), fileId);
    "photos/before_" + IdText(taskId) + "_" + fileId + ".jpg"
  }

  /** Where each part of a `<prefix><id>_<file id>.jpg` name sits. */
  lemma PathSlices(prefix: string, id: string, fileId: string)
    ensures var p := prefix + id + "_" + fileId + ".jpg";
      |p| == |prefix| + |id| + |fileId| + 5
      && p[..|prefix|] == prefix && p[|prefix|..|prefix| + |id|] == id && p[|prefix| + |id|] == '_'
      && p[|prefix| + |id| + 1..|p| - 4] == fileId && p[|p| - 4..] == ".jpg"
  {
    var p := prefix + id + "_" + fileId + ".jpg";
    var k := |prefix| + |id|;
    assert p[..|prefix|] == prefix;
    assert p[|prefix|..k] == id;
    assert p[k] == '_';
    assert p[k + 1..|p| - 4] == fileId;
    assert p[|p| - 4..] == ".jpg";
  }

  /** A completion photo never lands on the file of a before photo, original or replaced. */
  lemma AfterPathsAreNotBeforePaths(taskId: Option<int>, otherId: Option<int>, fileId: string, otherFile: string)
    ensures BeforePhotoPath(fileId) != AfterPhotoPath(otherId, otherFile)
    ensures EditedPhotoPath(taskId, fileId) != AfterPhotoPath(otherId, otherFile)
  {
    var after := AfterPhotoPath(otherId, otherFile);
    assert after[7] == after[..13][7] == 'a';
    var before := BeforePhotoPath(fileId);
    assert before[7] == before[..14][7] == 'b';
    var edited := EditedPhotoPath(taskId, fileId);
    assert edited[7] == edited[..14][7] == 'b';
  }

  /** Completion photos of different tasks, or with different file ids, get different files. */
  lemma AfterPathInjective(taskId: Option<int>, otherId: Option<int>, fileId: string, otherFile: string)
    requires AfterPhotoPath(taskId, fileId) == AfterPhotoPath(otherId, otherFile)
    ensures taskId == otherId && fileId == otherFile
  {
    var p := AfterPhotoPath(taskId, fileId);
    var a, b := IdText(taskId), IdText(otherId);
    var tail := p[13..];
    assert tail[..|a|] == a && tail[|a|] == '_';
    assert tail[..|b|] == b && tail[|b|] == '_';
    FirstUnderscore(tail, a, b);
    IdTextInjective(taskId, otherId);
  }

  /** Two underscore-free prefixes that both end where an underscore follows are the same prefix. */
  lemma FirstUnderscore(s: string, a: string, b: string)
    requires '_' !in a && '_' !in b
    requires |a| < |s| && s[..|a|] == a && s[|a|] == '_'
    requires |b| < |s| && s[..|b|] == b && s[|b|] == '_'
    ensures a == b
  {
  }

  /** Different ids (and a missing one) read differently inside a file name. */
  lemma IdTextInjective(a: Option<int>, b: Option<int>)
    requires IdText(a) == IdText(b)
    ensures a == b
  {
    if a.Some? && b.Some? {
      IntToStringInjective(a.value, b.value);
    }
  }

  /** Where a later photo of an album goes; it is named as the album's first photo was. */
  function AlbumPhotoPath(kind: PhotoKind, taskId: int, fileId: string): (p: string)
    ensures kind == Before ==> p == BeforePhotoPath(fileId)
    ensures kind == After ==> p == AfterPhotoPath(Some(taskId), fileId)
  {
    match kind
    case Before => BeforePhotoPath(fileId)
    case After => AfterPhotoPath(Some(taskId), fileId)
  }

  /** The files named by a task's legacy columns (falsy paths name nothing). */
  function LegacyPaths(t: Task): (r: set<string>)
    ensures forall p :: p in r <==> p != "" && (p == t.photoBeforePath || t.photoAfterPath == Some(p))
  {
    (if t.photoBeforePath != "" then {t.photoBeforePath} else {})
    + (if Truthy(t.photoAfterPath) then {t.photoAfterPath.value} else {})
  }

  /** The files named by photo rows (falsy paths name nothing). */
  function RowPaths(rows: seq<TaskPhoto>): set<string>
  {
    set p | p in rows && p.filePath != "" :: p.filePath
  }

  lemma RowPathsSnoc(rows: seq<TaskPhoto>, p: TaskPhoto)
    ensures RowPaths(rows + [p]) == RowPaths(rows) + (if p.filePath != "" then {p.filePath} else {})
  {
    var left := RowPaths(rows + [p]);
    var right := RowPaths(rows) + (if p.filePath != "" then {p.filePath} else {});
    forall f | f in left ensures f in right {
      var q :| q in rows + [p] && q.filePath != "" && q.filePath == f;
      if q != p { assert q in rows; }
    }
    forall f | f in right ensures f in left {
      if f in RowPaths(rows) {
        var q :| q in rows && q.filePath != "" && q.filePath == f;
        assert q in rows + [p];
      } else {
        assert p in rows + [p];
      }
    }
  }

  /** Everything `purge_task_files` removes for a task row and its photo rows. */
  function TaskFiles(t: Option<Task>, rows: seq<TaskPhoto>): (r: set<string>)
    ensures t.None? ==> r == {}
    ensures t.Some? ==> forall f :: f in r <==> f in LegacyPaths(t.value) || (f != "" && exists p :: p in rows && p.filePath == f)
  {
    if t.Some? then LegacyPaths(t.value) + RowPaths(rows) else {}
  }

  // ---------------------------------------------------------------------
  // Conversation state

  datatype TaskStep = PhotoStep | CommentStep

  /**
   * The keys of `user_data` the workflow reads. A missing key and a key
   * holding None are both `None` or `false` here; `returnToManagerMenu` is
   * `return_to == 'manager_menu'`, the only value ever stored under it.
   */
  datatype UserData = UserData(
    waitingForCode: bool,
    broadcasting: bool,
    creatingTask: bool,
    taskStep: Option<TaskStep>,
    taskCategory: Option<string>,
    taskId: Option<int>,
    albumId: Option<string>,
    albumTaskId: Option<int>,
    albumKind: Option<PhotoKind>,
    completingTask: bool,
    redoingTask: bool,
    editingComment: bool,
    editingPhoto: bool,
    returnToManagerMenu: bool)

  /** `user_data.clear()`. */
  const Cleared := UserData(false, false, false, None, None, None, None, None, None, false, false, false, false, false)

  // ---------------------------------------------------------------------
  // Routing

  datatype MessageRoute = CodeEntry | BroadcastText | CreationComment | RedoRequest | EditedComment | OtherText

  datatype PhotoRoute = AlbumPhoto | CreationPhoto | CompletionPhoto | EditPhoto | OtherPhoto

  /** `handle_message` tries its branches in this order and takes the first whose flag is set. */
  function MessageRouteOf(s: UserData): (r: MessageRoute)
    ensures r == CodeEntry <==> s.waitingForCode
    ensures r == BroadcastText <==> !s.waitingForCode && s.broadcasting
    ensures r == CreationComment <==> !s.waitingForCode && !s.broadcasting && s.creatingTask && s.taskStep == Some(CommentStep)
    ensures r == RedoRequest <==>
      !s.waitingForCode && !s.broadcasting && !(s.creatingTask && s.taskStep == Some(CommentStep)) && s.redoingTask
    ensures r == EditedComment <==>
      !s.waitingForCode && !s.broadcasting && !(s.creatingTask && s.taskStep == Some(CommentStep)) && !s.redoingTask
      && s.editingComment
    ensures r == OtherText <==>
      !s.waitingForCode && !s.broadcasting && !(s.creatingTask && s.taskStep == Some(CommentStep))
      && !s.redoingTask && !s.editingComment
  {
    if s.waitingForCode then CodeEntry
    else if s.broadcasting then BroadcastText
    else if s.creatingTask && s.taskStep == Some(CommentStep) then CreationComment
    else if s.redoingTask then RedoRequest
    else if s.editingComment then EditedComment
    else OtherText
  }

  /** A photo belongs to the album currently being collected. */
  predicate AlbumContinues(s: UserData, mediaGroup: Option<string>)
  {
    Truthy(mediaGroup) && s.albumId == mediaGroup && TruthyId(s.albumTaskId) && s.albumKind.Some?
  }

  /** `handle_photo` checks album continuation first, then creation, completion and photo edit. */
  function PhotoRouteOf(s: UserData, mediaGroup: Option<string>): (r: PhotoRoute)
    ensures r == AlbumPhoto <==> AlbumContinues(s, mediaGroup)
    ensures r == CreationPhoto <==> !AlbumContinues(s, mediaGroup) && s.creatingTask && s.taskStep == Some(PhotoStep)
    ensures r == CompletionPhoto <==>
      !AlbumContinues(s, mediaGroup) && !(s.creatingTask && s.taskStep == Some(PhotoStep)) && s.completingTask
    ensures r == EditPhoto <==>
      !AlbumContinues(s, mediaGroup) && !(s.creatingTask && s.taskStep == Some(PhotoStep)) && !s.completingTask
      && s.editingPhoto
    ensures r == OtherPhoto <==>
      !AlbumContinues(s, mediaGroup) && !(s.creatingTask && s.taskStep == Some(PhotoStep)) && !s.completingTask
      && !s.editingPhoto
  {
    if AlbumContinues(s, mediaGroup) then AlbumPhoto
    else if s.creatingTask && s.taskStep == Some(PhotoStep) then CreationPhoto
    else if s.completingTask then CompletionPhoto
    else if s.editingPhoto then EditPhoto
    else OtherPhoto
  }

  /** Remembers the album a first photo opened, when the photo came in an album. */
  function WithAlbum(s: UserData, mediaGroup: Option<string>, taskId: int, kind: PhotoKind): (r: UserData)
    ensures Truthy(mediaGroup) ==> r.albumId == mediaGroup && r.albumTaskId == Some(taskId) && r.albumKind == Some(kind)
    ensures Truthy(mediaGroup) && taskId != 0 ==> AlbumContinues(r, mediaGroup)
    ensures !Truthy(mediaGroup) ==> r == s
    ensures r.(albumId := s.albumId, albumTaskId := s.albumTaskId, albumKind := s.albumKind) == s
  {
    if Truthy(mediaGroup) then s.(albumId := mediaGroup, albumTaskId := Some(taskId), albumKind := Some(kind)) else s
  }

  /** Once an album's first photo opened a task, the album's next photo continues that task. */
  lemma AlbumIsStitched(s: UserData, mediaGroup: Option<string>, taskId: int, kind: PhotoKind)
    requires Truthy(mediaGroup) && taskId != 0
    ensures PhotoRouteOf(WithAlbum(s, mediaGroup, taskId, kind), mediaGroup) == AlbumPhoto
    ensures WithAlbum(s, mediaGroup, taskId, kind).albumTaskId == Some(taskId)
  {
  }

  /** The photo belongs to the album recorded in the session, whatever kind that album was. */
  predicate InOpenAlbum(s: UserData, mediaGroup: Option<string>)
  {
    Truthy(mediaGroup) && s.albumId == mediaGroup && TruthyId(s.albumTaskId)
  }

  /**
   * The conversation state after a creation photo; `created` is the new
   * task, None when the photo only joined the open album.
   */
  function AfterCreationPhoto(s: UserData, mediaGroup: Option<string>, captioned: bool, created: Option<int>): (r: UserData)
    ensures r.creatingTask == s.creatingTask && r.taskCategory == s.taskCategory
    ensures r.completingTask == s.completingTask && r.redoingTask == s.redoingTask
    ensures r.editingComment == s.editingComment && r.editingPhoto == s.editingPhoto
    ensures captioned ==> r.taskStep == Some(PhotoStep) && r.returnToManagerMenu && r.taskId == s.taskId
    ensures !captioned && created.Some? ==> r.taskStep == Some(CommentStep) && r.taskId == created
    ensures created.Some? && Truthy(mediaGroup) ==> r.albumId == mediaGroup && r.albumTaskId == created && r.albumKind == Some(Before)
    ensures created.None? ==> r.albumId == s.albumId && r.albumTaskId == s.albumTaskId && r.albumKind == s.albumKind
    ensures !captioned && created.None? ==> r == s
  {
    if captioned then
      (if created.Some? then WithAlbum(s, mediaGroup, created.value, Before) else s)
        .(taskStep := Some(PhotoStep), returnToManagerMenu := true)
    else if created.Some? then
      WithAlbum(s.(taskId := created, taskStep := Some(CommentStep)), mediaGroup, created.value, Before)
    else
      s
  }

  /** A task created from a photo without caption takes the manager's next text as its comment. */
  lemma BarePhotoAwaitsComment(s: UserData, mediaGroup: Option<string>, id: int)
    requires s.creatingTask && !s.waitingForCode && !s.broadcasting
    ensures MessageRouteOf(AfterCreationPhoto(s, mediaGroup, false, Some(id))) == CreationComment
    ensures AfterCreationPhoto(s, mediaGroup, false, Some(id)).taskId == Some(id)
  {
  }

  /** After a captioned photo the manager stays in the photo step, ready for the next task. */
  lemma CaptionedPhotoAwaitsNextPhoto(s: UserData, mediaGroup: Option<string>, created: Option<int>)
    requires s.creatingTask
    ensures var r := AfterCreationPhoto(s, mediaGroup, true, created);
      r.creatingTask && r.taskStep == Some(PhotoStep) && r.returnToManagerMenu
  {
  }

  /** A completion photo changes the task's status unless it continues the album already being completed. */
  predicate StartsCompletion(s: UserData, mediaGroup: Option<string>)
  {
    !InOpenAlbum(s, mediaGroup)
  }

  /**
   * The conversation state after a completion photo that was stored: a
   * single photo ends the completion, an album's first photo opens the
   * album, a later one changes nothing.
   */
  function AfterCompletion(s: UserData, mediaGroup: Option<string>): (r: UserData)
    ensures !Truthy(mediaGroup) ==> !r.completingTask && r.taskId.None? && r.albumId.None?
    ensures Truthy(mediaGroup) ==> r.completingTask == s.completingTask && r.taskId == s.taskId
  {
    if !Truthy(mediaGroup) then
      s.(completingTask := false, taskId := None, albumId := None, albumTaskId := None, albumKind := None)
    else if StartsCompletion(s, mediaGroup) then
      s.(albumId := mediaGroup, albumTaskId := s.taskId, albumKind := Some(After))
    else
      s
  }

  /** The state a completion photo leaves behind when it could not be stored (no task id in the session). */
  function AfterFailedCompletion(s: UserData, mediaGroup: Option<string>): (r: UserData)
    ensures r.completingTask == s.completingTask && r.taskId == s.taskId
    ensures r.(albumId := s.albumId, albumTaskId := s.albumTaskId, albumKind := s.albumKind) == s
    ensures Truthy(mediaGroup) && StartsCompletion(s, mediaGroup) ==>
      r.albumId == mediaGroup && r.albumTaskId == s.taskId && r.albumKind == Some(After)
    ensures !(Truthy(mediaGroup) && StartsCompletion(s, mediaGroup)) ==> r == s
  {
    if Truthy(mediaGroup) && StartsCompletion(s, mediaGroup) then
      s.(albumId := mediaGroup, albumTaskId := s.taskId, albumKind := Some(After))
    else
      s
  }

  /**
   * After the first photo of an album completes task `id`, the album's
   * next photo is routed to album continuation for `id` as an "after" photo,
   * so it neither changes the status again nor starts another completion.
   */
  lemma CompletionAlbumStitched(s: UserData, mediaGroup: Option<string>, id: int)
    requires s.taskId == Some(id) && id != 0 && Truthy(mediaGroup) && StartsCompletion(s, mediaGroup)
    ensures PhotoRouteOf(AfterCompletion(s, mediaGroup), mediaGroup) == AlbumPhoto
    ensures AfterCompletion(s, mediaGroup).albumTaskId == Some(id)
    ensures AfterCompletion(s, mediaGroup).albumKind == Some(After)
    ensures !StartsCompletion(AfterCompletion(s, mediaGroup), mediaGroup)
  {
  }

  /** Editing a Completed or Approved task sends it back to work. */
  predicate Reopens(status: Status)
  {
    status == Completed || status == Approved
  }
}
