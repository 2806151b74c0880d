# Restaurant cleaning-task bot: store and workflow model

The bot coordinates cleaning work in a restaurant over Telegram.

- A **manager** photographs a spot that needs cleaning, optionally with a caption as the comment, and files it as a task in one of six categories ("Касса", "Саладет", "Панировка", "Улица", "Зал", "Прочее").
- An **executor** who picked that category sees the task, cleans the spot and sends an "after" photo, which completes the task.
- The manager then approves the task, sends it back for redo with a remark appended to its comment, edits its comment or before photo, or deletes it.

Everything is kept in three SQLite tables: `users`, `tasks` and `task_photos`. The per-user conversation state lives in Telegram's `user_data` dictionary.

The model has seven modules:

- `Wrappers` holds `Option`.
- `Text` holds the Python string behaviour the logic depends on:
  - the truthiness of optional strings and ids;
  - `str.strip()`;
  - `f"{n}"`.
- `Plural` holds the two Russian plural helpers. It classifies a count once with `FormOf` and proves both helpers agree with that classification.
- `Store` is `database.py`: class `Database` with the three tables as a `map` of users, a `map` of tasks keyed by id, and a `seq` of photo rows.
  - It also keeps the AUTOINCREMENT counter of the photo rows.
  - It keeps an abstract, never-decreasing clock standing in for `CURRENT_TIMESTAMP`.
  - Every method is the SQL statement(s) the source runs.
  - Single-row reads (`get_task`, `get_user_role`, `get_username`, `get_user_category`, `get_last_active`) are map lookups.
  - Multi-row queries (`get_tasks`, `get_users_by_category`, `get_all_executors`, `get_all_managers`) are loops over the table.
- `Flow` holds the pure part of `handlers.py`:
  - the conversation state `UserData`;
  - which branch of `handle_message` or `handle_photo` an input reaches;
  - the photo file names;
  - the redo comment;
  - the state changes that stitch album photos together.
- `Handlers` is class `Bot`, with one method per store-changing branch of `button_handler`, `handle_message` and `handle_photo`, plus `purge_task_files`.
  - The bot's state is the database, the set of photo files on disk, and the session map.
  - A branch that notifies users returns the ids it notifies.
- `Scenarios` holds short runs from an empty database, with what each run ends in stated outright:
  - a wrong and a right access code;
  - a manager creates a task from a captioned photo, and an executor choosing its category sees it;
  - a task is completed with one photo and approved;
  - a deleted task's id is used again;
  - a two-photo completion album;
  - an executor's approve and delete buttons have no effect.

Task statuses are the enum `New | Completed | Approved | Redo`. `New` stands for the literal "Новая", which `database.py` writes itself. `Completed` stands for "Выполнено", the value `update_task_status` compares against. The access code is a parameter of the code-entry branch.

## Model

| member | source | states |
|---|---|---|
| Text.StripEmptyIffAllSpace | handlers.py:1451 | `caption.strip()` is empty exactly when every character of the caption is whitespace, so `caption and caption.strip()` means "has a non-blank character" |
| Text.TrimStart | handlers.py:1451 | leading-whitespace removal returns a suffix of the input that is empty or starts with a non-space, and everything it cut off is whitespace |
| Text.TrimEnd | handlers.py:1451 | trailing-whitespace removal returns a prefix of the input that is empty or ends with a non-space, and everything it cut off is whitespace |
| Text.Strip | handlers.py:1451 | `str.strip()` returns a slice of the input that neither starts nor ends with whitespace, and only whitespace is cut away on either side |
| Text.IntToString | handlers.py:1536 | `f"{n}"` of an int is a minus sign exactly for negative n, then decimal digits that read back as the absolute value |
| Text.NatToString | handlers.py:1536 | the decimal text of an id inside an f-string is non-empty and all digits |
| Text.NatToStringRoundTrip | handlers.py:1536 | reading the decimal text back gives the number, so file names of different tasks' photos never collide through their id part |
| Plural.FormatTasksWord | handlers.py:21-26 | `format_tasks_word(n)` is the count, a space and the nominative noun of the form `FormOf(n)` |
| Plural.FormatTasksAccusative | handlers.py:61-66 | `format_tasks_accusative(n)` is the accusative noun of the form `FormOf(n)` |
| Plural.TeensAreGenitive | handlers.py:21-26 | counts ending in 11 to 14 are genitive ("задач") whatever their last digit |
| Plural.FormOfPeriodic | handlers.py:21-26 | the form depends only on the last two digits: n and n + 100k take the same form |
| Plural.LastDigitOfLastTwo | handlers.py:23 | the last digit of n is the last digit of n % 100, also for negative n |
| Plural.HelpersAgree | handlers.py:21-26 | both helpers classify a count the same way; the nouns differ only in the singular ("задача", "задачу") |
| Store.NewTaskRow | database.py:382-385 | a created row has the given id, creator, before photo id and path, comment and category, status New, and no completer, after photo or completion time |
| Store.StatusUpdated | database.py:477-486 | Completed sets completer, after photo id and path and completion time in one step; any other status changes the status field only; nothing else is ever touched |
| Store.ResetRow | database.py:533-541 | back to New with completer, after photo and completion time cleared; id, creator, before photo, comment, category and creation time kept |
| Store.InsertNewestFirst | database.py:417 | placing a row into the result adds exactly that row |
| Store.InsertKeepsNewestFirst | database.py:417 | ORDER BY created_at DESC is kept by every insertion |
| Store.DistinctIdsAfterInsert | database.py:396-419 | a task is never listed twice |
| Store.InsertFacts | database.py:396-419 | one insertion step of the scan keeps the list ordered and distinct and adds exactly one row |
| Store.PhotosOf | database.py:115-126 | a task's photo list holds exactly the rows with that task id |
| Store.WithoutPhotosOf | database.py:128-135 | deleting a task's photo rows keeps exactly the rows of other tasks |
| Store.PhotosOfAppend | database.py:103-113 | a new photo row is added to its own task's list, at the end, and to no other task's |
| Store.PhotosOfWithout | database.py:128-135 | after deleting task d's photo rows, d's list is empty and every other task's list is unchanged |
| Store.WithoutPhotosOfIdempotent | database.py:545-554 | `delete_task` deletes the photo rows again after the purge already did, and that second deletion changes nothing |
| Store.PhotosOfConcat | database.py:115-126 | the photo list of two row sequences is the concatenation of their lists |
| Store.MinFreeId | database.py:373-379 | the returned id is positive, not in use, and every id from 1 below it is in use |
| Store.MinFreeUnique | database.py:373-379 | that id is determined by the set of existing ids alone |
| Store.Database.constructor | database.py:19-101 | an empty database: no users, tasks or photo rows |
| Store.Database.AddTaskPhoto | database.py:103-113 | one row appended with the next AUTOINCREMENT id; the task's photo list gains it at the end; every other task's list is unchanged (no foreign key is checked) |
| Store.Database.GetTaskPhotos | database.py:115-126 | exactly the rows of the task |
| Store.Database.DeleteAllTaskPhotos | database.py:128-135 | the task's photo list becomes empty; every other task's list is unchanged |
| Store.Database.SetUserRole | database.py:198-251 | INSERT OR REPLACE: the whole row is replaced with the given name and role, creation and activity time now; a falsy category is stored as NULL |
| Store.Database.SetUserCategory | database.py:253-295 | an existing user keeps the role and creation time and gets the new name and category; an unknown user is inserted as an executor with that category |
| Store.Database.UpdateLastActive | database.py:297-315 | only the activity time of an existing user changes; an unknown user is not created |
| Store.Database.MarkUserInactive | database.py:317-347 | role inactive, category NULL; no-op for an unknown user |
| Store.Database.GetUserRole | database.py:137-144 | the stored role, or executor for an unknown user |
| Store.Database.GetUsername | database.py:146-153 | the stored name, present exactly when the user exists |
| Store.Database.GetLastActive | database.py:155-196 | the stored activity time, present exactly when the user exists |
| Store.Database.GetUserCategory | database.py:349-356 | present exactly when the user exists and its category is non-empty, and then that category |
| Store.Database.GetUsersByCategory | database.py:358-365 | exactly the (id, name) pairs of the users of that category, any role, each user once |
| Store.Database.UsersWithRole | database.py:491-507 | exactly the users with that role, each once |
| Store.Database.GetAllExecutors | database.py:491-498 | exactly the executors, each once |
| Store.Database.GetAllManagers | database.py:500-507 | exactly the managers, each once |
| Store.Database.AdvanceClock | database.py:49 | the clock that `CURRENT_TIMESTAMP` reads moves to the given later time and nothing else changes |
| Store.Database.CreateTask | database.py:367-389 | the new id is the smallest positive id not in use; the map gains exactly that row and no other task changes |
| Store.Database.GetTask | database.py:442-469 | present exactly when the id is in use, and then that row |
| Store.Database.GetTasks | database.py:391-440 | exactly the stored rows that match every truthy filter (all rows without filters), each once, newest first |
| Store.Database.UpdateTaskStatus | database.py:471-489 | the row becomes `StatusUpdated` of itself; a missing id changes nothing |
| Store.Database.UpdateTaskComment | database.py:509-515 | only the comment changes; a missing id changes nothing |
| Store.Database.UpdateTaskPhoto | database.py:517-527 | only the legacy before photo id and path change; the photo rows are not touched |
| Store.Database.ResetTaskToNew | database.py:529-543 | the row becomes `ResetRow` of itself and the photo rows are untouched; a missing id changes nothing |
| Store.Database.DeleteTask | database.py:545-554 | the task and its photo rows are gone; every other task and its photo list are unchanged |
| Flow.DisplayName | handlers.py:285 | `username or "Пользователь"`: never empty, and the handle itself when it is truthy |
| Flow.ManagerName | handlers.py:1327 | `username or "Менеджер"`: never empty, and the handle itself when it is truthy |
| Flow.RedoComment | handlers.py:1327-1329 | the new comment is the old comment, then the redo marker, then the manager's name followed by ": ", then the request |
| Flow.RedoHistoryKept | handlers.py:1316-1368 | after any number of redo requests the original comment is still a prefix, and the comment grows by at least the marker per request |
| Flow.BeforePhotoPath | handlers.py:1443 | a creation photo is saved as `photos/before_`, its file id, `.jpg` |
| Flow.AfterPhotoPath | handlers.py:1536 | a completion photo is saved as `photos/after_`, the task id as text, `_`, its file id, `.jpg` |
| Flow.EditedPhotoPath | handlers.py:1610 | a replacement before photo is saved as `photos/before_`, the task id as text, `_`, its file id, `.jpg` |
| Flow.AfterPathsAreNotBeforePaths | handlers.py:1443-1610 | a completion photo's file is never the file of a creation photo or of a replacement before photo |
| Flow.AfterPathInjective | handlers.py:1536 | two completion photos share a file only when they have the same task id and the same file id |
| Flow.IdTextInjective | handlers.py:1536 | different task ids, and a missing one, read differently inside a file name |
| Flow.AlbumPhotoPath | handlers.py:1427-1436 | a later album photo is named as the album's first photo was: the before name for a creation album, the after name with the task id for a completion album |
| Flow.TaskFiles | handlers.py:258-279 | the files `purge_task_files` removes: nothing for a missing task, otherwise its legacy files and the non-empty paths of its photo rows |
| Flow.LegacyPaths | handlers.py:258-279 | the files named by a task's legacy columns are its non-empty before path and its truthy after path |
| Flow.RowPathsSnoc | handlers.py:270-275 | the files of the photo rows grow by one row's non-empty path at a time |
| Flow.MessageRouteOf | handlers.py:1207-1414 | a text goes to code entry, broadcast, creation comment, redo request or edited comment: the first branch whose flag is set, in that order; each route holds exactly when its flag is set and no earlier one is |
| Flow.PhotoRouteOf | handlers.py:1417-1653 | a photo goes to album continuation first, then creation, completion and photo edit: the first branch whose condition holds, in that order; each route holds exactly when its condition holds and no earlier one does |
| Flow.WithAlbum | handlers.py:1460-1464 | the first photo of an album records the album, its task and its kind, so the album's next photo continues it; outside an album nothing changes; no other key is touched (also lines 1519-1522) |
| Flow.AfterCreationPhoto | handlers.py:1454-1521 | a captioned photo leaves the manager in the photo step with "back" leading to the manager menu; a bare photo that opened a task waits for that task's comment; a new task's album is recorded as a 'before' album; a bare album continuation changes nothing |
| Flow.AlbumIsStitched | handlers.py:1427-1464 | once an album's first photo opened a task, the album's next photo continues that task |
| Flow.BarePhotoAwaitsComment | handlers.py:1513-1516 | after a photo without caption opens task id, the manager's next text is that task's comment |
| Flow.CaptionedPhotoAwaitsNextPhoto | handlers.py:1490-1497 | after a captioned photo the manager stays in the photo step and "back" leads to the manager menu |
| Flow.AfterFailedCompletion | handlers.py:1541-1545 | when the photo row cannot be stored, the completion stays open under the same task id; only the album keys may change, and only for the first photo of an album |
| Flow.AfterCompletion | handlers.py:1541-1560 | a single completion photo ends the completion; an album photo keeps it open under the same task id |
| Flow.CompletionAlbumStitched | handlers.py:1541-1560 | after the first photo of an album completes task id, the album's next photo continues it as an "after" photo and does not start a completion again |
| Handlers.Bot.constructor | handlers.py:282-291 | a bot over a database, with no files and no sessions |
| Handlers.Bot.Lookup | handlers.py:1320 | `get_task` of an id that may be None is present exactly when the id is present and in use |
| Handlers.Bot.ExecutorTaskList | handlers.py:79-135 | a user without a category gets nothing; otherwise exactly the New and Redo tasks of the category, all New ones first, as many as the two queries return |
| Handlers.Bot.CategoryCounts | handlers.py:29-42 | one count per category button, in display order: the number of New tasks plus the number of Redo tasks of that category |
| Handlers.Bot.CreationAudience | handlers.py:1467-1478 | the users named for a new task, here and for the comment of a bare photo at line 1275: for "Прочее" every executor with a username, otherwise every user of the task's category with a username; each once, with their names |
| Handlers.Bot.PurgeTaskFiles | handlers.py:258-279 | the task's legacy files and the files of its photo rows are removed and its photo rows deleted; nothing happens for a missing task |
| Handlers.Bot.RemoveRowFiles | handlers.py:270-275 | exactly the non-empty paths of the rows are removed from disk |
| Handlers.Bot.Start | handlers.py:282-291 | `/start`, and the "restart" button at handlers.py line 1123, which runs the same statements: the session is cleared and the user's row is replaced by an executor row without category; each category button shows the number of its New tasks plus the number of its Redo tasks |
| Handlers.Bot.SelectCategory | handlers.py:327-356 | the user's row becomes an executor row of that category (name and times replaced); the user is shown exactly the New and Redo tasks of it |
| Handlers.Bot.BecomeManager | handlers.py:358-372 | the next text is read as the access code |
| Handlers.Bot.BroadcastStart | handlers.py:374-388 | for a manager only: the next text is a broadcast |
| Handlers.Bot.StartTaskCreation | handlers.py:422-441 | for a manager only: the next photo creates a task in that category, any open album is forgotten |
| Handlers.Bot.OpenManagerScreen | handlers.py:443-480 | after the manager's task list, and equally after the review list ("review_tasks") and the review of an existing task ("review_<id>"), "back" leads to the manager menu; a non-manager or a missing task changes nothing |
| Handlers.Bot.KeepTask | handlers.py:749-767 | "back" leads to the manager menu; nothing in the store changes |
| Handlers.Bot.EditCommentButton | handlers.py:694-707 | for a manager only: the next text replaces that task's comment |
| Handlers.Bot.EditPhotoButton | handlers.py:709-722 | for a manager only: the next photo replaces that task's before photo |
| Handlers.Bot.CompleteButton | handlers.py:957-973 | anyone: the next photo completes that task |
| Handlers.Bot.RedoButton | handlers.py:1102-1121 | for a manager only: the next text is the redo request for that task |
| Handlers.Bot.Approve | handlers.py:1077-1100 | a manager sets an existing task to Approved whatever its status; anyone else changes nothing |
| Handlers.Bot.DeleteTask | handlers.py:769-821 | for a manager: the task's files, its photo rows and the task are gone, whatever its status; for anyone else nothing changes |
| Handlers.Bot.BackToMenu | handlers.py:1149-1197 | the manager menu is shown exactly to a manager coming back from a manager screen; any other manager becomes an executor without category; creation and broadcast state are dropped |
| Handlers.Bot.SubmitManagerCode | handlers.py:1214-1240 | the right code makes the user a manager, dropping the category; a wrong code changes nothing |
| Handlers.Bot.SendBroadcast | handlers.py:1243-1264 | the recipients are exactly the executors |
| Handlers.Bot.SubmitCreationComment | handlers.py:1267-1313 | the comment of the task just created is replaced; the manager returns to the photo step; the audience is the task category's |
| Handlers.Bot.SubmitRedoRequest | handlers.py:1316-1368 | the comment becomes `RedoComment` of the old one and the status Redo, and all executors are told; a missing task leaves the store unchanged |
| Handlers.Bot.SubmitEditedComment | handlers.py:1371-1412 | the comment is replaced; a Completed or Approved task also goes back to New, loses its legacy after file, and all executors are told; any other status is untouched |
| Handlers.Bot.SwapBeforeFile | handlers.py:1603-1611 | the task's old legacy before file, when it has one, leaves the disk and the new file is saved |
| Handlers.Bot.Reopen | handlers.py:1379-1394 | for a Completed or Approved task being edited (also lines 1618-1633): its legacy after file is removed, the row is reset to New, and all executors are told |
| Handlers.Bot.HandleMessage | handlers.py:1207-1414 | a text is handled by the branch `MessageRouteOf` picks, with that branch's effect: the access code, the broadcast to all executors, the creation comment and its named audience, the redo comment and Redo status, or the edited comment that reopens a Completed or Approved task; each branch's session update (waiting_for_code, broadcasting, redoing_task or editing_comment cleared with the task id, the creation comment back at the photo step) is stated; only the creation comment names an audience; a text no branch wants changes nothing |
| Handlers.Bot.AppendAlbumPhoto | handlers.py:1427-1436 | a later album photo adds one row of the album's kind to the album's task, and nothing else |
| Handlers.Bot.NewTaskWithPhoto | handlers.py:1457-1460 | a New task under the smallest free id plus exactly one 'before' row equal to its legacy before fields, for a captioned photo here and for a bare one at line 1512 |
| Handlers.Bot.StoreCreationPhoto | handlers.py:1439-1528 | a photo of the open album adds only a 'before' row to the album's task; any other photo creates one New task with one matching 'before' row |
| Handlers.Bot.CreateFromPhoto | handlers.py:1439-1528 | as `StoreCreationPhoto`, with the caption as comment when it has text, else the placeholder; the conversation moves on as `AfterCreationPhoto` says |
| Handlers.Bot.CompleteWithPhoto | handlers.py:1531-1592 | a single photo, or an album's first, sets Completed with the sender as completer; every stored photo adds exactly one 'after' row and all managers are told |
| Handlers.Bot.StoreCompletionPhoto | handlers.py:1541-1549 | a photo that starts the completion sets Completed with the sender, the file id and path and the time; a later album photo leaves the row alone; every photo adds one 'after' row |
| Handlers.Bot.ReplaceTaskPhoto | handlers.py:1595-1651 | the legacy before photo is replaced on disk and in the row; a Completed or Approved task also goes back to New, loses its legacy after file, and all executors are told |
| Handlers.Bot.HandlePhoto | handlers.py:1417-1653 | a photo is handled by the branch `PhotoRouteOf` picks, with that branch's effect: one more row for the open album, a New task with its 'before' row, the Completed status with one 'after' row and the managers told, or the replaced before photo that reopens a Completed or Approved task; each branch's session update is stated, and an album photo keeps the session so the rest of the album is stitched to the same task; a captioned creation photo names an audience but messages nobody; a photo no branch wants changes nothing |
| Scenarios.CodeEntry | handlers.py:1214-1240 | a wrong access code changes nothing; the right one turns the executor of "Зал" into a manager without a category |
| Scenarios.Creation | handlers.py:1439-1497 | a manager who posts a captioned photo creates task 1 with the caption as comment and status New |
| Scenarios.CategoryChoice | handlers.py:327-356 | an executor picking a category is shown exactly that category's New task |
| Scenarios.Lifecycle | handlers.py:1531-1592 | one completion photo, then the manager's approval (line 1077): the task ends Approved with the executor as completer, and only the manager was told |
| Scenarios.IdReuse | database.py:373-379 | tasks 1 and 2 are created; after 1 is deleted, the next task is 1 again |
| Scenarios.AlbumCompletion | handlers.py:1427-1592 | a two-photo album completes the task once with the first photo as legacy after photo, and leaves two 'after' rows |
| Scenarios.LaterTaskListedFirst | database.py:391-440 | a task created after the clock has moved carries the later `created_at`, and the unfiltered listing shows it before the older task |
| Scenarios.ExecutorCannotApprove | handlers.py:1077-1081 | an executor's approve, and its confirmed delete (line 799), leave a completed task as it was |

## Left out

- Telegram itself is not modelled: keyboards, sent, edited and deleted messages, the message ids kept in `user_data`, the `cleanup_*` helpers, `send_media_group`, and the `last_review_task_id` entry. The screens that only render (`select_category`, `view_tasks_executor`, `view_task_photo_`, `report_photo_`, `task_`, `delete_task_`, which only asks for confirmation) change nothing the model holds.
- The filesystem: `files` is the set of paths on disk. A download adds a path and a removal takes it away. `os.path.exists` checks, `ensure_photos_dir` and I/O errors are not modelled.
- SQLite itself: connections, schema probing and `ALTER TABLE` migrations, and the retry and exception branches of `set_user_role`, `set_user_category`, `update_last_active` and `get_last_active`. The model is the table contents after each statement.
- Timestamps: `CURRENT_TIMESTAMP` is an abstract clock, and `get_last_active` returns the stored value without the `datetime.fromisoformat` parsing.
- A NULL `username` column is modelled as the empty string. Both are falsy, so the audience and display-name rules treat them alike. The handlers themselves always store a non-empty name, falling back to "Пользователь".
- Integers are unbounded. SQLite's 64-bit ids and Telegram's ids never come near the limit in these operations.
- Broadcast delivery and the per-recipient exceptions it swallows: `SendBroadcast` returns the recipients only.
- `MANAGER_CODE` and the `STATUS_*` constants live in `config.py`, which is not part of this model. The code is a parameter and the statuses are an enum.
- Handlers.Bot.Start: the "restart" button runs the same statements as `/start`, so one member models both.
- Handlers.Bot.SubmitManagerCode: the role is read back right after `set_user_role`, with an error reply when it is not manager. That check is not modelled, because the read always finds the row just written.
- Handlers.Bot.PurgeTaskFiles: it takes only the task id. Both callers pass a row fetched from the store just before, which is what the method looks up itself.
- Handlers.Bot.CreateFromPhoto: the `photo_id` and `photo_path` entries written to `user_data` are never read again and are not part of `UserData`. The difference between a missing `task_category` key and one holding None is not modelled either. `back_to_menu` stores None there (handlers.py:1154), but it also clears `creating_task`. Only `create_task_` sets `creating_task` again, and it writes the category first (handlers.py:435-437). So neither creation branch ever reads a None category.
- Handlers.Bot.CompleteWithPhoto: when the session holds no task id, `add_task_photo` violates the NOT NULL constraint. The model stops that branch there, as the exception does: the status update earlier in the branch matched no row, no row is added and nobody is told.
- Handlers.Bot.SubmitCreationComment: `CreationAudience` is the list of users named in the manager's reply. The source sends them nothing, and the model returns them without any notification.
- Handlers.Bot.SubmitEditedComment and Handlers.Bot.ReplaceTaskPhoto:
  - they notify all executors, not only those of the task's category, as the code does;
  - the 'after' photo rows of a reopened task are kept;
  - only the legacy after file is removed from disk.
- Handlers.Bot.ReplaceTaskPhoto: only the legacy 'before' columns change. The task's 'before' photo rows are not touched, as the code does.
- No transition is guarded by the current status, as the code does:
  - approve, redo and completion accept a task in any status;
  - `delete_approved_` does not check that the task is Approved.
