# Exam Buddy: a verified model of the study store

Exam Buddy is a small Flask application for planning exams. A student records
exams, attaches tasks, uploaded note files and flashcards to each exam, ticks
tasks off, and looks at the exam list, a countdown of upcoming exams and a
progress percentage per exam. The data lives in four SQLAlchemy tables (exams,
tasks, notes, flashcards) and an upload folder.

This project models that core in Dafny:

- `records.dfy` (module `Records`): the four record shapes, calendar dates,
  the defaults of a new task, and `progress_percentage` with its properties.
- `tables.dfy` (module `Tables`): one database table keyed by an integer
  primary key. A new row gets one more than the largest id, or 1 when the
  table is empty, which is SQLite's rule for an INTEGER PRIMARY KEY without
  AUTOINCREMENT. Rows are read back in ascending id order. The module also
  gives the one-to-many relationship (`Owned`) and its delete cascade
  (`RemoveOwned`).
- `titles.dfy` (module `Titles`): the derived exam title
  `subject + " Exam - " + Month DD, YYYY`, and a parser that reads the date
  back, which shows that the title determines the date.
- `uploads.dfy` (module `Uploads`): `allowed_file`, the stored file name
  `token + "_" + sanitized name`, and the POSIX path join into the upload
  folder. `ascii.dfy` (module `Ascii`) holds the ASCII lower-casing used here
  and by the search.
- `listing.dfy` (module `Listing`): the search and the three orders of the
  exam list, and the countdown filter.
- `store.dfy` (module `StudyStore`): the class `Store`. Its fields are the
  four tables and the upload folder, a map from stored file name to content.
  It has one method per state-changing handler and one function per
  read-only view. Its invariant `Valid()` says four things:
  - every row sits under its own id;
  - every task, note and flashcard points at an existing exam (the non-null
    foreign keys);
  - no two notes share a stored file name;
  - every id lies below the table's bound.
  Every method keeps this invariant.

Each handler is one atomic step. A missing id gives `NotFound` and changes
nothing; that is the 404 of `first_or_404` and `get_or_404`. A request that
lacks a required form field, or whose date or time does not parse, gives
`InvalidForm` and changes nothing. That is the `except` branch that flashes an
error without committing. The upload handler's two refusals are
`NoFileSelected` and `InvalidFileType`.

Library calls enter as parameters, as follows:

- `secure_filename` is a `sanitize` function.
- `uuid4` is a `token` string. The precondition `FreshToken` says that no
  stored name starts with `token + "_"`.
- `strptime` results arrive as already parsed `Date`/`Time` values, or as
  `None` on a parse failure.
- `datetime.utcnow` is a `now: nat` timestamp.
- `os.path.getsize` is the length of the content written.
- `date.today()` is a `today` argument.

A substring search reads as case-sensitive, but the code runs it through
SQLAlchemy's `contains` operator, which is a SQL `LIKE`. On the configured
default database, SQLite, `LIKE` ignores the case of ASCII letters. The model
follows the code: `Listing.Matches` compares both sides after lower-casing
ASCII letters.

## Model

| member | source | states |
|---|---|---|
| Ascii.Lower | exam-buddy/app/routes.py:12 | the lowered string has the same length and each character is the ASCII-lowered original |
| Ascii.LowerChar | exam-buddy/app/routes.py:12 | definition: `A`-`Z` map to `a`-`z` and every other character is kept, as `str.lower` does on ASCII |
| Ascii.LowerIdempotent | exam-buddy/app/routes.py:12 | lowering an already lowered string changes nothing |
| Records.Task.Toggled | exam-buddy/app/routes.py:138 | the completed flag is negated and every other field of the task is kept |
| Records.NewTask | exam-buddy/app/models.py:28-34 | a new task is not completed, its priority is "medium" unless one is given, and its other fields are the given ones |
| Records.DateLe | exam-buddy/app/routes.py:28 | definition: dates compare by year, then month, then day, as `Exam.date.asc()` orders them |
| Records.IsLeapYear | exam-buddy/app/routes.py:42 | definition: the Gregorian leap-year rule that `strptime`'s day check applies |
| Records.DaysInMonth | exam-buddy/app/routes.py:42 | definition: 29 days in a leap February, 28 otherwise, 30 in April, June, September and November, 31 in the rest |
| Records.ValidDate | exam-buddy/app/routes.py:42 | definition: year 1 to 9999, month 1 to 12 and a day within the month, the dates `strptime('%Y-%m-%d')` accepts |
| Records.CompletedCount | exam-buddy/app/models.py:25 | the number of completed tasks never exceeds the number of tasks |
| Records.ProgressPercentage | exam-buddy/app/models.py:21-26 | the percentage is 0 for an exam without tasks and never exceeds 100 |
| Records.ProgressIsTruncatedShare | exam-buddy/app/models.py:25-26 | with tasks present, the percentage `p` satisfies `p*n <= 100*k < (p+1)*n`: it is the completed share in percent truncated toward zero |
| Records.AllCompletedCount | exam-buddy/app/models.py:25 | when every task is completed the count is the number of tasks |
| Records.NoneCompletedCount | exam-buddy/app/models.py:25 | when no task is completed the count is 0 |
| Records.ProgressAllCompleted | exam-buddy/app/models.py:21-26 | a non-empty task list with every task completed gives 100 |
| Records.ProgressNoneCompleted | exam-buddy/app/models.py:21-26 | a task list with no task completed gives 0 |
| Records.CompleteOneCount | exam-buddy/app/models.py:25 | completing one open task raises the completed count by exactly one |
| Records.ProgressMonotone | exam-buddy/app/models.py:25-26 | completing one more task never lowers the percentage |
| Tables.Table.NextIdBelow | exam-buddy/app/models.py:7 | the id found is positive, unused, above every id present, and either 1 or one more than a present id |
| Tables.Table.NextId | exam-buddy/app/models.py:7 | the next id is positive, unused, above every id, and is 1 for an empty table or one more than the largest id |
| Tables.Table.Insert | exam-buddy/app/routes.py:58-59 | adding a row stores it under the next id, leaves every other row, and keeps the table well formed |
| Tables.Table.Update | exam-buddy/app/routes.py:138 | an update replaces one existing row and keeps the set of ids |
| Tables.Table.UpdateRestores | exam-buddy/app/routes.py:138 | writing a row's old value back after an update gives the original table |
| Tables.Table.Remove | exam-buddy/app/routes.py:147 | deleting a row removes exactly that id and keeps every other row unchanged |
| Tables.Table.SelectBelow | exam-buddy/app/models.py:14-16 | a filtered query below an id limit returns one row per accepted id, each accepted record as often as ids below the limit hold it, and no rejected record |
| Tables.Table.Values | exam-buddy/app/routes.py:244 | a full-table query returns as many rows as the table holds, each record as often as there are ids holding it, and exactly the stored records |
| Tables.Table.Owned | exam-buddy/app/models.py:14-16 | a relationship returns one row per id whose foreign key is the parent, each record as often as ids hold it, and exactly the children of the parent |
| Tables.Table.RemoveOwned | exam-buddy/app/models.py:14-16 | the cascade keeps the table well formed and its id bound |
| Tables.Table.RemoveOwnedRows | exam-buddy/app/models.py:14-16 | the cascade keeps exactly the rows not owned by the parent, unchanged, so no child of the parent remains |
| Tables.Table.KeyedHeldOnce | exam-buddy/app/models.py:7 | when every record carries its own primary key, a stored record is held by exactly one id and any other record by none |
| Tables.Table.KeyedValuesOnce | exam-buddy/app/models.py:7 | when every record carries its own primary key, a full-table query lists each stored record exactly once |
| Tables.Table.KeyedOwnedOnce | exam-buddy/app/models.py:14-16 | when every record carries its own primary key, a relationship lists each child of the parent exactly once and nothing else |
| Tables.EmptyTable | exam-buddy/app/__init__.py:19-20 | a freshly created table is well formed and has no rows |
| Tables.Where | exam-buddy/app/routes.py:22-25 | a query filter keeps each row the predicate accepts, as often as it occurs, and drops the rest |
| Titles.MonthNumber | exam-buddy/app/routes.py:43 | a non-zero result is a month whose name is the text, and the result is 0 exactly when the text is no month name |
| Titles.MonthName | exam-buddy/app/routes.py:43 | definition: the English month names `%B` prints in the C locale, January to December; `MonthNameRoundTrip` and `MonthNumber` invert it |
| Titles.MonthNameRoundTrip | exam-buddy/app/routes.py:43 | each month's name reads back as that month |
| Titles.Pad2 | exam-buddy/app/routes.py:43 | the day prints as two decimal digits whose value is the day |
| Titles.Pad4 | exam-buddy/app/routes.py:43 | the year prints as four decimal digits whose value is the year |
| Titles.FormatDate | exam-buddy/app/routes.py:43 | definition: the month name, a space, the two-digit day, ", " and the four-digit year, as `strftime('%B %d, %Y')` prints; `DisplayDateRoundTrip` inverts it |
| Titles.ExamTitle | exam-buddy/app/routes.py:43 | definition: the subject, " Exam - " and the formatted date; `ExamTitleInjective` and `ExamTitleExample` state its properties |
| Titles.Pad2Number | exam-buddy/app/routes.py:43 | two printed digits read back as the number printed |
| Titles.Pad4Number | exam-buddy/app/routes.py:43 | four printed digits read back as the number printed |
| Titles.DisplayDateRoundTrip | exam-buddy/app/routes.py:43 | the printed date `Month DD, YYYY` parses back to the same date |
| Titles.ParseDisplayDate | exam-buddy/app/routes.py:43 | definition: reads "<month name> <two digits>, <four digits>" back as a date; `DisplayDateRoundTrip` shows it inverts `FormatDate` |
| Titles.ExamTitleInjective | exam-buddy/app/routes.py:43 | for one subject, two exam titles are equal only when the dates are |
| Titles.ExamTitleExample | exam-buddy/app/routes.py:43 | Physics on 1 June 2025 gets the title "Physics Exam - June 01, 2025" |
| Uploads.LastDot | exam-buddy/app/routes.py:11-12 | there is a result exactly when the name contains a '.', and it is the position of the last one |
| Uploads.IsLastDot | exam-buddy/app/routes.py:11-12 | definition: position i holds a '.' and no later position does, the split point of `rsplit('.', 1)` stated without a search |
| Uploads.LastDotUnique | exam-buddy/app/routes.py:12 | the last '.' is unique, so the split at it is determined |
| Uploads.LastDotExtension | exam-buddy/app/routes.py:11-12 | testing the text after the last '.' is the same as asking for some last '.' followed by such text |
| Uploads.AllowedFile | exam-buddy/app/routes.py:10-12 | definition: a '.' is present and the ASCII-lowered text after the last one is an allowed extension; `AllowedFileSpec` restates it without `LastDot` |
| Uploads.AllowedExtension | exam-buddy/app/routes.py:12 | definition: the ASCII-lowered extension is in `ALLOWED_EXTENSIONS`, the eight names `txt`, `pdf`, `png`, `jpg`, `jpeg`, `gif`, `doc`, `docx` configured at exam-buddy/config.py line 10 |
| Uploads.AllowedFileSpec | exam-buddy/app/routes.py:10-12 | a file name is allowed exactly when it has a last '.' and the lowered text after it is one of the configured extensions |
| Uploads.AllowedFileAccepts | exam-buddy/config.py:10 | "a.PDF" and "x.tar.pdf" are allowed |
| Uploads.AllowedFileRejects | exam-buddy/config.py:10 | "noext", "file." and "notes.pdf.exe" are refused |
| Uploads.StoredName | exam-buddy/app/routes.py:172 | the stored name starts with the token and '_' and continues with the sanitized name |
| Uploads.StoredNamesDistinct | exam-buddy/app/routes.py:171-172 | two different tokens of the same length (as uuid4 strings are) never give the same stored name |
| Uploads.JoinPathEndsWithName | exam-buddy/app/routes.py:173 | the joined path ends with the file name |
| Uploads.JoinUploadFolder | exam-buddy/config.py:8 | a relative name joins to the upload folder as `app/static/uploads/<name>` |
| Uploads.JoinPath | exam-buddy/app/routes.py:173 | definition: `os.path.join` on POSIX paths (an absolute name replaces the folder, a separator is added unless the folder ends in one); `JoinPathEndsWithName` and `JoinUploadFolder` state its properties |
| Listing.ContainsSpec | exam-buddy/app/routes.py:23-24 | the containment test holds exactly when the pattern occurs at some position of the text |
| Listing.Contains | exam-buddy/app/routes.py:23-24 | definition: the pattern is a prefix of the text or of one of its suffixes; `ContainsSpec` shows this is occurrence at some position |
| Listing.OccursAt | exam-buddy/app/routes.py:23-24 | definition: the pattern occurs in the text starting at position i, the independent reference for `Contains` |
| Listing.Matches | exam-buddy/app/routes.py:23-24 | definition: the ASCII-lowered title or subject contains the ASCII-lowered term, as `LIKE` on SQLite compares |
| Listing.MatchesIgnoresCase | exam-buddy/app/routes.py:23-24 | searching "physics" finds an exam whose subject is "Physics" |
| Listing.Searched | exam-buddy/app/routes.py:21-25 | an empty term keeps every exam, and a non-empty term keeps exactly the matching ones, each as often as it occurs |
| Listing.SearchTerm | exam-buddy/app/routes.py:16 | definition: the `search` argument, or "" when it is absent |
| Listing.Found | exam-buddy/app/routes.py:21-25 | definition: the term is empty, which skips the filter, or the exam matches it; `Searched` and `Index` are stated with it |
| Listing.EmptyTermMatchesAll | exam-buddy/app/routes.py:21 | every exam matches the empty term, so skipping the filter for it changes nothing |
| Listing.SortKeyOf | exam-buddy/app/routes.py:17 | a missing `sort` or "date" orders by date, "title" by title, and any other value by creation time, newest first |
| Listing.LexLeTotal | exam-buddy/app/routes.py:30 | any two titles are comparable |
| Listing.LexLe | exam-buddy/app/routes.py:30 | definition: comparison by code point, a prefix first, as SQLite's binary collation orders titles; the three lemmas below show it is a total order |
| Listing.LexLeAntisymmetric | exam-buddy/app/routes.py:30 | two titles ordered both ways are equal |
| Listing.LexLeTransitive | exam-buddy/app/routes.py:30 | the title order is transitive |
| Listing.Before | exam-buddy/app/routes.py:27-32 | definition: by date ascending, by title ascending, or by creation time descending; `BeforeTotal` and `BeforeTransitive` show each is a total preorder |
| Listing.Sorted | exam-buddy/app/routes.py:27-32 | definition: every earlier element comes before every later one in the chosen order |
| Listing.BeforeTotal | exam-buddy/app/routes.py:27-32 | each of the three orders relates any two exams one way or the other |
| Listing.BeforeTransitive | exam-buddy/app/routes.py:27-32 | each of the three orders is transitive |
| Listing.InsertSorted | exam-buddy/app/routes.py:27-32 | inserting into a sorted list gives a sorted list with exactly one more element |
| Listing.SortBy | exam-buddy/app/routes.py:27-32 | the result is sorted in the requested order and is a permutation of the input |
| Listing.ListExams | exam-buddy/app/routes.py:14-34 | the list is sorted in the order `sort` selects and is a permutation of the exams the search keeps |
| Listing.ListExamsMembers | exam-buddy/app/routes.py:21-25 | an exam is listed exactly when it is stored and the search keeps it |
| Listing.Countdown | exam-buddy/app/routes.py:229 | the countdown is in ascending date order and is a permutation of the exams dated today or later |
| Listing.CountdownMembers | exam-buddy/app/routes.py:229 | an exam is in the countdown exactly when it is stored and dated today or later |
| StudyStore.NewExam | exam-buddy/app/routes.py:39-64 | an exam is built exactly when subject and date are present and a given time parses; it gets the derived title, the given subject and date, no time for a blank field, "" for a missing description, otherwise InvalidForm |
| StudyStore.EditedExam | exam-buddy/app/routes.py:73-81 | an edit succeeds exactly when title, subject and date are present and a given time parses; it keeps id and creation time and takes every form field, with no time for a blank field and "" for a missing description |
| StudyStore.Complete | exam-buddy/app/routes.py:40-47 | definition: subject and date are present and a given time parsed, the fields whose absence or bad format raises in the handler |
| StudyStore.ParsedDateValid | exam-buddy/app/routes.py:42 | definition: a date that arrived parsed is a real calendar date (`ValidDate`), as `strptime` only returns those; it is the date half of the form at routes.py:76 too |
| StudyStore.TimeOf | exam-buddy/app/routes.py:45-47 | definition: a blank time field gives None and a given one its parsed value, as both handlers do (also routes.py:77-80) |
| StudyStore.Consistent | exam-buddy/app/models.py:34 | definition of the store invariant: every table well formed, every row under its own id, every task, note and flashcard pointing at a stored exam (the non-null foreign keys at models.py lines 34, 46 and 56), and no two notes sharing a stored name |
| StudyStore.CascadeConsistent | exam-buddy/app/models.py:14-16 | removing an exam with its tasks, notes and flashcards keeps every foreign key pointing at an existing exam |
| StudyStore.NoteFiles | exam-buddy/app/routes.py:96-97 | definition: the stored file names of the given notes, the files `delete_exam` removes |
| StudyStore.NoteInsertConsistent | exam-buddy/app/models.py:46 | a note of an existing exam with an unused stored name can be added without breaking the invariant |
| StudyStore.RemoveNoteFiles | exam-buddy/app/routes.py:96-99 | the loop over an exam's notes leaves the folder minus exactly those notes' stored files, skipping files that are not there |
| StudyStore.Store.constructor | exam-buddy/app/__init__.py:19-20 | a new store has empty tables and an empty upload folder and is consistent |
| StudyStore.Store.Valid | exam-buddy/app/models.py:46 | definition: the store's fields satisfy `Consistent`; every method requires and ensures it |
| StudyStore.Store.FreshToken | exam-buddy/app/routes.py:172 | definition: no stored note name starts with the token and '_', which a uuid4 token gives |
| StudyStore.Store.ValidKeyed | exam-buddy/app/models.py:7 | in a consistent store every exam, task, note and flashcard carries its own id |
| StudyStore.Store.AddExam | exam-buddy/app/routes.py:36-66 | a complete form adds exactly one exam, the one `NewExam` builds, under the next id; otherwise it gives InvalidForm. Every other table and the folder stay the same |
| StudyStore.Store.EditExam | exam-buddy/app/routes.py:68-89 | an unknown id gives NotFound; for a stored exam the edit succeeds exactly when title, subject and date are present and a given time parses, replacing that one exam by its edit, and otherwise fails with InvalidForm and changes nothing |
| StudyStore.Store.DeleteExam | exam-buddy/app/routes.py:91-107 | an unknown id gives NotFound and changes nothing; otherwise the exam, exactly its tasks, notes and flashcards, and exactly its notes' stored files are removed, and everything else stays |
| StudyStore.Store.AddTask | exam-buddy/app/routes.py:114-133 | it succeeds exactly when the exam exists and a description is given, adding exactly one open task with the given or default priority under the next id; an unknown exam gives NotFound, a missing description InvalidForm, and a failure changes nothing |
| StudyStore.Store.ToggleTask | exam-buddy/app/routes.py:135-140 | an unknown id gives NotFound; otherwise only that task's completed flag flips |
| StudyStore.Store.DeleteTask | exam-buddy/app/routes.py:142-153 | an unknown id gives NotFound; otherwise only that task is removed |
| StudyStore.Store.UploadNote | exam-buddy/app/routes.py:155-195 | an unknown exam gives NotFound; no file or an empty name gives NoFileSelected; a refused extension gives InvalidFileType, and none of these writes a file or a note. Otherwise the bytes are stored under `token_sanitized` and one note is added with that name, the sanitized name, the joined path, the content's size and the exam |
| StudyStore.Store.DeleteNote | exam-buddy/app/routes.py:208-225 | an unknown id gives NotFound; otherwise the note's stored file is removed if present and only that note is removed |
| StudyStore.Store.AddFlashcard | exam-buddy/app/routes.py:252-271 | it succeeds exactly when the exam exists and topic and summary are given, adding exactly one flashcard under the next id; an unknown exam gives NotFound, a missing field InvalidForm, and a failure changes nothing |
| StudyStore.Store.DeleteFlashcard | exam-buddy/app/routes.py:273-284 | an unknown id gives NotFound; otherwise only that flashcard is removed |
| StudyStore.Store.Index | exam-buddy/app/routes.py:14-34 | the index lists each stored exam the search keeps exactly once and nothing else, in the order `sort` selects |
| StudyStore.Store.Countdown | exam-buddy/app/routes.py:227-230 | the countdown lists each stored exam dated today or later exactly once and nothing else, earliest first |
| StudyStore.Store.AllExams | exam-buddy/app/routes.py:242-245 | the flashcards page lists each stored exam exactly once, as many as the table holds |
| StudyStore.Store.TasksOf | exam-buddy/app/models.py:14 | an exam's tasks are each stored task with that exam id exactly once, as many as there are such ids |
| StudyStore.Store.NotesOf | exam-buddy/app/models.py:15 | an exam's notes are each stored note with that exam id exactly once |
| StudyStore.Store.FlashcardsOf | exam-buddy/app/models.py:16 | an exam's flashcards are each stored flashcard with that exam id exactly once |
| StudyStore.Store.ExamProgress | exam-buddy/app/routes.py:232-239 | an unknown id gives NotFound; otherwise the total is the number of stored tasks of that exam, the completed count is at most the total, and the progress is the exam's percentage, at most 100 |
| StudyStore.Store.ExamDetail | exam-buddy/app/routes.py:109-112 | an unknown id gives NotFound; otherwise the exam with each of its own tasks, notes and flashcards exactly once and no other row (the same view serves `exam_flashcards`) |
| StudyStore.ToggleTwice | exam-buddy/app/routes.py:135-140 | toggling the same task twice leaves the whole store as it was, whether or not the id exists |

The integer lemmas `Records.MulMonotone`, `Records.DivUnique`,
`Records.DivMonotone`, `Records.DivBounds` and `Records.MulDivCancel` are
arithmetic helpers for the percentage proofs, and `Tables.Table.PickedStep`,
`Tables.Table.HeldStep` and `Tables.Table.HeldIffValue` are set-counting
helpers for `SelectBelow`; they model nothing of their own.

## Left out

- Flask plumbing is not modelled: templates, redirects, flashed messages, JSON encoding and the GET form pages. Each handler's outcome is its `Outcome` value.
- `download_note` is not modelled. It only serves a stored file, from a folder computed differently from the upload folder.
- SQLAlchemy sessions, commits and transactions are not modelled; each handler is one atomic update.
- StudyStore.Store.DeleteExam: file removal is total. In the source a failing `os.remove` raises inside the `try` and aborts the handler before the rows are deleted, and earlier removals are not undone; I/O failures are outside the model.
- StudyStore.Store.DeleteNote: file removal is total. In the source a failing `os.remove` jumps to the `except` and the Note row is kept; the model always removes the row, and I/O failures are outside the model.
- StudyStore.Store.UploadNote: a failing `file.save` or `getsize` is not modelled, and the fresh token is a precondition (`FreshToken`). Nothing proves that `uuid4` tokens are fresh.
- Records.ProgressPercentage: the source computes `int((k / n) * 100)` in floating point, which can fall one below the exact integer share. For example, 29 of 100 tasks gives 28 in the source and 29 in the model. The model uses exact integer division.
- Listing.Matches: `%` and `_` in the search term act as LIKE wildcards in the source; the model treats them as plain characters. Other databases behind `DATABASE_URL`, whose LIKE may respect case, are not modelled.
- Listing.SortBy: the database promises no order among exams with equal keys; the model sorts stably and its contracts only promise sorted order and a permutation.
- The title order is SQLite's binary collation, modelled as a comparison by code point (`Listing.LexLe`), which UTF-8 byte order agrees with.
- Ascii.Lower: Python's `str.lower` also lowers non-ASCII letters. For the extension check this makes no difference, because no non-ASCII letter lowers to a name in the all-ASCII allowed set. Only two such letters lower to anything ASCII. The Kelvin sign lowers to `k`, which no allowed extension contains. The dotted capital I lowers to `i` followed by a combining dot, which is not ASCII.
- Library calls are inputs: `secure_filename` is `sanitize`, `uuid4` is `token`, `datetime.utcnow` is `now`, and `date.today` is `today`. `strptime` results arrive parsed, and an unparsable date or time is `None`.
- The framework's `MAX_CONTENT_LENGTH` limit of 500 MiB, the column length limits, and the `low`/`medium`/`high` comment on priority are not enforced by the code and are not modelled.
- Application setup (`create_app`, `db.create_all`, `makedirs`), the configuration's secret key and database URI, and the browser scripts under `static/js` are not modelled.
