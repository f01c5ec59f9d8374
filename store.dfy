/**
 * The request handlers as operations on an in-memory study store: one table per
 * record kind and the upload folder as a map from stored file names to their
 * bytes. Each handler is one atomic update; a missing id gives NotFound and
 * changes nothing.
 */
module StudyStore {
  import opened Optional
  import opened Records
  import opened Tables
  import opened Uploads
  import Listing
  import Titles

  /** How a handler fails: a 404, or the error message it flashes before redirecting. */
  datatype Error = NotFound | InvalidForm | NoFileSelected | InvalidFileType

  datatype Outcome<T> = Ok(value: T) | Fail(error: Error)

  /** The optional `time` field: absent or empty, or given and parsed with `%H:%M` (None when that fails). */
  datatype TimeField = Blank | Given(parsed: Option<Time>)

  /** The fields of the exam forms that create and edit share; a date that does not parse is None. */
  datatype ExamForm = ExamForm(subject: Option<string>, date: Option<Date>, time: TimeField, description: Option<string>)

  /** The `file` part of an upload request: the client's file name and the bytes sent. */
  datatype Upload = Upload(filename: string, content: seq<bv8>)

  /** The body of the progress API. */
  datatype Progress = Progress(progress: nat, completedTasks: nat, totalTasks: nat)

  /** An exam with its owned rows, as the detail page shows them. */
  datatype Detail = Detail(exam: Exam, tasks: seq<Task>, notes: seq<Note>, flashcards: seq<Flashcard>)

  function TaskOwner(t: Task): nat { t.examId }
  function NoteOwner(n: Note): nat { n.examId }
  function FlashcardOwner(f: Flashcard): nat { f.examId }

  function ExamKey(e: Exam): nat { e.id }
  function TaskKey(t: Task): nat { t.id }
  function NoteKey(n: Note): nat { n.id }
  function FlashcardKey(f: Flashcard): nat { f.id }

  /** A parsed date is a real calendar date (what `strptime` produces). */
  predicate ParsedDateValid(form: ExamForm) {
    form.date.Some? ==> ValidDate(form.date.value)
  }

  /** Every required field is there and every given field parses. */
  predicate Complete(form: ExamForm) {
    form.subject.Some? && form.date.Some? && !(form.time.Given? && form.time.parsed.None?)
  }

  function TimeOf(t: TimeField): Option<Time> {
    if t.Blank? then None else t.parsed
  }

  /** The exam the create handler builds from `form`, or why it refuses. */
  function NewExam(id: nat, form: ExamForm, createdAt: nat): (r: Outcome<Exam>)
    requires ParsedDateValid(form)
    ensures r.Ok? <==> Complete(form)
    ensures r.Fail? ==> r.error == InvalidForm
    ensures r.Ok? ==> r.value.id == id && r.value.createdAt == createdAt
    ensures r.Ok? ==> r.value.subject == form.subject.value && r.value.date == form.date.value
    ensures r.Ok? ==> r.value.title == Titles.ExamTitle(form.subject.value, form.date.value)
    ensures r.Ok? && form.time.Blank? ==> r.value.time == None
    ensures r.Ok? && form.time.Given? ==> r.value.time == form.time.parsed
    ensures r.Ok? && form.description.None? ==> r.value.description == ""
    ensures r.Ok? && form.description.Some? ==> r.value.description == form.description.value
  {
    if !Complete(form) then Fail(InvalidForm)
    else
      var subject, date := form.subject.value, form.date.value;
      Ok(Exam(id, Titles.ExamTitle(subject, date), subject, date, TimeOf(form.time),
              form.description.GetOr(""), createdAt))
  }

  /** The exam the edit handler makes of `e`, or why it refuses; id and creation time stay. */
  function EditedExam(e: Exam, title: Option<string>, form: ExamForm): (r: Outcome<Exam>)
    ensures r.Ok? <==> title.Some? && Complete(form)
    ensures r.Fail? ==> r.error == InvalidForm
    ensures r.Ok? ==> r.value.id == e.id && r.value.createdAt == e.createdAt
    ensures r.Ok? ==> r.value.title == title.value && r.value.subject == form.subject.value
    ensures r.Ok? ==> r.value.date == form.date.value && r.value.time == TimeOf(form.time)
    ensures r.Ok? ==> r.value.description == form.description.GetOr("")
  {
    if title.None? || !Complete(form) then Fail(InvalidForm)
    else
      Ok(e.(title := title.value, subject := form.subject.value, date := form.date.value,
            time := TimeOf(form.time), description := form.description.GetOr("")))
  }

  /** The stored file names of `notes`. */
  function NoteFiles(notes: seq<Note>): set<string> {
    set n | n in notes :: n.filename
  }

  /**
   * Every row sits under its own id, every task, note and flashcard refers
   * to an existing exam (the non-null foreign keys), and no two notes share
   * a stored file name.
   */
  ghost predicate Consistent(exams: Table<Exam>, tasks: Table<Task>, notes: Table<Note>, flashcards: Table<Flashcard>) {
    && exams.Valid() && tasks.Valid() && notes.Valid() && flashcards.Valid()
    && (forall id :: id in exams.rows ==> exams.rows[id].id == id)
    && (forall id :: id in tasks.rows ==> tasks.rows[id].id == id && tasks.rows[id].examId in exams.rows)
    && (forall id :: id in notes.rows ==> notes.rows[id].id == id && notes.rows[id].examId in exams.rows)
    && (forall id :: id in flashcards.rows ==>
          flashcards.rows[id].id == id && flashcards.rows[id].examId in exams.rows)
    && (forall a, b :: a in notes.rows && b in notes.rows && a != b ==>
          notes.rows[a].filename != notes.rows[b].filename)
  }

  /** Deleting an exam with everything it owns leaves no row pointing at a missing exam. */
  lemma CascadeConsistent(exams: Table<Exam>, tasks: Table<Task>, notes: Table<Note>, flashcards: Table<Flashcard>, id: nat)
    requires Consistent(exams, tasks, notes, flashcards)
    ensures Consistent(exams.Remove(id), tasks.RemoveOwned(TaskOwner, id), notes.RemoveOwned(NoteOwner, id),
                       flashcards.RemoveOwned(FlashcardOwner, id))
  {
    var e := exams.Remove(id);
    var t := tasks.RemoveOwned(TaskOwner, id);
    var n := notes.RemoveOwned(NoteOwner, id);
    var f := flashcards.RemoveOwned(FlashcardOwner, id);
    tasks.RemoveOwnedRows(TaskOwner, id);
    notes.RemoveOwnedRows(NoteOwner, id);
    flashcards.RemoveOwnedRows(FlashcardOwner, id);
    assert forall k :: k in t.rows ==> t.rows[k].examId in e.rows by {
      forall k | k in t.rows ensures t.rows[k].examId in e.rows {
        assert TaskOwner(tasks.rows[k]) != id;
      }
    }
    assert forall k :: k in n.rows ==> n.rows[k].examId in e.rows by {
      forall k | k in n.rows ensures n.rows[k].examId in e.rows {
        assert NoteOwner(notes.rows[k]) != id;
      }
    }
    assert forall k :: k in f.rows ==> f.rows[k].examId in e.rows by {
      forall k | k in f.rows ensures f.rows[k].examId in e.rows {
        assert FlashcardOwner(flashcards.rows[k]) != id;
      }
    }
  }

  /** Recording a note under the next id, for an existing exam and with an unused file name, keeps the store consistent. */
  lemma NoteInsertConsistent(exams: Table<Exam>, tasks: Table<Task>, notes: Table<Note>, flashcards: Table<Flashcard>, note: Note)
    requires Consistent(exams, tasks, notes, flashcards)
    requires note.id == notes.NextId() && note.examId in exams.rows
    requires forall k :: k in notes.rows ==> notes.rows[k].filename != note.filename
    ensures Consistent(exams, tasks, notes.Insert(note), flashcards)
  {
  }

  /**
   * The loop of the exam delete handler: for each note, removes its stored
   * file when the folder has one and skips it otherwise.
   */
  method RemoveNoteFiles(files: map<string, seq<bv8>>, doomed: seq<Note>) returns (remaining: map<string, seq<bv8>>)
    ensures remaining == files - NoteFiles(doomed)
  {
    remaining := files;
    var i := 0;
    while i < |doomed|
      invariant 0 <= i <= |doomed|
      invariant remaining == files - NoteFiles(doomed[..i])
    {
      assert doomed[..i + 1] == doomed[..i] + [doomed[i]];
      assert NoteFiles(doomed[..i + 1]) == NoteFiles(doomed[..i]) + {doomed[i].filename};
      var name := doomed[i].filename;
      if name in remaining {
        remaining := remaining - {name};
      }
      i := i + 1;
    }
    assert doomed[..|doomed|] == doomed;
  }

  class Store {
    var exams: Table<Exam>
    var tasks: Table<Task>
    var notes: Table<Note>
    var flashcards: Table<Flashcard>
    /** The upload folder: stored file name to content. */
    var files: map<string, seq<bv8>>

    ghost predicate Valid()
      reads this
    {
      Consistent(exams, tasks, notes, flashcards)
    }

    /** `token` is fresh: no stored note name starts with it and '_' (what a uuid4 gives). */
    ghost predicate FreshToken(token: string)
      reads this
    {
      forall id :: id in notes.rows ==> !(token + "_" <= notes.rows[id].filename)
    }

    constructor ()
      ensures Valid()
      ensures exams.rows == map[] && tasks.rows == map[] && notes.rows == map[]
      ensures flashcards.rows == map[] && files == map[]
    {
      exams, tasks, notes, flashcards := EmptyTable(), EmptyTable(), EmptyTable(), EmptyTable();
      files := map[];
    }

    /** `add_exam`: one new exam with the derived title, or no change at all. */
    method AddExam(form: ExamForm, now: nat) returns (r: Outcome<nat>)
      requires Valid() && ParsedDateValid(form)
      modifies this
      ensures Valid()
      ensures r.Ok? <==> Complete(form)
      ensures r.Fail? ==> r.error == InvalidForm && exams == old(exams)
      ensures r.Ok? ==> r.value == old(exams.NextId())
      ensures r.Ok? ==> exams == old(exams).Insert(NewExam(r.value, form, now).value)
      ensures tasks == old(tasks) && notes == old(notes) && flashcards == old(flashcards) && files == old(files)
    {
      var made := NewExam(exams.NextId(), form, now);
      if made.Fail? {
        return Fail(made.error);
      }
      exams := exams.Insert(made.value);
      r := Ok(made.value.id);
    }

    /** `edit_exam`: replaces the form fields of an existing exam, or changes nothing. */
    method EditExam(id: nat, title: Option<string>, form: ExamForm) returns (r: Outcome<()>)
      requires Valid() && ParsedDateValid(form)
      modifies this
      ensures Valid()
      ensures id !in old(exams.rows) ==> r == Fail(NotFound)
      ensures id in old(exams.rows) ==> (r.Ok? <==> title.Some? && Complete(form))
      ensures id in old(exams.rows) && r.Fail? ==> r.error == InvalidForm
      ensures r.Fail? ==> exams == old(exams)
      ensures r.Ok? ==> exams == old(exams).Update(id, EditedExam(old(exams.rows[id]), title, form).value)
      ensures tasks == old(tasks) && notes == old(notes) && flashcards == old(flashcards) && files == old(files)
    {
      if id !in exams.rows {
        return Fail(NotFound);
      }
      var edited := EditedExam(exams.rows[id], title, form);
      if edited.Fail? {
        return Fail(edited.error);
      }
      exams := exams.Update(id, edited.value);
      r := Ok(());
    }

    /**
     * `delete_exam`: removes the stored files of the exam's notes that exist,
     * then the exam with all its tasks, notes and flashcards.
     */
    method DeleteExam(id: nat) returns (r: Outcome<()>)
      requires Valid()
      modifies this
      ensures Valid()
      ensures r.Fail? <==> id !in old(exams.rows)
      ensures r.Fail? ==> r.error == NotFound && exams == old(exams) && tasks == old(tasks)
      ensures r.Fail? ==> notes == old(notes) && flashcards == old(flashcards) && files == old(files)
      ensures r.Ok? ==> exams == old(exams).Remove(id)
      ensures r.Ok? ==> tasks == old(tasks).RemoveOwned(TaskOwner, id)
      ensures r.Ok? ==> notes == old(notes).RemoveOwned(NoteOwner, id)
      ensures r.Ok? ==> flashcards == old(flashcards).RemoveOwned(FlashcardOwner, id)
      ensures r.Ok? ==> files == old(files) - NoteFiles(old(notes).Owned(NoteOwner, id))
    {
      if id !in exams.rows {
        return Fail(NotFound);
      }
      var remaining := RemoveNoteFiles(files, notes.Owned(NoteOwner, id));
      var exams', tasks', notes', flashcards' :=
        exams.Remove(id), tasks.RemoveOwned(TaskOwner, id), notes.RemoveOwned(NoteOwner, id),
        flashcards.RemoveOwned(FlashcardOwner, id);
      CascadeConsistent(exams, tasks, notes, flashcards, id);
      exams, tasks, notes, flashcards, files := exams', tasks', notes', flashcards', remaining;
      assert Consistent(exams, tasks, notes, flashcards);
      r := Ok(());
    }

    /** `add_task`: a new open task of an existing exam, priority "medium" unless given. */
    method AddTask(examId: nat, description: Option<string>, priority: Option<string>, now: nat)
      returns (r: Outcome<nat>)
      requires Valid()
      modifies this
      ensures Valid()
      ensures examId !in old(exams.rows) ==> r == Fail(NotFound)
      ensures examId in old(exams.rows) && description.None? ==> r == Fail(InvalidForm)
      ensures r.Ok? <==> examId in old(exams.rows) && description.Some?
      ensures r.Fail? ==> tasks == old(tasks)
      ensures r.Ok? ==> r.value == old(tasks.NextId())
      ensures r.Ok? ==> tasks == old(tasks).Insert(NewTask(r.value, description.value, priority, now, examId))
      ensures exams == old(exams) && notes == old(notes) && flashcards == old(flashcards) && files == old(files)
    {
      if examId !in exams.rows {
        return Fail(NotFound);
      }
      if description.None? {
        return Fail(InvalidForm);
      }
      // The form default for a missing priority is the column default.
      var id := tasks.NextId();
      tasks := tasks.Insert(NewTask(id, description.value, priority, now, examId));
      r := Ok(id);
    }

    /** `toggle_task`: flips the completed flag of one task. */
    method ToggleTask(id: nat) returns (r: Outcome<()>)
      requires Valid()
      modifies this
      ensures Valid()
      ensures r.Fail? <==> id !in old(tasks.rows)
      ensures r.Fail? ==> r.error == NotFound && tasks == old(tasks)
      ensures r.Ok? ==> tasks == old(tasks).Update(id, old(tasks.rows[id]).Toggled())
      ensures exams == old(exams) && notes == old(notes) && flashcards == old(flashcards) && files == old(files)
    {
      if id !in tasks.rows {
        return Fail(NotFound);
      }
      tasks := tasks.Update(id, tasks.rows[id].Toggled());
      r := Ok(());
    }

    /** `delete_task`: removes one task and nothing else. */
    method DeleteTask(id: nat) returns (r: Outcome<()>)
      requires Valid()
      modifies this
      ensures Valid()
      ensures r.Fail? <==> id !in old(tasks.rows)
      ensures r.Fail? ==> r.error == NotFound && tasks == old(tasks)
      ensures r.Ok? ==> tasks == old(tasks).Remove(id)
      ensures exams == old(exams) && notes == old(notes) && flashcards == old(flashcards) && files == old(files)
    {
      if id !in tasks.rows {
        return Fail(NotFound);
      }
      tasks := tasks.Remove(id);
      r := Ok(());
    }

    /**
     * `upload_note`: checks that a named file with an allowed extension was
     * sent, writes it under a fresh storage name and records a note for it.
     */
    method UploadNote(examId: nat, upload: Option<Upload>, token: string, sanitize: string -> string, now: nat)
      returns (r: Outcome<nat>)
      requires Valid() && FreshToken(token)
      modifies this
      ensures Valid()
      ensures examId !in old(exams.rows) ==> r == Fail(NotFound)
      ensures examId in old(exams.rows) && (upload.None? || upload.value.filename == "") ==> r == Fail(NoFileSelected)
      ensures examId in old(exams.rows) && upload.Some? && upload.value.filename != ""
        ==> (r.Ok? <==> AllowedFile(upload.value.filename))
      ensures r.Fail? && upload.Some? && examId in old(exams.rows) && upload.value.filename != ""
        ==> r.error == InvalidFileType
      ensures r.Fail? ==> notes == old(notes) && files == old(files)
      ensures r.Ok? ==> r.value == old(notes.NextId())
      ensures r.Ok? ==>
        var original := sanitize(upload.value.filename);
        var stored := StoredName(token, original);
        && files == old(files)[stored := upload.value.content]
        && notes == old(notes).Insert(Note(r.value, stored, original, JoinPath(UPLOAD_FOLDER, stored),
                                          Some(|upload.value.content|), now, examId))
      ensures exams == old(exams) && tasks == old(tasks) && flashcards == old(flashcards)
    {
      if examId !in exams.rows {
        return Fail(NotFound);
      }
      if upload.None? || upload.value.filename == "" {
        return Fail(NoFileSelected);
      }
      var file := upload.value;
      if !AllowedFile(file.filename) {
        return Fail(InvalidFileType);
      }
      var original := sanitize(file.filename);
      var stored := StoredName(token, original);
      var path := JoinPath(UPLOAD_FOLDER, stored);
      files := files[stored := file.content];
      var size := |files[stored]|;
      var id := notes.NextId();
      var note := Note(id, stored, original, path, Some(size), now, examId);
      assert forall k :: k in notes.rows ==> notes.rows[k].filename != stored by {
        forall k | k in notes.rows ensures notes.rows[k].filename != stored {
          assert token + "_" <= stored;
          assert !(token + "_" <= notes.rows[k].filename);
        }
      }
      NoteInsertConsistent(exams, tasks, notes, flashcards, note);
      notes := notes.Insert(note);
      r := Ok(id);
    }

    /** `delete_note`: removes the note's stored file if it exists, then the note. */
    method DeleteNote(id: nat) returns (r: Outcome<()>)
      requires Valid()
      modifies this
      ensures Valid()
      ensures r.Fail? <==> id !in old(notes.rows)
      ensures r.Fail? ==> r.error == NotFound && notes == old(notes) && files == old(files)
      ensures r.Ok? ==> files == old(files) - {old(notes.rows[id]).filename}
      ensures r.Ok? ==> notes == old(notes).Remove(id)
      ensures exams == old(exams) && tasks == old(tasks) && flashcards == old(flashcards)
    {
      if id !in notes.rows {
        return Fail(NotFound);
      }
      var name := notes.rows[id].filename;
      if name in files {
        files := files - {name};
      }
      notes := notes.Remove(id);
      r := Ok(());
    }

    /** `add_flashcard`: a new flashcard of an existing exam. */
    method AddFlashcard(examId: nat, topic: Option<string>, summary: Option<string>, now: nat)
      returns (r: Outcome<nat>)
      requires Valid()
      modifies this
      ensures Valid()
      ensures examId !in old(exams.rows) ==> r == Fail(NotFound)
      ensures examId in old(exams.rows) && (topic.None? || summary.None?) ==> r == Fail(InvalidForm)
      ensures r.Ok? <==> examId in old(exams.rows) && topic.Some? && summary.Some?
      ensures r.Fail? ==> flashcards == old(flashcards)
      ensures r.Ok? ==> r.value == old(flashcards.NextId())
      ensures r.Ok? ==> flashcards == old(flashcards).Insert(Flashcard(r.value, topic.value, summary.value, now, examId))
      ensures exams == old(exams) && tasks == old(tasks) && notes == old(notes) && files == old(files)
    {
      if examId !in exams.rows {
        return Fail(NotFound);
      }
      if topic.None? || summary.None? {
        return Fail(InvalidForm);
      }
      var id := flashcards.NextId();
      flashcards := flashcards.Insert(Flashcard(id, topic.value, summary.value, now, examId));
      r := Ok(id);
    }

    /** `delete_flashcard`: removes one flashcard and nothing else. */
    method DeleteFlashcard(id: nat) returns (r: Outcome<()>)
      requires Valid()
      modifies this
      ensures Valid()
      ensures r.Fail? <==> id !in old(flashcards.rows)
      ensures r.Fail? ==> r.error == NotFound && flashcards == old(flashcards)
      ensures r.Ok? ==> flashcards == old(flashcards).Remove(id)
      ensures exams == old(exams) && tasks == old(tasks) && notes == old(notes) && files == old(files)
    {
      if id !in flashcards.rows {
        return Fail(NotFound);
      }
      flashcards := flashcards.Remove(id);
      r := Ok(());
    }

    /** Every record carries its own id. */
    lemma ValidKeyed()
      requires Valid()
      ensures exams.KeyedBy(ExamKey) && tasks.KeyedBy(TaskKey)
      ensures notes.KeyedBy(NoteKey) && flashcards.KeyedBy(FlashcardKey)
    {
    }

    /** `index`: the exams found by `search`, in the order `sort` asks for, each once. */
    function Index(search: Option<string>, sort: Option<string>): (r: seq<Exam>)
      reads this
      requires Valid()
      ensures Listing.Sorted(r, Listing.SortKeyOf(sort))
      ensures forall e :: multiset(r)[e] == if e in exams.rows.Values && Listing.Found(e, search) then 1 else 0
    {
      ValidKeyed();
      exams.KeyedValuesOnce(ExamKey);
      Listing.ListExams(exams.Values(), search, sort)
    }

    /** `countdown`: the exams dated `today` or later, earliest first, each once. */
    function Countdown(today: Date): (r: seq<Exam>)
      reads this
      requires Valid()
      ensures Listing.Sorted(r, Listing.ByDate)
      ensures forall e :: multiset(r)[e] == if e in exams.rows.Values && DateLe(today, e.date) then 1 else 0
    {
      ValidKeyed();
      exams.KeyedValuesOnce(ExamKey);
      Listing.Countdown(exams.Values(), today)
    }

    /** `flashcards`: every exam, each the way to its deck, once. */
    function AllExams(): (r: seq<Exam>)
      reads this
      requires Valid()
      ensures |r| == |exams.rows|
      ensures forall e :: multiset(r)[e] == if e in exams.rows.Values then 1 else 0
    {
      ValidKeyed();
      exams.KeyedValuesOnce(ExamKey);
      exams.Values()
    }

    /** The tasks relationship of an exam: each of its tasks once. */
    function TasksOf(examId: nat): (r: seq<Task>)
      reads this
      requires Valid()
      ensures |r| == |set k | k in tasks.rows && tasks.rows[k].examId == examId|
      ensures forall t :: multiset(r)[t] == if t in tasks.rows.Values && t.examId == examId then 1 else 0
    {
      ValidKeyed();
      tasks.KeyedOwnedOnce(TaskKey, TaskOwner, examId);
      assert tasks.OwnerIds(TaskOwner, examId) == set k | k in tasks.rows && tasks.rows[k].examId == examId;
      tasks.Owned(TaskOwner, examId)
    }

    /** The notes relationship of an exam: each of its notes once. */
    function NotesOf(examId: nat): (r: seq<Note>)
      reads this
      requires Valid()
      ensures forall n :: multiset(r)[n] == if n in notes.rows.Values && n.examId == examId then 1 else 0
    {
      ValidKeyed();
      notes.KeyedOwnedOnce(NoteKey, NoteOwner, examId);
      notes.Owned(NoteOwner, examId)
    }

    /** The flashcards relationship of an exam: each of its flashcards once. */
    function FlashcardsOf(examId: nat): (r: seq<Flashcard>)
      reads this
      requires Valid()
      ensures forall f :: multiset(r)[f] == if f in flashcards.rows.Values && f.examId == examId then 1 else 0
    {
      ValidKeyed();
      flashcards.KeyedOwnedOnce(FlashcardKey, FlashcardOwner, examId);
      flashcards.Owned(FlashcardOwner, examId)
    }

    /** `exam_progress`: the percentage, the completed count and the task count of an exam. */
    function ExamProgress(id: nat): (r: Outcome<Progress>)
      reads this
      requires Valid()
      ensures r.Fail? <==> id !in exams.rows
      ensures r.Fail? ==> r.error == NotFound
      ensures r.Ok? ==> r.value.totalTasks == |TasksOf(id)| == |set k | k in tasks.rows && tasks.rows[k].examId == id|
      ensures r.Ok? ==> r.value.completedTasks == CompletedCount(TasksOf(id)) <= r.value.totalTasks
      ensures r.Ok? ==> r.value.progress == ProgressPercentage(TasksOf(id)) <= 100
    {
      if id !in exams.rows then Fail(NotFound)
      else
        var ts := TasksOf(id);
        Ok(Progress(ProgressPercentage(ts), CompletedCount(ts), |ts|))
    }

    /** `exam_detail`: an exam with exactly the rows it owns. */
    function ExamDetail(id: nat): (r: Outcome<Detail>)
      reads this
      requires Valid()
      ensures r.Fail? <==> id !in exams.rows
      ensures r.Fail? ==> r.error == NotFound
      ensures r.Ok? ==> r.value.exam == exams.rows[id] && r.value.exam.id == id
      ensures r.Ok? ==> forall t :: multiset(r.value.tasks)[t] == if t in tasks.rows.Values && t.examId == id then 1 else 0
      ensures r.Ok? ==> forall n :: multiset(r.value.notes)[n] == if n in notes.rows.Values && n.examId == id then 1 else 0
      ensures r.Ok? ==> forall f ::
        multiset(r.value.flashcards)[f] == if f in flashcards.rows.Values && f.examId == id then 1 else 0
    {
      if id !in exams.rows then Fail(NotFound)
      else Ok(Detail(exams.rows[id], TasksOf(id), NotesOf(id), FlashcardsOf(id)))
    }
  }

  /** Toggling a task twice leaves the whole store as it was. */
  method ToggleTwice(s: Store, id: nat)
    requires s.Valid()
    modifies s
    ensures s.Valid()
    ensures s.exams == old(s.exams) && s.tasks == old(s.tasks) && s.notes == old(s.notes)
    ensures s.flashcards == old(s.flashcards) && s.files == old(s.files)
  {
    var first := s.ToggleTask(id);
    var second := s.ToggleTask(id);
    if first.Ok? {
      var task := old(s.tasks.rows[id]);
      assert task.Toggled().Toggled() == task;
      old(s.tasks).UpdateRestores(id, task.Toggled());
    }
  }
}
