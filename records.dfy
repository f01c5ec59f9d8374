/**
 * The four record shapes of the schema (Exam, Task, Note, Flashcard), their
 * column defaults, and the one computed model method, `Exam.progress_percentage`.
 */
module Records {
  import opened Optional

  /** A calendar date as `datetime.date` holds it. */
  datatype Date = Date(year: int, month: int, day: int)

  /** A time of day as `datetime.time` holds it (hours and minutes; `%H:%M`). */
  datatype Time = Time(hour: int, minute: int)

  predicate IsLeapYear(y: int) {
    y % 4 == 0 && (y % 100 != 0 || y % 400 == 0)
  }

  function DaysInMonth(y: int, m: int): int {
    if m == 2 then (if IsLeapYear(y) then 29 else 28)
    else if m == 4 || m == 6 || m == 9 || m == 11 then 30
    else 31
  }

  /** The dates `datetime.date` can represent (MINYEAR 1 to MAXYEAR 9999). */
  predicate ValidDate(d: Date) {
    1 <= d.year <= 9999 && 1 <= d.month <= 12 && 1 <= d.day <= DaysInMonth(d.year, d.month)
  }

  /** Chronological order, which is also the order of the stored `YYYY-MM-DD` text. */
  predicate DateLe(a: Date, b: Date) {
    a.year < b.year
    || (a.year == b.year && (a.month < b.month || (a.month == b.month && a.day <= b.day)))
  }

  datatype Exam = Exam(
    id: nat,
    title: string,
    subject: string,
    date: Date,
    time: Option<Time>,
    description: string,
    createdAt: nat)

  datatype Task = Task(
    id: nat,
    description: string,
    completed: bool,
    priority: string,
    createdAt: nat,
    examId: nat)
  {
    /** The task with its `completed` flag flipped and every other column kept. */
    function Toggled(): (t: Task)
      ensures t.completed == !completed
      ensures t.(completed := completed) == this
    {
      this.(completed := !completed)
    }
  }

  /** A note: `filename`, `originalFilename` and `filePath` are required, `fileSize` is nullable. */
  datatype Note = Note(
    id: nat,
    filename: string,
    originalFilename: string,
    filePath: string,
    fileSize: Option<nat>,
    uploadedAt: nat,
    examId: nat)

  datatype Flashcard = Flashcard(
    id: nat,
    topic: string,
    summary: string,
    createdAt: nat,
    examId: nat)

  /** The column default of `Task.priority`. */
  const DEFAULT_PRIORITY := "medium"

  /**
   * A new task row: `completed` takes its column default (false), `priority`
   * its column default ("medium") when none is given, and the row is owned by `examId`.
   */
  function NewTask(id: nat, description: string, priority: Option<string>, createdAt: nat, examId: nat): (t: Task)
    ensures !t.completed
    ensures priority.None? ==> t.priority == DEFAULT_PRIORITY
    ensures priority.Some? ==> t.priority == priority.value
    ensures t.id == id && t.description == description && t.createdAt == createdAt && t.examId == examId
  {
    Task(id, description, false, priority.GetOr(DEFAULT_PRIORITY), createdAt, examId)
  }

  /** How many of `tasks` are completed. */
  function CompletedCount(tasks: seq<Task>): (k: nat)
    ensures k <= |tasks|
  {
    if tasks == [] then 0
    else (if tasks[0].completed then 1 else 0) + CompletedCount(tasks[1..])
  }

  lemma {:induction false} MulMonotone(x: nat, y: nat, n: nat)
    ensures x <= y ==> x * n <= y * n
  {
    if n > 0 {
      MulMonotone(x, y, n - 1);
      assert x * n == x * (n - 1) + x;
      assert y * n == y * (n - 1) + y;
    }
  }

  /** The quotient is the one `q` with `q * n <= a < q * n + n`. */
  lemma DivUnique(a: nat, n: nat, q: nat)
    requires 0 < n && q * n <= a < q * n + n
    ensures a / n == q
  {
    var r, m := a / n, a % n;
    assert a == r * n + m && 0 <= m < n;
    MulMonotone(r + 1, q, n);
    MulMonotone(q + 1, r, n);
  }

  /** `a / n` does not decrease when `a` grows. */
  lemma DivMonotone(a: nat, b: nat, n: nat)
    requires 0 < n && a <= b
    ensures a / n <= b / n
  {
    var qa: nat, qb: nat := a / n, b / n;
    assert a == qa * n + a % n && 0 <= a % n < n;
    assert b == qb * n + b % n && 0 <= b % n < n;
    MulMonotone(qb + 1, qa, n);
  }

  lemma DivBounds(a: nat, n: nat)
    requires 0 < n
    ensures (a / n) * n <= a < (a / n + 1) * n
  {
    var q := a / n;
    assert a == q * n + a % n && 0 <= a % n < n;
    assert (q + 1) * n == q * n + n;
  }

  lemma MulDivCancel(c: nat, n: nat)
    requires 0 < n
    ensures c * n / n == c
  {
    DivUnique(c * n, n, c);
  }

  /**
   * `Exam.progress_percentage`: 0 for an exam without tasks, otherwise the
   * completed share of its tasks in percent, truncated toward zero.
   */
  function ProgressPercentage(tasks: seq<Task>): (p: nat)
    ensures p <= 100
    ensures tasks == [] ==> p == 0
  {
    if tasks == [] then 0
    else
      var k, n := CompletedCount(tasks), |tasks|;
      DivMonotone(100 * k, 100 * n, n);
      MulDivCancel(100, n);
      100 * k / n
  }

  /** With tasks present, the percentage is the floor of 100 * completed / total. */
  lemma ProgressIsTruncatedShare(tasks: seq<Task>)
    requires tasks != []
    ensures ProgressPercentage(tasks) * |tasks| <= 100 * CompletedCount(tasks)
    ensures 100 * CompletedCount(tasks) < (ProgressPercentage(tasks) + 1) * |tasks|
  {
    DivBounds(100 * CompletedCount(tasks), |tasks|);
  }

  lemma {:induction false} AllCompletedCount(tasks: seq<Task>)
    requires forall i :: 0 <= i < |tasks| ==> tasks[i].completed
    ensures CompletedCount(tasks) == |tasks|
  {
    if tasks != [] {
      AllCompletedCount(tasks[1..]);
    }
  }

  lemma {:induction false} NoneCompletedCount(tasks: seq<Task>)
    requires forall i :: 0 <= i < |tasks| ==> !tasks[i].completed
    ensures CompletedCount(tasks) == 0
  {
    if tasks != [] {
      NoneCompletedCount(tasks[1..]);
    }
  }

  /** Every task completed gives 100. */
  lemma ProgressAllCompleted(tasks: seq<Task>)
    requires tasks != []
    requires forall i :: 0 <= i < |tasks| ==> tasks[i].completed
    ensures ProgressPercentage(tasks) == 100
  {
    AllCompletedCount(tasks);
    MulDivCancel(100, |tasks|);
  }

  /** No task completed gives 0. */
  lemma ProgressNoneCompleted(tasks: seq<Task>)
    requires forall i :: 0 <= i < |tasks| ==> !tasks[i].completed
    ensures ProgressPercentage(tasks) == 0
  {
    NoneCompletedCount(tasks);
  }

  /** Completing one open task raises the completed count by exactly one. */
  lemma {:induction false} CompleteOneCount(tasks: seq<Task>, i: nat)
    requires i < |tasks| && !tasks[i].completed
    ensures CompletedCount(tasks[i := tasks[i].Toggled()]) == CompletedCount(tasks) + 1
  {
    var after := tasks[i := tasks[i].Toggled()];
    if i > 0 {
      assert after[1..] == tasks[1..][i - 1 := tasks[i].Toggled()];
      CompleteOneCount(tasks[1..], i - 1);
    } else {
      assert after[1..] == tasks[1..];
    }
  }

  /** Marking one more task completed never lowers the progress. */
  lemma ProgressMonotone(tasks: seq<Task>, i: nat)
    requires i < |tasks| && !tasks[i].completed
    ensures ProgressPercentage(tasks) <= ProgressPercentage(tasks[i := tasks[i].Toggled()])
  {
    var after := tasks[i := tasks[i].Toggled()];
    CompleteOneCount(tasks, i);
    DivMonotone(100 * CompletedCount(tasks), 100 * CompletedCount(after), |tasks|);
  }
}
