/**
 * The exam list of the index page (substring search on title or subject, then
 * one of three orders) and the countdown list (exams from today on, by date).
 */
module Listing {
  import opened Optional
  import opened Records
  import opened Tables
  import opened Ascii

  /** `pattern` occurs in `text` starting at position `i`. */
  ghost predicate OccursAt(text: string, pattern: string, i: int) {
    0 <= i && i + |pattern| <= |text| && text[i..i + |pattern|] == pattern
  }

  /** Substring containment, as the `contains` column filter asks for. */
  predicate Contains(text: string, pattern: string) {
    pattern <= text || (|text| > 0 && Contains(text[1..], pattern))
  }

  lemma {:induction false} ContainsSpec(text: string, pattern: string)
    ensures Contains(text, pattern) <==> exists i :: OccursAt(text, pattern, i)
  {
    if pattern <= text {
      assert OccursAt(text, pattern, 0);
    } else if |text| > 0 {
      ContainsSpec(text[1..], pattern);
      if Contains(text[1..], pattern) {
        var i :| OccursAt(text[1..], pattern, i);
        assert text[1..][i..i + |pattern|] == text[i + 1..i + 1 + |pattern|];
        assert OccursAt(text, pattern, i + 1);
      }
      if exists i :: OccursAt(text, pattern, i) {
        var i :| OccursAt(text, pattern, i);
        assert i != 0;
        assert text[1..][i - 1..i - 1 + |pattern|] == text[i..i + |pattern|];
        assert OccursAt(text[1..], pattern, i - 1);
      }
    }
  }

  /**
   * An exam is found by `search` when its title or its subject contains it,
   * ASCII letters compared without regard to case (SQLite's LIKE).
   */
  predicate Matches(e: Exam, search: string) {
    Contains(Lower(e.title), Lower(search)) || Contains(Lower(e.subject), Lower(search))
  }

  /** Searching "physics" finds an exam on "Physics". */
  lemma MatchesIgnoresCase()
    ensures Matches(Exam(1, "Physics Exam - June 01, 2025", "Physics", Date(2025, 6, 1), None, "", 0), "physics")
  {
    assert Lower("physics") == "physics";
    assert Lower("Physics") == "physics";
    assert Contains(Lower("Physics"), Lower("physics"));
  }

  /** The search term: the `search` argument, "" when absent. */
  function SearchTerm(search: Option<string>): string {
    search.GetOr("")
  }

  /** The result of the search step: everything for an empty term, the matching exams otherwise. */
  function Searched(exams: seq<Exam>, term: string): (r: seq<Exam>)
    ensures forall e :: multiset(r)[e] == if term == "" || Matches(e, term) then multiset(exams)[e] else 0
  {
    if term == "" then exams else Where(exams, (e: Exam) => Matches(e, term))
  }

  /** The guard on an empty term is only a shortcut: every exam matches "". */
  lemma EmptyTermMatchesAll(e: Exam)
    ensures Matches(e, "")
  {
  }

  /** `e` survives the search step for the `search` argument. */
  predicate Found(e: Exam, search: Option<string>) {
    SearchTerm(search) == "" || Matches(e, SearchTerm(search))
  }

  datatype SortKey = ByDate | ByTitle | ByNewest

  /** The `sort` argument: "date" when absent, creation-descending for any unknown value. */
  function SortKeyOf(sort: Option<string>): (k: SortKey)
    ensures sort.None? ==> k == ByDate
    ensures sort.Some? ==> (k == ByDate <==> sort.value == "date")
    ensures sort.Some? ==> (k == ByTitle <==> sort.value == "title")
  {
    match sort
    case None => ByDate
    case Some(s) => if s == "date" then ByDate else if s == "title" then ByTitle else ByNewest
  }

  /** Lexicographic order on code points, as a binary collation compares text. */
  predicate LexLe(a: string, b: string) {
    if a == [] then true
    else if b == [] then false
    else if a[0] != b[0] then a[0] < b[0]
    else LexLe(a[1..], b[1..])
  }

  lemma {:induction false} LexLeTotal(a: string, b: string)
    ensures LexLe(a, b) || LexLe(b, a)
  {
    if a != [] && b != [] && a[0] == b[0] {
      LexLeTotal(a[1..], b[1..]);
    }
  }

  lemma {:induction false} LexLeAntisymmetric(a: string, b: string)
    requires LexLe(a, b) && LexLe(b, a)
    ensures a == b
  {
    if a != [] && b != [] {
      LexLeAntisymmetric(a[1..], b[1..]);
      assert a == [a[0]] + a[1..] && b == [b[0]] + b[1..];
    }
  }

  lemma {:induction false} LexLeTransitive(a: string, b: string, c: string)
    requires LexLe(a, b) && LexLe(b, c)
    ensures LexLe(a, c)
  {
    if a != [] && b != [] && c != [] && a[0] == b[0] && b[0] == c[0] {
      LexLeTransitive(a[1..], b[1..], c[1..]);
    }
  }

  /** `a` may come before `b` in the order `key` asks for. */
  predicate Before(a: Exam, b: Exam, key: SortKey) {
    match key
    case ByDate => DateLe(a.date, b.date)
    case ByTitle => LexLe(a.title, b.title)
    case ByNewest => a.createdAt >= b.createdAt
  }

  lemma BeforeTotal(a: Exam, b: Exam, key: SortKey)
    ensures Before(a, b, key) || Before(b, a, key)
  {
    if key == ByTitle {
      LexLeTotal(a.title, b.title);
    }
  }

  lemma BeforeTransitive(a: Exam, b: Exam, c: Exam, key: SortKey)
    requires Before(a, b, key) && Before(b, c, key)
    ensures Before(a, c, key)
  {
    if key == ByTitle {
      LexLeTransitive(a.title, b.title, c.title);
    }
  }

  predicate Sorted(s: seq<Exam>, key: SortKey) {
    forall i, j :: 0 <= i < j < |s| ==> Before(s[i], s[j], key)
  }

  function InsertSorted(x: Exam, s: seq<Exam>, key: SortKey): (r: seq<Exam>)
    requires Sorted(s, key)
    ensures Sorted(r, key)
    ensures multiset(r) == multiset(s) + multiset{x}
  {
    if s == [] then [x]
    else if Before(x, s[0], key) then
      assert forall j :: 0 < j < |s| ==> Before(x, s[j], key) by {
        forall j | 0 < j < |s| ensures Before(x, s[j], key) {
          BeforeTransitive(x, s[0], s[j], key);
        }
      }
      [x] + s
    else
      var rest := InsertSorted(x, s[1..], key);
      assert s == [s[0]] + s[1..];
      BeforeTotal(x, s[0], key);
      assert forall y :: y in rest ==> Before(s[0], y, key) by {
        forall y | y in rest ensures Before(s[0], y, key) {
          assert y in multiset(rest);
          if y != x {
            assert y in multiset(s[1..]);
            var j :| 0 <= j < |s[1..]| && s[1..][j] == y;
            assert s[j + 1] == y;
          }
        }
      }
      assert forall j :: 0 <= j < |rest| ==> Before(s[0], rest[j], key) by {
        forall j | 0 <= j < |rest| ensures Before(s[0], rest[j], key) {
          assert rest[j] in rest;
        }
      }
      [s[0]] + rest
  }

  /** Insertion sort; it is stable, which a query's ordering does not promise either way. */
  function SortBy(s: seq<Exam>, key: SortKey): (r: seq<Exam>)
    ensures Sorted(r, key)
    ensures multiset(r) == multiset(s)
  {
    if s == [] then []
    else
      assert s == [s[0]] + s[1..];
      InsertSorted(s[0], SortBy(s[1..], key), key)
  }

  /**
   * The index page: the exams found by `search`, ordered by date (the default),
   * by title, or newest first for any other `sort` value.
   */
  function ListExams(exams: seq<Exam>, search: Option<string>, sort: Option<string>): (r: seq<Exam>)
    ensures Sorted(r, SortKeyOf(sort))
    ensures forall e :: multiset(r)[e] == if Found(e, search) then multiset(exams)[e] else 0
  {
    SortBy(Searched(exams, SearchTerm(search)), SortKeyOf(sort))
  }

  /** The index page lists an exam exactly when it exists and the search finds it. */
  lemma ListExamsMembers(exams: seq<Exam>, search: Option<string>, sort: Option<string>, e: Exam)
    ensures e in ListExams(exams, search, sort) <==> e in exams && Found(e, search)
  {
    var r := ListExams(exams, search, sort);
    assert e in r <==> e in multiset(r);
    assert e in exams <==> e in multiset(exams);
  }

  /** The countdown page: the exams dated today or later, earliest first. */
  function Countdown(exams: seq<Exam>, today: Date): (r: seq<Exam>)
    ensures Sorted(r, ByDate)
    ensures forall e :: multiset(r)[e] == if DateLe(today, e.date) then multiset(exams)[e] else 0
  {
    SortBy(Where(exams, (e: Exam) => DateLe(today, e.date)), ByDate)
  }

  lemma CountdownMembers(exams: seq<Exam>, today: Date, e: Exam)
    ensures e in Countdown(exams, today) <==> e in exams && DateLe(today, e.date)
  {
    var r := Countdown(exams, today);
    assert e in r <==> e in multiset(r);
    assert e in exams <==> e in multiset(exams);
  }
}
