/**
 * A database table keyed by an integer primary key, as SQLite keeps it when the
 * key column is INTEGER PRIMARY KEY without AUTOINCREMENT. A new row gets one
 * more than the largest id in the table, or 1 when the table is empty, so the
 * id of a deleted last row can be handed out again. Rows are read back in
 * ascending id order.
 */
module Tables {

  /**
   * `rows` maps ids to records; `bound` exceeds every id ever present, so
   * that the largest id can be found by counting down from it.
   */
  datatype Table<T(==,!new)> = Table(rows: map<nat, T>, bound: nat) {

    ghost predicate Valid() {
      forall id :: id in rows ==> 1 <= id < bound
    }

    /** The id SQLite assigns when every id of the table lies in 1 .. n - 1. */
    function NextIdBelow(n: nat): (r: nat)
      requires forall id :: id in rows ==> 1 <= id < n
      ensures 1 <= r && r !in rows
      ensures forall id :: id in rows ==> id < r
      ensures r == 1 || r - 1 in rows
    {
      if n <= 1 then 1
      else if n - 1 in rows then n
      else NextIdBelow(n - 1)
    }

    /** The id of the next inserted row: one more than the largest id, 1 when empty. */
    function NextId(): (r: nat)
      requires Valid()
      ensures 1 <= r && r !in rows
      ensures forall id :: id in rows ==> id < r
      ensures r == 1 || r - 1 in rows
    {
      NextIdBelow(bound)
    }

    /** Inserts `x` under the next id. */
    function Insert(x: T): (t: Table<T>)
      requires Valid()
      ensures t.Valid()
      ensures t.rows == rows[NextId() := x]
    {
      var id := NextId();
      Table(rows[id := x], if id < bound then bound else id + 1)
    }

    /** Replaces the row with id `id`. */
    function Update(id: nat, x: T): (t: Table<T>)
      requires Valid() && id in rows
      ensures t.Valid()
      ensures t.rows == rows[id := x] && t.rows.Keys == rows.Keys
    {
      Table(rows[id := x], bound)
    }

    /** Writing a row's old value back after an update restores the table. */
    lemma UpdateRestores(id: nat, x: T)
      requires Valid() && id in rows
      ensures Update(id, x).Update(id, rows[id]) == this
    {
      assert rows[id := x][id := rows[id]] == rows;
    }

    /** Deletes the row with id `id`, if there is one. */
    function Remove(id: nat): (t: Table<T>)
      requires Valid()
      ensures t.Valid()
      ensures t.rows.Keys == rows.Keys - {id}
      ensures forall k :: k in t.rows ==> t.rows[k] == rows[k]
    {
      Table(rows - {id}, bound)
    }

    /**
     * The rows with ids below `n` that `keep` accepts, in ascending id order:
     * a query with a WHERE clause. Each row appears once, so a record appears
     * as often as there are ids holding it.
     */
    function SelectBelow(n: nat, keep: T -> bool): (r: seq<T>)
      ensures |r| == |set id | id in rows && id < n && keep(rows[id])|
      ensures forall x :: multiset(r)[x] == if keep(x) then |set id | id in rows && id < n && rows[id] == x| else 0
    {
      if n == 0 then []
      else
        var prev := SelectBelow(n - 1, keep);
        var last := if n - 1 in rows && keep(rows[n - 1]) then [rows[n - 1]] else [];
        PickedStep(n, keep);
        forall x ensures multiset(prev + last)[x] == if keep(x) then |set id | id in rows && id < n && rows[id] == x| else 0 {
          HeldStep(n, x);
        }
        prev + last
    }

    /** Raising the id limit to `n` adds id `n - 1` to the accepted ids when it holds an accepted row. */
    lemma PickedStep(n: nat, keep: T -> bool)
      requires n > 0
      ensures |set id | id in rows && id < n && keep(rows[id])|
           == |set id | id in rows && id < n - 1 && keep(rows[id])| + if n - 1 in rows && keep(rows[n - 1]) then 1 else 0
    {
      var picked := set id | id in rows && id < n - 1 && keep(rows[id]);
      var picked' := set id | id in rows && id < n && keep(rows[id]);
      if n - 1 in rows && keep(rows[n - 1]) {
        assert picked' == picked + {n - 1};
      } else {
        assert picked' == picked;
      }
    }

    /** Raising the id limit to `n` adds id `n - 1` to the ids holding `x` when it holds `x`. */
    lemma HeldStep(n: nat, x: T)
      requires n > 0
      ensures |set id | id in rows && id < n && rows[id] == x|
           == |set id | id in rows && id < n - 1 && rows[id] == x| + if n - 1 in rows && rows[n - 1] == x then 1 else 0
    {
      var held := set id | id in rows && id < n - 1 && rows[id] == x;
      var held' := set id | id in rows && id < n && rows[id] == x;
      if n - 1 in rows && rows[n - 1] == x {
        assert held' == held + {n - 1};
      } else {
        assert held' == held;
      }
    }

    /** Every row of the table, in ascending id order (a full-table query), each once. */
    function Values(): (r: seq<T>)
      requires Valid()
      ensures |r| == |rows|
      ensures forall x :: multiset(r)[x] == |set id | id in rows && rows[id] == x|
      ensures forall x :: x in r <==> x in rows.Values
    {
      var r := SelectBelow(bound, x => true);
      assert (set id | id in rows && id < bound && (x => true)(rows[id])) == rows.Keys;
      forall x ensures multiset(r)[x] == |set id | id in rows && rows[id] == x| {
        assert (set id | id in rows && id < bound && rows[id] == x) == (set id | id in rows && rows[id] == x);
      }
      forall x ensures x in r <==> x in rows.Values {
        assert x in r <==> multiset(r)[x] > 0;
        HeldIffValue(x);
      }
      r
    }

    /** A record is stored under some id exactly when the set of its ids is non-empty. */
    lemma HeldIffValue(x: T)
      ensures x in rows.Values <==> |set id | id in rows && rows[id] == x| > 0
    {
      var held := set id | id in rows && rows[id] == x;
      if x in rows.Values {
        var id :| id in rows && rows[id] == x;
        assert id in held;
      }
      if |held| > 0 {
        var id :| id in held;
      }
    }

    /**
     * The rows whose owner (per `owner`) is `e`, in id order: a one-to-many
     * relationship. There are as many as ids of such rows.
     */
    function Owned(owner: T -> nat, e: nat): (r: seq<T>)
      requires Valid()
      ensures |r| == |OwnerIds(owner, e)|
      ensures forall x :: multiset(r)[x] == if owner(x) == e then |set id | id in rows && rows[id] == x| else 0
      ensures forall x :: x in r <==> x in rows.Values && owner(x) == e
    {
      var keep := x => owner(x) == e;
      var r := SelectBelow(bound, keep);
      assert (set id | id in rows && id < bound && keep(rows[id])) == OwnerIds(owner, e);
      forall x ensures multiset(r)[x] == if owner(x) == e then |set id | id in rows && rows[id] == x| else 0 {
        assert (set id | id in rows && id < bound && rows[id] == x) == (set id | id in rows && rows[id] == x);
      }
      forall x ensures x in r <==> x in rows.Values && owner(x) == e {
        assert x in r <==> multiset(r)[x] > 0;
        HeldIffValue(x);
      }
      r
    }

    /** The ids of the rows whose owner is `e`. */
    ghost function OwnerIds(owner: T -> nat, e: nat): set<nat> {
      set id | id in rows && owner(rows[id]) == e
    }

    /** `key` reads back each row's id: the record carries its own primary key. */
    ghost predicate KeyedBy(key: T -> nat) {
      forall id :: id in rows ==> key(rows[id]) == id
    }

    /** In a table whose records carry their key, a full-table query lists each stored record once. */
    lemma KeyedValuesOnce(key: T -> nat)
      requires Valid() && KeyedBy(key)
      ensures forall x :: multiset(Values())[x] == if x in rows.Values then 1 else 0
    {
      forall x ensures multiset(Values())[x] == if x in rows.Values then 1 else 0 {
        KeyedHeldOnce(key, x);
      }
    }

    /** In a table whose records carry their key, a relationship lists each child once. */
    lemma KeyedOwnedOnce(key: T -> nat, owner: T -> nat, e: nat)
      requires Valid() && KeyedBy(key)
      ensures forall x :: multiset(Owned(owner, e))[x] == if x in rows.Values && owner(x) == e then 1 else 0
    {
      forall x ensures multiset(Owned(owner, e))[x] == if x in rows.Values && owner(x) == e then 1 else 0 {
        KeyedHeldOnce(key, x);
      }
    }

    /** In a table whose records carry their key, a stored record is held by exactly one id. */
    lemma KeyedHeldOnce(key: T -> nat, x: T)
      requires KeyedBy(key)
      ensures |set id | id in rows && rows[id] == x| == if x in rows.Values then 1 else 0
    {
      var held := set id | id in rows && rows[id] == x;
      if x in rows.Values {
        var id :| id in rows && rows[id] == x;
        assert held == {id};
      } else {
        assert held == {};
      }
    }

    /** The table without the rows owned by `e`: the cascade of a parent delete. */
    function RemoveOwned(owner: T -> nat, e: nat): (t: Table<T>)
      requires Valid()
      ensures t.Valid() && t.bound == bound
    {
      Table(map id | id in rows && owner(rows[id]) != e :: rows[id], bound)
    }

    /** Removing the rows owned by `e` keeps exactly the other rows, unchanged,
        so no remaining row is owned by `e`. */
    lemma RemoveOwnedRows(owner: T -> nat, e: nat)
      requires Valid()
      ensures forall id :: id in RemoveOwned(owner, e).rows <==> id in rows && owner(rows[id]) != e
      ensures forall id :: id in RemoveOwned(owner, e).rows ==> RemoveOwned(owner, e).rows[id] == rows[id]
      ensures forall x :: x in RemoveOwned(owner, e).rows.Values ==> owner(x) != e
    {
    }
  }

  function EmptyTable<T(==,!new)>(): (t: Table<T>)
    ensures t.Valid() && t.rows == map[]
  {
    Table(map[], 1)
  }

  /** The elements of `s` that satisfy `keep`, in their order (a query filter). */
  function Where<T(==,!new)>(s: seq<T>, keep: T -> bool): (r: seq<T>)
    ensures forall x :: multiset(r)[x] == if keep(x) then multiset(s)[x] else 0
    ensures forall x :: x in r <==> x in s && keep(x)
  {
    if s == [] then []
    else
      assert s == [s[0]] + s[1..];
      (if keep(s[0]) then [s[0]] else []) + Where(s[1..], keep)
  }
}
