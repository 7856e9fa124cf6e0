/**
 A database table with an auto-increment primary key: rows keyed by id, and the id the next
 insert receives. Ids start at 1, as MySQL's AUTO_INCREMENT does, and every stored id is below
 `next`, so ids are never reused.
 */
module Tables {
  import opened Wrappers

  datatype TableRaw<T> = TableRaw(rows: map<nat, T>, next: nat) {
    predicate Bounded() {
      0 < next && forall k :: k in rows ==> 0 < k < next
    }
  }

  type Table<T> = t: TableRaw<T> | t.Bounded() witness TableRaw(map[], 1)

  /** A new table: no rows, and the first insert gets id 1. */
  function Empty<T>(): (r: Table<T>)
    ensures r.rows == map[] && r.next == 1
  {
    TableRaw(map[], 1)
  }

  /** INSERT: the row gets the next id; every existing row is kept. */
  function Insert<T>(t: Table<T>, row: T): (r: (Table<T>, nat))
    ensures r.1 == t.next && r.1 !in t.rows
    ensures r.0.rows == t.rows[r.1 := row]
    ensures r.0.next == t.next + 1
  {
    (TableRaw(t.rows[t.next := row], t.next + 1), t.next)
  }

  /** UPDATE of one existing row. */
  function Put<T>(t: Table<T>, id: nat, row: T): (r: Table<T>)
    requires id in t.rows
    ensures r.rows == t.rows[id := row] && r.next == t.next
  {
    TableRaw(t.rows[id := row], t.next)
  }

  /** DELETE of one row (a no-op for an absent id). */
  function Delete<T>(t: Table<T>, id: nat): (r: Table<T>)
    ensures r.rows.Keys == t.rows.Keys - {id}
    ensures forall k :: k in r.rows ==> r.rows[k] == t.rows[k]
    ensures r.next == t.next
  {
    TableRaw(t.rows - {id}, t.next)
  }

  /** The lowest id at or above `i` whose row satisfies `p`. */
  function FirstFrom<T>(t: Table<T>, p: T -> bool, i: nat): (r: Option<nat>)
    ensures r.Some? ==> i <= r.value && r.value in t.rows && p(t.rows[r.value])
    ensures r.Some? ==> forall k :: k in t.rows && i <= k < r.value ==> !p(t.rows[k])
    ensures r.None? ==> forall k :: k in t.rows && i <= k ==> !p(t.rows[k])
    decreases t.next - i
  {
    if t.next <= i then None
    else if i in t.rows && p(t.rows[i]) then Some(i)
    else FirstFrom(t, p, i + 1)
  }

  /**
   `findOne({ where })`: some row satisfying `p`, taken as the one with the lowest id (the order
   in which the database scans its primary key); None when no row satisfies `p`.
   */
  function FindOne<T>(t: Table<T>, p: T -> bool): (r: Option<nat>)
    ensures r.Some? ==> r.value in t.rows && p(t.rows[r.value])
    ensures r.Some? ==> forall k :: k in t.rows && k < r.value ==> !p(t.rows[k])
    ensures r.None? <==> forall k :: k in t.rows ==> !p(t.rows[k])
  {
    FirstFrom(t, p, 0)
  }

  /** The ids of `t` below `n` whose rows satisfy `p`, in descending order. */
  function Descending<T>(t: Table<T>, p: T -> bool, n: nat): (r: seq<nat>)
    ensures forall i :: 0 <= i < |r| ==> r[i] in t.rows && r[i] < n && p(t.rows[r[i]])
    ensures forall k :: k in t.rows && k < n && p(t.rows[k]) ==> k in r
    ensures forall i, j :: 0 <= i < j < |r| ==> r[i] > r[j]
  {
    if n == 0 then []
    else if n - 1 in t.rows && p(t.rows[n - 1]) then [n - 1] + Descending(t, p, n - 1)
    else Descending(t, p, n - 1)
  }

  /** The ids of `t` below `n` whose rows satisfy `p`, in ascending order. */
  function Ascending<T>(t: Table<T>, p: T -> bool, n: nat): (r: seq<nat>)
    ensures forall i :: 0 <= i < |r| ==> r[i] in t.rows && r[i] < n && p(t.rows[r[i]])
    ensures forall k :: k in t.rows && k < n && p(t.rows[k]) ==> k in r
    ensures forall i, j :: 0 <= i < j < |r| ==> r[i] < r[j]
  {
    if n == 0 then []
    else if n - 1 in t.rows && p(t.rows[n - 1]) then Ascending(t, p, n - 1) + [n - 1]
    else Ascending(t, p, n - 1)
  }

  /** `findAll({ where, order: [[id, DESC]] })`: every matching row exactly once, newest first. */
  function FindAllNewestFirst<T>(t: Table<T>, p: T -> bool): (r: seq<nat>)
    ensures forall k :: k in r <==> k in t.rows && p(t.rows[k])
    ensures forall i, j :: 0 <= i < j < |r| ==> r[i] > r[j]
  {
    Descending(t, p, t.next)
  }

  /** `findAll({ where, order: [[id, ASC]] })`: every matching row exactly once, oldest first. */
  function FindAllOldestFirst<T>(t: Table<T>, p: T -> bool): (r: seq<nat>)
    ensures forall k :: k in r <==> k in t.rows && p(t.rows[k])
    ensures forall i, j :: 0 <= i < j < |r| ==> r[i] < r[j]
  {
    Ascending(t, p, t.next)
  }
}
