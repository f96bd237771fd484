/**
 * A JavaScript `Map<number, Row>` whose keys are ids handed out by an
 * incrementing counter. `Array.from(map.values())` yields the rows in
 * insertion order, so the map is modelled as that sequence of rows together
 * with the function that reads a row's id: `set` on a known id replaces the row
 * where it stands, `set` on a new id appends, `delete` removes the row.
 */
module Table {
  import opened Wrappers
  import opened Seqs

  /** Ids strictly increase along the rows and lie in [1, next): what a counter starting at 1 leaves behind. */
  ghost predicate IdsIssued<T>(rows: seq<T>, key: T -> int, next: int)
  {
    && (forall i, j :: 0 <= i < j < |rows| ==> key(rows[i]) < key(rows[j]))
    && (forall i :: 0 <= i < |rows| ==> 1 <= key(rows[i]) < next)
  }

  ghost predicate Counted<T>(rows: seq<T>, key: T -> int, next: int)
  {
    next >= 1 && IdsIssued(rows, key, next)
  }

  /** Position of the row stored under `k`, if any. */
  function IndexOf<T>(rows: seq<T>, key: T -> int, k: int): (r: Option<nat>)
    ensures r.Some? ==> r.value < |rows| && key(rows[r.value]) == k
    ensures r.Some? ==> forall j :: 0 <= j < r.value ==> key(rows[j]) != k
    ensures r.None? ==> forall i :: 0 <= i < |rows| ==> key(rows[i]) != k
  {
    FirstIndex(rows, (x: T) => key(x) == k)
  }

  /** `map.get(k)`. */
  function Get<T>(rows: seq<T>, key: T -> int, k: int): (r: Option<T>)
    ensures r.Some? ==> r.value in rows && key(r.value) == k
    ensures r.None? <==> forall x | x in rows :: key(x) != k
  {
    match IndexOf(rows, key, k)
    case None => None
    case Some(i) => Some(rows[i])
  }

  /** `map.set(key(v), v)`. */
  function Set<T>(rows: seq<T>, key: T -> int, v: T): seq<T>
  {
    match IndexOf(rows, key, key(v))
    case None => rows + [v]
    case Some(i) => rows[i := v]
  }

  /** After `set`, the new row is stored and every other row was stored before. */
  lemma SetStores<T>(rows: seq<T>, key: T -> int, v: T)
    ensures v in Set(rows, key, v)
    ensures forall x | x in Set(rows, key, v) :: x == v || x in rows
  {
    match IndexOf(rows, key, key(v))
    case None =>
    case Some(i) => assert rows[i := v][i] == v;
  }

  /** The rows left after `map.delete(k)`. */
  function Delete<T>(rows: seq<T>, key: T -> int, k: int): (r: seq<T>)
    ensures IsSubseq(r, rows)
    ensures forall x | x in r :: x in rows
  {
    match IndexOf(rows, key, k)
    case None => SubseqRefl(rows); rows
    case Some(i) => RemoveAtIsSubseq(rows, i); SubseqMembers(rows[..i] + rows[i + 1..], rows); rows[..i] + rows[i + 1..]
  }

  /** With issued ids, a row is the only one stored under its id. */
  lemma GetStored<T>(rows: seq<T>, key: T -> int, next: int, x: T)
    requires IdsIssued(rows, key, next) && x in rows
    ensures Get(rows, key, key(x)) == Some(x)
  {
    var i :| 0 <= i < |rows| && rows[i] == x;
    var j := IndexOf(rows, key, key(x)).value;
    if i != j {
      assert false;
    }
  }

  /** With issued ids, two stored rows under the same id are the same row. */
  lemma KeyUnique<T>(rows: seq<T>, key: T -> int, next: int, x: T, y: T)
    requires IdsIssued(rows, key, next) && x in rows && y in rows && key(x) == key(y)
    ensures x == y
  {
    GetStored(rows, key, next, x);
    GetStored(rows, key, next, y);
  }

  /** Under the counter's next id, `set` appends. */
  lemma SetFresh<T>(rows: seq<T>, key: T -> int, next: int, v: T)
    requires IdsIssued(rows, key, next) && key(v) == next
    ensures Set(rows, key, v) == rows + [v]
  {
  }

  /** Appending a row under the counter's next id and advancing the counter keeps the ids issued. */
  lemma AppendFresh<T>(rows: seq<T>, key: T -> int, next: int, v: T)
    requires IdsIssued(rows, key, next) && key(v) == next >= 1
    ensures IdsIssued(rows + [v], key, next + 1)
  {
  }

  /** `set` on a stored id replaces that row where it stands. */
  lemma SetExisting<T>(rows: seq<T>, key: T -> int, next: int, i: nat, v: T)
    requires IdsIssued(rows, key, next) && i < |rows| && key(rows[i]) == key(v)
    ensures Set(rows, key, v) == rows[i := v]
  {
    var j := IndexOf(rows, key, key(v)).value;
    if j != i {
      assert false;
    }
  }

  /** Replacing a row by one with the same id keeps the ids issued. */
  lemma ReplaceIssued<T>(rows: seq<T>, key: T -> int, next: int, i: nat, v: T)
    requires IdsIssued(rows, key, next) && i < |rows| && key(rows[i]) == key(v)
    ensures IdsIssued(rows[i := v], key, next)
  {
  }

  /** Deleting keeps the ids issued. */
  lemma DeleteIssued<T>(rows: seq<T>, key: T -> int, next: int, k: int)
    requires IdsIssued(rows, key, next)
    ensures IdsIssued(Delete(rows, key, k), key, next)
  {
    var r := Delete(rows, key, k);
    SubseqIssued(r, rows, key, next);
  }

  /** With issued ids, `delete(k)` keeps the order of the rows and keeps exactly those whose id is not `k`. */
  lemma DeleteMembers<T>(rows: seq<T>, key: T -> int, next: int, k: int)
    requires IdsIssued(rows, key, next)
    ensures IsSubseq(Delete(rows, key, k), rows)
    ensures forall x :: x in Delete(rows, key, k) <==> x in rows && key(x) != k
    ensures IdsIssued(Delete(rows, key, k), key, next)
  {
    DeleteIssued(rows, key, next, k);
    match IndexOf(rows, key, k)
    case None =>
    case Some(i) =>
      forall j | 0 <= j < |rows| && j != i ensures key(rows[j]) != key(rows[i]) {
        if j < i {
          assert key(rows[j]) < key(rows[i]);
        } else {
          assert key(rows[i]) < key(rows[j]);
        }
      }
      RemoveAtMembers(rows, key, i);
  }

  /** When no other row shares its id, removing the row at `i` leaves exactly the rows with another id. */
  lemma RemoveAtMembers<T>(rows: seq<T>, key: T -> int, i: nat)
    requires i < |rows| && forall j :: 0 <= j < |rows| && j != i ==> key(rows[j]) != key(rows[i])
    ensures forall x :: x in rows[..i] + rows[i + 1..] <==> x in rows && key(x) != key(rows[i])
  {
    var r := rows[..i] + rows[i + 1..];
    forall x | x in r ensures x in rows && key(x) != key(rows[i]) {
      var j :| 0 <= j < |r| && r[j] == x;
      var src := if j < i then j else j + 1;
      assert x == rows[src] && src != i;
    }
    forall x | x in rows && key(x) != key(rows[i]) ensures x in r {
      var j :| 0 <= j < |rows| && rows[j] == x;
      assert j != i;
      assert x == r[if j < i then j else j - 1];
    }
  }

  lemma SubseqIssued<T>(a: seq<T>, b: seq<T>, key: T -> int, next: int)
    requires IsSubseq(a, b) && IdsIssued(b, key, next)
    ensures IdsIssued(a, key, next)
  {
    var less := (x: T, y: T) => key(x) < key(y);
    assert Pairwise(b, less);
    SubseqPairwise(a, b, less);
    SubseqMembers(a, b);
    forall i | 0 <= i < |a| ensures 1 <= key(a[i]) < next {
      assert a[i] in b;
    }
  }
}
