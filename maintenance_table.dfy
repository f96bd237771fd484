/**
 * The maintenance-schedule table: one column per checkpoint label, one row per
 * distinct item name found in the schedule, and a check mark in a cell when the
 * column's list names the row's item.
 */
module MaintenanceTable {
  import opened Wrappers
  import opened Seqs
  import opened Schema
  import opened Utils

  /** The column labels, ascending, written with a thousands comma. */
  const IntervalLabels: seq<string> := ["5,000", "10,000", "15,000", "30,000", "60,000"]

  function IsComma(ch: char): bool { ch == ',' }

  /** `s.replace(",", "")`: the first comma, if any, removed. */
  function RemoveComma(s: string): (r: string)
    ensures ',' !in s ==> r == s
    ensures ',' in s ==> exists i :: 0 <= i < |s| && s[i] == ',' && ',' !in s[..i] && r == s[..i] + s[i + 1..]
  {
    match FirstIndex(s, IsComma)
    case None => s
    case Some(i) => s[..i] + s[i + 1..]
  }

  /** The comma at `i` is the first one, so it is the one removed. */
  lemma RemoveFirstComma(s: string, i: nat)
    requires i < |s| && s[i] == ',' && ',' !in s[..i]
    ensures RemoveComma(s) == s[..i] + s[i + 1..]
  {
  }

  /** A column label, its comma removed, is the property key of the same checkpoint. */
  lemma LabelMatchesKey(j: int)
    requires 0 <= j < 5
    ensures RemoveComma(IntervalLabels[j]) == CheckpointKeys[j]
  {
    var s := IntervalLabels[j];
    var i := if j == 0 then 1 else 2;
    assert s[i] == ',' && ',' !in s[..i];
    RemoveFirstComma(s, i);
    assert s[..i] + s[i + 1..] == CheckpointKeys[j];
  }

  /** `schedule[key]`: the list of the first property named `key`, if there is one. */
  function Lookup(schedule: Schedule, key: string): (r: Option<seq<string>>)
    ensures r.None? <==> forall e | e in schedule :: e.key != key
    ensures r.Some? ==> Entry(key, r.value) in schedule
  {
    if schedule == [] then None
    else if schedule[0].key == key then Some(schedule[0].names)
    else Lookup(schedule[1..], key)
  }

  /** All names of the schedule, property by property, each list in its order. */
  function Flatten(schedule: Schedule): seq<string>
  {
    if schedule == [] then [] else schedule[0].names + Flatten(schedule[1..])
  }

  /** A name occurs in the flattened schedule exactly when some property lists it. */
  lemma {:induction false} FlattenMembers(schedule: Schedule)
    ensures forall n :: n in Flatten(schedule) <==> exists e :: e in schedule && n in e.names
    decreases |schedule|
  {
    if schedule != [] {
      FlattenMembers(schedule[1..]);
      assert forall e :: e in schedule <==> e == schedule[0] || e in schedule[1..];
    }
  }

  /** The insertion order of a JavaScript Set fed `s`: each value where it first appears. */
  function Dedup(s: seq<string>): seq<string>
  {
    if s == [] then []
    else
      var d := Dedup(s[..|s| - 1]);
      if s[|s| - 1] in d then d else d + [s[|s| - 1]]
  }

  ghost predicate Distinct(s: seq<string>)
  {
    forall i, j :: 0 <= i < j < |s| ==> s[i] != s[j]
  }

  /**
   * The deduplicated rows hold every value exactly once, in the order of first
   * appearance: each prefix of the input deduplicates to a prefix of the rows, so
   * a row's value is met in the input before any occurrence of a later row's value.
   */
  lemma DedupSpec(s: seq<string>)
    ensures Distinct(Dedup(s))
    ensures forall n :: n in Dedup(s) <==> n in s
    ensures IsSubseq(Dedup(s), s)
    ensures forall k :: 0 <= k <= |s| ==> Dedup(s[..k]) <= Dedup(s)
    ensures forall i, j, k :: 0 <= i < j < |Dedup(s)| && 0 <= k < |s| && s[k] == Dedup(s)[j] ==> Dedup(s)[i] in s[..k]
  {
    DedupBasics(s);
    DedupPrefixes(s);
    forall i, j, k | 0 <= i < j < |Dedup(s)| && 0 <= k < |s| && s[k] == Dedup(s)[j]
      ensures Dedup(s)[i] in s[..k]
    {
      DedupOrderAt(s, i, j, k);
    }
  }

  /** A value met at position `k` of the input comes after every row placed before it. */
  lemma DedupOrderAt(s: seq<string>, i: nat, j: nat, k: nat)
    requires i < j < |Dedup(s)| && k < |s| && s[k] == Dedup(s)[j]
    ensures Dedup(s)[i] in s[..k]
  {
    var d, p := Dedup(s), Dedup(s[..k + 1]);
    assert p <= d by { DedupPrefixes(s); }
    assert d[j] in p by {
      DedupBasics(s[..k + 1]);
      assert s[..k + 1][k] == d[j];
    }
    var m :| 0 <= m < |p| && p[m] == d[j];
    assert m == j by { DedupBasics(s); }
    assert d[i] in s[..k + 1] by {
      assert p[i] == d[i];
      DedupBasics(s[..k + 1]);
    }
    assert d[i] != d[j] by { DedupBasics(s); }
    assert s[..k + 1] == s[..k] + [s[k]];
  }

  /** Each prefix of the input deduplicates to a prefix of the rows. */
  lemma {:induction false} DedupPrefixes(s: seq<string>)
    ensures forall k :: 0 <= k <= |s| ==> Dedup(s[..k]) <= Dedup(s)
    decreases |s|
  {
    if s != [] {
      var init := s[..|s| - 1];
      DedupPrefixes(init);
      forall k | 0 <= k <= |s|
        ensures Dedup(s[..k]) <= Dedup(s)
      {
        if k < |s| {
          assert s[..k] == init[..k];
        } else {
          assert s[..k] == s;
        }
      }
    }
  }

  /** Distinct values, the same members as the input, and a subsequence of it. */
  lemma {:induction false} DedupBasics(s: seq<string>)
    ensures Distinct(Dedup(s))
    ensures forall n :: n in Dedup(s) <==> n in s
    ensures IsSubseq(Dedup(s), s)
    decreases |s|
  {
    if s != [] {
      var init, last := s[..|s| - 1], s[|s| - 1];
      DedupBasics(init);
      assert s == init + [last];
      var d := Dedup(init);
      if last in d {
        SubseqSnoc(d, init, last);
      } else {
        SubseqBothSnoc(d, init, last);
      }
    }
  }

  /** Appending to the longer sequence keeps a subsequence. */
  lemma {:induction false} SubseqSnoc(a: seq<string>, b: seq<string>, x: string)
    requires IsSubseq(a, b)
    ensures IsSubseq(a, b + [x])
    decreases |b|
  {
    if a != [] {
      assert (b + [x])[1..] == b[1..] + [x];
      if a[0] == b[0] && IsSubseq(a[1..], b[1..]) {
        SubseqSnoc(a[1..], b[1..], x);
      } else {
        SubseqSnoc(a, b[1..], x);
      }
    }
  }

  /** Appending the same value to both keeps a subsequence. */
  lemma {:induction false} SubseqBothSnoc(a: seq<string>, b: seq<string>, x: string)
    requires IsSubseq(a, b)
    ensures IsSubseq(a + [x], b + [x])
    decreases |b|
  {
    if a == [] {
      if b != [] {
        assert (b + [x])[1..] == b[1..] + [x];
        SubseqBothSnoc(a, b[1..], x);
      }
    } else {
      assert (b + [x])[1..] == b[1..] + [x];
      assert (a + [x])[1..] == a[1..] + [x];
      if a[0] == b[0] && IsSubseq(a[1..], b[1..]) {
        SubseqBothSnoc(a[1..], b[1..], x);
      } else {
        SubseqBothSnoc(a, b[1..], x);
      }
    }
  }

  /**
   * The row set `allItems`: every list of the schedule, in property order, each
   * name added to a Set, which keeps a name where it first appeared. The rows
   * are then in the order in which the names are first met.
   */
  method AllItems(schedule: Schedule) returns (rows: seq<string>)
    ensures rows == Dedup(Flatten(schedule))
    ensures Distinct(rows)
    ensures forall n :: n in rows <==> exists e :: e in schedule && n in e.names
    ensures forall i, j, k :: 0 <= i < j < |rows| && 0 <= k < |Flatten(schedule)| && Flatten(schedule)[k] == rows[j] ==>
      rows[i] in Flatten(schedule)[..k]
  {
    rows := [];
    ghost var seen: seq<string> := [];
    for i := 0 to |schedule|
      invariant seen == Flatten(schedule[..i]) && rows == Dedup(seen)
    {
      var names := schedule[i].names;
      assert seen + names[..0] == seen;
      for k := 0 to |names|
        invariant rows == Dedup(seen + names[..k])
      {
        assert seen + names[..k + 1] == (seen + names[..k]) + [names[k]];
        DedupSnoc(seen + names[..k], names[k]);
        if names[k] !in rows {
          rows := rows + [names[k]];
        }
      }
      assert names[..|names|] == names;
      FlattenSnoc(schedule[..i], schedule[i]);
      assert schedule[..i + 1] == schedule[..i] + [schedule[i]];
      seen := seen + names;
    }
    assert schedule[..|schedule|] == schedule;
    assert && Distinct(rows)
           && (forall n :: n in rows <==> n in Flatten(schedule))
           && (forall i, j, k :: 0 <= i < j < |rows| && 0 <= k < |Flatten(schedule)| && Flatten(schedule)[k] == rows[j] ==>
                 rows[i] in Flatten(schedule)[..k]) by {
      DedupSpec(Flatten(schedule));
    }
    FlattenMembers(schedule);
  }

  lemma DedupSnoc(s: seq<string>, x: string)
    ensures Dedup(s + [x]) == if x in Dedup(s) then Dedup(s) else Dedup(s) + [x]
  {
    assert (s + [x])[..|s + [x]| - 1] == s;
  }

  lemma {:induction false} FlattenSnoc(s: Schedule, e: Entry)
    ensures Flatten(s + [e]) == Flatten(s) + e.names
    decreases |s|
  {
    if s == [] {
      assert [e][1..] == [];
    } else {
      assert (s + [e])[1..] == s[1..] + [e];
      FlattenSnoc(s[1..], e);
    }
  }

  /**
   * The cell of row `item` under column `label` is checked when the schedule
   * has the label's key (its comma removed) and that list names the item;
   * a missing key shows "-".
   */
  predicate CellChecked(schedule: Schedule, column: string, item: string)
  {
    match Lookup(schedule, RemoveComma(column))
    case None => false
    case Some(names) => item in names
  }

  /** A column whose key the schedule lacks is unchecked in every row. */
  lemma MissingKeyUnchecked(schedule: Schedule, column: string, item: string)
    requires forall e | e in schedule :: e.key != RemoveComma(column)
    ensures !CellChecked(schedule, column, item)
  {
  }

  /**
   * On a schedule built by the bucketing, the cell of name `n` under the j-th
   * label is checked exactly when some item of that name falls due by the j-th
   * checkpoint.
   */
  lemma CellOfBucketedSchedule(items: seq<MaintenanceItem>, j: int, n: string)
    requires 0 <= j < 5
    ensures CellChecked(ScheduleOf(items), IntervalLabels[j], n) <==>
      exists x :: x in items && x.name == n && x.intervalMiles <= Checkpoints[j]
  {
    ColumnReadsBucket(items, j);
    InBucketIff(items, Checkpoints[j], n);
  }

  /** The j-th column reads the j-th checkpoint's bucket. */
  lemma ColumnReadsBucket(items: seq<MaintenanceItem>, j: int)
    requires 0 <= j < 5
    ensures Lookup(ScheduleOf(items), RemoveComma(IntervalLabels[j])) == Some(Bucket(items, Checkpoints[j]))
  {
    var schedule := ScheduleOf(items);
    LabelMatchesKey(j);
    assert schedule[j] == Entry(CheckpointKeys[j], Bucket(items, Checkpoints[j]));
    forall i | 0 <= i < j ensures schedule[i].key != schedule[j].key {
      assert schedule[i].key == CheckpointKeys[i];
      assert CheckpointKeys[i] != CheckpointKeys[j] by {
        KeysDistinct(i, j);
      }
    }
    LookupFirst(schedule, j);
  }

  /** The five checkpoint keys are pairwise different. */
  lemma KeysDistinct(i: int, j: int)
    requires 0 <= i < j < 5
    ensures CheckpointKeys[i] != CheckpointKeys[j]
  {
    var a, b := CheckpointKeys[i], CheckpointKeys[j];
    if |a| == |b| {
      assert a[0] != b[0] || a[1] != b[1];
    }
  }

  /** A name is in checkpoint `c`'s bucket exactly when some item of that name falls due by `c`. */
  lemma InBucketIff(items: seq<MaintenanceItem>, c: int, n: string)
    ensures n in Bucket(items, c) <==> exists x :: x in items && x.name == n && x.intervalMiles <= c
  {
    BucketIsFilter(items, c);
    var f := Filter(items, DueBy(c));
    if n in Bucket(items, c) {
      var k :| 0 <= k < |f| && Names(f)[k] == n;
      assert f[k] in f;
    }
    if x :| x in items && x.name == n && x.intervalMiles <= c {
      PlacedIff(items, c, x);
    }
  }

  /** The first property under a key is the one `schedule[key]` reads. */
  lemma {:induction false} LookupFirst(schedule: Schedule, j: nat)
    requires j < |schedule| && forall i :: 0 <= i < j ==> schedule[i].key != schedule[j].key
    ensures Lookup(schedule, schedule[j].key) == Some(schedule[j].names)
    decreases j
  {
    if j > 0 {
      LookupFirst(schedule[1..], j - 1);
    }
  }
}
