/**
 * The client helpers of the maintenance page and the catalogue: the bucketing
 * of maintenance items into the five mileage checkpoints, text truncation, the
 * list of model years and the zero guard of the discount badge.
 */
module Utils {
  import opened Seqs
  import opened Schema

  /** One property of the schedule object: a checkpoint key and the item names filed under it. */
  datatype Entry = Entry(key: string, names: seq<string>)

  /** A schedule object, its properties in JavaScript enumeration order. */
  type Schedule = seq<Entry>

  /** The checkpoints in miles, ascending, and the property keys they are filed under. */
  const Checkpoints: seq<int> := [5000, 10000, 15000, 30000, 60000]
  const CheckpointKeys: seq<string> := ["5000", "10000", "15000", "30000", "60000"]

  /** The names of the items, in order. */
  function Names(items: seq<MaintenanceItem>): (r: seq<string>)
    ensures |r| == |items| && forall k :: 0 <= k < |items| ==> r[k] == items[k].name
  {
    if items == [] then [] else [items[0].name] + Names(items[1..])
  }

  /** Whether an item falls due by checkpoint `c`. */
  function DueBy(c: int): MaintenanceItem -> bool
  {
    (x: MaintenanceItem) => x.intervalMiles <= c
  }

  /**
   * The names pushed onto checkpoint `c`'s list by the if-else chain, item by
   * item: an item lands in `c` when its interval is at most `c`.
   */
  function Bucket(items: seq<MaintenanceItem>, c: int): seq<string>
  {
    if items == [] then []
    else
      var last := items[|items| - 1];
      Bucket(items[..|items| - 1], c) + (if last.intervalMiles <= c then [last.name] else [])
  }

  /** The schedule the bucketing produces: the five checkpoint keys in order, each with its bucket. */
  function ScheduleOf(items: seq<MaintenanceItem>): Schedule
  {
    seq(5, j requires 0 <= j < 5 => Entry(CheckpointKeys[j], Bucket(items, Checkpoints[j])))
  }

  /**
   * mapMaintenanceItemsToSchedule: start from five empty lists and, for each item,
   * push its name onto the list of every checkpoint at or above its interval.
   */
  method MapMaintenanceItemsToSchedule(items: seq<MaintenanceItem>) returns (schedule: Schedule)
    ensures schedule == ScheduleOf(items)
    ensures |schedule| == 5 && forall j :: 0 <= j < 5 ==> schedule[j].key == CheckpointKeys[j]
    ensures items == [] ==> forall j :: 0 <= j < 5 ==> schedule[j].names == []
  {
    var s5, s10, s15, s30, s60: seq<string> := [], [], [], [], [];
    for i := 0 to |items|
      invariant s5 == Bucket(items[..i], 5000) && s10 == Bucket(items[..i], 10000)
      invariant s15 == Bucket(items[..i], 15000) && s30 == Bucket(items[..i], 30000)
      invariant s60 == Bucket(items[..i], 60000)
    {
      var item := items[i];
      assert items[..i + 1][..i] == items[..i];
      if item.intervalMiles <= 5000 {
        s5, s10, s15, s30, s60 := s5 + [item.name], s10 + [item.name], s15 + [item.name], s30 + [item.name], s60 + [item.name];
      } else if item.intervalMiles <= 10000 {
        s10, s15, s30, s60 := s10 + [item.name], s15 + [item.name], s30 + [item.name], s60 + [item.name];
      } else if item.intervalMiles <= 15000 {
        s15, s30, s60 := s15 + [item.name], s30 + [item.name], s60 + [item.name];
      } else if item.intervalMiles <= 30000 {
        s30, s60 := s30 + [item.name], s60 + [item.name];
      } else if item.intervalMiles <= 60000 {
        s60 := s60 + [item.name];
      }
    }
    assert items[..|items|] == items;
    schedule := [Entry("5000", s5), Entry("10000", s10), Entry("15000", s15), Entry("30000", s30), Entry("60000", s60)];
  }

  lemma {:induction false} NamesAppend(a: seq<MaintenanceItem>, b: seq<MaintenanceItem>)
    ensures Names(a + b) == Names(a) + Names(b)
  {
  }

  /** Taking names keeps a subsequence a subsequence. */
  lemma {:induction false} NamesSubseq(a: seq<MaintenanceItem>, b: seq<MaintenanceItem>)
    requires IsSubseq(a, b)
    ensures IsSubseq(Names(a), Names(b))
    decreases |b|
  {
    if a != [] {
      if a[0] == b[0] && IsSubseq(a[1..], b[1..]) {
        NamesSubseq(a[1..], b[1..]);
      } else {
        NamesSubseq(a, b[1..]);
      }
    }
  }

  /**
   * Checkpoint `c` lists, in input order, the names of exactly the items whose
   * interval is at most `c`.
   */
  lemma {:induction false} BucketIsFilter(items: seq<MaintenanceItem>, c: int)
    ensures Bucket(items, c) == Names(Filter(items, DueBy(c)))
    decreases |items|
  {
    if items != [] {
      var init, last := items[..|items| - 1], items[|items| - 1];
      BucketIsFilter(init, c);
      assert items == init + [last];
      FilterAppend(init, [last], DueBy(c));
      assert Filter([last], DueBy(c)) == if last.intervalMiles <= c then [last] else [] by {
        assert [last][1..] == [];
      }
      NamesAppend(Filter(init, DueBy(c)), Filter([last], DueBy(c)));
    }
  }

  /** An item lands in checkpoint `c`'s bucket exactly when its interval is at most `c`. */
  lemma PlacedIff(items: seq<MaintenanceItem>, c: int, x: MaintenanceItem)
    requires x in items
    ensures x in Filter(items, DueBy(c)) <==> x.intervalMiles <= c
    ensures x.intervalMiles <= c ==> x.name in Bucket(items, c)
  {
    BucketIsFilter(items, c);
    if x.intervalMiles <= c {
      var f := Filter(items, DueBy(c));
      var k :| 0 <= k < |f| && f[k] == x;
      assert Names(f)[k] == x.name;
    }
  }

  /** Every bucket keeps the input order of the names. */
  lemma BucketInInputOrder(items: seq<MaintenanceItem>, c: int)
    ensures IsSubseq(Bucket(items, c), Names(items))
  {
    BucketIsFilter(items, c);
    NamesSubseq(Filter(items, DueBy(c)), items);
  }

  /** The buckets are nested: a smaller checkpoint's list is a subsequence of a larger one's. */
  lemma BucketsNested(items: seq<MaintenanceItem>, c1: int, c2: int)
    requires c1 <= c2
    ensures IsSubseq(Bucket(items, c1), Bucket(items, c2))
  {
    BucketIsFilter(items, c1);
    BucketIsFilter(items, c2);
    var wide := Filter(items, DueBy(c2));
    FilterFilter(items, DueBy(c2), DueBy(c1), DueBy(c1));
    NamesSubseq(Filter(wide, DueBy(c1)), wide);
  }

  /** Items due later than 60000 miles are in no bucket: dropping them changes no checkpoint's list. */
  lemma {:induction false} BeyondLastCheckpointDropped(items: seq<MaintenanceItem>, c: int)
    requires c in Checkpoints
    ensures Bucket(items, c) == Bucket(Filter(items, DueBy(60000)), c)
    decreases |items|
  {
    if items != [] {
      var init, last := items[..|items| - 1], items[|items| - 1];
      BeyondLastCheckpointDropped(init, c);
      assert items == init + [last];
      FilterAppend(init, [last], DueBy(60000));
      var kept := Filter(init, DueBy(60000));
      assert [last][1..] == [];
      if last.intervalMiles <= 60000 {
        assert (kept + [last])[..|kept + [last]| - 1] == kept;
        assert (kept + [last])[|kept + [last]| - 1] == last;
      } else {
        assert Filter(items, DueBy(60000)) == kept + [];
        assert kept + [] == kept;
      }
    }
  }

  /**
   * truncateText: the text itself when it fits in `maxLength` characters,
   * otherwise its first `maxLength` characters (none for a negative length,
   * as `substring` clamps) followed by "...".
   */
  function TruncateText(text: string, maxLength: int): (r: string)
    ensures |text| <= maxLength ==> r == text
    ensures |text| > maxLength ==>
      var kept := if maxLength < 0 then 0 else maxLength;
      |r| == kept + 3 && r[..kept] == text[..kept] && r[kept..] == "..."
    ensures |r| <= |text| + 3
  {
    if |text| <= maxLength then text
    else
      var kept := if maxLength < 0 then 0 else maxLength;
      text[..kept] + "..."
  }

  /** getYearRange: the years from `endYear` down to `startYear`, one per year; none when `endYear < startYear`. */
  method GetYearRange(startYear: int, endYear: int) returns (years: seq<int>)
    ensures |years| == if endYear < startYear then 0 else endYear - startYear + 1
    ensures forall i :: 0 <= i < |years| ==> years[i] == endYear - i
    ensures forall i, j :: 0 <= i < j < |years| ==> years[i] > years[j]
    ensures forall y :: y in years <==> startYear <= y <= endYear
  {
    years := [];
    var year := endYear;
    while year >= startYear
      invariant year <= endYear && (endYear >= startYear ==> year >= startYear - 1)
      invariant endYear < startYear ==> year == endYear
      invariant |years| == endYear - year
      invariant forall i :: 0 <= i < |years| ==> years[i] == endYear - i
      decreases year - startYear
    {
      years := years + [year];
      year := year - 1;
    }
    forall y | startYear <= y <= endYear ensures y in years {
      assert years[endYear - y] == y;
    }
  }

  /**
   * getDiscountPercentage: 0 when either price is 0; otherwise the rounded
   * percentage `percent(originalPrice, salePrice)`, a floating-point
   * computation that is a parameter here.
   */
  function DiscountPercentage(originalPrice: int, salePrice: int, percent: (int, int) -> int): (r: int)
    ensures originalPrice == 0 || salePrice == 0 ==> r == 0
    ensures originalPrice != 0 && salePrice != 0 ==> r == percent(originalPrice, salePrice)
  {
    if originalPrice == 0 || salePrice == 0 then 0 else percent(originalPrice, salePrice)
  }
}
