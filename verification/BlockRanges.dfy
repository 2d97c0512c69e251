/** Intervals of blocks cut into consecutive ranges. */
module BlockRanges {
  /** An inclusive range of blocks. */
  datatype Range = Range(from: nat, to: nat)

  /** Consecutive ranges, each not empty, covering exactly the blocks from..to. */
  ghost predicate Tiles(ranges: seq<Range>, from: nat, to: int) {
    if ranges == [] then to == from - 1
    else
      && ranges[0].from == from && from <= ranges[0].to <= to
      && Tiles(ranges[1..], ranges[0].to + 1, to)
  }

  lemma TilesBase(from: nat, to: nat)
    ensures forall end :: Tiles([], from, end) <==> end == from - 1
    ensures from <= to ==> Tiles([Range(from, to)], from, to)
  {
  }

  lemma OneTile(range: Range, from: nat, to: int)
    ensures Tiles([range], from, to) <==> range.from == from && from <= range.to == to
  {
    assert [range][1..] == [];
  }

  /** What follows a tiled interval extends it exactly when it starts right behind it. */
  lemma {:induction false} TilesConcat(a: seq<Range>, b: seq<Range>, from: nat, mid: int, to: int)
    requires mid >= from - 1 && Tiles(a, from, mid)
    ensures Tiles(a + b, from, to) <==> Tiles(b, mid + 1, to)
    decreases |a|
  {
    if Tiles(b, mid + 1, to) {
      TilesNotBackward(b, mid + 1, to);
    }
    if a == [] {
      assert a + b == b;
    } else {
      assert (a + b)[1..] == a[1..] + b;
      TilesNotBackward(a[1..], a[0].to + 1, mid);
      TilesConcat(a[1..], b, a[0].to + 1, mid, to);
    }
  }

  lemma {:induction false} TilesNotBackward(a: seq<Range>, from: nat, to: int)
    requires Tiles(a, from, to)
    ensures to >= from - 1
    decreases |a|
  {
    if a != [] { TilesNotBackward(a[1..], a[0].to + 1, to); }
  }

  lemma {:induction false} TilesLast(a: seq<Range>, from: nat, to: int)
    requires Tiles(a, from, to) && a != []
    ensures a[|a| - 1].to == to >= from
    decreases |a|
  {
    if |a| > 1 { TilesLast(a[1..], a[0].to + 1, to); }
  }

  /** Every block of a tiled interval lies in one of its ranges, and in no other. */
  lemma {:induction false} TilesCoverOnce(a: seq<Range>, from: nat, to: int, b: nat)
    requires Tiles(a, from, to)
    ensures from <= b <= to <==> exists i :: 0 <= i < |a| && a[i].from <= b <= a[i].to
    ensures forall i, j :: 0 <= i < j < |a| ==> a[i].to < a[j].from
    decreases |a|
  {
    if a != [] {
      TilesCoverOnce(a[1..], a[0].to + 1, to, b);
      TilesNotBackward(a[1..], a[0].to + 1, to);
      forall i, j | 0 <= i < j < |a| ensures a[i].to < a[j].from {
        assert a[j] == a[1..][j - 1];
        if i == 0 { RangesStartAfter(a[1..], a[0].to + 1, to, j - 1); } else { assert a[i] == a[1..][i - 1]; }
      }
      if a[0].to < b <= to {
        var i :| 0 <= i < |a[1..]| && a[1..][i].from <= b <= a[1..][i].to;
        assert a[i + 1] == a[1..][i];
      }
      if exists i :: 0 <= i < |a| && a[i].from <= b <= a[i].to {
        var i :| 0 <= i < |a| && a[i].from <= b <= a[i].to;
        if i > 0 { assert a[i] == a[1..][i - 1]; }
      }
    }
  }

  lemma {:induction false} RangesStartAfter(a: seq<Range>, from: nat, to: int, i: nat)
    requires Tiles(a, from, to) && i < |a|
    ensures from <= a[i].from <= a[i].to <= to
    decreases |a|
  {
    TilesNotBackward(a[1..], a[0].to + 1, to);
    if i > 0 {
      assert a[i] == a[1..][i - 1];
      RangesStartAfter(a[1..], a[0].to + 1, to, i - 1);
    }
  }
}
