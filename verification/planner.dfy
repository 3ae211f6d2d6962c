/** The planning loop (arraybuffer-struct.js:168-182): optionally a stable
    sort of the leaves by total size, largest first, then a cursor walk that
    aligns each leaf to its element size, records its layout entry and
    advances by its total size. The view's length is the final cursor. */
module Planner {
  import opened Kinds
  import opened TypeTag
  import opened Align
  import opened Fields

  /** `{name, offset, type, length, dims, isArray}`: one element of
      `Struct.layout`, the only structure a second context needs to rebind. */
  datatype LayoutEntry = LayoutEntry(
    name: seq<string>, offset: nat, kind: Kind, length: nat, dims: seq<nat>, flags: seq<bool>)
  {
    function TotalSize(): nat { kind.Size() * length }
  }

  function Key(it: Item): nat { it.info.totalSize }

  predicate SortedBySize(s: seq<Item>) {
    forall i, j :: 0 <= i < j < |s| ==> Key(s[i]) >= Key(s[j])
  }

  /** The items of total size `t`, in their order. */
  function WithSize(s: seq<Item>, t: nat): (r: seq<Item>)
    ensures forall i :: 0 <= i < |r| ==> Key(r[i]) == t
  {
    if |s| == 0 then []
    else (if Key(s[0]) == t then [s[0]] else []) + WithSize(s[1..], t)
  }

  /** Places `x` in front of the first element whose size does not exceed
      its own, so equal sizes keep their original order. */
  function Insert(x: Item, s: seq<Item>): (r: seq<Item>)
    requires SortedBySize(s)
    ensures |r| == |s| + 1 && (r[0] == x || (|s| > 0 && r[0] == s[0]))
    ensures SortedBySize(r)
    ensures multiset(r) == multiset(s) + multiset{x}
  {
    if |s| == 0 || Key(s[0]) <= Key(x) then [x] + s
    else
      var r := [s[0]] + Insert(x, s[1..]);
      assert s == [s[0]] + s[1..];
      r
  }

  lemma WithSizeCons(x: Item, s: seq<Item>, t: nat)
    ensures WithSize([x] + s, t) == (if Key(x) == t then [x] else []) + WithSize(s, t)
  {
    assert ([x] + s)[1..] == s;
  }

  /** Among the items of any one size, the inserted item comes first and the
      others keep their order. */
  lemma {:induction false} InsertStable(x: Item, s: seq<Item>, t: nat)
    requires SortedBySize(s)
    ensures WithSize(Insert(x, s), t) == if Key(x) == t then [x] + WithSize(s, t) else WithSize(s, t)
  {
    if |s| == 0 || Key(s[0]) <= Key(x) {
      WithSizeCons(x, s, t);
    } else {
      var tail := Insert(x, s[1..]);
      assert Insert(x, s) == [s[0]] + tail;
      InsertStable(x, s[1..], t);
      WithSizeCons(s[0], tail, t);
      assert s == [s[0]] + s[1..];
      WithSizeCons(s[0], s[1..], t);
    }
  }

  /** `parseObj.sort((a, b) => b.totalSize - a.totalSize)`; Array.prototype.sort
      is stable (section 23.1.3.30 of ECMA-262). */
  function SortBySize(s: seq<Item>): (r: seq<Item>)
    ensures |r| == |s| && SortedBySize(r)
  {
    if |s| == 0 then [] else Insert(s[0], SortBySize(s[1..]))
  }

  /** The sort only reorders: the result is a permutation of its input. */
  lemma {:induction false} SortPermutes(s: seq<Item>)
    ensures multiset(SortBySize(s)) == multiset(s)
  {
    if |s| > 0 {
      SortPermutes(s[1..]);
      assert s == [s[0]] + s[1..];
    }
  }

  /** The sort is stable: the items of each size appear in their original order. */
  lemma {:induction false} SortStable(s: seq<Item>, t: nat)
    ensures WithSize(SortBySize(s), t) == WithSize(s, t)
  {
    if |s| > 0 {
      SortStable(s[1..], t);
      InsertStable(s[0], SortBySize(s[1..]), t);
    }
  }

  /** Sorting keeps distinct leaf paths apart, since it only reorders. */
  lemma {:induction false} SortApart(s: seq<Item>)
    requires PairwiseApart(s)
    ensures PairwiseApart(SortBySize(s))
  {
    if |s| > 0 {
      TailApart(s);
      SortApart(s[1..]);
      var t := SortBySize(s[1..]);
      SortPermutes(s[1..]);
      forall y | y in t ensures Apart(s[0].name, y.name) {
        assert y in multiset(s[1..]);
        HeadApart(s, y);
      }
      InsertApart(s[0], t);
    }
  }

  lemma {:induction false} InsertApart(x: Item, s: seq<Item>)
    requires SortedBySize(s) && PairwiseApart(s)
    requires forall y :: y in s ==> Apart(x.name, y.name)
    ensures PairwiseApart(Insert(x, s))
  {
    if |s| == 0 || Key(s[0]) <= Key(x) {
      ConsApart(x, s);
    } else {
      TailApart(s);
      InsertApart(x, s[1..]);
      var t := Insert(x, s[1..]);
      forall y | y in t ensures Apart(s[0].name, y.name) {
        assert y in multiset(t);
        if y != x {
          assert y in multiset(s[1..]);
          HeadApart(s, y);
        }
      }
      ConsApart(s[0], t);
    }
  }

  /** The tail of a pairwise-apart sequence is pairwise apart. */
  lemma TailApart(s: seq<Item>)
    requires |s| > 0 && PairwiseApart(s)
    ensures PairwiseApart(s[1..])
    ensures forall y :: y in s[1..] ==> y in s
  {
    forall i, j | 0 <= i < j < |s[1..]| ensures Apart(s[1..][i].name, s[1..][j].name) {
      assert s[1..][i] == s[i + 1] && s[1..][j] == s[j + 1];
    }
  }

  /** The head of a pairwise-apart sequence is apart from every later item. */
  lemma HeadApart(s: seq<Item>, y: Item)
    requires |s| > 0 && PairwiseApart(s) && y in s[1..]
    ensures Apart(s[0].name, y.name)
  {
    var k :| 0 <= k < |s[1..]| && s[1..][k] == y;
    assert s[k + 1] == y;
  }

  /** An item apart from every element may be put in front. */
  lemma ConsApart(x: Item, s: seq<Item>)
    requires PairwiseApart(s) && forall y :: y in s ==> Apart(x.name, y.name)
    ensures PairwiseApart([x] + s)
  {
    var r := [x] + s;
    forall i, j | 0 <= i < j < |r| ensures Apart(r[i].name, r[j].name) {
      if i == 0 {
        assert r[j] == s[j - 1];
        assert r[j] in s;
      } else {
        assert r[i] == s[i - 1] && r[j] == s[j - 1];
      }
    }
  }

  /** The walk of lines 170-177 from cursor `start`: the entries and the final cursor. */
  function Place(items: seq<Item>, align: bool, start: nat): (r: (seq<LayoutEntry>, nat))
    ensures |r.0| == |items| && r.1 >= start
  {
    if |items| == 0 then ([], start)
    else
      var it := items[0];
      var offset := if align then AlignUp(start, it.info.kind.Size()) else start;
      var e := LayoutEntry(it.name, offset, it.info.kind, it.info.length, it.info.dims, it.flags);
      var rest := Place(items[1..], align, offset + it.info.totalSize);
      ([e] + rest.0, rest.1)
  }

  /** The cursor after the first item, from which the rest are placed. */
  function Next(items: seq<Item>, align: bool, start: nat): nat
    requires |items| > 0
  {
    (if align then AlignUp(start, items[0].info.kind.Size()) else start) + items[0].info.totalSize
  }

  lemma PlaceTail(items: seq<Item>, align: bool, start: nat, i: nat)
    requires 0 < i < |items|
    ensures Place(items, align, start).0[i] == Place(items[1..], align, Next(items, align, start)).0[i - 1]
  {
  }

  /** Entry `i` records item `i`, at or after the start, and ends by the final cursor. */
  lemma {:induction false} PlaceEntry(items: seq<Item>, align: bool, start: nat, i: nat)
    requires i < |items|
    ensures var r := Place(items, align, start);
      Describes(r.0[i], items[i]) && start <= r.0[i].offset && r.0[i].offset + Key(items[i]) <= r.1
  {
    if i > 0 {
      PlaceTail(items, align, start, i);
      PlaceEntry(items[1..], align, Next(items, align, start), i - 1);
    }
  }

  /** The final cursor is the end of the last entry: no trailing padding. */
  lemma {:induction false} PlaceExact(items: seq<Item>, align: bool, start: nat)
    ensures var r := Place(items, align, start);
      r.1 == if |items| == 0 then start else r.0[|items| - 1].offset + Key(items[|items| - 1])
  {
    if |items| > 1 {
      PlaceTail(items, align, start, |items| - 1);
      PlaceExact(items[1..], align, Next(items, align, start));
    }
  }

  /** Entries appear in cursor order and their ranges do not overlap. */
  lemma {:induction false} PlaceOrdered(items: seq<Item>, align: bool, start: nat, i: nat, j: nat)
    requires i < j < |items|
    ensures Place(items, align, start).0[i].offset + Key(items[i]) <= Place(items, align, start).0[j].offset
  {
    PlaceTail(items, align, start, j);
    if i > 0 {
      PlaceTail(items, align, start, i);
      PlaceOrdered(items[1..], align, Next(items, align, start), i - 1, j - 1);
    } else {
      PlaceEntry(items[1..], align, Next(items, align, start), j - 1);
    }
  }

  /** With alignment on, every offset is a multiple of its element size. */
  lemma {:induction false} PlaceAligned(items: seq<Item>, start: nat, i: nat)
    requires i < |items|
    requires items[i].info.Valid()
    ensures Place(items, true, start).0[i].offset % Place(items, true, start).0[i].kind.Size() == 0
  {
    if i > 0 {
      PlaceTail(items, true, start, i);
      PlaceAligned(items[1..], Next(items, true, start), i - 1);
    } else {
      assert items[0].info.kind.Size() == items[0].info.kind.Size();
    }
  }

  /** With alignment off, leaves are packed back to back: each offset is the
      sum of the sizes before it. */
  lemma {:induction false} PlacePacked(items: seq<Item>, start: nat, i: nat)
    requires i < |items|
    ensures Place(items, false, start).0[i].offset == start + SumSizes(items[..i])
  {
    if i > 0 {
      PlaceTail(items, false, start, i);
      PlacePacked(items[1..], Next(items, false, start), i - 1);
      assert items[..i][1..] == items[1..][..i - 1];
    } else {
      assert items[..0] == [];
    }
  }

  /** With alignment off, the view length is the sum of all total sizes. */
  lemma {:induction false} PlacePackedTotal(items: seq<Item>, start: nat)
    ensures Place(items, false, start).1 == start + SumSizes(items)
  {
    if |items| > 0 {
      PlacePackedTotal(items[1..], Next(items, false, start));
    }
  }

  /** A layout entry records its item's name path, flags, kind and shape. */
  predicate Describes(e: LayoutEntry, it: Item) {
    e.name == it.name && e.flags == it.flags && e.kind == it.info.kind
    && e.dims == it.info.dims && e.length == it.info.length
  }

  function SumSizes(items: seq<Item>): nat {
    if |items| == 0 then 0 else Key(items[0]) + SumSizes(items[1..])
  }

  /** With alignment on, each leaf sits at the first position after its
      predecessor's end (or the start) that is a multiple of its element size:
      no padding beyond what alignment demands. */
  lemma {:induction false} PaddingMinimal(items: seq<Item>, start: nat, i: nat, m: int)
    requires i < |items| && items[i].info.Valid()
    requires m % items[i].info.kind.Size() == 0
    requires m >= (if i == 0 then start else Place(items, true, start).0[i - 1].offset + Key(items[i - 1]))
    ensures Place(items, true, start).0[i].offset <= m
  {
    if i == 0 {
      AlignUpLeast(start, items[0].info.kind.Size(), m);
    } else {
      PlaceTail(items, true, start, i);
      if i > 1 {
        PlaceTail(items, true, start, i - 1);
      }
      PaddingMinimal(items[1..], Next(items, true, start), i - 1, m);
    }
  }

  /** Options of the fresh construction that shape the layout. */
  datatype PlanOptions = PlanOptions(layoutOpt: bool, align: bool)

  /** The leaf order the walk sees. */
  function Order(items: seq<Item>, opts: PlanOptions): (r: seq<Item>)
    ensures multiset(r) == multiset(items)
    ensures !opts.layoutOpt ==> r == items
    ensures opts.layoutOpt ==> SortedBySize(r)
  {
    if opts.layoutOpt then SortPermutes(items); SortBySize(items) else items
  }

}
