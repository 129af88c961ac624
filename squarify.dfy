/**
 * The treemap layout. A group of nodes is sorted by size and cut where the running size
 * first reaches half the total; the bounding rectangle is cut across its longer side in
 * the same proportion; and the recursion turns a directory into one rectangle per node
 * that is shallow enough and large enough to be drawn.
 */
module Squarify {
  import opened Wrappers
  import opened FileTree

  /** Directories deeper than this below the laid-out root are not laid out. */
  const MaxFsDepth: nat := 16
  /** Rectangles narrower or lower than this are not laid out. */
  const MinBoxSize: real := 20.0
  /** Room left at the top of a directory's rectangle for its label. */
  const TextOffset: real := 13.0
  /** Margin around a group holding a single node. */
  const Pad: real := 1.0

  /** An axis-aligned rectangle: origin and extent, over the reals. */
  datatype Rect = Rect(x: real, y: real, width: real, height: real)

  /** A node's place on screen. */
  datatype GUINode = GUINode(rect: Rect, nodeId: nat)

  /** The two groups a node list is cut into and the rectangles they get. */
  datatype Split = Split(groupA: seq<Node>, boundA: Rect, groupB: seq<Node>, boundB: Rect)

  // ---------------------------------------------------------------------------------------
  // Sizes

  /** The total size of a list of nodes. */
  function SumSizes(nodes: seq<Node>): nat {
    if nodes == [] then 0 else nodes[0].size + SumSizes(nodes[1..])
  }

  lemma {:induction false} SumAppend(a: seq<Node>, b: seq<Node>)
    ensures SumSizes(a + b) == SumSizes(a) + SumSizes(b)
  {
    if a == [] {
      assert a + b == b;
    } else {
      assert (a + b)[1..] == a[1..] + b;
      SumAppend(a[1..], b);
    }
  }

  /** Taking one more node adds its size. */
  lemma PrefixSumStep(nodes: seq<Node>, k: nat)
    requires k < |nodes|
    ensures SumSizes(nodes[..k + 1]) == SumSizes(nodes[..k]) + nodes[k].size
  {
    assert nodes[..k + 1] == nodes[..k] + [nodes[k]];
    SumAppend(nodes[..k], [nodes[k]]);
  }

  /** Longer prefixes weigh at least as much. */
  lemma PrefixSumMonotone(nodes: seq<Node>, j: nat, k: nat)
    requires j <= k <= |nodes|
    ensures SumSizes(nodes[..j]) <= SumSizes(nodes[..k])
  {
    assert nodes[..k] == nodes[..j] + nodes[j..k];
    SumAppend(nodes[..j], nodes[j..k]);
  }

  // ---------------------------------------------------------------------------------------
  // The stable sort by size

  /** Sizes never decrease along `s`. */
  predicate SortedBySize(s: seq<Node>) {
    forall i, j :: 0 <= i < j < |s| ==> s[i].size <= s[j].size
  }

  /** `s` with `x` placed before its first node at least as large. */
  function InsertBySize(x: Node, s: seq<Node>): (r: seq<Node>)
    ensures |r| == |s| + 1
  {
    if s == [] || x.size <= s[0].size then [x] + s else [s[0]] + InsertBySize(x, s[1..])
  }

  /** `sort_by_key(|x| x.size)`: a stable sort by size (insertion from the back). */
  function SortBySize(s: seq<Node>): (r: seq<Node>)
    ensures |r| == |s|
  {
    if s == [] then [] else InsertBySize(s[0], SortBySize(s[1..]))
  }

  /** The nodes of size `v`, in order. */
  function OfSize(s: seq<Node>, v: nat): seq<Node> {
    if s == [] then [] else (if s[0].size == v then [s[0]] else []) + OfSize(s[1..], v)
  }

  lemma {:induction false} InsertKeepsSorted(x: Node, s: seq<Node>)
    requires SortedBySize(s)
    ensures SortedBySize(InsertBySize(x, s))
  {
    if s != [] && s[0].size < x.size {
      InsertKeepsSorted(x, s[1..]);
      var t := InsertBySize(x, s[1..]);
      InsertMembers(x, s[1..]);
      forall j | 0 <= j < |t|
        ensures s[0].size <= t[j].size
      {
        assert t[j] in multiset(t);
      }
    }
  }

  /** Inserting adds `x` and keeps everything else. */
  lemma {:induction false} InsertMembers(x: Node, s: seq<Node>)
    ensures multiset(InsertBySize(x, s)) == multiset{x} + multiset(s)
  {
    if s != [] && s[0].size < x.size {
      InsertMembers(x, s[1..]);
      assert s == [s[0]] + s[1..];
    }
  }

  /** The sort orders by size. */
  lemma {:induction false} SortSorts(s: seq<Node>)
    ensures SortedBySize(SortBySize(s))
  {
    if s != [] {
      SortSorts(s[1..]);
      InsertKeepsSorted(s[0], SortBySize(s[1..]));
    }
  }

  /** The sort neither loses nor invents nodes. */
  lemma {:induction false} SortPermutes(s: seq<Node>)
    ensures multiset(SortBySize(s)) == multiset(s)
  {
    if s != [] {
      SortPermutes(s[1..]);
      InsertMembers(s[0], SortBySize(s[1..]));
      assert s == [s[0]] + s[1..];
    }
  }

  lemma {:induction false} InsertOfSize(x: Node, s: seq<Node>, v: nat)
    ensures OfSize(InsertBySize(x, s), v) == (if x.size == v then [x] else []) + OfSize(s, v)
  {
    var r := InsertBySize(x, s);
    if s == [] || x.size <= s[0].size {
      assert r[0] == x && r[1..] == s;
    } else {
      InsertOfSize(x, s[1..], v);
      assert r[0] == s[0] && r[1..] == InsertBySize(x, s[1..]);
    }
  }

  /** The sort is stable: nodes of equal size keep their input order. */
  lemma {:induction false} SortIsStable(s: seq<Node>, v: nat)
    ensures OfSize(SortBySize(s), v) == OfSize(s, v)
  {
    if s != [] {
      SortIsStable(s[1..], v);
      InsertOfSize(s[0], SortBySize(s[1..]), v);
    }
  }

  /** Sorting an already sorted list changes nothing, so groups cut from a sorted list stay put. */
  lemma {:induction false} SortOfSorted(s: seq<Node>)
    requires SortedBySize(s)
    ensures SortBySize(s) == s
  {
    if s != [] {
      SortOfSorted(s[1..]);
      assert s == [s[0]] + s[1..];
    }
  }

  /** Sorting keeps the total size. */
  lemma {:induction false} SortKeepsSum(s: seq<Node>)
    ensures SumSizes(SortBySize(s)) == SumSizes(s)
  {
    if s != [] {
      SortKeepsSum(s[1..]);
      InsertKeepsSum(s[0], SortBySize(s[1..]));
    }
  }

  lemma {:induction false} InsertKeepsSum(x: Node, s: seq<Node>)
    ensures SumSizes(InsertBySize(x, s)) == x.size + SumSizes(s)
  {
    var r := InsertBySize(x, s);
    if s == [] || x.size <= s[0].size {
      assert r[1..] == s;
    } else {
      InsertKeepsSum(x, s[1..]);
      assert r[1..] == InsertBySize(x, s[1..]);
    }
  }

  // ---------------------------------------------------------------------------------------
  // Where a sorted group is cut

  /**
   * The loop of `squarify` started after `k` nodes: the shortest prefix of at least `k`
   * nodes whose sizes reach `half`, or None when not even all nodes do, where the loop
   * reads past the end of the list.
   */
  function Reach(nodes: seq<Node>, half: nat, k: nat): (r: Option<nat>)
    requires k <= |nodes|
    ensures r.Some? ==> k <= r.value <= |nodes| && half <= SumSizes(nodes[..r.value])
    ensures r.Some? ==> forall j :: k <= j < r.value ==> SumSizes(nodes[..j]) < half
    ensures r.None? ==> forall j :: k <= j <= |nodes| ==> SumSizes(nodes[..j]) < half
    decreases |nodes| - k
  {
    if half <= SumSizes(nodes[..k]) then Some(k)
    else if k == |nodes| then None
    else Reach(nodes, half, k + 1)
  }

  /** The loop runs off the end exactly when all the nodes together stay below `half`. */
  lemma ReachFails(nodes: seq<Node>, half: nat)
    ensures Reach(nodes, half, 0).None? <==> SumSizes(nodes) < half
  {
    assert nodes[..|nodes|] == nodes;
    var r := Reach(nodes, half, 0);
    if r.Some? {
      PrefixSumMonotone(nodes, r.value, |nodes|);
    }
  }

  /**
   * The cut as `squarify` computes it, as written: the split index and `size_a`, or None
   * where the accumulation loop indexes past the end of the list and panics.
   */
  function SplitAsWritten(sorted: seq<Node>, total: nat): (r: Option<(nat, nat)>)
    requires |sorted| > 0
    ensures r.Some? ==> r.value.0 < |sorted| && r.value.1 == SumSizes(sorted[..r.value.0])
    ensures r.Some? && r.value.0 < |sorted| - 1 ==> total / 2 <= r.value.1
  {
    match Reach(sorted, total / 2, 0)
    case None => None
    case Some(k) =>
      var split := if k == |sorted| then k - 1 else k;
      Some((split, SumSizes(sorted[..split])))
  }

  /** As written, the loop panics exactly when the group's sizes sum to less than half the total. */
  lemma SplitAsWrittenPanics(sorted: seq<Node>, total: nat)
    requires |sorted| > 0
    ensures SplitAsWritten(sorted, total).None? <==> SumSizes(sorted) < total / 2
  {
    ReachFails(sorted, total / 2);
  }

  /** As written, group A is empty exactly when the total is below 2. */
  lemma SplitAsWrittenEmptyA(sorted: seq<Node>, total: nat)
    requires |sorted| >= 2
    ensures SplitAsWritten(sorted, total) == Some((0, 0)) <==> total < 2
  {
    assert sorted[..0] == [];
    var r := Reach(sorted, total / 2, 0);
    if r.Some? && r.value == 1 {
      assert SumSizes(sorted[..0]) < total / 2;
    }
  }

  /**
   * The cut the layout uses. As `squarify` does, it takes the shortest sorted prefix
   * reaching half the total and gives one node back when that prefix is everything; it
   * also stops at the end of the list instead of reading past it, and keeps group A
   * non-empty whenever there are two nodes or more.
   */
  function SplitPoint(sorted: seq<Node>, total: nat): (r: nat)
    requires |sorted| > 0
    ensures r < |sorted|
    ensures |sorted| >= 2 ==> 1 <= r
  {
    var k := match Reach(sorted, total / 2, 0)
      case None => |sorted|
      case Some(k) => k;
    var cut := if k == |sorted| then k - 1 else k;
    if cut == 0 && |sorted| >= 2 then 1 else cut
  }

  /** Wherever the loop as written neither panics nor leaves group A empty, the cut is the same. */
  lemma SplitPointAgrees(sorted: seq<Node>, total: nat)
    requires |sorted| > 0
    requires SplitAsWritten(sorted, total).Some?
    requires SplitAsWritten(sorted, total).value.0 > 0 || |sorted| == 1
    ensures SplitPoint(sorted, total) == SplitAsWritten(sorted, total).value.0
  {
  }

  /**
   * When half the total is positive and reached without the last node, group A is the
   * shortest prefix whose sizes reach it.
   */
  lemma SplitPointIsShortest(sorted: seq<Node>, total: nat)
    requires |sorted| > 0
    requires 1 <= total / 2 <= SumSizes(sorted[..|sorted| - 1])
    ensures var r := SplitPoint(sorted, total);
            && total / 2 <= SumSizes(sorted[..r])
            && forall j :: 0 <= j < r ==> SumSizes(sorted[..j]) < total / 2
  {
    assert sorted[..0] == [];
    var k := Reach(sorted, total / 2, 0);
    assert k.Some? && k.value < |sorted|;
  }

  /** When only the whole list reaches half the total, the last node is given back to group B. */
  lemma SplitPointBacksOff(sorted: seq<Node>, total: nat)
    requires |sorted| >= 2
    requires SumSizes(sorted[..|sorted| - 1]) < total / 2
    ensures SplitPoint(sorted, total) == |sorted| - 1
  {
    var r := Reach(sorted, total / 2, 0);
    if r.Some? && r.value < |sorted| {
      PrefixSumMonotone(sorted, r.value, |sorted| - 1);
    }
  }

  // ---------------------------------------------------------------------------------------
  // Rectangles

  /** `part / total` as a fraction; an empty total gives nothing to the first piece. */
  function Fraction(part: nat, total: nat): (f: real)
    ensures part <= total ==> 0.0 <= f <= 1.0
  {
    if total == 0 then 0.0 else part as real / total as real
  }

  /** The bound cut across its longer side, `part / total` of it going to the first piece. */
  function Divide(bound: Rect, part: nat, total: nat): (Rect, Rect) {
    Cut(bound, Fraction(part, total))
  }

  /** The bound cut across its longer side, the share `f` of it going to the first piece. */
  function Cut(bound: Rect, f: real): (Rect, Rect) {
    if bound.width > bound.height then Across(bound, Share(bound.width, f)) else Down(bound, Share(bound.height, f))
  }

  /** `r` cut by a vertical line `w` from its left edge. */
  function Across(r: Rect, w: real): (Rect, Rect) {
    (Rect(r.x, r.y, w, r.height), Rect(r.x + w, r.y, r.width - w, r.height))
  }

  /** `r` cut by a horizontal line `h` below its top edge. */
  function Down(r: Rect, h: real): (Rect, Rect) {
    (Rect(r.x, r.y, r.width, h), Rect(r.x, r.y + h, r.width, r.height - h))
  }

  /** The margin around a group of exactly one node. */
  function Padded(r: Rect): Rect {
    Rect(r.x + Pad, r.y + Pad, r.width - 2.0 * Pad, r.height - 2.0 * Pad)
  }

  /** The room a directory leaves for its children: 3 at the sides and bottom, the label height on top. */
  function Inset(b: Rect): (r: Rect)
    ensures Inside(r, b)
    ensures r.x - b.x == 3.0 && (b.x + b.width) - (r.x + r.width) == 3.0
    ensures r.y - b.y == TextOffset && (b.y + b.height) - (r.y + r.height) == 3.0
  {
    Rect(b.x + 3.0, b.y + TextOffset, b.width - 6.0, b.height - TextOffset - 3.0)
  }

  /** The two rectangles of a cut, each padded when its group holds a single node. */
  function Halves(bound: Rect, part: nat, total: nat, padA: bool, padB: bool): (Rect, Rect) {
    var d := Divide(bound, part, total);
    (if padA then Padded(d.0) else d.0, if padB then Padded(d.1) else d.1)
  }

  /** `inner` lies within `outer`. */
  predicate Inside(inner: Rect, outer: Rect) {
    && outer.x <= inner.x && inner.x + inner.width <= outer.x + outer.width
    && outer.y <= inner.y && inner.y + inner.height <= outer.y + outer.height
  }

  /** The two rectangles do not overlap. */
  predicate Apart(a: Rect, b: Rect) {
    a.x + a.width <= b.x || b.x + b.width <= a.x || a.y + a.height <= b.y || b.y + b.height <= a.y
  }

  function Area(r: Rect): real {
    r.width * r.height
  }

  /** The share `f` of an extent `e`; a share between none and all of it stays within it. */
  function Share(e: real, f: real): (w: real)
    ensures e >= 0.0 && 0.0 <= f <= 1.0 ==> 0.0 <= w <= e
  {
    assert e >= 0.0 && 0.0 <= f <= 1.0 ==> e * f <= e * 1.0;
    e * f
  }

  /** Cutting a width `w` off the left of `r` leaves two pieces side by side that tile it. */
  lemma CutAcross(r: Rect, w: real)
    requires r.height >= 0.0 && 0.0 <= w <= r.width
    ensures var (a, b) := Across(r, w);
            && Inside(a, r) && Inside(b, r) && Apart(a, b) && Area(a) + Area(b) == Area(r)
            && a.height == r.height == b.height && a.x + a.width == b.x
  {
    assert w * r.height + (r.width - w) * r.height == r.width * r.height;
  }

  /** Cutting a height `h` off the top of `r` leaves two pieces one above the other that tile it. */
  lemma CutDown(r: Rect, h: real)
    requires r.width >= 0.0 && 0.0 <= h <= r.height
    ensures var (a, b) := Down(r, h);
            && Inside(a, r) && Inside(b, r) && Apart(a, b) && Area(a) + Area(b) == Area(r)
            && a.width == r.width == b.width && a.y + a.height == b.y
  {
    assert r.width * h + r.width * (r.height - h) == r.width * r.height;
  }

  /**
   * The two pieces of a cut lie within the bound, do not overlap, and their areas add up
   * to the bound's: they tile it. The cut runs across the longer side.
   */
  lemma CutTiles(bound: Rect, f: real)
    requires bound.width >= 0.0 && bound.height >= 0.0 && 0.0 <= f <= 1.0
    ensures var (a, b) := Cut(bound, f);
            && Inside(a, bound) && Inside(b, bound) && Apart(a, b)
            && Area(a) + Area(b) == Area(bound)
            && (bound.width > bound.height ==> a.height == bound.height == b.height && a.x + a.width == b.x)
            && (bound.width <= bound.height ==> a.width == bound.width == b.width && a.y + a.height == b.y)
  {
    if bound.width > bound.height {
      CutAcross(bound, Share(bound.width, f));
    } else {
      CutDown(bound, Share(bound.height, f));
    }
  }

  /** `Divide` tiles the bound as `Cut` does. */
  lemma DivideTiles(bound: Rect, part: nat, total: nat)
    requires bound.width >= 0.0 && bound.height >= 0.0 && part <= total
    ensures var (a, b) := Divide(bound, part, total);
            && Inside(a, bound) && Inside(b, bound) && Apart(a, b)
            && Area(a) + Area(b) == Area(bound)
            && (bound.width > bound.height ==> a.height == bound.height == b.height && a.x + a.width == b.x)
            && (bound.width <= bound.height ==> a.width == bound.width == b.width && a.y + a.height == b.y)
  {
    CutTiles(bound, Fraction(part, total));
  }

  /** The first piece of a cut gets the share `f` of the area and the second the rest. */
  lemma CutProportional(bound: Rect, f: real)
    ensures var (a, b) := Cut(bound, f);
            Area(a) == Area(bound) * f && Area(b) == Area(bound) * (1.0 - f)
  {
    if bound.width > bound.height {
      var w := Share(bound.width, f);
      assert w * bound.height == bound.width * bound.height * f;
      assert (bound.width - w) * bound.height == bound.width * bound.height * (1.0 - f);
    } else {
      var h := Share(bound.height, f);
      assert bound.width * h == bound.width * bound.height * f;
      assert bound.width * (bound.height - h) == bound.width * bound.height * (1.0 - f);
    }
  }

  /** The first piece of `Divide` gets `part / total` of the area and the second the rest. */
  lemma DivideProportional(bound: Rect, part: nat, total: nat)
    requires 0 < total && part <= total
    ensures var (a, b) := Divide(bound, part, total);
            && Area(a) * total as real == Area(bound) * part as real
            && Area(b) * total as real == Area(bound) * (total - part) as real
  {
    var f := Fraction(part, total);
    var t := total as real;
    var A := Area(bound);
    CutProportional(bound, f);
    assert f * t == part as real;
    assert A * f * t == A * part as real;
    assert A * (1.0 - f) * t == A * t - A * part as real;
  }

  lemma PaddedInside(r: Rect)
    requires r.width >= 2.0 * Pad && r.height >= 2.0 * Pad
    ensures Inside(Padded(r), r)
  {
  }

  /** Whatever lies within a padded rectangle lies within the rectangle. */
  lemma InsidePadded(g: Rect, r: Rect)
    requires Inside(g, Padded(r))
    ensures Inside(g, r)
  {
  }

  lemma InsideTrans(a: Rect, b: Rect, c: Rect)
    requires Inside(a, b) && Inside(b, c)
    ensures Inside(a, c)
  {
  }

  // ---------------------------------------------------------------------------------------
  // squarify

  /**
   * `squarify` with the cut the layout uses: group A followed by group B is the input
   * sorted by size, B is never empty and neither is A for two nodes or more, and the
   * bound is cut in proportion to group A's size.
   */
  function Squarified(nodes: seq<Node>, bound: Rect, total: nat): (r: Split)
    requires |nodes| > 0
    ensures r.groupA + r.groupB == SortBySize(nodes)
    ensures r.groupB != [] && (|nodes| >= 2 ==> r.groupA != [])
    ensures (r.boundA, r.boundB) == Halves(bound, SumSizes(r.groupA), total, |r.groupA| == 1, |r.groupB| == 1)
  {
    var sorted := SortBySize(nodes);
    var split := SplitPoint(sorted, total);
    assert sorted[..split] + sorted[split..] == sorted;
    var halves := Halves(bound, SumSizes(sorted[..split]), total, split == 1, |sorted| - split == 1);
    Split(sorted[..split], halves.0, sorted[split..], halves.1)
  }

  /** Every node of group A is no larger than any node of group B. */
  lemma SmallerFirst(nodes: seq<Node>, bound: Rect, total: nat)
    requires |nodes| > 0
    ensures var s := Squarified(nodes, bound, total);
            forall i, j :: 0 <= i < |s.groupA| && 0 <= j < |s.groupB| ==> s.groupA[i].size <= s.groupB[j].size
  {
    var s := Squarified(nodes, bound, total);
    var sorted := s.groupA + s.groupB;
    SortSorts(nodes);
    forall i, j | 0 <= i < |s.groupA| && 0 <= j < |s.groupB|
      ensures s.groupA[i].size <= s.groupB[j].size
    {
      assert s.groupA[i] == sorted[i] && s.groupB[j] == sorted[|s.groupA| + j];
    }
  }

  /**
   * `squarify` as written: sort, accumulate from the smallest node until half the total
   * is reached, give the last node back if all were taken, and cut the bound. The
   * precondition is where the accumulation loop stays within the list.
   */
  method Squarify(nodes: seq<Node>, bound: Rect, total: nat)
    returns (groupA: seq<Node>, boundA: Rect, groupB: seq<Node>, boundB: Rect)
    requires |nodes| > 0 && total / 2 <= SumSizes(nodes)
    ensures SplitAsWritten(SortBySize(nodes), total).Some?
    ensures var (split, sizeA) := SplitAsWritten(SortBySize(nodes), total).value;
            && groupA == SortBySize(nodes)[..split] && groupB == SortBySize(nodes)[split..]
            && (boundA, boundB) == Halves(bound, sizeA, total, |groupA| == 1, |groupB| == 1)
  {
    var sorted := SortBySize(nodes);
    SortKeepsSum(nodes);
    assert sorted[..|sorted|] == sorted;
    var sizeA: nat := 0;
    var split: nat := 0;
    assert sorted[..0] == [];
    while sizeA < total / 2
      invariant split <= |sorted| && sizeA == SumSizes(sorted[..split])
      invariant Reach(sorted, total / 2, split) == Reach(sorted, total / 2, 0)
      decreases |sorted| - split
    {
      PrefixSumStep(sorted, split);
      sizeA := sizeA + sorted[split].size;
      split := split + 1;
    }
    assert Reach(sorted, total / 2, 0) == Some(split);
    if split == |sorted| {
      split := split - 1;
      PrefixSumStep(sorted, split);
      sizeA := sizeA - sorted[split].size;
    }
    assert SplitAsWritten(sorted, total) == Some((split, sizeA));
    groupA := sorted[..split];
    groupB := sorted[split..];
    assert |groupA| == split && |groupB| == |sorted| - split;
    var halves := Divide(bound, sizeA, total);
    boundA, boundB := halves.0, halves.1;
    if |groupA| == 1 {
      boundA := Padded(boundA);
    }
    if |groupB| == 1 {
      boundB := Padded(boundB);
    }
  }

  /**
   * As written, a sorted group of two nodes or more whose sizes add up to 1 is cut into an
   * empty group A and a group B that is the whole group again, with the whole bound: the
   * recursion on group B repeats its caller's arguments and never ends.
   */
  lemma AsWrittenGroupRepeats(nodes: seq<Node>, bound: Rect)
    requires |nodes| >= 2 && SortedBySize(nodes) && SumSizes(nodes) == 1
    ensures SplitAsWritten(SortBySize(nodes), SumSizes(nodes)) == Some((0, 0))
    ensures SortBySize(nodes)[0..] == nodes
    ensures Halves(bound, 0, SumSizes(nodes), false, false).1 == bound
  {
    SortOfSorted(nodes);
    SplitAsWrittenEmptyA(nodes, 1);
  }

  /**
   * A directory whose own entry is 4096 bytes, holding one 10-byte file, is built by two
   * insertions; laying it out cuts its children with its total of 4106, and as written
   * the loop reads past the end of its single child.
   */
  lemma DirectoryOverruns()
    ensures var e0 := [RootNode("/")];
            var e1 := AddedElems(e0, 0, "d", false, 4096);
            var e2 := AddedElems(e1, 1, "f", true, 10);
            && e2[1].size == 4106 && e2[1].children == [2]
            && SplitAsWritten(SortBySize(Pick(e2, e2[1].children)), e2[1].size) == None
  {
    var e0 := [RootNode("/")];
    assert WellFormed(e0);
    AddElemEffect(e0, 0, "d", false, 4096);
    AddPreservesWellFormed(e0, 0, "d", false, 4096);
    var e1 := AddedElems(e0, 0, "d", false, 4096);
    AddElemEffect(e1, 1, "f", true, 10);
    var e2 := AddedElems(e1, 1, "f", true, 10);
    assert Ancestors(e1, 1) == {0};
    var children := SortBySize(Pick(e2, e2[1].children));
    SplitAsWrittenPanics(children, 4106);
    assert children == [e2[2]];
  }

  /** The arena after adding a file of `size` under the root of `elems`. */
  ghost function AddFileToRoot(elems: seq<Node>, name: string, size: nat): (r: seq<Node>)
    requires WellFormed(elems)
    ensures WellFormed(r)
  {
    AddPreservesWellFormed(elems, 0, name, true, size);
    AddedElems(elems, 0, name, true, size)
  }

  lemma AddFileToRootShape(elems: seq<Node>, name: string, size: nat)
    requires WellFormed(elems)
    ensures var r := AddFileToRoot(elems, name, size);
            && |r| == |elems| + 1
            && r[0].children == elems[0].children + [|elems|]
            && r[0].size == elems[0].size + size
            && r[|elems|].size == size
            && forall i :: 0 < i < |elems| ==> r[i].size == elems[i].size
  {
    AddElemEffect(elems, 0, name, true, size);
  }

  /** The arena `add_elem` builds for a root holding files of sizes 0, 1 and 1. */
  ghost function SmallFiles(): seq<Node> {
    FreshArena("/");
    AddFileToRoot(AddFileToRoot(AddFileToRoot([RootNode("/")], "a", 0), "b", 1), "c", 1)
  }

  lemma SmallFilesShape()
    ensures var e := SmallFiles();
            && |e| == 4 && e[0].children == [1, 2, 3] && e[0].size == 2
            && e[1].size == 0 && e[2].size == 1 && e[3].size == 1
  {
    FreshArena("/");
    var e0 := [RootNode("/")];
    AddFileToRootShape(e0, "a", 0);
    var e1 := AddFileToRoot(e0, "a", 0);
    AddFileToRootShape(e1, "b", 1);
    var e2 := AddFileToRoot(e1, "b", 1);
    AddFileToRootShape(e2, "c", 1);
  }

  /**
   * A root holding files of sizes 0, 1 and 1: as written, its children are cut after the
   * first two, and that group of two, whose sizes add up to 1, is cut into nothing and
   * itself, which `AsWrittenGroupRepeats` shows to recurse forever.
   */
  lemma SmallFilesRepeat()
    ensures var e := SmallFiles();
            && |e| == 4 && e[0].children == [1, 2, 3]
            && var children := SortBySize(Pick(e, e[0].children));
            && SplitAsWritten(children, e[0].size) == Some((2, 1))
            && |children[..2]| == 2 && SortedBySize(children[..2]) && SumSizes(children[..2]) == 1
  {
    SmallFilesShape();
    SmallSizesRepeat(SmallFiles());
  }

  lemma SmallSizesRepeat(e: seq<Node>)
    requires |e| == 4 && e[0].children == [1, 2, 3] && e[0].size == 2
    requires e[1].size == 0 && e[2].size == 1 && e[3].size == 1
    ensures var children := SortBySize(Pick(e, e[0].children));
            && SplitAsWritten(children, e[0].size) == Some((2, 1))
            && |children[..2]| == 2 && SortedBySize(children[..2]) && SumSizes(children[..2]) == 1
  {
    var picked := Pick(e, e[0].children);
    assert picked == [e[1], e[2], e[3]];
    SortOfSorted(picked);
    var children := SortBySize(picked);
    assert children[..0] == [] && children[..1] == [e[1]] && children[..2] == [e[1], e[2]];
    assert SumSizes(children[..1]) == 0;
    assert SumSizes(children[..2]) == 1;
  }

  /**
   * A directory filling a 100 by 100 bound with children of sizes 3 and 1: inside its
   * inset, the size-1 child gets a quarter of the width, the size-3 child the rest, each
   * padded by 1 on every side.
   */
  lemma TwoChildrenCut(large: Node, small: Node)
    requires large.size == 3 && small.size == 1
    ensures var s := Squarified([large, small], Inset(Rect(0.0, 0.0, 100.0, 100.0)), 4);
            && s.groupA == [small] && s.groupB == [large]
            && s.boundA == Rect(4.0, 14.0, 21.5, 82.0)
            && s.boundB == Rect(27.5, 14.0, 68.5, 82.0)
  {
    assert [large, small][1..] == [small] && [small][1..] == [];
    assert SortBySize([small]) == [small];
    assert InsertBySize(large, [small]) == [small] + InsertBySize(large, []);
    var sorted := SortBySize([large, small]);
    assert sorted == [small, large];
    assert sorted[..0] == [] && sorted[..1] == [small] && sorted[..2] == sorted;
    assert SumSizes(sorted[..1]) == 1;
  }

  // ---------------------------------------------------------------------------------------
  // The recursive layout

  /** Every child id of `n` refers into an arena of `count` nodes. */
  predicate ChildIdsBelow(n: Node, count: nat) {
    forall k :: 0 <= k < |n.children| ==> n.children[k] < count
  }

  /** The nodes listed by `cs`, in order. */
  function Pick(elems: seq<Node>, cs: seq<nat>): (r: seq<Node>)
    requires forall k :: 0 <= k < |cs| ==> cs[k] < |elems|
    ensures |r| == |cs| && forall k :: 0 <= k < |cs| ==> r[k] == elems[cs[k]]
  {
    seq(|cs|, k requires 0 <= k < |cs| => elems[cs[k]])
  }

  /** `n`'s child ids are in the arena and its children's sizes fit within its own. */
  predicate ChildrenFit(elems: seq<Node>, n: Node) {
    ChildIdsBelow(n, |elems|) && SumSizes(Pick(elems, n.children)) <= n.size
  }

  /** Every node of the arena keeps its children within it. */
  predicate ArenaFits(elems: seq<Node>) {
    forall n :: n in elems ==> ChildrenFit(elems, n)
  }

  /** Every node of a list to lay out keeps its children within it. */
  predicate GroupFits(elems: seq<Node>, nodes: seq<Node>) {
    forall n :: n in nodes ==> ChildrenFit(elems, n)
  }

  /** The conditions under which `compute_gui_nodes_imp` lays out nothing. */
  predicate Stops(nodes: seq<Node>, bound: Rect, dirLevel: nat) {
    dirLevel > MaxFsDepth || bound.width < MinBoxSize || bound.height < MinBoxSize || nodes == []
  }

  lemma GroupsFit(elems: seq<Node>, nodes: seq<Node>, s: Split)
    requires GroupFits(elems, nodes) && s.groupA + s.groupB == SortBySize(nodes)
    ensures GroupFits(elems, s.groupA) && GroupFits(elems, s.groupB)
  {
    SortPermutes(nodes);
    forall n | n in s.groupA || n in s.groupB
      ensures n in nodes
    {
      assert n in multiset(s.groupA + s.groupB);
    }
  }

  /**
   * `compute_gui_nodes_imp`, with the cut of `SplitPoint`. A single node yields its own
   * rectangle, then lays out its children one directory level deeper (inset if it has
   * any); a group of two or more nodes is cut in two and each half laid out at the same
   * level. Every rectangle produced is at least the minimum box size and lies within the
   * bound.
   */
  function Layout(elems: seq<Node>, nodes: seq<Node>, bound: Rect, dirLevel: nat): (r: seq<GUINode>)
    requires ArenaFits(elems) && GroupFits(elems, nodes)
    ensures Stops(nodes, bound, dirLevel) ==> r == []
    ensures |nodes| == 1 && !Stops(nodes, bound, dirLevel) ==> r != [] && r[0] == GUINode(bound, nodes[0].id)
    ensures forall g :: g in r ==> g.rect.width >= MinBoxSize && g.rect.height >= MinBoxSize
    ensures forall g :: g in r ==> Inside(g.rect, bound)
    decreases if dirLevel > MaxFsDepth then 0 else MaxFsDepth + 1 - dirLevel, |nodes|
  {
    if Stops(nodes, bound, dirLevel) then []
    else if |nodes| > 1 then
      var s := Squarified(nodes, bound, SumSizes(nodes));
      LayoutStep(elems, nodes, bound, bound, nodes, SumSizes(nodes), s);
      Layout(elems, s.groupA, s.boundA, dirLevel) + Layout(elems, s.groupB, s.boundB, dirLevel)
    else
      var node := nodes[0];
      assert node in nodes;
      var here := [GUINode(bound, node.id)];
      if node.children == [] then here
      else
        var children := Pick(elems, node.children);
        var s := Squarified(children, Inset(bound), node.size);
        LayoutStep(elems, nodes, bound, Inset(bound), children, node.size, s);
        here + Layout(elems, s.groupA, s.boundA, dirLevel + 1) + Layout(elems, s.groupB, s.boundB, dirLevel + 1)
  }

  /** A group of two or more nodes is cut in two, and each half is laid out at the same level. */
  lemma LayoutOfGroup(elems: seq<Node>, nodes: seq<Node>, bound: Rect, dirLevel: nat)
    requires ArenaFits(elems) && GroupFits(elems, nodes)
    requires |nodes| > 1 && !Stops(nodes, bound, dirLevel)
    ensures var s := Squarified(nodes, bound, SumSizes(nodes));
            && GroupFits(elems, s.groupA) && GroupFits(elems, s.groupB)
            && Layout(elems, nodes, bound, dirLevel)
               == Layout(elems, s.groupA, s.boundA, dirLevel) + Layout(elems, s.groupB, s.boundB, dirLevel)
  {
    var s := Squarified(nodes, bound, SumSizes(nodes));
    LayoutStep(elems, nodes, bound, bound, nodes, SumSizes(nodes), s);
  }

  /**
   * A single directory gets its own rectangle first; its children are then cut within the
   * rectangle less 3 at the sides and bottom and the label height on top, and laid out one
   * directory level deeper.
   */
  lemma LayoutOfDirectory(elems: seq<Node>, nodes: seq<Node>, bound: Rect, dirLevel: nat)
    requires ArenaFits(elems) && GroupFits(elems, nodes)
    requires |nodes| == 1 && nodes[0].children != [] && !Stops(nodes, bound, dirLevel)
    ensures ChildIdsBelow(nodes[0], |elems|)
    ensures var s := Squarified(Pick(elems, nodes[0].children), Inset(bound), nodes[0].size);
            && GroupFits(elems, s.groupA) && GroupFits(elems, s.groupB)
            && Layout(elems, nodes, bound, dirLevel)
               == [GUINode(bound, nodes[0].id)]
                  + Layout(elems, s.groupA, s.boundA, dirLevel + 1)
                  + Layout(elems, s.groupB, s.boundB, dirLevel + 1)
  {
    assert nodes[0] in nodes;
    var children := Pick(elems, nodes[0].children);
    var s := Squarified(children, Inset(bound), nodes[0].size);
    LayoutStep(elems, nodes, bound, Inset(bound), children, nodes[0].size, s);
  }

  /** The facts about one level of the layout that its recursion relies on. */
  lemma LayoutStep(elems: seq<Node>, nodes: seq<Node>, bound: Rect, inner: Rect, children: seq<Node>, total: nat, s: Split)
    requires ArenaFits(elems) && GroupFits(elems, nodes) && |nodes| > 0
    requires bound.width >= MinBoxSize && bound.height >= MinBoxSize
    requires |nodes| > 1 ==> inner == bound && children == nodes && total == SumSizes(nodes)
    requires |nodes| == 1 ==> && ChildIdsBelow(nodes[0], |elems|)
                              && children == Pick(elems, nodes[0].children)
                              && total == nodes[0].size
                              && inner == (if children != [] then Inset(bound) else bound)
    requires children != [] && s == Squarified(children, inner, total)
    ensures GroupFits(elems, s.groupA) && GroupFits(elems, s.groupB)
    ensures |nodes| > 1 ==> |s.groupA| < |nodes| && |s.groupB| < |nodes|
    ensures forall g: Rect :: Inside(g, s.boundA) ==> Inside(g, bound)
    ensures forall g: Rect :: Inside(g, s.boundB) ==> Inside(g, bound)
  {
    if |nodes| == 1 {
      assert nodes[0] in nodes;
      PickedFit(elems, nodes[0]);
    } else {
      assert SumSizes(children) <= total;
    }
    GroupsFit(elems, children, s);
    assert Inside(inner, bound);
    SquarifiedInside(children, inner, total, s);
  }

  /** The children of a node whose children fit are themselves nodes whose children fit. */
  lemma PickedFit(elems: seq<Node>, n: Node)
    requires ArenaFits(elems) && ChildrenFit(elems, n)
    ensures GroupFits(elems, Pick(elems, n.children))
    ensures SumSizes(Pick(elems, n.children)) <= n.size
  {
    var children := Pick(elems, n.children);
    forall c | c in children
      ensures ChildrenFit(elems, c)
    {
      var k :| 0 <= k < |children| && children[k] == c;
      assert c == elems[n.children[k]];
      assert c in elems;
    }
  }

  /** Both groups' rectangles, padded or not, lie within a non-negative bound that the group's size covers. */
  lemma SquarifiedInside(nodes: seq<Node>, bound: Rect, total: nat, s: Split)
    requires |nodes| > 0 && SumSizes(nodes) <= total && bound.width >= 0.0 && bound.height >= 0.0
    requires s == Squarified(nodes, bound, total)
    ensures forall g: Rect :: Inside(g, s.boundA) ==> Inside(g, bound)
    ensures forall g: Rect :: Inside(g, s.boundB) ==> Inside(g, bound)
  {
    SumAppend(s.groupA, s.groupB);
    SortKeepsSum(nodes);
    DivideTiles(bound, SumSizes(s.groupA), total);
    var d := Divide(bound, SumSizes(s.groupA), total);
    forall g: Rect | Inside(g, s.boundA)
      ensures Inside(g, bound)
    {
      if |s.groupA| == 1 {
        InsidePadded(g, d.0);
      }
    }
    forall g: Rect | Inside(g, s.boundB)
      ensures Inside(g, bound)
    {
      if |s.groupB| == 1 {
        InsidePadded(g, d.1);
      }
    }
  }

  /** The map `compute_gui_nodes` builds: node id to GUINode, a later entry replacing an earlier one. */
  function ToMap(gs: seq<GUINode>): (m: map<nat, GUINode>)
    ensures forall k :: 0 <= k < |gs| ==> gs[k].nodeId in m
    ensures forall id :: id in m ==> m[id] in gs && m[id].nodeId == id
  {
    if gs == [] then map[]
    else
      var m := ToMap(gs[..|gs| - 1]);
      assert forall id :: id in m ==> m[id] in gs;
      m[gs[|gs| - 1].nodeId := gs[|gs| - 1]]
  }

  /** Each id is mapped to the last GUINode produced for it. */
  lemma {:induction false} ToMapKeepsLast(gs: seq<GUINode>, k: nat)
    requires k < |gs|
    requires forall j :: k < j < |gs| ==> gs[j].nodeId != gs[k].nodeId
    ensures ToMap(gs)[gs[k].nodeId] == gs[k]
  {
    if k < |gs| - 1 {
      ToMapKeepsLast(gs[..|gs| - 1], k);
    }
  }

  /**
   * `compute_gui_nodes`: lay out the root and collect the result into a map from node
   * id to GUINode.
   */
  method ComputeGuiNodes(elems: seq<Node>, root: Node, bound: Rect) returns (m: map<nat, GUINode>)
    requires ArenaFits(elems) && root in elems
    ensures m == ToMap(Layout(elems, [root], bound, 0))
  {
    var gs := Layout(elems, [root], bound, 0);
    m := map[];
    for i := 0 to |gs|
      invariant m == ToMap(gs[..i])
    {
      assert gs[..i + 1][..i] == gs[..i];
      m := m[gs[i].nodeId := gs[i]];
    }
    assert gs[..|gs|] == gs;
  }

  /** Every rectangle in the map is large enough to draw and lies within the bound. */
  lemma MapWithinBound(elems: seq<Node>, root: Node, bound: Rect)
    requires ArenaFits(elems) && root in elems
    ensures var m := ToMap(Layout(elems, [root], bound, 0));
            forall id :: id in m ==> Inside(m[id].rect, bound) && m[id].rect.width >= MinBoxSize && m[id].rect.height >= MinBoxSize
  {
  }

  // ---------------------------------------------------------------------------------------
  // The arena built by add_elem fits

  lemma {:induction false} ChildrenSumIsSum(elems: seq<Node>, cs: seq<nat>)
    requires forall k :: 0 <= k < |cs| ==> cs[k] < |elems|
    ensures ChildrenSum(elems, cs) == SumSizes(Pick(elems, cs))
  {
    if cs != [] {
      var init := cs[..|cs| - 1];
      ChildrenSumIsSum(elems, init);
      assert Pick(elems, cs) == Pick(elems, init) + [elems[cs[|cs| - 1]]];
      SumAppend(Pick(elems, init), [elems[cs[|cs| - 1]]]);
    }
  }

  /** In a tree whose sizes accumulate upward, every node's children fit within it. */
  lemma AggregateFits(elems: seq<Node>, own: seq<nat>)
    requires WellFormed(elems) && SizesAggregate(elems, own)
    ensures ArenaFits(elems)
  {
    forall n | n in elems
      ensures ChildrenFit(elems, n)
    {
      var i :| 0 <= i < |elems| && elems[i] == n;
      assert SizeAdds(elems, own[i], i);
      assert forall k :: 0 <= k < |n.children| ==> n.children[k] < |elems|;
      ChildrenSumIsSum(elems, n.children);
    }
  }
}
