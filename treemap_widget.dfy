/**
 * The treemap widget's state machine: hit-testing a point against the laid-out
 * rectangles, the refresh tick that detects the end of a scan, and the snapshot that
 * recomputes the layout only when it has been invalidated or the widget was resized.
 */
module TreemapWidget {
  import opened Wrappers
  import opened FileTree
  import opened Squarify

  /** The closed rectangle `r` contains the point (x, y). */
  predicate Contains(r: Rect, x: real, y: real) {
    r.x <= x <= r.x + r.width && r.y <= y <= r.y + r.height
  }

  /** Node `id` has a rectangle in the map and it contains the point. */
  predicate HitsAt(m: map<nat, GUINode>, id: nat, x: real, y: real) {
    id in m && Contains(m[id].rect, x, y)
  }

  /** Every child id is larger than its parent's and within the arena. */
  ghost predicate ChildrenAfter(elems: seq<Node>) {
    forall i, k :: 0 <= i < |elems| && 0 <= k < |elems[i].children| ==>
      i < elems[i].children[k] < |elems|
  }

  // ---------------------------------------------------------------------------------------
  // Hit testing

  /**
   * The nodes the hit test visits from `id`, in pre-order: nothing if `id` has no
   * rectangle, else `id` followed by what is visited from each of its children in turn.
   */
  ghost function Visible(elems: seq<Node>, m: map<nat, GUINode>, id: nat): (r: seq<nat>)
    requires ChildrenAfter(elems) && id < |elems|
    ensures forall v :: v in r ==> id <= v < |elems|
    decreases |elems| - id, 1
  {
    if id !in m then [] else [id] + VisibleAmong(elems, m, id, elems[id].children)
  }

  /** What the hit test visits from each of the children `cs` of `parent`, in order. */
  ghost function VisibleAmong(elems: seq<Node>, m: map<nat, GUINode>, parent: nat, cs: seq<nat>): (r: seq<nat>)
    requires ChildrenAfter(elems) && parent < |elems|
    requires forall k :: 0 <= k < |cs| ==> parent < cs[k] < |elems|
    ensures forall v :: v in r ==> parent < v < |elems|
    decreases |elems| - parent, 0, |cs|
  {
    if cs == [] then []
    else VisibleAmong(elems, m, parent, cs[..|cs| - 1]) + Visible(elems, m, cs[|cs| - 1])
  }

  /** The last node of `s` whose rectangle contains the point, if any. */
  function LastHit(m: map<nat, GUINode>, s: seq<nat>, x: real, y: real): (r: Option<nat>)
    ensures r.Some? ==> r.value in s && HitsAt(m, r.value, x, y)
    ensures r.None? ==> forall k :: 0 <= k < |s| ==> !HitsAt(m, s[k], x, y)
  {
    if s == [] then None
    else if HitsAt(m, s[|s| - 1], x, y) then Some(s[|s| - 1])
    else LastHit(m, s[..|s| - 1], x, y)
  }

  /** The hit found is at a position after which nothing in `s` is hit. */
  lemma {:induction false} LastHitIsLast(m: map<nat, GUINode>, s: seq<nat>, x: real, y: real)
    requires LastHit(m, s, x, y).Some?
    ensures exists k :: 0 <= k < |s| && s[k] == LastHit(m, s, x, y).value &&
              forall j :: k < j < |s| ==> !HitsAt(m, s[j], x, y)
  {
    var n := |s|;
    if HitsAt(m, s[n - 1], x, y) {
      assert s[n - 1] == LastHit(m, s, x, y).value;
    } else {
      var init := s[..n - 1];
      LastHitIsLast(m, init, x, y);
      var k :| 0 <= k < |init| && init[k] == LastHit(m, init, x, y).value &&
               forall j :: k < j < |init| ==> !HitsAt(m, init[j], x, y);
      assert s[k] == LastHit(m, s, x, y).value;
      forall j | k < j < n
        ensures !HitsAt(m, s[j], x, y)
      {
        if j < n - 1 {
          assert s[j] == init[j];
        }
      }
    }
  }

  /** A hit in a later part overrides any in the earlier part. */
  lemma LastHitAppend(m: map<nat, GUINode>, a: seq<nat>, b: seq<nat>, x: real, y: real)
    ensures LastHit(m, a + b, x, y) == if LastHit(m, b, x, y).Some? then LastHit(m, b, x, y) else LastHit(m, a, x, y)
    decreases |b|
  {
    if b == [] {
      assert a + b == a;
    } else {
      var s := a + b;
      assert s[..|s| - 1] == a + b[..|b| - 1];
      LastHitAppend(m, a, b[..|b| - 1], x, y);
    }
  }

  /** The node the arena holds at an optional index. */
  function NodeAt(elems: seq<Node>, i: Option<nat>): Option<Node>
    requires i.Some? ==> i.value < |elems|
  {
    match i
    case None => None
    case Some(k) => Some(elems[k])
  }

  lemma ValidChildrenAfter(elems: seq<Node>)
    requires WellFormed(elems)
    ensures ChildrenAfter(elems)
  {
  }

  /**
   * `locate_node`: when `node` has a rectangle, it is the answer if the rectangle
   * contains the point, and a hit found under any child replaces the answer, later
   * children over earlier ones. The answer is the last hit of the pre-order visit.
   */
  method LocateNode(tree: Tree, node: Node, m: map<nat, GUINode>, x: real, y: real) returns (found: Option<Node>)
    requires tree.Valid() && node.id < |tree.elems| && tree.elems[node.id] == node
    ensures found == NodeAt(tree.elems, LastHit(m, Visible(tree.elems, m, node.id), x, y))
    ensures found.Some? ==> found.value.id in m && Contains(m[found.value.id].rect, x, y)
    decreases |tree.elems| - node.id
  {
    ghost var elems := tree.elems;
    ValidChildrenAfter(elems);
    found := None;
    if node.id in m {
      if Contains(m[node.id].rect, x, y) {
        found := Some(node);
      }
      var cs := node.children;
      assert [node.id][..1] == [node.id];
      for k := 0 to |cs|
        invariant found == NodeAt(elems, LastHit(m, [node.id] + VisibleAmong(elems, m, node.id, cs[..k]), x, y))
      {
        var child := tree.GetElem(cs[k]);
        var newFound := LocateNode(tree, child, m, x, y);
        VisitedBeforeChild(elems, m, node.id, k);
        LastHitAppend(m, [node.id] + VisibleAmong(elems, m, node.id, cs[..k]), Visible(elems, m, cs[k]), x, y);
        if newFound.Some? {
          found := newFound;
        }
      }
      assert cs[..|cs|] == cs;
    }
    assert found.Some? ==> found.value.id == LastHit(m, Visible(elems, m, node.id), x, y).value;
  }

  /** The visit from `id` up to and including child `k`: the visit up to child `k`, then child `k`'s. */
  lemma VisitedBeforeChild(elems: seq<Node>, m: map<nat, GUINode>, id: nat, k: nat)
    requires ChildrenAfter(elems) && id < |elems| && k < |elems[id].children|
    ensures var cs := elems[id].children;
            [id] + VisibleAmong(elems, m, id, cs[..k + 1])
            == [id] + VisibleAmong(elems, m, id, cs[..k]) + Visible(elems, m, cs[k])
  {
    var cs := elems[id].children;
    assert cs[..k + 1][..k] == cs[..k];
    var a, b := VisibleAmong(elems, m, id, cs[..k]), Visible(elems, m, cs[k]);
    assert VisibleAmong(elems, m, id, cs[..k + 1]) == a + b;
    assert [id] + (a + b) == [id] + a + b;
  }

  /**
   * Everything the hit test visits from `id` has a rectangle and descends from `id`
   * through nodes that are visited too: a node under one without a rectangle is never
   * visited, so never found.
   */
  lemma {:induction false} VisibleClosed(elems: seq<Node>, m: map<nat, GUINode>, id: nat)
    requires WellFormed(elems) && id < |elems|
    ensures forall v :: v in Visible(elems, m, id) ==>
              && v in m
              && OnPath(elems, id, v)
              && (v == id || elems[v].parent.value in Visible(elems, m, id))
    decreases |elems| - id, 1
  {
    if id in m {
      VisibleAmongClosed(elems, m, id, elems[id].children);
      var r := Visible(elems, m, id);
      forall v | v in r
        ensures v in m && OnPath(elems, id, v) && (v == id || elems[v].parent.value in r)
      {
        if v != id {
          assert v in VisibleAmong(elems, m, id, elems[id].children);
        }
      }
    }
  }

  lemma {:induction false} VisibleAmongClosed(elems: seq<Node>, m: map<nat, GUINode>, parent: nat, cs: seq<nat>)
    requires WellFormed(elems) && parent < |elems|
    requires forall k :: 0 <= k < |cs| ==> parent < cs[k] < |elems| && elems[cs[k]].parent == Some(parent)
    ensures forall v :: v in VisibleAmong(elems, m, parent, cs) ==>
              && v in m
              && OnPath(elems, parent, v)
              && (elems[v].parent == Some(parent) || elems[v].parent.value in VisibleAmong(elems, m, parent, cs))
    decreases |elems| - parent, 0, |cs|
  {
    if cs != [] {
      var init := cs[..|cs| - 1];
      var c := cs[|cs| - 1];
      VisibleAmongClosed(elems, m, parent, init);
      VisibleClosed(elems, m, c);
      var r := VisibleAmong(elems, m, parent, cs);
      forall v | v in Visible(elems, m, c)
        ensures OnPath(elems, parent, v)
      {
        if v != c {
          AncestorsClosed(elems, v, c);
        }
      }
    }
  }

  /**
   * A node visited from `id` is reached only through visited nodes: every node between
   * `id` and it has a rectangle, so nothing below a node without one is ever found.
   */
  lemma {:induction false} VisitedThroughMapped(elems: seq<Node>, m: map<nat, GUINode>, id: nat, v: nat, a: nat)
    requires WellFormed(elems) && id < |elems| && v < |elems| && a < |elems|
    requires v in Visible(elems, m, id) && a in Ancestors(elems, v) && OnPath(elems, id, a)
    ensures a in m && a in Visible(elems, m, id)
    decreases v
  {
    VisibleClosed(elems, m, id);
    var p := elems[v].parent.value;
    if a != p {
      VisitedThroughMapped(elems, m, id, p, a);
    }
  }

  /** A node with a rectangle containing the point is found itself when nothing visited below it is hit. */
  lemma LocateSelf(elems: seq<Node>, m: map<nat, GUINode>, id: nat, x: real, y: real)
    requires ChildrenAfter(elems) && id < |elems|
    requires HitsAt(m, id, x, y)
    requires forall v :: v in Visible(elems, m, id) && v != id ==> !HitsAt(m, v, x, y)
    ensures LastHit(m, Visible(elems, m, id), x, y) == Some(id)
  {
    var s := Visible(elems, m, id);
    assert s[0] == id;
  }

  // ---------------------------------------------------------------------------------------
  // The refresh tick

  /** What the refresh tick reads and writes. */
  datatype Ticker = Ticker(scanComplete: bool, lastElemsLen: nat, invalidate: bool)

  /**
   * One `refresh` tick seeing `elemsLen` nodes: nothing once the scan is complete;
   * otherwise invalidate the layout, and mark the scan complete when the length has not
   * changed since the last tick, recording it otherwise.
   */
  function RefreshStep(t: Ticker, elemsLen: nat): (r: Ticker)
    ensures t.scanComplete ==> r == t
    ensures !t.scanComplete ==> r.invalidate && r.lastElemsLen == elemsLen
    ensures r.scanComplete <==> t.scanComplete || elemsLen == t.lastElemsLen
  {
    if t.scanComplete then t
    else if elemsLen == t.lastElemsLen then t.(invalidate := true, scanComplete := true)
    else t.(invalidate := true, lastElemsLen := elemsLen)
  }

  /** Successive ticks seeing the lengths `lens`. */
  function RefreshRun(t: Ticker, lens: seq<nat>): Ticker
    decreases |lens|
  {
    if lens == [] then t else RefreshRun(RefreshStep(t, lens[0]), lens[1..])
  }

  /** The length seen by the tick before tick `k`, the recorded one for the first. */
  function Previous(first: nat, lens: seq<nat>, k: nat): nat
    requires k < |lens|
  {
    if k == 0 then first else lens[k - 1]
  }

  /**
   * A run of ticks ends with the scan complete exactly when some tick saw the same
   * length as the tick before it; until then every tick records what it saw.
   */
  lemma {:induction false} RefreshRunCompletes(t: Ticker, lens: seq<nat>)
    requires !t.scanComplete
    ensures RefreshRun(t, lens).scanComplete <==>
              exists k :: 0 <= k < |lens| && lens[k] == Previous(t.lastElemsLen, lens, k)
    decreases |lens|
  {
    if lens != [] {
      var t1 := RefreshStep(t, lens[0]);
      if t1.scanComplete {
        CompleteIsFinal(t1, lens[1..]);
        assert lens[0] == Previous(t.lastElemsLen, lens, 0);
      } else {
        RefreshRunCompletes(t1, lens[1..]);
        var rest := lens[1..];
        if exists k :: 0 <= k < |lens| && lens[k] == Previous(t.lastElemsLen, lens, k) {
          var k :| 0 <= k < |lens| && lens[k] == Previous(t.lastElemsLen, lens, k);
          assert k > 0;
          assert rest[k - 1] == Previous(t1.lastElemsLen, rest, k - 1);
        }
        if exists k :: 0 <= k < |rest| && rest[k] == Previous(t1.lastElemsLen, rest, k) {
          var k :| 0 <= k < |rest| && rest[k] == Previous(t1.lastElemsLen, rest, k);
          assert lens[k + 1] == Previous(t.lastElemsLen, lens, k + 1);
        }
      }
    }
  }

  /** Once the scan is complete, further ticks change nothing. */
  lemma {:induction false} CompleteIsFinal(t: Ticker, lens: seq<nat>)
    requires t.scanComplete
    ensures RefreshRun(t, lens) == t
    decreases |lens|
  {
    if lens != [] {
      CompleteIsFinal(RefreshStep(t, lens[0]), lens[1..]);
    }
  }

  // ---------------------------------------------------------------------------------------
  // The snapshot's invalidation rule

  /** Whether `snapshot` at `w` by `h` recomputes the layout. */
  predicate Recomputes(invalidate: bool, lastWidth: real, lastHeight: real, w: real, h: real) {
    invalidate || lastWidth != w || lastHeight != h
  }

  /**
   * A snapshot at `w` by `h` leaves the flag cleared and records `w` and `h`
   * (`TreeMapWidget.Snapshot`); another snapshot at the same size then recomputes exactly
   * when a refresh tick of a running scan came between.
   */
  lemma SnapshotSettles(t: Ticker, w: real, h: real, elemsLen: nat)
    requires !t.invalidate
    ensures Recomputes(RefreshStep(t, elemsLen).invalidate, w, h, w, h) <==> !t.scanComplete
  {
  }

  // ---------------------------------------------------------------------------------------
  // The widget

  class TreeMapWidget {
    var tree: Tree
    var guiNodeMap: map<nat, GUINode>
    var invalidateGuiNodes: bool
    var scanComplete: bool
    var lastElemsLen: nat
    var lastWidth: real
    var lastHeight: real

    ghost predicate Valid()
      reads this, tree
    {
      tree.Valid()
    }

    /** The widget's default state: an empty-named root, no layout, nothing recorded. */
    constructor ()
      ensures Valid() && fresh(tree)
      ensures tree.elems == [RootNode("")] && guiNodeMap == map[]
      ensures !invalidateGuiNodes && !scanComplete && lastElemsLen == 0
      ensures lastWidth == 0.0 && lastHeight == 0.0
    {
      tree := new Tree.Default();
      guiNodeMap := map[];
      invalidateGuiNodes := false;
      scanComplete := false;
      lastElemsLen := 0;
      lastWidth := 0.0;
      lastHeight := 0.0;
    }

    /** `constructed`: the scan is not complete and the tree is reset to the root "/". */
    method Constructed()
      requires Valid()
      modifies this, tree
      ensures Valid() && tree == old(tree)
      ensures !scanComplete && tree.elems == [RootNode("/")] && tree.lastId == 0
      ensures guiNodeMap == old(guiNodeMap) && invalidateGuiNodes == old(invalidateGuiNodes)
      ensures lastElemsLen == old(lastElemsLen) && lastWidth == old(lastWidth) && lastHeight == old(lastHeight)
    {
      scanComplete := false;
      tree.SetRoot("/");
    }

    /** `refresh`: one tick of the timer, as `RefreshStep` on the tree's current length. */
    method Refresh() returns (cont: bool)
      modifies this
      ensures cont
      ensures Ticker(scanComplete, lastElemsLen, invalidateGuiNodes)
           == RefreshStep(Ticker(old(scanComplete), old(lastElemsLen), old(invalidateGuiNodes)), |tree.elems|)
      ensures tree == old(tree) && guiNodeMap == old(guiNodeMap)
      ensures lastWidth == old(lastWidth) && lastHeight == old(lastHeight)
    {
      if !scanComplete {
        invalidateGuiNodes := true;
        var elemsLen := |tree.elems|;
        if elemsLen == lastElemsLen {
          scanComplete := true;
        } else {
          lastElemsLen := elemsLen;
        }
      }
      cont := true;
    }

    /**
     * The layout part of `snapshot` at a widget size of `w` by `h`: recompute the map
     * from the root when invalidated or resized, record the size and clear the flag.
     */
    method Snapshot(w: real, h: real)
      requires Valid()
      modifies this
      ensures Valid() && tree == old(tree)
      ensures lastWidth == w && lastHeight == h && !invalidateGuiNodes
      ensures ArenaFits(tree.elems)
      ensures guiNodeMap == if Recomputes(old(invalidateGuiNodes), old(lastWidth), old(lastHeight), w, h)
                            then ToMap(Layout(tree.elems, [tree.elems[0]], Rect(0.0, 0.0, w, h), 0))
                            else old(guiNodeMap)
      ensures scanComplete == old(scanComplete) && lastElemsLen == old(lastElemsLen)
    {
      var invalidate := invalidateGuiNodes;
      if lastHeight != h {
        invalidate := true;
        lastHeight := h;
      }
      if lastWidth != w {
        invalidate := true;
        lastWidth := w;
      }
      AggregateFits(tree.elems, tree.own);
      var rect := Rect(0.0, 0.0, w, h);
      var root := tree.GetElem(0);
      if invalidate {
        guiNodeMap := ComputeGuiNodes(tree.elems, root, rect);
        invalidateGuiNodes := false;
      }
    }
  }
}
