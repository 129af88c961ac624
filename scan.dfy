/**
 * The sequential heart of the scanner: the loop that turns the directory walker's
 * depth-annotated entries into tree insertions, remembering only the depth and id of
 * the last entry applied, and the root-device latch consulted by the walker.
 */
module Scan {
  import opened Wrappers
  import opened FileTree

  /** One item yielded by the directory walker. */
  datatype WalkEntry =
    | Entry(depth: nat, name: string, isFile: bool, size: nat)
    | MetadataError  // the entry was read, but its metadata (and so its size) was not
    | ReadError      // the walker could not read the entry at all

  /** What the scanner remembers between entries: the depth and the id of the last entry. */
  datatype Cursor = Cursor(lastDepth: nat, lastNode: nat)

  /** The node reached from `node` by `steps` parent links, staying put at the root. */
  function WalkUp(elems: seq<Node>, node: nat, steps: nat): (r: nat)
    requires ParentsBelow(elems) && node < |elems|
    ensures r < |elems| && r <= node
  {
    if steps == 0 then node
    else
      var up := WalkUp(elems, node, steps - 1);
      match elems[up].parent
      case None => up
      case Some(p) => p
  }

  /**
   * The node an entry of depth `depth` is added under, or None when it is added nowhere:
   * deeper entries go under the last node, entries at the same depth under its parent,
   * shallower ones under the node `lastDepth - depth + 1` links above it.
   */
  function ParentFor(elems: seq<Node>, c: Cursor, depth: nat): (r: Option<nat>)
    requires ParentsBelow(elems) && c.lastNode < |elems|
    ensures r.Some? ==> r.value < |elems|
  {
    if depth > c.lastDepth then Some(c.lastNode)
    else if depth == c.lastDepth then elems[c.lastNode].parent
    else Some(WalkUp(elems, c.lastNode, c.lastDepth - depth + 1))
  }

  /** The arena after adding an entry under `parent`, or unchanged when there is none. */
  ghost function Place(elems: seq<Node>, parent: Option<nat>, name: string, isFile: bool, size: nat): (r: seq<Node>)
    requires ParentsBelow(elems) && (parent.Some? ==> parent.value < |elems|)
    ensures ParentsBelow(r)
  {
    if parent.None? then elems
    else
      AddKeepsParentsBelow(elems, parent.value, name, isFile, size);
      AddedElems(elems, parent.value, name, isFile, size)
  }

  /** One iteration of the scan loop on the tree's arena and the cursor. */
  ghost function Step(elems: seq<Node>, c: Cursor, entry: WalkEntry): (r: (seq<Node>, Cursor))
    requires ParentsBelow(elems) && c.lastNode < |elems|
    ensures ParentsBelow(r.0) && r.1.lastNode < |r.0|
    ensures |r.0| == |elems| + (if entry.Entry? && ParentFor(elems, c, entry.depth).Some? then 1 else 0)
    ensures !entry.Entry? ==> r == (elems, c)
  {
    match entry
    case Entry(depth, name, isFile, size) =>
      var e := Place(elems, ParentFor(elems, c, depth), name, isFile, size);
      (e, Cursor(depth, |e| - 1))
    case MetadataError => (elems, c)
    case ReadError => (elems, c)
  }

  /** The terminate flag as the loop observes it before iteration `k`; unobserved means unset. */
  predicate Signalled(terminate: seq<bool>, k: nat) {
    k < |terminate| && terminate[k]
  }

  /** The observations left after the first `k`. */
  function Drop(terminate: seq<bool>, k: nat): seq<bool> {
    if k <= |terminate| then terminate[k..] else []
  }

  /** The whole scan loop: apply entries in order until they run out or the flag is seen. */
  ghost function Walk(elems: seq<Node>, c: Cursor, entries: seq<WalkEntry>, terminate: seq<bool>): (r: (seq<Node>, Cursor))
    requires ParentsBelow(elems) && c.lastNode < |elems|
    ensures ParentsBelow(r.0) && r.1.lastNode < |r.0|
    ensures |elems| <= |r.0| <= |elems| + |entries|
    decreases |entries|
  {
    if entries == [] || Signalled(terminate, 0) then (elems, c)
    else
      var s := Step(elems, c, entries[0]);
      Walk(s.0, s.1, entries[1..], Drop(terminate, 1))
  }

  /** The entries the walker read successfully, in order. */
  function OkEntries(entries: seq<WalkEntry>): (r: seq<WalkEntry>)
    ensures forall k :: 0 <= k < |r| ==> r[k].Entry?
  {
    if entries == [] then []
    else (if entries[0].Entry? then [entries[0]] else []) + OkEntries(entries[1..])
  }

  /** The first iteration, from `k` on, at which the flag is observed; `n` if none before it. */
  function FirstSignal(terminate: seq<bool>, k: nat, n: nat): (r: nat)
    requires k <= n
    ensures k <= r <= n
    ensures r < n ==> Signalled(terminate, r)
    ensures forall j :: k <= j < r ==> !Signalled(terminate, j)
    decreases n - k
  {
    if k == n || Signalled(terminate, k) then k else FirstSignal(terminate, k + 1, n)
  }

  // ---------------------------------------------------------------------------------------
  // The loop itself

  /**
   * `walk_into_tree` after the walker has been set up: for each entry, unless the
   * terminate flag is seen first, pick its parent from the last depth and node and add
   * it; skip entries that could not be read. Marks the scan complete at the end.
   */
  method WalkIntoTree(tree: Tree, entries: seq<WalkEntry>, terminate: seq<bool>) returns (complete: bool)
    requires tree.Valid()
    modifies tree
    ensures tree.Valid()
    ensures tree.elems == Walk(old(tree.elems), Cursor(0, 0), entries, terminate).0
    ensures complete
  {
    var lastDepth: nat := 0;
    var lastNode: nat := 0;
    var k := 0;
    assert entries[k..] == entries && Drop(terminate, k) == terminate;
    while k < |entries|
      invariant k <= |entries|
      invariant tree.Valid() && lastNode < |tree.elems|
      invariant Walk(tree.elems, Cursor(lastDepth, lastNode), entries[k..], Drop(terminate, k))
             == Walk(old(tree.elems), Cursor(0, 0), entries, terminate)
    {
      if Signalled(terminate, k) {
        WalkStops(tree.elems, Cursor(lastDepth, lastNode), entries, terminate, k);
        break;
      }
      ghost var before := (tree.elems, Cursor(lastDepth, lastNode));
      match entries[k] {
        case ReadError =>
        case MetadataError =>
        case Entry(depth, name, isFile, size) =>
          lastDepth, lastNode := AddEntry(tree, lastDepth, lastNode, depth, name, isFile, size);
      }
      WalkAdvances(before.0, before.1, entries, terminate, k);
      k := k + 1;
    }
    WalkStops(tree.elems, Cursor(lastDepth, lastNode), entries, terminate, k);
    complete := true;
  }

  /**
   * The body of the scan loop for a readable entry: choose the parent from the last
   * depth and node, add the entry there, and return the new last depth and node.
   */
  method AddEntry(tree: Tree, lastDepth: nat, lastNode: nat, depth: nat, name: string, isFile: bool, size: nat)
    returns (newDepth: nat, newNode: nat)
    requires tree.Valid() && lastNode < |tree.elems|
    modifies tree
    ensures tree.Valid()
    ensures (tree.elems, Cursor(newDepth, newNode))
         == Step(old(tree.elems), Cursor(lastDepth, lastNode), Entry(depth, name, isFile, size))
  {
    ghost var e0 := tree.elems;
    ghost var c := Cursor(lastDepth, lastNode);
    assert |e0| == tree.lastId + 1;
    StepPlaces(e0, c, depth, name, isFile, size);
    if depth > lastDepth {
      tree.AddElem(lastNode, name, isFile, size);
    } else if depth == lastDepth {
      var last := tree.GetElem(lastNode);
      if last.parent.Some? {
        tree.AddElem(last.parent.value, name, isFile, size);
      }
    } else {
      var parent := lastNode;
      var i := depth;
      while i <= lastDepth
        modifies {}
        invariant depth <= i <= lastDepth + 1
        invariant parent == WalkUp(tree.elems, lastNode, i - depth)
      {
        var node := tree.GetElem(parent);
        parent := match node.parent
          case Some(p) => p
          case None => parent;
        i := i + 1;
      }
      tree.AddElem(parent, name, isFile, size);
    }
    newDepth := depth;
    newNode := tree.lastId;
  }

  /** Where `Step` puts a readable entry: under the parent `ParentFor` picks, as the new last node. */
  lemma StepPlaces(elems: seq<Node>, c: Cursor, depth: nat, name: string, isFile: bool, size: nat)
    requires ParentsBelow(elems) && c.lastNode < |elems|
    ensures var s := Step(elems, c, Entry(depth, name, isFile, size));
            var p := ParentFor(elems, c, depth);
            && (p.Some? ==> s == (AddedElems(elems, p.value, name, isFile, size), Cursor(depth, |elems|)))
            && (p.None? ==> s == (elems, Cursor(depth, |elems| - 1)))
  {
    var p := ParentFor(elems, c, depth);
    if p.Some? {
      AddedElemsShape(elems, p.value, name, isFile, size);
    }
  }

  /** An unsignalled walk applies its first entry, then walks the rest. */
  lemma WalkFirst(elems: seq<Node>, c: Cursor, entries: seq<WalkEntry>, terminate: seq<bool>)
    requires ParentsBelow(elems) && c.lastNode < |elems|
    requires entries != [] && !Signalled(terminate, 0)
    ensures var s := Step(elems, c, entries[0]);
            Walk(elems, c, entries, terminate) == Walk(s.0, s.1, entries[1..], Drop(terminate, 1))
  {
  }

  /** Iteration `k` of the scan loop, unless it sees the flag, applies entry `k`. */
  lemma WalkAdvances(elems: seq<Node>, c: Cursor, entries: seq<WalkEntry>, terminate: seq<bool>, k: nat)
    requires ParentsBelow(elems) && c.lastNode < |elems|
    requires k < |entries| && !Signalled(terminate, k)
    ensures var s := Step(elems, c, entries[k]);
            Walk(elems, c, entries[k..], Drop(terminate, k)) == Walk(s.0, s.1, entries[k + 1..], Drop(terminate, k + 1))
  {
    assert entries[k..][1..] == entries[k + 1..];
    assert Drop(Drop(terminate, k), 1) == Drop(terminate, k + 1);
  }

  /** The scan loop applies nothing once the flag is seen or the entries run out. */
  lemma WalkStops(elems: seq<Node>, c: Cursor, entries: seq<WalkEntry>, terminate: seq<bool>, k: nat)
    requires ParentsBelow(elems) && c.lastNode < |elems|
    requires k <= |entries| && (k == |entries| || Signalled(terminate, k))
    ensures Walk(elems, c, entries[k..], Drop(terminate, k)) == (elems, c)
  {
  }

  // ---------------------------------------------------------------------------------------
  // What the loop guarantees

  /** Once the flag is seen, nothing further is applied: the scan equals an unsignalled scan of a prefix. */
  lemma {:induction false} TerminateTruncates(elems: seq<Node>, c: Cursor, entries: seq<WalkEntry>, terminate: seq<bool>)
    requires ParentsBelow(elems) && c.lastNode < |elems|
    ensures Walk(elems, c, entries, terminate)
         == Walk(elems, c, entries[..FirstSignal(terminate, 0, |entries|)], [])
    decreases |entries|
  {
    if entries == [] || Signalled(terminate, 0) {
      StopsAtOnce(elems, c, entries, terminate);
    } else {
      var s := Step(elems, c, entries[0]);
      var m := FirstSignal(Drop(terminate, 1), 0, |entries| - 1);
      TerminateTruncates(s.0, s.1, entries[1..], Drop(terminate, 1));
      FirstSignalNext(terminate, |entries|);
      PrefixStep(elems, c, entries, terminate, m);
    }
  }

  /** A scan that stops before its first entry equals the scan of no entries. */
  lemma StopsAtOnce(elems: seq<Node>, c: Cursor, entries: seq<WalkEntry>, terminate: seq<bool>)
    requires ParentsBelow(elems) && c.lastNode < |elems|
    requires entries == [] || Signalled(terminate, 0)
    ensures FirstSignal(terminate, 0, |entries|) == 0
    ensures Walk(elems, c, entries, terminate) == Walk(elems, c, entries[..0], [])
  {
    assert entries[..0] == [];
  }

  /** With the flag unset at first, the flag is first seen one observation later than in the rest. */
  lemma FirstSignalNext(terminate: seq<bool>, n: nat)
    requires 0 < n && !Signalled(terminate, 0)
    ensures FirstSignal(terminate, 0, n) == FirstSignal(Drop(terminate, 1), 0, n - 1) + 1
  {
    FirstSignalShift(terminate, 0, n - 1);
  }

  lemma TailOfPrefix<T>(xs: seq<T>, m: nat)
    requires m < |xs|
    ensures xs[..m + 1][1..] == xs[1..][..m]
  {
  }

  lemma NothingLeftToDrop()
    ensures Drop([], 1) == []
  {
  }

  /** An unsignalled scan of the first `m + 1` entries starts with the first entry's step. */
  lemma PrefixFirst(elems: seq<Node>, c: Cursor, entries: seq<WalkEntry>, m: nat)
    requires ParentsBelow(elems) && c.lastNode < |elems|
    requires m < |entries|
    ensures var s := Step(elems, c, entries[0]);
            Walk(elems, c, entries[..m + 1], []) == Walk(s.0, s.1, entries[1..][..m], [])
  {
    var prefix := entries[..m + 1];
    assert prefix[0] == entries[0];
    TailOfPrefix(entries, m);
    NothingLeftToDrop();
    WalkFirst(elems, c, prefix, []);
  }

  /**
   * If the scan after the first entry equals an unsignalled scan of its first `m`
   * entries, the whole scan equals an unsignalled scan of the first `m + 1`.
   */
  lemma PrefixStep(elems: seq<Node>, c: Cursor, entries: seq<WalkEntry>, terminate: seq<bool>, m: nat)
    requires ParentsBelow(elems) && c.lastNode < |elems|
    requires entries != [] && !Signalled(terminate, 0) && m < |entries|
    requires var s := Step(elems, c, entries[0]);
             Walk(s.0, s.1, entries[1..], Drop(terminate, 1)) == Walk(s.0, s.1, entries[1..][..m], [])
    ensures Walk(elems, c, entries, terminate) == Walk(elems, c, entries[..m + 1], [])
  {
    WalkFirst(elems, c, entries, terminate);
    PrefixFirst(elems, c, entries, m);
  }

  /** Looking for the flag in the observations after the first is looking one step later. */
  lemma {:induction false} FirstSignalShift(terminate: seq<bool>, k: nat, n: nat)
    requires k <= n
    requires !Signalled(terminate, 0)
    ensures FirstSignal(Drop(terminate, 1), k, n) + 1 == FirstSignal(terminate, k + 1, n + 1)
    decreases n - k
  {
    assert Signalled(Drop(terminate, 1), k) == Signalled(terminate, k + 1);
    if k < n && !Signalled(terminate, k + 1) {
      FirstSignalShift(terminate, k + 1, n);
    }
  }

  /** Entries that could not be read change nothing: an unsignalled scan sees only the readable ones. */
  lemma {:induction false} ErrorsSkipped(elems: seq<Node>, c: Cursor, entries: seq<WalkEntry>)
    requires ParentsBelow(elems) && c.lastNode < |elems|
    ensures Walk(elems, c, entries, []) == Walk(elems, c, OkEntries(entries), [])
    decreases |entries|
  {
    if entries != [] {
      var s := Step(elems, c, entries[0]);
      ErrorsSkipped(s.0, s.1, entries[1..]);
      if entries[0].Entry? {
        var ok := OkEntries(entries);
        assert ok == [entries[0]] + OkEntries(entries[1..]);
        assert ok != [] && ok[0] == entries[0] && ok[1..] == OkEntries(entries[1..]);
        assert Drop([], 1) == [];
        assert Walk(elems, c, ok, []) == Walk(s.0, s.1, OkEntries(entries[1..]), []);
      } else {
        assert OkEntries(entries) == OkEntries(entries[1..]);
        assert s == (elems, c);
      }
    }
  }

  /** Walking `k <= depth` links up from a node reaches its ancestor `k` levels higher. */
  lemma {:induction false} WalkUpDepth(elems: seq<Node>, node: nat, k: nat)
    requires DepthsFollowParents(elems) && node < |elems| && k <= elems[node].depth
    ensures elems[WalkUp(elems, node, k)].depth == elems[node].depth - k
  {
    if k > 0 {
      WalkUpDepth(elems, node, k - 1);
      var up := WalkUp(elems, node, k - 1);
      assert up != 0;
      assert BelowParent(elems, up);
    }
  }

  /** The depths of the arena's nodes, in arena order. */
  function Depths(elems: seq<Node>): (r: seq<nat>)
    ensures |r| == |elems|
  {
    seq(|elems|, i requires 0 <= i < |elems| => elems[i].depth)
  }

  /** The depths the walker reported, in order; an unreadable entry counts as depth 0. */
  function EntryDepths(es: seq<WalkEntry>): (r: seq<nat>)
    ensures |r| == |es|
  {
    if es == [] then []
    else [if es[0].Entry? then es[0].depth else 0] + EntryDepths(es[1..])
  }

  /**
   * Readable entries, each at least one deep and at most one deeper than the one before
   * it (the first compared with `depth`): the order a pre-order walk yields them in.
   */
  predicate Nested(es: seq<WalkEntry>, depth: nat)
    decreases |es|
  {
    es == [] || (es[0].Entry? && 1 <= es[0].depth <= depth + 1 && Nested(es[1..], es[0].depth))
  }

  /** From a cursor on the last node, the parent chosen for a nested depth sits one level up. */
  lemma ParentOneUp(elems: seq<Node>, c: Cursor, depth: nat)
    requires DepthsFollowParents(elems) && c.lastNode == |elems| - 1 && elems[c.lastNode].depth == c.lastDepth
    requires 1 <= depth <= c.lastDepth + 1
    ensures var p := ParentFor(elems, c, depth);
            p.Some? && elems[p.value].depth + 1 == depth
  {
    if depth == c.lastDepth {
      assert c.lastNode != 0;
      assert BelowParent(elems, c.lastNode);
    } else if depth < c.lastDepth {
      WalkUpDepth(elems, c.lastNode, c.lastDepth - depth + 1);
    }
  }

  /** `add_elem` puts the new node one level below its parent and leaves the other depths alone. */
  lemma AddFollowsParents(elems: seq<Node>, parent: nat, name: string, isFile: bool, size: nat)
    requires DepthsFollowParents(elems) && parent < |elems|
    ensures var r := AddedElems(elems, parent, name, isFile, size);
            && DepthsFollowParents(r)
            && Depths(r) == Depths(elems) + [elems[parent].depth + 1]
  {
    var n := |elems|;
    var r := AddedElems(elems, parent, name, isFile, size);
    AddedDepths(elems, parent, name, isFile, size);
    AddKeepsParentsBelow(elems, parent, name, isFile, size);
    forall i | 0 < i < |r|
      ensures BelowParent(r, i)
    {
      if i < n {
        assert BelowParent(elems, i);
      }
    }
    assert Depths(r) == Depths(elems) + [elems[parent].depth + 1];
  }

  /** From a cursor on the last node, a properly nested entry adds one node at the entry's depth. */
  lemma StepAddsAtDepth(elems: seq<Node>, c: Cursor, entry: WalkEntry)
    requires DepthsFollowParents(elems) && c.lastNode == |elems| - 1 && elems[c.lastNode].depth == c.lastDepth
    requires entry.Entry? && 1 <= entry.depth <= c.lastDepth + 1
    ensures var r := Step(elems, c, entry);
            && DepthsFollowParents(r.0)
            && Depths(r.0) == Depths(elems) + [entry.depth]
            && r.1 == Cursor(entry.depth, |elems|)
  {
    ParentOneUp(elems, c, entry.depth);
    var parent := ParentFor(elems, c, entry.depth).value;
    StepPlaces(elems, c, entry.depth, entry.name, entry.isFile, entry.size);
    AddFollowsParents(elems, parent, entry.name, entry.isFile, entry.size);
  }

  /**
   * Nested readable entries become one node each, appended at the depth the walker
   * reported, when the cursor starts on the last node.
   */
  lemma {:induction false} NestedEntriesKeepDepth(elems: seq<Node>, c: Cursor, es: seq<WalkEntry>)
    requires DepthsFollowParents(elems) && c.lastNode == |elems| - 1 && elems[c.lastNode].depth == c.lastDepth
    requires Nested(es, c.lastDepth)
    ensures Depths(Walk(elems, c, es, []).0) == Depths(elems) + EntryDepths(es)
    decreases |es|
  {
    if es == [] {
      assert Depths(elems) + [] == Depths(elems);
    } else {
      var s := Step(elems, c, es[0]);
      var rest := EntryDepths(es[1..]);
      assert DepthsFollowParents(s.0) && Depths(s.0) == Depths(elems) + [es[0].depth] && s.1 == Cursor(es[0].depth, |elems|) by {
        StepAddsAtDepth(elems, c, es[0]);
      }
      assert s.1.lastNode == |s.0| - 1 && s.0[s.1.lastNode].depth == s.1.lastDepth by {
        assert Depths(s.0)[|elems|] == es[0].depth;
      }
      assert Depths(Walk(s.0, s.1, es[1..], []).0) == Depths(s.0) + rest by {
        NestedEntriesKeepDepth(s.0, s.1, es[1..]);
      }
      assert Walk(elems, c, es, []) == Walk(s.0, s.1, es[1..], []) by {
        WalkFirst(elems, c, es, []);
        assert Drop([], 1) == [];
      }
      assert EntryDepths(es) == [es[0].depth] + rest;
      Associate(Depths(elems), [es[0].depth], rest);
    }
  }

  /** An entry at depth 0, the root itself, adds nothing to a fresh tree. */
  lemma FreshRootStep(rootName: string, entry: WalkEntry)
    requires entry.Entry? && entry.depth == 0
    ensures WellFormed([RootNode(rootName)])
    ensures Step([RootNode(rootName)], Cursor(0, 0), entry) == ([RootNode(rootName)], Cursor(0, 0))
  {
  }

  /**
   * A pre-order walk that starts with the root at depth 0 builds, on a fresh tree, one
   * node per readable entry, the root standing for the first: the arena's depths are the
   * walker's depths.
   */
  lemma PreOrderDepths(rootName: string, entries: seq<WalkEntry>)
    requires var es := OkEntries(entries);
             es != [] ==> es[0].depth == 0 && Nested(es[1..], 0)
    ensures var r := Walk([RootNode(rootName)], Cursor(0, 0), entries, []).0;
            var es := OkEntries(entries);
            Depths(r) == if es == [] then [0] else EntryDepths(es)
  {
    var root := [RootNode(rootName)];
    var es := OkEntries(entries);
    FreshArena(rootName);
    WellFormedDepths(root);
    ErrorsSkipped(root, Cursor(0, 0), entries);
    assert Depths(root) == [0];
    if es != [] {
      FreshRootStep(rootName, es[0]);
      WalkFirst(root, Cursor(0, 0), es, []);
      assert Drop([], 1) == [];
      NestedEntriesKeepDepth(root, Cursor(0, 0), es[1..]);
    }
  }

  // ---------------------------------------------------------------------------------------
  // The root-device latch

  /**
   * `is_same_device`: on unix the first call records the device and answers true, later
   * calls answer whether the device is the recorded one; elsewhere the answer is always
   * true. Returns the answer and the new content of the recorded slot.
   */
  function IsSameDevice(unix: bool, dev: nat, rootDevice: Option<nat>): (r: (bool, Option<nat>))
    ensures rootDevice.Some? ==> r.1 == rootDevice
    ensures unix ==> r.1.Some? && (r.0 <==> dev == r.1.value)
    ensures !unix ==> r == (true, rootDevice)
  {
    if !unix then (true, rootDevice)
    else
      match rootDevice
      case None => (true, Some(dev))
      case Some(root) => (dev == root, rootDevice)
  }

  /** The answers of successive calls on the devices `devs`, and the slot afterwards. */
  function LatchRun(unix: bool, devs: seq<nat>, rootDevice: Option<nat>): (r: (seq<bool>, Option<nat>))
    ensures |r.0| == |devs|
  {
    if devs == [] then ([], rootDevice)
    else
      var first := IsSameDevice(unix, devs[0], rootDevice);
      var rest := LatchRun(unix, devs[1..], first.1);
      ([first.0] + rest.0, rest.1)
  }

  /**
   * The slot one call of `is_same_device` writes through. Both closures handed to the
   * walker are `move` and the slot is `Copy`, so each directory listing starts with a fresh
   * empty slot and it lasts for that listing only (`ListingAsWritten`).
   */
  class RootDevice {
    var recorded: Option<nat>

    constructor ()
      ensures recorded == None
    {
      recorded := None;
    }

    /** `is_same_device` on an entry of device `dev`, updating the slot in place. */
    method IsSame(unix: bool, dev: nat) returns (same: bool)
      modifies this
      ensures (same, recorded) == IsSameDevice(unix, dev, old(recorded))
    {
      if unix {
        match recorded {
          case None =>
            recorded := Some(dev);
            same := true;
          case Some(root) =>
            same := dev == root;
        }
      } else {
        same := true;
      }
    }
  }

  /** Once a device is recorded it never changes, and each answer compares with it. */
  lemma {:induction false} LatchHolds(unix: bool, devs: seq<nat>, root: nat)
    requires unix
    ensures var r := LatchRun(unix, devs, Some(root));
            && r.1 == Some(root)
            && forall k :: 0 <= k < |devs| ==> r.0[k] == (devs[k] == root)
  {
    if devs != [] {
      LatchHolds(unix, devs[1..], root);
    }
  }

  /** On unix the first device seen is latched; elsewhere every answer is true and the slot untouched. */
  lemma {:induction false} LatchFromEmpty(unix: bool, devs: seq<nat>)
    requires devs != []
    ensures var r := LatchRun(unix, devs, None);
            && (unix ==> r.1 == Some(devs[0]) && forall k :: 0 <= k < |devs| ==> r.0[k] == (devs[k] == devs[0]))
            && (!unix ==> r.1 == None && forall k :: 0 <= k < |devs| ==> r.0[k])
  {
    if unix {
      LatchHolds(unix, devs[1..], devs[0]);
    } else {
      NonUnixAlwaysSame(devs, None);
    }
  }

  /**
   * The answers for the subdirectories of one directory listing, as written: the slot starts
   * empty in every listing, so on unix each answer compares with the listing's first
   * subdirectory, whatever the root's device.
   */
  function ListingAsWritten(unix: bool, devs: seq<nat>): (r: seq<bool>)
    ensures |r| == |devs|
    ensures unix && devs != [] ==> forall k :: 0 <= k < |devs| ==> r[k] == (devs[k] == devs[0])
    ensures !unix ==> forall k :: 0 <= k < |r| ==> r[k]
  {
    if devs != [] then LatchFromEmpty(unix, devs); LatchRun(unix, devs, None).0
    else []
  }

  /**
   * The answers as the latch is meant to work: the slot holds the root's device for the
   * whole walk, so on unix exactly the subdirectories on the root's device are descended.
   */
  function ListingFromRoot(unix: bool, rootDev: nat, devs: seq<nat>): (r: seq<bool>)
    ensures |r| == |devs|
    ensures forall k :: 0 <= k < |devs| ==> r[k] == (!unix || devs[k] == rootDev)
  {
    if unix then LatchHolds(unix, devs, rootDev); LatchRun(unix, devs, Some(rootDev)).0
    else NonUnixAlwaysSame(devs, None); LatchRun(unix, devs, None).0
  }

  /**
   * A listing of the root, on device 1, whose first subdirectory is a mount point on
   * device 2 and whose second is on device 1: as written the mount point is descended and
   * its sibling on the root's device is pruned; as meant, the other way round.
   */
  lemma MountPointFirstPrunes()
    ensures ListingAsWritten(true, [2, 1]) == [true, false]
    ensures ListingFromRoot(true, 1, [2, 1]) == [false, true]
  {
    var w := ListingAsWritten(true, [2, 1]);
    assert w[0] && !w[1];
    var f := ListingFromRoot(true, 1, [2, 1]);
    assert !f[0] && f[1];
  }

  lemma {:induction false} NonUnixAlwaysSame(devs: seq<nat>, rootDevice: Option<nat>)
    ensures var r := LatchRun(false, devs, rootDevice);
            r.1 == rootDevice && forall k :: 0 <= k < |devs| ==> r.0[k]
  {
    if devs != [] {
      NonUnixAlwaysSame(devs[1..], rootDevice);
    }
  }
}
