/**
 * The arena-backed file tree: every node lives in one flat sequence, is addressed by
 * its index, and points to its parent by index. Adding a node links it as the last
 * child of its parent and adds its size to every ancestor.
 */
module FileTree {
  import opened Wrappers

  /** One file-system entry; `size` is its own size plus everything added below it. */
  datatype Node = Node(
    id: nat,
    size: nat,
    name: string,
    depth: nat,
    isFile: bool,
    parent: Option<nat>,
    children: seq<nat>)

  /** The node that `Tree::new` and `set_root` store: the name, every other field at its default. */
  function RootNode(name: string): Node {
    Node(0, 0, name, 0, false, None, [])
  }

  /** Every parent link points to a smaller index: the measure of every upward walk. */
  ghost predicate ParentsBelow(elems: seq<Node>) {
    forall i :: 0 <= i < |elems| && elems[i].parent.Some? ==> elems[i].parent.value < i
  }

  /** Node `i` has a parent one level shallower than itself. */
  ghost predicate BelowParent(elems: seq<Node>, i: nat)
    requires ParentsBelow(elems) && i < |elems|
  {
    elems[i].parent.Some? && elems[i].depth == elems[elems[i].parent.value].depth + 1
  }

  /**
   * Node `i` has a parent, is one level deeper than it, and is listed among its children.
   * (A predicate of its own so that the verifier unfolds it only where a proof names it.)
   */
  ghost predicate Linked(elems: seq<Node>, i: nat)
    requires ParentsBelow(elems) && i < |elems|
  {
    BelowParent(elems, i) && i in elems[elems[i].parent.value].children
  }

  /** The shape every operation of `Tree` keeps. */
  ghost predicate WellFormed(elems: seq<Node>) {
    && ParentsBelow(elems)
    && |elems| > 0
    && elems[0].parent.None?
    && elems[0].depth == 0
    && (forall i :: 0 <= i < |elems| ==> elems[i].id == i)
    && (forall i :: 0 < i < |elems| ==> Linked(elems, i))
    && (forall i, k :: 0 <= i < |elems| && 0 <= k < |elems[i].children| ==>
          && i < elems[i].children[k] < |elems|
          && elems[elems[i].children[k]].parent == Some(i))
    && (forall i, k, l :: 0 <= i < |elems| && 0 <= k < l < |elems[i].children| ==>
          elems[i].children[k] < elems[i].children[l])
  }

  /** The part of a well-formed arena depths rely on: the root at depth 0, every other node one below its parent. */
  ghost predicate DepthsFollowParents(elems: seq<Node>) {
    && ParentsBelow(elems)
    && |elems| > 0
    && elems[0].depth == 0
    && forall i :: 0 < i < |elems| ==> BelowParent(elems, i)
  }

  lemma WellFormedDepths(elems: seq<Node>)
    requires WellFormed(elems)
    ensures DepthsFollowParents(elems)
  {
    forall i | 0 < i < |elems|
      ensures BelowParent(elems, i)
    {
      assert Linked(elems, i);
    }
  }

  /** A lone root is a well-formed arena: the state `Tree::new` starts from. */
  lemma FreshArena(name: string)
    ensures WellFormed([RootNode(name)])
  {
  }

  /** The strict ancestors of node `j`: its parent, its parent's parent, ... up to the root. */
  ghost function Ancestors(elems: seq<Node>, j: nat): (r: set<nat>)
    requires ParentsBelow(elems) && j < |elems|
    ensures forall a :: a in r ==> a < j
    decreases j
  {
    match elems[j].parent
    case None => {}
    case Some(p) => {p} + Ancestors(elems, p)
  }

  /** `a` is `j` itself or one of its ancestors. */
  ghost predicate OnPath(elems: seq<Node>, a: nat, j: nat)
    requires ParentsBelow(elems) && j < |elems|
  {
    a == j || a in Ancestors(elems, j)
  }

  /** `elems` with `s` added to the size of every strict ancestor of `j`. */
  ghost function AddToAncestors(elems: seq<Node>, j: nat, s: nat): (r: seq<Node>)
    requires ParentsBelow(elems) && j < |elems|
    ensures |r| == |elems|
  {
    seq(|elems|, i requires 0 <= i < |elems| =>
      elems[i].(size := elems[i].size + (if i in Ancestors(elems, j) then s else 0)))
  }

  /** The first half of `add_elem`: the new node pushed and linked as its parent's last child. */
  function Appended(elems: seq<Node>, parent: nat, name: string, isFile: bool, size: nat): (r: seq<Node>)
    requires parent < |elems|
    ensures ParentsBelow(elems) ==> ParentsBelow(r)
  {
    var n := |elems|;
    elems[parent := elems[parent].(children := elems[parent].children + [n])]
      + [Node(n, size, name, elems[parent].depth + 1, isFile, Some(parent), [])]
  }

  /** The whole effect of `add_elem` on the arena. */
  ghost function AddedElems(elems: seq<Node>, parent: nat, name: string, isFile: bool, size: nat): seq<Node>
    requires ParentsBelow(elems) && parent < |elems|
  {
    AddToAncestors(Appended(elems, parent, name, isFile, size), |elems|, size)
  }

  /** The sum of the sizes of the nodes listed in `cs`. */
  function ChildrenSum(elems: seq<Node>, cs: seq<nat>): nat
    requires forall k :: 0 <= k < |cs| ==> cs[k] < |elems|
  {
    if cs == [] then 0 else ChildrenSum(elems, cs[..|cs| - 1]) + elems[cs[|cs| - 1]].size
  }

  /**
   * Sizes accumulate upward: each node's size is the size it was added with (`own`)
   * plus the sizes of its direct children; the root was added with 0.
   */
  ghost predicate SizesAggregate(elems: seq<Node>, own: seq<nat>)
    requires WellFormed(elems)
  {
    && |own| == |elems|
    && own[0] == 0
    && forall i :: 0 <= i < |elems| ==> SizeAdds(elems, own[i], i)
  }

  /** Node `i`'s size is `own` plus the sizes of its children. */
  ghost predicate SizeAdds(elems: seq<Node>, own: nat, i: nat)
    requires WellFormed(elems) && i < |elems|
  {
    elems[i].size == own + ChildrenSum(elems, elems[i].children)
  }

  function Separator(unix: bool): string {
    if unix then "/" else "\\"
  }

  predicate EndsWith(s: string, suffix: string) {
    |suffix| <= |s| && s[|s| - |suffix|..] == suffix
  }

  /** What goes between a parent's name and its child's: nothing when the parent already ends in a separator. */
  function Joint(parentName: string, unix: bool): string {
    if EndsWith(parentName, Separator(unix)) then "" else Separator(unix)
  }

  /** The path of node `j`: its parent's path, the joint, then its own name; the root's is its name. */
  function FullPath(elems: seq<Node>, j: nat, unix: bool): string
    requires ParentsBelow(elems) && j < |elems|
    decreases j
  {
    match elems[j].parent
    case None => elems[j].name
    case Some(p) => FullPath(elems, p, unix) + Joint(elems[p].name, unix) + elems[j].name
  }

  // ---------------------------------------------------------------------------------------
  // Upward walks

  /** Ancestors depend on the parent links alone, so two arenas agreeing on them agree on ancestors. */
  lemma {:induction false} AncestorsAgree(a: seq<Node>, b: seq<Node>, j: nat)
    requires ParentsBelow(a) && ParentsBelow(b) && j < |a| && j < |b|
    requires forall i :: 0 <= i <= j ==> a[i].parent == b[i].parent
    ensures Ancestors(a, j) == Ancestors(b, j)
    decreases j
  {
    match a[j].parent
    case None =>
    case Some(p) => AncestorsAgree(a, b, p);
  }

  /** The parent of an ancestor is an ancestor. */
  lemma {:induction false} AncestorsClosed(elems: seq<Node>, j: nat, c: nat)
    requires ParentsBelow(elems) && j < |elems| && c < |elems|
    requires c in Ancestors(elems, j) && elems[c].parent.Some?
    ensures elems[c].parent.value in Ancestors(elems, j)
    decreases j
  {
    var p := elems[j].parent.value;
    if c != p {
      AncestorsClosed(elems, p, c);
    }
  }

  /** Every ancestor `i` of `j` has a child on the path from `j` up to `i`. */
  lemma {:induction false} ChildOnPath(elems: seq<Node>, j: nat, i: nat) returns (c: nat)
    requires ParentsBelow(elems) && j < |elems|
    requires i in Ancestors(elems, j)
    ensures c < |elems| && OnPath(elems, c, j) && elems[c].parent == Some(i)
    decreases j
  {
    var p := elems[j].parent.value;
    if i == p {
      c := j;
    } else {
      c := ChildOnPath(elems, p, i);
    }
  }

  /** The nodes on a path to the root form a chain: of two of them, one is on the other's path. */
  lemma {:induction false} PathIsChain(elems: seq<Node>, j: nat, a: nat, b: nat)
    requires ParentsBelow(elems) && j < |elems| && a < |elems| && b < |elems|
    requires OnPath(elems, a, j) && OnPath(elems, b, j)
    ensures OnPath(elems, a, b) || OnPath(elems, b, a)
    decreases j
  {
    if a != j && b != j {
      var p := elems[j].parent.value;
      PathIsChain(elems, p, a, b);
    }
  }

  /** A path to the root holds at most one child of any node. */
  lemma SiblingsOnPathEqual(elems: seq<Node>, j: nat, c1: nat, c2: nat, i: nat)
    requires ParentsBelow(elems) && j < |elems| && c1 < |elems| && c2 < |elems|
    requires OnPath(elems, c1, j) && OnPath(elems, c2, j)
    requires elems[c1].parent == Some(i) && elems[c2].parent == Some(i)
    ensures c1 == c2
  {
    PathIsChain(elems, j, c1, c2);
  }

  // ---------------------------------------------------------------------------------------
  // add_elem

  /** Only the sizes differ between `Appended` and the full effect of `add_elem`. */
  lemma AddedElemsShape(elems: seq<Node>, parent: nat, name: string, isFile: bool, size: nat)
    requires ParentsBelow(elems) && parent < |elems|
    ensures var ap := Appended(elems, parent, name, isFile, size);
            var r := AddedElems(elems, parent, name, isFile, size);
            && |r| == |ap| == |elems| + 1
            && Ancestors(ap, |elems|) == {parent} + Ancestors(elems, parent)
            && (forall i :: 0 <= i < |r| ==> r[i] == ap[i].(size := r[i].size))
            && (forall i :: 0 <= i < |elems| ==>
                  r[i].size == elems[i].size + (if i in Ancestors(ap, |elems|) then size else 0))
            && r[|elems|].size == size
  {
    var ap := Appended(elems, parent, name, isFile, size);
    AncestorsAgree(ap, elems, parent);
  }

  /**
   * What `add_elem` does: it appends a node with the next id, the given parent, its
   * parent's depth plus one and no children; it appends the new id to the parent's
   * children; and it adds the size to exactly the parent and the parent's ancestors.
   * Nothing else changes.
   */
  lemma AddElemEffect(elems: seq<Node>, parent: nat, name: string, isFile: bool, size: nat)
    requires WellFormed(elems) && parent < |elems|
    ensures var r := AddedElems(elems, parent, name, isFile, size);
            && |r| == |elems| + 1
            && r[|elems|] == Node(|elems|, size, name, elems[parent].depth + 1, isFile, Some(parent), [])
            && r[parent].children == elems[parent].children + [|elems|]
            && (forall i :: 0 <= i < |elems| && i != parent ==> r[i].children == elems[i].children)
            && (forall i :: 0 <= i < |elems| ==>
                  r[i].(size := elems[i].size, children := elems[i].children) == elems[i])
            && (forall i :: 0 <= i < |elems| ==>
                  r[i].size == elems[i].size + (if i == parent || i in Ancestors(elems, parent) then size else 0))
  {
    AddedElemsShape(elems, parent, name, isFile, size);
  }

  /** `add_elem` keeps every node's depth and parent and adds one a level below `parent`. */
  lemma AddedDepths(elems: seq<Node>, parent: nat, name: string, isFile: bool, size: nat)
    requires ParentsBelow(elems) && parent < |elems|
    ensures var r := AddedElems(elems, parent, name, isFile, size);
            && |r| == |elems| + 1
            && (forall i :: 0 <= i < |elems| ==> r[i].depth == elems[i].depth && r[i].parent == elems[i].parent)
            && r[|elems|].depth == elems[parent].depth + 1 && r[|elems|].parent == Some(parent)
  {
    AddedElemsShape(elems, parent, name, isFile, size);
  }

  /** `add_elem` keeps every parent link pointing to a smaller index. */
  lemma AddKeepsParentsBelow(elems: seq<Node>, parent: nat, name: string, isFile: bool, size: nat)
    requires ParentsBelow(elems) && parent < |elems|
    ensures ParentsBelow(AddedElems(elems, parent, name, isFile, size))
  {
    AddedElemsShape(elems, parent, name, isFile, size);
  }

  /** The links, depths and ids of `add_elem`'s result are those of `Appended`. */
  lemma AddedLinks(elems: seq<Node>, parent: nat, name: string, isFile: bool, size: nat)
    requires WellFormed(elems) && parent < |elems|
    ensures var ap := Appended(elems, parent, name, isFile, size);
            var r := AddedElems(elems, parent, name, isFile, size);
            && |r| == |elems| + 1 && ParentsBelow(r)
            && (forall i :: 0 <= i < |r| ==>
                  r[i].parent == ap[i].parent && r[i].children == ap[i].children && r[i].depth == ap[i].depth && r[i].id == ap[i].id)
  {
    AddedElemsShape(elems, parent, name, isFile, size);
  }

  /** After `add_elem` every child link still points forward to a node that names its parent. */
  lemma AddKeepsChildLinks(elems: seq<Node>, parent: nat, name: string, isFile: bool, size: nat)
    requires WellFormed(elems) && parent < |elems|
    ensures var r := AddedElems(elems, parent, name, isFile, size);
            forall i, k :: 0 <= i < |r| && 0 <= k < |r[i].children| ==>
              i < r[i].children[k] < |r| && r[r[i].children[k]].parent == Some(i)
  {
    var n := |elems|;
    var ap := Appended(elems, parent, name, isFile, size);
    var r := AddedElems(elems, parent, name, isFile, size);
    AddedLinks(elems, parent, name, isFile, size);
    forall i, k | 0 <= i < |r| && 0 <= k < |r[i].children|
      ensures i < r[i].children[k] < |r| && r[r[i].children[k]].parent == Some(i)
    {
      if i == parent && k == |elems[parent].children| {
        assert r[i].children[k] == n;
      } else {
        assert r[i].children[k] == elems[i].children[k];
      }
    }
  }

  /** After `add_elem` every child lists its children in increasing order. */
  lemma AddKeepsChildOrder(elems: seq<Node>, parent: nat, name: string, isFile: bool, size: nat)
    requires WellFormed(elems) && parent < |elems|
    ensures var r := AddedElems(elems, parent, name, isFile, size);
            forall i, k, l :: 0 <= i < |r| && 0 <= k < l < |r[i].children| ==> r[i].children[k] < r[i].children[l]
  {
    var n := |elems|;
    var r := AddedElems(elems, parent, name, isFile, size);
    AddedLinks(elems, parent, name, isFile, size);
    forall i, k, l | 0 <= i < |r| && 0 <= k < l < |r[i].children|
      ensures r[i].children[k] < r[i].children[l]
    {
      if i == parent && l == |elems[parent].children| {
        assert r[i].children[k] == elems[i].children[k];
      } else {
        assert r[i].children[k] == elems[i].children[k];
        assert r[i].children[l] == elems[i].children[l];
      }
    }
  }

  /** After `add_elem` every node but the root is still linked to its parent. */
  lemma AddKeepsLinked(elems: seq<Node>, parent: nat, name: string, isFile: bool, size: nat)
    requires WellFormed(elems) && parent < |elems|
    ensures var r := AddedElems(elems, parent, name, isFile, size);
            ParentsBelow(r) && forall i :: 0 < i < |r| ==> Linked(r, i)
  {
    var n := |elems|;
    var r := AddedElems(elems, parent, name, isFile, size);
    AddedLinks(elems, parent, name, isFile, size);
    forall i | 0 < i < |r|
      ensures Linked(r, i)
    {
      if i < n {
        assert Linked(elems, i);
        var q := elems[i].parent.value;
        assert i in elems[q].children;
        assert elems[q].children <= r[q].children;
      } else {
        assert r[parent].children == elems[parent].children + [n];
      }
    }
  }

  /** `add_elem` keeps the arena well formed. */
  lemma AddPreservesWellFormed(elems: seq<Node>, parent: nat, name: string, isFile: bool, size: nat)
    requires WellFormed(elems) && parent < |elems|
    ensures WellFormed(AddedElems(elems, parent, name, isFile, size))
  {
    var r := AddedElems(elems, parent, name, isFile, size);
    AddedLinks(elems, parent, name, isFile, size);
    AddKeepsChildLinks(elems, parent, name, isFile, size);
    AddKeepsChildOrder(elems, parent, name, isFile, size);
    AddKeepsLinked(elems, parent, name, isFile, size);
    assert r[0].parent.None? && r[0].depth == 0;
    assert forall i :: 0 <= i < |r| ==> r[i].id == i;
  }

  /** How many entries of `cs` lie in `a`. */
  function CountIn(cs: seq<nat>, a: set<nat>): nat {
    if cs == [] then 0 else CountIn(cs[..|cs| - 1], a) + (if cs[|cs| - 1] in a then 1 else 0)
  }

  lemma {:induction false} CountInNone(cs: seq<nat>, a: set<nat>)
    requires forall k :: 0 <= k < |cs| ==> cs[k] !in a
    ensures CountIn(cs, a) == 0
  {
    if cs != [] {
      CountInNone(cs[..|cs| - 1], a);
    }
  }

  /** A list without repeats whose only member in `a` is `c` has exactly one entry in `a`. */
  lemma {:induction false} CountInOne(cs: seq<nat>, a: set<nat>, c: nat)
    requires c in a && c in cs
    requires forall k, l :: 0 <= k < l < |cs| ==> cs[k] < cs[l]
    requires forall k :: 0 <= k < |cs| && cs[k] in a ==> cs[k] == c
    ensures CountIn(cs, a) == 1
  {
    var init := cs[..|cs| - 1];
    if cs[|cs| - 1] == c {
      CountInNone(init, a);
    } else {
      assert c in init;
      CountInOne(init, a, c);
    }
  }

  /** Raising by `s` the sizes of the nodes in `a` raises a children sum by `s` per listed member of `a`. */
  lemma {:induction false} ChildrenSumShift(e: seq<Node>, e': seq<Node>, cs: seq<nat>, a: set<nat>, s: nat)
    requires |e| <= |e'|
    requires forall k :: 0 <= k < |cs| ==> cs[k] < |e|
    requires forall c :: 0 <= c < |e| ==> e'[c].size == e[c].size + (if c in a then s else 0)
    ensures ChildrenSum(e', cs) == ChildrenSum(e, cs) + s * CountIn(cs, a)
  {
    if cs != [] {
      var init := cs[..|cs| - 1];
      ChildrenSumShift(e, e', init, a, s);
      assert s * CountIn(cs, a) == s * CountIn(init, a) + (if cs[|cs| - 1] in a then s else 0);
    }
  }

  /** After `add_elem`, a node's listed children meet the ancestor set once on the path, never elsewhere. */
  lemma ChildrenOnNewPath(elems: seq<Node>, parent: nat, name: string, isFile: bool, size: nat, i: nat)
    requires WellFormed(elems) && parent < |elems| && i < |elems|
    ensures var a := Ancestors(Appended(elems, parent, name, isFile, size), |elems|);
            CountIn(elems[i].children, a) == if i in a && i != parent then 1 else 0
  {
    var n := |elems|;
    var ap := Appended(elems, parent, name, isFile, size);
    AddedElemsShape(elems, parent, name, isFile, size);
    var a := Ancestors(ap, n);
    var cs := elems[i].children;
    assert forall c :: 0 <= c < n ==> ap[c].parent == elems[c].parent;
    if i == parent {
      CountInNone(cs, a);
    } else if i in a {
      var c := ChildOnPath(ap, n, i);
      assert c != n;
      assert elems[c].parent == Some(i);
      assert Linked(elems, c);
      forall k | 0 <= k < |cs| && cs[k] in a
        ensures cs[k] == c
      {
        SiblingsOnPathEqual(ap, n, cs[k], c, i);
      }
      CountInOne(cs, a, c);
    } else {
      forall k | 0 <= k < |cs|
        ensures cs[k] !in a
      {
        if cs[k] in a {
          AncestorsClosed(ap, n, cs[k]);
        }
      }
      CountInNone(cs, a);
    }
  }

  /** After `add_elem`, the size of old node `i` is still its own size plus its children's. */
  lemma AggregateAt(elems: seq<Node>, own: seq<nat>, parent: nat, name: string, isFile: bool, size: nat, i: nat)
    requires WellFormed(elems) && SizesAggregate(elems, own) && parent < |elems| && i < |elems|
    requires WellFormed(AddedElems(elems, parent, name, isFile, size))
    ensures SizeAdds(AddedElems(elems, parent, name, isFile, size), own[i], i)
  {
    var n := |elems|;
    var r := AddedElems(elems, parent, name, isFile, size);
    AddedElemsShape(elems, parent, name, isFile, size);
    var a := Ancestors(Appended(elems, parent, name, isFile, size), n);
    var cs := elems[i].children;
    assert SizeAdds(elems, own[i], i);
    ChildrenOnNewPath(elems, parent, name, isFile, size, i);
    ChildrenSumShift(elems, r, cs, a, size);
    if i == parent {
      assert r[i].children == cs + [n];
      assert (cs + [n])[..|cs|] == cs;
    } else {
      assert r[i].children == cs;
    }
  }

  /** `add_elem` keeps every size equal to the node's own size plus its children's sizes. */
  lemma AddPreservesAggregate(elems: seq<Node>, own: seq<nat>, parent: nat, name: string, isFile: bool, size: nat)
    requires WellFormed(elems) && SizesAggregate(elems, own) && parent < |elems|
    ensures WellFormed(AddedElems(elems, parent, name, isFile, size))
    ensures SizesAggregate(AddedElems(elems, parent, name, isFile, size), own + [size])
  {
    var n := |elems|;
    var r := AddedElems(elems, parent, name, isFile, size);
    AddPreservesWellFormed(elems, parent, name, isFile, size);
    AddedElemsShape(elems, parent, name, isFile, size);
    var own' := own + [size];
    forall i | 0 <= i < |r|
      ensures SizeAdds(r, own'[i], i)
    {
      if i < n {
        AggregateAt(elems, own, parent, name, isFile, size, i);
      }
    }
  }

  // ---------------------------------------------------------------------------------------
  // Paths

  /** Every full path begins with the root's name. */
  lemma {:induction false} FullPathFromRoot(elems: seq<Node>, j: nat, unix: bool)
    requires WellFormed(elems) && j < |elems|
    ensures var path := FullPath(elems, j, unix);
            |elems[0].name| <= |path| && path[..|elems[0].name|] == elems[0].name
    decreases j
  {
    if j != 0 {
      assert Linked(elems, j);
      var p := elems[j].parent.value;
      FullPathFromRoot(elems, p, unix);
      PathUnfold(elems, j, unix);
      var path, up, root := FullPath(elems, j, unix), FullPath(elems, p, unix), elems[0].name;
      assert path == up + (Joint(elems[p].name, unix) + elems[j].name);
      assert path[..|root|] == up[..|root|];
    }
  }

  /** Every full path ends with the node's own name. */
  lemma FullPathEndsWithName(elems: seq<Node>, j: nat, unix: bool)
    requires ParentsBelow(elems) && j < |elems|
    ensures EndsWith(FullPath(elems, j, unix), elems[j].name)
  {
    var path := FullPath(elems, j, unix);
    if elems[j].parent.Some? {
      PathUnfold(elems, j, unix);
      assert path[|path| - |elems[j].name|..] == elems[j].name;
    }
  }

  /** A root named with a trailing separator is not followed by a second one. */
  lemma RootSeparatorNotDoubled(name: string, unix: bool)
    ensures var e := Appended([RootNode(Separator(unix))], 0, name, false, 0);
            FullPath(e, 1, unix) == Separator(unix) + name
  {
    var e := Appended([RootNode(Separator(unix))], 0, name, false, 0);
    assert EndsWith(e[0].name, Separator(unix));
  }

  /** A path with a parent, split into its parts. */
  lemma PathUnfold(e: seq<Node>, cur: nat, unix: bool)
    requires ParentsBelow(e) && cur < |e| && e[cur].parent.Some?
    ensures var p := e[cur].parent.value;
            FullPath(e, cur, unix) == FullPath(e, p, unix) + Joint(e[p].name, unix) + e[cur].name
  {
  }

  /**
   * One step of the upward walk of `get_full_path`: if the path of `node` is the path of
   * `cur` followed by `rest`, it is also the path of `cur`'s parent followed by the joint,
   * `cur`'s name and `rest`.
   */
  lemma PathStep(e: seq<Node>, node: nat, cur: nat, unix: bool, rest: string)
    requires ParentsBelow(e) && node < |e| && cur < |e| && e[cur].parent.Some?
    requires FullPath(e, node, unix) == FullPath(e, cur, unix) + rest
    ensures var p := e[cur].parent.value;
            FullPath(e, node, unix) == FullPath(e, p, unix) + (Joint(e[p].name, unix) + (e[cur].name + rest))
  {
    var p := e[cur].parent.value;
    var a, j, b := FullPath(e, p, unix), Joint(e[p].name, unix), e[cur].name;
    PathUnfold(e, cur, unix);
    Associate(a + j, b, rest);
    Associate(a, j, b + rest);
  }

  /** Concatenation is associative. */
  lemma Associate<T>(a: seq<T>, b: seq<T>, c: seq<T>)
    ensures a + b + c == a + (b + c)
  {
  }

  /**
   * The loop of `get_full_path`: starting from the node's name, prepend each ancestor's
   * name and, unless that name already ends in one, a separator.
   */
  method PathUp(e: seq<Node>, node: nat, unix: bool) returns (filename: string)
    requires ParentsBelow(e) && node < |e|
    ensures filename == FullPath(e, node, unix)
  {
    filename := e[node].name;
    var cur: nat := node;
    ghost var rest := "";
    assert filename == e[node].name + rest;
    assert FullPath(e, node, unix) == FullPath(e, node, unix) + rest;
    while e[cur].parent.Some?
      invariant cur < |e|
      invariant filename == e[cur].name + rest
      invariant FullPath(e, node, unix) == FullPath(e, cur, unix) + rest
      decreases cur
    {
      var p := e[cur].parent.value;
      var separator := Separator(unix);
      PathStep(e, node, cur, unix, rest);
      ghost var joint := Joint(e[p].name, unix);
      if EndsWith(e[p].name, separator) {
        assert joint == "";
        assert joint + filename == filename;
        filename := e[p].name + filename;
      } else {
        assert joint == separator;
        Associate(e[p].name, separator, filename);
        filename := e[p].name + separator + filename;
      }
      rest := joint + (e[cur].name + rest);
      cur := p;
    }
  }

  // ---------------------------------------------------------------------------------------
  // The tree object

  class Tree {
    var elems: seq<Node>
    var lastId: nat
    /** The size each node was added with; the root's is 0. */
    ghost var own: seq<nat>

    ghost predicate Valid()
      reads this
    {
      WellFormed(elems) && |elems| == lastId + 1 && SizesAggregate(elems, own)
    }

    /** `Tree::new`: a single root node with the given name. */
    constructor (rootName: string)
      ensures Valid()
      ensures elems == [RootNode(rootName)] && lastId == 0
    {
      elems := [RootNode(rootName)];
      lastId := 0;
      own := [0];
    }

    /** `Default for Tree`: a tree whose root has the empty name. */
    constructor Default()
      ensures Valid()
      ensures elems == [RootNode("")] && lastId == 0
    {
      elems := [RootNode("")];
      lastId := 0;
      own := [0];
    }

    /** Adds `size` to every strict ancestor of `node`, walking the parent links up to the root. */
    method PropagateChildSize(node: nat, size: nat)
      requires ParentsBelow(elems) && node < |elems|
      modifies this
      ensures elems == AddToAncestors(old(elems), node, size)
      ensures lastId == old(lastId) && own == old(own)
    {
      ghost var e0 := elems;
      var cur: nat := node;
      while elems[cur].parent.Some?
        invariant |elems| == |e0| && cur < |elems|
        invariant lastId == old(lastId) && own == old(own)
        invariant forall i :: 0 <= i < |elems| ==> elems[i] == e0[i].(size := elems[i].size)
        invariant OnPath(e0, cur, node)
        invariant forall i :: 0 <= i < |elems| ==>
          elems[i].size == e0[i].size + (if i in Ancestors(e0, node) && i !in Ancestors(e0, cur) then size else 0)
        decreases cur
      {
        var p := elems[cur].parent.value;
        assert p in Ancestors(e0, node) by {
          if cur != node {
            AncestorsClosed(e0, node, cur);
          }
        }
        elems := elems[p := elems[p].(size := elems[p].size + size)];
        cur := p;
      }
      assert Ancestors(e0, cur) == {};
    }

    /** `get_full_path`: rebuilds the path of `node` by prepending ancestor names. */
    method GetFullPath(node: nat, unix: bool) returns (filename: string)
      requires Valid() && node < |elems|
      ensures filename == FullPath(elems, node, unix)
    {
      filename := PathUp(elems, node, unix);
    }

    /** `add_elem`: appends a node under `parent` and adds its size to every ancestor. */
    method AddElem(parent: nat, name: string, isFile: bool, size: nat)
      requires Valid() && parent < |elems|
      modifies this
      ensures Valid()
      ensures elems == AddedElems(old(elems), parent, name, isFile, size)
      ensures lastId == old(lastId) + 1 && own == old(own) + [size]
    {
      AddPreservesAggregate(elems, own, parent, name, isFile, size);
      lastId := lastId + 1;
      var node := Node(lastId, size, name, elems[parent].depth + 1, isFile, Some(parent), []);
      elems := elems[parent := elems[parent].(children := elems[parent].children + [lastId])];
      elems := elems + [node];
      own := own + [size];
      PropagateChildSize(lastId, size);
    }

    /** `get_elem`: the node stored under `id`, which carries `id` as its own id. */
    method GetElem(id: nat) returns (node: Node)
      requires Valid() && id < |elems|
      ensures node == elems[id] && node.id == id
    {
      node := elems[id];
    }

    /** `truncate_tree`: empties the arena and resets the id counter. */
    method TruncateTree()
      modifies this
      ensures elems == [] && lastId == 0 && own == []
    {
      elems := [];
      lastId := 0;
      own := [];
    }

    /** `set_root`: discards every node and starts over with a single root. */
    method SetRoot(rootName: string)
      modifies this
      ensures Valid()
      ensures elems == [RootNode(rootName)] && lastId == 0
    {
      TruncateTree();
      elems := elems + [RootNode(rootName)];
      own := [0];
    }
  }
}
