/** `nestComponents`, the forest builder that src/pages/StatusPage.tsx:18-32 and
    src/pages/UptimePage.tsx:21-35 share word for word.

    The source builds one fresh node object per component id and links them by
    pushing node references. The model keeps the nodes in an arena: a node is named
    by the input position whose copy the id map finally holds, `roots` lists root
    nodes and `children[p]` the children pushed onto node `p`. */
module Nesting {
  import opened Seqs
  import opened Domain

  /** No two components share an id. */
  predicate UniqueIds(cs: seq<Component>)
  {
    forall i, j | 0 <= i < j < |cs| :: cs[i].id != cs[j].id
  }

  /** The id map after the first pass: each id maps to the last position carrying
      it, because a later `map[comp.id] = ...` overwrites an earlier one. */
  function IdIndex(cs: seq<Component>): (m: map<string, nat>)
    ensures forall id | id in m :: m[id] < |cs| && cs[m[id]].id == id
    ensures forall i | 0 <= i < |cs| :: cs[i].id in m && i <= m[cs[i].id]
  {
    if cs == [] then map[]
    else
      var init := cs[..|cs| - 1];
      var m := IdIndex(init);
      assert forall i | 0 <= i < |init| :: init[i] == cs[i];
      m[cs[|cs| - 1].id := |cs| - 1]
  }

  /** The node that is pushed for the component at position `j`: `map[comp.id]`. */
  function NodeOf(cs: seq<Component>, j: nat): nat
    requires j < |cs|
  {
    IdIndex(cs)[cs[j].id]
  }

  /** `comp.group_id && map[comp.group_id]`: the group id is set, is not the empty
      string, and is a key of the id map. */
  predicate HasParent(cs: seq<Component>, j: nat)
    requires j < |cs|
  {
    cs[j].groupId.Some? && cs[j].groupId.value != "" && cs[j].groupId.value in IdIndex(cs)
  }

  /** The id map's keys are exactly the ids of the input, so a component has a
      parent exactly when its group id is set, non-empty and names some
      component. */
  lemma HasParentIff(cs: seq<Component>, j: nat)
    requires j < |cs|
    ensures HasParent(cs, j) <==>
      cs[j].groupId.Some? && cs[j].groupId.value != "" &&
      exists i | 0 <= i < |cs| :: cs[i].id == cs[j].groupId.value
  {
    if HasParent(cs, j) {
      var i := IdIndex(cs)[cs[j].groupId.value];
      assert cs[i].id == cs[j].groupId.value;
    }
  }

  /** The node the component at position `j` is pushed onto: `map[comp.group_id]`. */
  function ParentOf(cs: seq<Component>, j: nat): (p: nat)
    requires j < |cs| && HasParent(cs, j)
    ensures p < |cs| && cs[p].id == cs[j].groupId.value
  {
    IdIndex(cs)[cs[j].groupId.value]
  }

  /** Component `j` is pushed onto node `p`. */
  predicate ChildOf(cs: seq<Component>, j: nat, p: nat)
    requires j < |cs|
  {
    HasParent(cs, j) && ParentOf(cs, j) == p
  }

  /** The roots after the second pass has visited the first `n` components. */
  function RootsUpTo(cs: seq<Component>, n: nat): seq<nat>
    requires n <= |cs|
  {
    if n == 0 then []
    else if HasParent(cs, n - 1) then RootsUpTo(cs, n - 1)
    else RootsUpTo(cs, n - 1) + [NodeOf(cs, n - 1)]
  }

  /** The children of node `p` after the second pass has visited the first `n`
      components. */
  function ChildrenUpTo(cs: seq<Component>, p: nat, n: nat): seq<nat>
    requires n <= |cs|
  {
    if n == 0 then []
    else if ChildOf(cs, n - 1, p) then ChildrenUpTo(cs, p, n - 1) + [NodeOf(cs, n - 1)]
    else ChildrenUpTo(cs, p, n - 1)
  }

  /** The roots of the finished forest. */
  function Roots(cs: seq<Component>): seq<nat>
  {
    RootsUpTo(cs, |cs|)
  }

  /** The children of node `p` in the finished forest. */
  function Children(cs: seq<Component>, p: nat): seq<nat>
  {
    ChildrenUpTo(cs, p, |cs|)
  }

  /** The first pass of `nestComponents`: every id mapped to its node. */
  method IndexIds(cs: seq<Component>) returns (index: map<string, nat>)
    ensures index == IdIndex(cs)
  {
    index := map[];
    for i := 0 to |cs|
      invariant index == IdIndex(cs[..i])
    {
      assert cs[..i + 1][..i] == cs[..i];
      index := index[cs[i].id := i];
    }
    assert cs[..|cs|] == cs;
  }

  /** `children` holds, for every node, the children pushed after visiting the
      first `n` components. */
  predicate ChildListsAfter(cs: seq<Component>, children: seq<seq<nat>>, n: nat)
    requires n <= |cs|
  {
    |children| == |cs| && forall p | 0 <= p < |cs| :: children[p] == ChildrenUpTo(cs, p, n)
  }

  /** The two passes of `nestComponents`. */
  method NestComponents(cs: seq<Component>) returns (roots: seq<nat>, children: seq<seq<nat>>)
    ensures |children| == |cs|
    ensures roots == Roots(cs)
    ensures forall p | 0 <= p < |cs| :: children[p] == Children(cs, p)
  {
    var index := IndexIds(cs);
    children := seq(|cs|, _ => []);
    roots := [];
    for i := 0 to |cs|
      invariant roots == RootsUpTo(cs, i)
      invariant ChildListsAfter(cs, children, i)
    {
      var c := cs[i];
      if c.groupId.Some? && c.groupId.value != "" && c.groupId.value in index {
        var p := index[c.groupId.value];
        PushChild(cs, children, i, p);
        children := children[p := children[p] + [index[c.id]]];
      } else {
        PushRoot(cs, children, i);
        roots := roots + [index[c.id]];
      }
    }
  }

  /** Visiting a component with a parent `p` pushes its node onto `p`'s children
      alone and leaves the roots as they were. */
  lemma PushChild(cs: seq<Component>, children: seq<seq<nat>>, i: nat, p: nat)
    requires i < |cs| && HasParent(cs, i) && ParentOf(cs, i) == p
    requires ChildListsAfter(cs, children, i)
    ensures RootsUpTo(cs, i + 1) == RootsUpTo(cs, i)
    ensures ChildListsAfter(cs, children[p := children[p] + [IdIndex(cs)[cs[i].id]]], i + 1)
  {
  }

  /** Visiting a component without a parent appends its node to the roots and
      leaves every child list as it was. */
  lemma PushRoot(cs: seq<Component>, children: seq<seq<nat>>, i: nat)
    requires i < |cs| && !HasParent(cs, i)
    requires ChildListsAfter(cs, children, i)
    ensures RootsUpTo(cs, i + 1) == RootsUpTo(cs, i) + [IdIndex(cs)[cs[i].id]]
    ensures ChildListsAfter(cs, children, i + 1)
  {
  }

  /** The number of children pushed onto the nodes below `bound` while visiting
      the first `n` components. */
  function ChildCount(cs: seq<Component>, n: nat, bound: nat): nat
    requires n <= |cs|
  {
    if bound == 0 then 0 else ChildCount(cs, n, bound - 1) + |ChildrenUpTo(cs, bound - 1, n)|
  }

  /** Visiting one more component adds one child below `bound` exactly when that
      component has a parent below `bound`. */
  lemma {:induction false} ChildCountStep(cs: seq<Component>, n: nat, bound: nat)
    requires n < |cs|
    ensures ChildCount(cs, n + 1, bound) ==
      ChildCount(cs, n, bound) + (if HasParent(cs, n) && ParentOf(cs, n) < bound then 1 else 0)
  {
    if bound > 0 {
      ChildCountStep(cs, n, bound - 1);
    }
  }

  /** Before the second pass no node has children. */
  lemma {:induction false} NoChildrenYet(cs: seq<Component>, bound: nat)
    ensures ChildCount(cs, 0, bound) == 0
  {
    if bound > 0 {
      NoChildrenYet(cs, bound - 1);
    }
  }

  /** Every component is pushed exactly once, as a root or as a child: the roots
      and all child lists together have one entry per input component, whatever
      the ids. */
  lemma {:induction false} EveryComponentPushedOnce(cs: seq<Component>, n: nat)
    requires n <= |cs|
    ensures |RootsUpTo(cs, n)| + ChildCount(cs, n, |cs|) == n
  {
    if n > 0 {
      EveryComponentPushedOnce(cs, n - 1);
      ChildCountStep(cs, n - 1, |cs|);
      if HasParent(cs, n - 1) {
        assert ParentOf(cs, n - 1) < |cs|;
        assert |RootsUpTo(cs, n)| == |RootsUpTo(cs, n - 1)|;
      } else {
        assert |RootsUpTo(cs, n)| == |RootsUpTo(cs, n - 1)| + 1;
      }
    } else {
      NoChildrenYet(cs, |cs|);
    }
  }

  /** Every root names a node of the arena. */
  lemma {:induction false} RootsInRange(cs: seq<Component>, n: nat)
    requires n <= |cs|
    ensures Below(RootsUpTo(cs, n), |cs|)
  {
    if n > 0 {
      RootsInRange(cs, n - 1);
    }
  }

  /** With unique ids every component is its own node. */
  lemma NodeIsPosition(cs: seq<Component>, j: nat)
    requires UniqueIds(cs) && j < |cs|
    ensures NodeOf(cs, j) == j
  {
  }

  /** The roots are the nodes of exactly those components without a resolvable
      parent. */
  lemma {:induction false} RootsUpToMembership(cs: seq<Component>, n: nat, x: nat)
    requires n <= |cs|
    ensures x in RootsUpTo(cs, n) <==> exists j | 0 <= j < n :: !HasParent(cs, j) && NodeOf(cs, j) == x
  {
    if n > 0 {
      RootsUpToMembership(cs, n - 1, x);
    }
  }

  /** The children of `p` are the nodes of exactly those components whose parent
      is `p`. */
  lemma {:induction false} ChildrenUpToMembership(cs: seq<Component>, p: nat, n: nat, x: nat)
    requires n <= |cs|
    ensures x in ChildrenUpTo(cs, p, n) <==>
      exists j | 0 <= j < n :: ChildOf(cs, j, p) && NodeOf(cs, j) == x
  {
    if n > 0 {
      ChildrenUpToMembership(cs, p, n - 1, x);
    }
  }

  /** Every entry of `s` is below `n`. */
  predicate Below(s: seq<nat>, n: nat)
  {
    forall i | 0 <= i < |s| :: s[i] < n
  }

  /** A bound on every entry also holds for any larger bound. */
  lemma BelowWeaken(s: seq<nat>, n: nat, m: nat)
    requires Below(s, n) && n <= m
    ensures Below(s, m)
  {
  }

  /** Appending a position beyond every entry keeps a list increasing. */
  lemma AppendAbove(s: seq<nat>, n: nat)
    requires Increasing(s) && Below(s, n)
    ensures Increasing(s + [n]) && Below(s + [n], n + 1)
  {
  }

  /** Every component is its own node. */
  predicate NodesArePositions(cs: seq<Component>)
  {
    forall j | 0 <= j < |cs| :: NodeOf(cs, j) == j
  }

  /** With unique ids every node is its component's position. */
  lemma UniqueNodes(cs: seq<Component>)
    requires UniqueIds(cs)
    ensures NodesArePositions(cs)
  {
    forall j | 0 <= j < |cs|
      ensures NodeOf(cs, j) == j
    {
      NodeIsPosition(cs, j);
    }
  }

  /** With unique ids the roots are in input order, without repeats, and hold
      only positions already visited. */
  lemma RootsInOrder(cs: seq<Component>, n: nat)
    requires UniqueIds(cs) && n <= |cs|
    ensures Increasing(RootsUpTo(cs, n)) && Below(RootsUpTo(cs, n), n)
  {
    UniqueNodes(cs);
    RootsOrdered(cs, n);
  }

  /** The induction behind `RootsInOrder`. */
  lemma {:induction false} RootsOrdered(cs: seq<Component>, n: nat)
    requires NodesArePositions(cs) && n <= |cs|
    ensures Increasing(RootsUpTo(cs, n)) && Below(RootsUpTo(cs, n), n)
  {
    if n > 0 {
      var before := RootsUpTo(cs, n - 1);
      RootsOrdered(cs, n - 1);
      if !HasParent(cs, n - 1) {
        assert NodeOf(cs, n - 1) == n - 1;
        AppendAbove(before, n - 1);
      } else {
        BelowWeaken(before, n - 1, n);
      }
    }
  }

  /** With unique ids each child list is in input order, without repeats, and
      holds only positions already visited. */
  lemma ChildrenInOrder(cs: seq<Component>, p: nat, n: nat)
    requires UniqueIds(cs) && n <= |cs|
    ensures Increasing(ChildrenUpTo(cs, p, n)) && Below(ChildrenUpTo(cs, p, n), n)
  {
    UniqueNodes(cs);
    ChildrenOrdered(cs, p, n);
  }

  /** The induction behind `ChildrenInOrder`. */
  lemma {:induction false} ChildrenOrdered(cs: seq<Component>, p: nat, n: nat)
    requires NodesArePositions(cs) && n <= |cs|
    ensures Increasing(ChildrenUpTo(cs, p, n)) && Below(ChildrenUpTo(cs, p, n), n)
  {
    if n > 0 {
      var before := ChildrenUpTo(cs, p, n - 1);
      ChildrenOrdered(cs, p, n - 1);
      if ChildOf(cs, n - 1, p) {
        assert NodeOf(cs, n - 1) == n - 1;
        AppendAbove(before, n - 1);
      } else {
        BelowWeaken(before, n - 1, n);
      }
    }
  }

  /** With unique ids, component `j` is a root exactly when its group id is null,
      empty or names no component; otherwise it is a child of its parent and of no
      other node. Either way it appears exactly once in the forest. */
  lemma PlacedExactlyOnce(cs: seq<Component>, j: nat)
    requires UniqueIds(cs) && j < |cs|
    ensures j in Roots(cs) <==>
      cs[j].groupId == None || cs[j].groupId == Some("") ||
      forall i | 0 <= i < |cs| :: cs[i].id != cs[j].groupId.value
    ensures forall p | 0 <= p < |cs| :: j in Children(cs, p) <==> HasParent(cs, j) && p == ParentOf(cs, j)
    ensures j in Roots(cs) <==> !HasParent(cs, j)
  {
    HasParentIff(cs, j);
    RootsUpToMembership(cs, |cs|, j);
    NodeIsPosition(cs, j);
    if j in Roots(cs) {
      var k :| 0 <= k < |cs| && !HasParent(cs, k) && NodeOf(cs, k) == j;
      NodeIsPosition(cs, k);
    }
    forall p | 0 <= p < |cs|
      ensures j in Children(cs, p) <==> HasParent(cs, j) && p == ParentOf(cs, j)
    {
      ChildrenUpToMembership(cs, p, |cs|, j);
      if j in Children(cs, p) {
        var k :| 0 <= k < |cs| && ChildOf(cs, k, p) && NodeOf(cs, k) == j;
        NodeIsPosition(cs, k);
      }
    }
  }

  /** The ids of the input, as a set. */
  function IdSet(cs: seq<Component>): set<string>
  {
    set i | 0 <= i < |cs| :: cs[i].id
  }

  /** The root test read off a component alone: its group id is null, empty or
      names no component of `cs`. */
  function Unparented(cs: seq<Component>): Component -> bool
  {
    (c: Component) => c.groupId == None || c.groupId == Some("") || c.groupId.value !in IdSet(cs)
  }

  /** The child test read off a component alone: its group id is the non-empty
      id of `parent`. */
  function GroupedUnder(parent: Component): Component -> bool
  {
    (c: Component) => parent.id != "" && c.groupId == Some(parent.id)
  }

  /** The positions below `n` whose component passes `keep`, in increasing
      order. */
  function PositionsWhere(cs: seq<Component>, keep: Component -> bool, n: nat): seq<nat>
    requires n <= |cs|
  {
    if n == 0 then []
    else PositionsWhere(cs, keep, n - 1) + (if keep(cs[n - 1]) then [n - 1] else [])
  }

  /** The id map resolves a group id exactly when some component carries it. */
  lemma HasParentUnparented(cs: seq<Component>, j: nat)
    requires j < |cs|
    ensures HasParent(cs, j) <==> !Unparented(cs)(cs[j])
  {
    var g := cs[j].groupId;
    if g.Some? && g.value in IdSet(cs) {
      var i :| 0 <= i < |cs| && cs[i].id == g.value;
      assert cs[i].id in IdIndex(cs);
    }
    if g.Some? && g.value in IdIndex(cs) {
      var i := IdIndex(cs)[g.value];
      assert cs[i].id == g.value;
    }
  }

  /** With unique ids, component `j` is pushed onto node `p` exactly when its
      group id is the non-empty id of component `p`. */
  lemma ChildOfIff(cs: seq<Component>, j: nat, p: nat)
    requires UniqueIds(cs) && j < |cs| && p < |cs|
    ensures ChildOf(cs, j, p) <==> GroupedUnder(cs[p])(cs[j])
  {
    if GroupedUnder(cs[p])(cs[j]) {
      assert cs[p].id in IdIndex(cs);
      assert cs[IdIndex(cs)[cs[p].id]].id == cs[p].id;
    }
  }

  /** With unique ids the roots are exactly the positions of the components
      without a resolvable parent, in input order. */
  lemma {:induction false} RootsArePositions(cs: seq<Component>, n: nat)
    requires UniqueIds(cs) && n <= |cs|
    ensures RootsUpTo(cs, n) == PositionsWhere(cs, Unparented(cs), n)
  {
    if n > 0 {
      RootsArePositions(cs, n - 1);
      HasParentUnparented(cs, n - 1);
      NodeIsPosition(cs, n - 1);
    }
  }

  /** With unique ids the children of node `p` are exactly the positions of the
      components whose group id is `p`'s non-empty id, in input order. */
  lemma {:induction false} ChildrenArePositions(cs: seq<Component>, p: nat, n: nat)
    requires UniqueIds(cs) && p < |cs| && n <= |cs|
    ensures ChildrenUpTo(cs, p, n) == PositionsWhere(cs, GroupedUnder(cs[p]), n)
  {
    if n > 0 {
      ChildrenArePositions(cs, p, n - 1);
      ChildOfIff(cs, n - 1, p);
      NodeIsPosition(cs, n - 1);
    }
  }

  /** The components at the positions that pass `keep` are the filtered prefix. */
  lemma {:induction false} PositionsPickFilter(cs: seq<Component>, keep: Component -> bool, n: nat)
    requires n <= |cs|
    ensures var ps := PositionsWhere(cs, keep, n);
      Below(ps, |cs|) && |ps| == |Filter(keep, cs[..n])| &&
      forall i | 0 <= i < |ps| :: cs[ps[i]] == Filter(keep, cs[..n])[i]
  {
    if n > 0 {
      PositionsPickFilter(cs, keep, n - 1);
      assert cs[..n][..n - 1] == cs[..n - 1];
    }
  }

  /** Node `x` can be reached from a root by following `k` child links. */
  predicate ReachableIn(cs: seq<Component>, x: nat, k: nat)
    decreases k
  {
    if k == 0 then x in Roots(cs)
    else exists p | 0 <= p < |cs| :: ReachableIn(cs, p, k - 1) && x in Children(cs, p)
  }

  /** Following `k` group ids upward from component `j` ends at a component
      without a resolvable parent. */
  predicate ReachesRoot(cs: seq<Component>, j: nat, k: nat)
    requires j < |cs|
    decreases k
  {
    if k == 0 then !HasParent(cs, j)
    else HasParent(cs, j) && ReachesRoot(cs, ParentOf(cs, j), k - 1)
  }

  /** With unique ids the forest shows component `j` at depth `k` exactly when its
      chain of group ids reaches a root in `k` steps. */
  lemma {:induction false} ReachableIffReachesRoot(cs: seq<Component>, j: nat, k: nat)
    requires UniqueIds(cs) && j < |cs|
    ensures ReachableIn(cs, j, k) <==> ReachesRoot(cs, j, k)
    decreases k
  {
    PlacedExactlyOnce(cs, j);
    if k > 0 {
      if ReachableIn(cs, j, k) {
        var p :| 0 <= p < |cs| && ReachableIn(cs, p, k - 1) && j in Children(cs, p);
        ReachableIffReachesRoot(cs, p, k - 1);
      }
      if ReachesRoot(cs, j, k) {
        var p := ParentOf(cs, j);
        ReachableIffReachesRoot(cs, p, k - 1);
        assert ReachableIn(cs, p, k - 1) && j in Children(cs, p);
      }
    }
  }

  /** A set of components each of whose group id resolves to a member of the set:
      a cycle of group ids, a component naming itself, or anything hanging below
      one. */
  predicate ParentClosed(cs: seq<Component>, s: set<nat>)
  {
    forall j | j in s :: j < |cs| && HasParent(cs, j) && ParentOf(cs, j) in s
  }

  /** With unique ids, components on a cycle of group ids (a self-reference
      included) are placed in some child list but never appear in the forest
      under any root. */
  lemma {:induction false} CyclesUnreachable(cs: seq<Component>, s: set<nat>, j: nat, k: nat)
    requires UniqueIds(cs) && ParentClosed(cs, s) && j in s
    ensures !ReachableIn(cs, j, k)
    decreases k
  {
    PlacedExactlyOnce(cs, j);
    if k > 0 && ReachableIn(cs, j, k) {
      var p :| 0 <= p < |cs| && ReachableIn(cs, p, k - 1) && j in Children(cs, p);
      CyclesUnreachable(cs, s, p, k - 1);
      assert false;
    }
  }
}
