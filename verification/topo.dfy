/** topo_order: a depth-first walk from a literal that appends each node
    after its child nodes, marking nodes so that each is visited once.
    Nodes are marked by their position in the node list. */
module PogTopo {
  import opened Literals
  import opened PogNodes
  import Wrappers

  datatype Walk = Walk(marked: set<int>, order: seq<int>)

  /** The positions 0 .. n-1. */
  function Range(n: nat): (r: set<int>)
    ensures forall i :: i in r <==> 0 <= i < n
  {
    if n == 0 then {} else Range(n - 1) + {n - 1}
  }

  function Positions(p: Pog): set<int> {
    Range(|p.nodes|)
  }

  predicate Distinct(s: seq<int>) {
    forall j, k :: 0 <= j < k < |s| ==> s[j] != s[k]
  }

  /** A walk state: marks name nodes, and the emitted ids are distinct
      and marked. */
  predicate WalkOk(p: Pog, w: Walk) {
    && w.marked <= Positions(p)
    && Distinct(w.order)
    && forall k :: 0 <= k < |w.order| ==> w.order[k] - p.startVar in w.marked
  }

  /** From w to w' marks are only added and the order only extended. */
  predicate Grows(w: Walk, w': Walk) {
    w.marked <= w'.marked && |w.order| <= |w'.order| && w'.order[..|w.order|] == w.order
  }

  /** The ids appended from w to w' were unmarked in w. */
  predicate NewOnly(p: Pog, w: Walk, w': Walk)
    requires Grows(w, w')
  {
    forall k :: |w.order| <= k < |w'.order| ==> w'.order[k] - p.startVar !in w.marked
  }

  /** Every node marked from w to w' has been emitted. */
  predicate MarkedEmitted(p: Pog, w: Walk, w': Walk) {
    forall i :: i in w'.marked && i !in w.marked ==> p.startVar + i in w'.order
  }

  predicate Emitted(p: Pog, w: Walk, w': Walk) {
    WalkOk(p, w') && Grows(w, w') && NewOnly(p, w, w') && MarkedEmitted(p, w, w')
  }

  lemma PrefixKeeps(w: Walk, w': Walk, x: int)
    requires Grows(w, w') && x in w.order
    ensures x in w'.order
  {
    var k :| 0 <= k < |w.order| && w.order[k] == x;
    assert w'.order[..|w.order|][k] == x;
  }

  lemma EmittedTrans(p: Pog, w0: Walk, w1: Walk, w2: Walk)
    requires Emitted(p, w0, w1) && Emitted(p, w1, w2)
    ensures Emitted(p, w0, w2)
  {
    GrowsTrans(p, w0, w1, w2);
    MarkedTrans(p, w0, w1, w2);
  }

  lemma GrowsTrans(p: Pog, w0: Walk, w1: Walk, w2: Walk)
    requires Grows(w0, w1) && Grows(w1, w2) && NewOnly(p, w0, w1) && NewOnly(p, w1, w2)
    requires w0.marked <= w1.marked
    ensures Grows(w0, w2) && NewOnly(p, w0, w2)
  {
    assert w2.order[..|w0.order|] == w2.order[..|w1.order|][..|w0.order|];
    forall k | |w0.order| <= k < |w2.order| ensures w2.order[k] - p.startVar !in w0.marked {
      if k < |w1.order| {
        assert w2.order[k] == w2.order[..|w1.order|][k];
      }
    }
  }

  lemma MarkedTrans(p: Pog, w0: Walk, w1: Walk, w2: Walk)
    requires Grows(w1, w2) && MarkedEmitted(p, w0, w1) && MarkedEmitted(p, w1, w2)
    ensures MarkedEmitted(p, w0, w2)
  {
    forall i | i in w2.marked && i !in w0.marked ensures p.startVar + i in w2.order {
      if i in w1.marked {
        PrefixKeeps(w1, w2, p.startVar + i);
      }
    }
  }

  lemma AppendFresh(p: Pog, w: Walk, i: int, w1: Walk)
    requires WalkOk(p, w) && i !in w.marked
    requires Grows(Walk(w.marked + {i}, w.order), w1) && NewOnly(p, Walk(w.marked + {i}, w.order), w1)
    ensures p.startVar + i !in w1.order
  {
    forall k | 0 <= k < |w1.order| ensures w1.order[k] != p.startVar + i {
      if k < |w.order| {
        assert w1.order[k] == w1.order[..|w.order|][k];
      }
    }
  }

  lemma AppendWalkOk(p: Pog, w1: Walk, x: int)
    requires WalkOk(p, w1) && x !in w1.order && x - p.startVar in w1.marked
    ensures WalkOk(p, Walk(w1.marked, w1.order + [x]))
  {
    var o := w1.order + [x];
    forall k | 0 <= k < |o| ensures o[k] - p.startVar in w1.marked {
      if k < |w1.order| { assert o[k] == w1.order[k]; }
    }
    forall j, k | 0 <= j < k < |o| ensures o[j] != o[k] {
      if k < |w1.order| { assert o[j] == w1.order[j] && o[k] == w1.order[k]; }
      else { assert o[j] == w1.order[j]; }
    }
  }

  lemma AppendGrows(p: Pog, w: Walk, i: int, w1: Walk, w': Walk)
    requires i !in w.marked
    requires Emitted(p, Walk(w.marked + {i}, w.order), w1)
    requires w' == Walk(w1.marked, w1.order + [p.startVar + i])
    ensures Grows(w, w') && NewOnly(p, w, w')
  {
    assert w'.order[..|w.order|] == w1.order[..|w.order|];
    forall k | |w.order| <= k < |w'.order| ensures w'.order[k] - p.startVar !in w.marked {
      if k < |w1.order| { assert w'.order[k] == w1.order[k]; }
    }
  }

  lemma AppendMarked(p: Pog, w: Walk, i: int, w1: Walk, w': Walk)
    requires MarkedEmitted(p, Walk(w.marked + {i}, w.order), w1) && Grows(Walk(w.marked + {i}, w.order), w1)
    requires w' == Walk(w1.marked, w1.order + [p.startVar + i])
    ensures MarkedEmitted(p, w, w')
  {
    assert w'.order[..|w1.order|] == w1.order;
    forall m | m in w'.marked && m !in w.marked ensures p.startVar + m in w'.order {
      if m != i {
        PrefixKeeps(w1, w', p.startVar + m);
      } else {
        assert w'.order[|w1.order|] == p.startVar + i;
      }
    }
  }

  lemma AppendNode(p: Pog, w: Walk, i: int, w1: Walk, w': Walk)
    requires WalkOk(p, w) && i !in w.marked
    requires Emitted(p, Walk(w.marked + {i}, w.order), w1)
    requires w' == Walk(w1.marked, w1.order + [p.startVar + i])
    ensures Emitted(p, w, w')
  {
    AppendFresh(p, w, i, w1);
    AppendWalkOk(p, w1, p.startVar + i);
    AppendGrows(p, w, i, w1, w');
    AppendMarked(p, w, i, w1, w');
  }

  /** topo_order(lit): nothing for an input literal or a marked node;
      otherwise mark the node, walk its children in order, then append
      it. */
  function TopoLit(p: Pog, lit: int, w: Walk): (w': Walk)
    requires WalkOk(p, w)
    ensures Emitted(p, w, w')
    decreases Positions(p) - w.marked, 0
  {
    if !IsNode(p, lit) || Index(p, lit) in w.marked then (assert w.order[..|w.order|] == w.order; w)
    else
      var i := Index(p, lit);
      var w1 := TopoChildren(p, p.nodes[i].children, 0, Walk(w.marked + {i}, w.order));
      var w' := Walk(w1.marked, w1.order + [Abs(lit)]);
      AppendNode(p, w, i, w1, w');
      w'
  }

  /** The loop of topo_order over the children from position k. */
  function TopoChildren(p: Pog, cs: seq<int>, k: nat, w: Walk): (w': Walk)
    requires k <= |cs| && WalkOk(p, w)
    ensures Emitted(p, w, w')
    decreases Positions(p) - w.marked, 1, |cs| - k
  {
    if k == |cs| then (assert w.order[..|w.order|] == w.order; w)
    else
      var w1 := TopoLit(p, cs[k], w);
      var w2 := TopoChildren(p, cs, k + 1, w1);
      EmittedTrans(p, w, w1, w2);
      w2
  }

  /** The whole walk from the root literal with nothing marked. */
  function TopoOrder(p: Pog, rlit: int): seq<int> {
    TopoLit(p, rlit, Walk({}, [])).order
  }

  // ---------------------------------------------------------------- post-order

  /** Every node child of an emitted node was emitted before it. */
  predicate PostOrdered(p: Pog, order: seq<int>) {
    forall k, c :: 0 <= k < |order| && IsNode(p, order[k]) && c in GetNode(p, order[k]).children && IsNode(p, c) ==>
      Abs(c) in order[..k]
  }

  /** Every emitted entry names a node. */
  predicate NodesOnly(p: Pog, order: seq<int>) {
    forall k :: 0 <= k < |order| ==> IsNode(p, order[k]) && order[k] > 0
  }

  /** rank witnesses that the graph has no cycle: every child node ranks
      below its parent. Any acyclic graph has one (its depth, say), so
      this admits graphs whose nodes are in any order, such as the one
      compress walks before renumbering. */
  predicate Ranked(p: Pog, rank: seq<nat>) {
    && |rank| == |p.nodes|
    && forall i, k :: 0 <= i < |p.nodes| && 0 <= k < |p.nodes[i].children| && IsNode(p, p.nodes[i].children[k]) ==>
         rank[Index(p, p.nodes[i].children[k])] < rank[i]
  }

  /** A graph whose child nodes precede their parents is ranked by
      position. */
  lemma WellOrderedRanked(p: Pog)
    requires WellOrdered(p)
    ensures Ranked(p, seq(|p.nodes|, (i: int) requires 0 <= i => i as nat))
  {
  }

  /** Every marked node ranked below bound has been emitted: the marked
      nodes not yet emitted are those on the walk's stack, all of them
      ranked at bound or above. */
  predicate DoneBelow(p: Pog, rank: seq<nat>, w: Walk, bound: int) {
    forall i :: i in w.marked && 0 <= i < |rank| && rank[i] < bound ==> p.startVar + i in w.order
  }

  predicate Good(p: Pog, rank: seq<nat>, w: Walk, bound: int) {
    WalkOk(p, w) && DoneBelow(p, rank, w, bound) && PostOrdered(p, w.order) && NodesOnly(p, w.order)
  }

  lemma DoneAfter(p: Pog, rank: seq<nat>, w: Walk, w': Walk, bound: int)
    requires DoneBelow(p, rank, w, bound) && Grows(w, w') && MarkedEmitted(p, w, w')
    ensures DoneBelow(p, rank, w', bound)
  {
    forall i | i in w'.marked && 0 <= i < |rank| && rank[i] < bound ensures p.startVar + i in w'.order {
      if i in w.marked {
        PrefixKeeps(w, w', p.startVar + i);
      }
    }
  }

  /** Appending node i after its children keeps the order a post-order. */
  lemma PostAppend(p: Pog, o1: seq<int>, i: nat, lit: int)
    requires i < |p.nodes| && IsNode(p, lit) && lit > 0 && Index(p, lit) == i
    requires PostOrdered(p, o1) && NodesOnly(p, o1)
    requires forall c :: c in p.nodes[i].children && IsNode(p, c) ==> Abs(c) in o1
    ensures PostOrdered(p, o1 + [lit]) && NodesOnly(p, o1 + [lit])
  {
    var o := o1 + [lit];
    forall k, c | 0 <= k < |o| && IsNode(p, o[k]) && c in GetNode(p, o[k]).children && IsNode(p, c)
      ensures Abs(c) in o[..k]
    {
      if k < |o1| {
        assert o[..k] == o1[..k];
        assert o[k] == o1[k];
      } else {
        assert o[..k] == o1;
      }
    }
  }

  lemma ChildrenBelow(p: Pog, rank: seq<nat>, i: nat)
    requires Ranked(p, rank) && i < |p.nodes|
    ensures forall c :: c in p.nodes[i].children && IsNode(p, c) ==> rank[Index(p, c)] < rank[i]
  {
    forall c | c in p.nodes[i].children && IsNode(p, c) ensures rank[Index(p, c)] < rank[i] {
      var k :| 0 <= k < |p.nodes[i].children| && p.nodes[i].children[k] == c;
    }
  }

  lemma MarkGood(p: Pog, rank: seq<nat>, w: Walk, i: nat, bound: int)
    requires Good(p, rank, w, bound) && i < |p.nodes| == |rank| && rank[i] < bound
    ensures Good(p, rank, Walk(w.marked + {i}, w.order), rank[i])
  {
    MarkWalkOk(p, w, i);
    MarkDoneBelow(p, rank, w, i, bound);
  }

  /** Marking one more position keeps the walk consistent. */
  lemma MarkWalkOk(p: Pog, w: Walk, i: nat)
    requires WalkOk(p, w) && i < |p.nodes|
    ensures WalkOk(p, Walk(w.marked + {i}, w.order))
  {
    var w' := Walk(w.marked + {i}, w.order);
    assert i in Positions(p);
    forall k | 0 <= k < |w'.order| ensures w'.order[k] - p.startVar in w'.marked {
      assert w.order[k] - p.startVar in w.marked;
    }
  }

  /** The marked nodes ranked below the new mark were all emitted
      already. */
  lemma MarkDoneBelow(p: Pog, rank: seq<nat>, w: Walk, i: nat, bound: int)
    requires DoneBelow(p, rank, w, bound) && i < |rank| && rank[i] < bound
    ensures DoneBelow(p, rank, Walk(w.marked + {i}, w.order), rank[i])
  {
    forall m | m in w.marked + {i} && 0 <= m < |rank| && rank[m] < rank[i] ensures p.startVar + m in w.order {
      assert m in w.marked;
    }
  }

  lemma {:induction false} TopoLitPost(p: Pog, rank: seq<nat>, lit: int, w: Walk, bound: int)
    requires Ranked(p, rank) && p.startVar >= 1
    requires Good(p, rank, w, bound)
    requires IsNode(p, lit) ==> rank[Index(p, lit)] < bound
    ensures var w' := TopoLit(p, lit, w);
            Good(p, rank, w', bound) && (IsNode(p, lit) ==> Abs(lit) in w'.order)
    decreases Positions(p) - w.marked, 0, 1
  {
    if IsNode(p, lit) && Index(p, lit) !in w.marked {
      TopoVisitPost(p, rank, lit, w, bound);
    }
    if IsNode(p, lit) && Index(p, lit) in w.marked {
      assert TopoLit(p, lit, w) == w;
      MarkedEmittedLit(p, rank, lit, w, bound);
    }
    if !IsNode(p, lit) {
      assert TopoLit(p, lit, w) == w;
    }
  }

  /** A marked node ranked below the bound has been emitted. */
  lemma MarkedEmittedLit(p: Pog, rank: seq<nat>, lit: int, w: Walk, bound: int)
    requires DoneBelow(p, rank, w, bound) && |rank| == |p.nodes|
    requires IsNode(p, lit) && rank[Index(p, lit)] < bound && Index(p, lit) in w.marked
    ensures Abs(lit) in w.order
  {
    assert p.startVar + Index(p, lit) in w.order;
  }

  /** The case of topo_order that visits an unmarked node. */
  lemma {:induction false} TopoVisitPost(p: Pog, rank: seq<nat>, lit: int, w: Walk, bound: int)
    requires Ranked(p, rank) && p.startVar >= 1
    requires Good(p, rank, w, bound)
    requires IsNode(p, lit) && rank[Index(p, lit)] < bound && Index(p, lit) !in w.marked
    ensures var w' := TopoLit(p, lit, w);
            Good(p, rank, w', bound) && Abs(lit) in w'.order
    decreases Positions(p) - w.marked, 0, 0
  {
    var i := Index(p, lit);
    var w0 := Walk(w.marked + {i}, w.order);
    var cs := p.nodes[i].children;
    MarkGood(p, rank, w, i, bound);
    ChildrenBelow(p, rank, i);
    TopoChildrenPost(p, rank, cs, 0, w0, rank[i]);
    var w1 := TopoChildren(p, cs, 0, w0);
    var w' := Walk(w1.marked, w1.order + [Abs(lit)]);
    assert TopoLit(p, lit, w) == w';
    PostAppend(p, w1.order, i, Abs(lit));
    DoneAfter(p, rank, w, w', bound);
    assert w'.order[|w1.order|] == Abs(lit);
  }

  /** The children before position k stay emitted once child k is. */
  lemma ChildrenSoFar(p: Pog, cs: seq<int>, k: nat, w: Walk, w1: Walk)
    requires k < |cs| && Grows(w, w1)
    requires forall j :: 0 <= j < k && IsNode(p, cs[j]) ==> Abs(cs[j]) in w.order
    requires IsNode(p, cs[k]) ==> Abs(cs[k]) in w1.order
    ensures forall j :: 0 <= j < k + 1 && IsNode(p, cs[j]) ==> Abs(cs[j]) in w1.order
  {
    forall j | 0 <= j < k + 1 && IsNode(p, cs[j]) ensures Abs(cs[j]) in w1.order {
      if j < k { PrefixKeeps(w, w1, Abs(cs[j])); }
    }
  }

  lemma AllChildren(p: Pog, cs: seq<int>, w: Walk)
    requires forall j :: 0 <= j < |cs| && IsNode(p, cs[j]) ==> Abs(cs[j]) in w.order
    ensures forall c :: c in cs && IsNode(p, c) ==> Abs(c) in w.order
  {
    forall c | c in cs && IsNode(p, c) ensures Abs(c) in w.order {
      var j :| 0 <= j < |cs| && cs[j] == c;
    }
  }

  lemma {:induction false} TopoChildrenPost(p: Pog, rank: seq<nat>, cs: seq<int>, k: nat, w: Walk, bound: int)
    requires Ranked(p, rank) && p.startVar >= 1
    requires k <= |cs| && Good(p, rank, w, bound)
    requires forall c :: c in cs && IsNode(p, c) ==> rank[Index(p, c)] < bound
    requires forall j :: 0 <= j < k && IsNode(p, cs[j]) ==> Abs(cs[j]) in w.order
    ensures var w' := TopoChildren(p, cs, k, w);
            Good(p, rank, w', bound) && forall c :: c in cs && IsNode(p, c) ==> Abs(c) in w'.order
    decreases Positions(p) - w.marked, 1, |cs| - k
  {
    if k == |cs| {
      AllChildren(p, cs, w);
    } else {
      TopoLitPost(p, rank, cs[k], w, bound);
      var w1 := TopoLit(p, cs[k], w);
      ChildrenSoFar(p, cs, k, w, w1);
      TopoChildrenPost(p, rank, cs, k + 1, w1, bound);
      assert TopoChildren(p, cs, k, w) == TopoChildren(p, cs, k + 1, w1);
    }
  }

  /** For an acyclic graph (one with a rank), the walk from the root
      emits the root's node, every node at most once, and each node after
      all its child nodes; so every node reachable from the root is
      emitted. */
  lemma TopoOrderSpec(p: Pog, rank: seq<nat>, rlit: int)
    requires Ranked(p, rank) && p.startVar >= 1
    ensures var order := TopoOrder(p, rlit);
            && (IsNode(p, rlit) ==> Abs(rlit) in order)
            && (forall j, k :: 0 <= j < k < |order| ==> order[j] != order[k])
            && PostOrdered(p, order)
            && NodesOnly(p, order)
  {
    var w := Walk({}, []);
    var bound := if IsNode(p, rlit) then rank[Index(p, rlit)] + 1 else 0;
    assert Good(p, rank, w, bound);
    TopoLitPost(p, rank, rlit, w, bound);
  }

  /** The walk over a graph whose child nodes come earlier, as after
      compress has renumbered it. */
  lemma TopoOrderWellOrdered(p: Pog, rlit: int)
    requires WellOrdered(p) && p.startVar >= 1
    ensures var order := TopoOrder(p, rlit);
            && (IsNode(p, rlit) ==> Abs(rlit) in order)
            && (forall j, k :: 0 <= j < k < |order| ==> order[j] != order[k])
            && PostOrdered(p, order)
  {
    var rank: seq<nat> := seq(|p.nodes|, (i: int) requires 0 <= i => i as nat);
    WellOrderedRanked(p);
    TopoOrderSpec(p, rank, rlit);
  }

  /** The shape read_d4ddnnf builds for an OR node with one edge: the AND
      node holding the edge's literals comes after its parent, so the
      graph is not in child-first order, yet it is ranked. */
  lemma LaterChildRanked(p: Pog)
    requires p == Pog(2, [PogNode(KOr, [3], 0), PogNode(KAnd, [1], 0)], 2, Wrappers.None)
    ensures !WellOrdered(p) && Ranked(p, [1, 0])
  {
    assert IsNode(p, 3) && Index(p, 3) == 1 && p.nodes[0].children[0] == 3;
  }

  /** On that graph the walk puts the AND node before its parent. */
  lemma LaterChildWalk(p: Pog)
    requires p == Pog(2, [PogNode(KOr, [3], 0), PogNode(KAnd, [1], 0)], 2, Wrappers.None)
    ensures TopoOrder(p, p.root) == [3, 2]
  {
    assert !IsNode(p, 1) && IsNode(p, 3) && Index(p, 3) == 1;
    assert p.nodes[1].children == [1] && {0} + {1} == {0, 1} && 1 !in {0};
    var w1 := TopoLit(p, 3, Walk({0}, []));
    assert TopoLit(p, 1, Walk({0, 1}, [])) == Walk({0, 1}, []);
    assert TopoChildren(p, [1], 0, Walk({0, 1}, [])) == Walk({0, 1}, []);
    assert w1 == Walk({0, 1}, [] + [3]);
    assert TopoChildren(p, [3], 0, Walk({0}, [])) == w1;
    assert IsNode(p, 2) && Index(p, 2) == 0 && p.nodes[0].children == [3] && {} + {0} == {0};
    assert TopoLit(p, 2, Walk({}, [])) == Walk({0, 1}, [3] + [2]);
  }
}
