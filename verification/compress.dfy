/** Pog::compress: the nodes reachable from the root are rebuilt in
    topological order into a fresh, consecutively numbered node list.
    With optimization, constants are folded (TRUE_ID and -TRUE_ID stand
    for them), OR nodes of one child disappear, and the projection
    literals of an AND node (with its children's Skolem nodes) are
    gathered into one Skolem node. */
module PogCompress {
  import opened Wrappers
  import opened Literals
  import opened PogNodes
  import PogTopo

  /** The rebuild in progress: remap holds, for each old node position,
      the literal that now stands for it; newNodes are numbered from
      start like the old ones. */
  datatype Build = Build(start: int, oldCount: nat, remap: seq<int>, newNodes: seq<PogNode>, dataVars: Option<set<int>>)

  predicate BuildOk(b: Build) {
    |b.remap| == b.oldCount
  }

  /** is_node on the old graph. */
  predicate IsOld(b: Build, lit: int) {
    0 <= Abs(lit) - b.start < b.oldCount
  }

  /** A child literal as the rebuilt graph names it. */
  function Remapped(b: Build, c: int): int
    requires BuildOk(b)
  {
    if IsOld(b, c) then MatchPhase(b.remap[Abs(c) - b.start], c) else c
  }

  function RemapAll(b: Build, cs: seq<int>): (r: seq<int>)
    requires BuildOk(b)
    ensures |r| == |cs| && forall k :: 0 <= k < |cs| ==> r[k] == Remapped(b, cs[k])
  {
    if cs == [] then [] else [Remapped(b, cs[0])] + RemapAll(b, cs[1..])
  }

  /** What a node becomes: an existing literal, one new node, or a new
      Skolem node followed by a new product node that uses it. */
  datatype Outcome = ToLit(lit: int) | ToNode(node: PogNode) | ToPair(skolem: PogNode, product: PogNode)

  /** No constant among the literals. */
  predicate NoConstant(s: seq<int>) {
    TRUE_ID !in s && -TRUE_ID !in s
  }

  // ---------------------------------------------------------------- OR nodes

  /** The optimizing rewrite of an OR node over its remapped children:
      one child stands for the node; a TRUE child or two complementary
      children make it TRUE; a FALSE child among the first two makes it
      the other one; otherwise a new OR node. */
  function OrRewrite(n: seq<int>): (o: Outcome)
    requires |n| >= 1
    ensures o.ToNode? ==> o.node.kind == KOr && o.node.children == n
    ensures o.ToNode? && |n| == 2 ==> NoConstant(n) && n[0] != -n[1]
    ensures !o.ToPair?
  {
    if |n| == 1 then ToLit(n[0])
    else if TRUE_ID in n || HasClash(n) then ToLit(TRUE_ID)
    else if n[0] == -TRUE_ID || n[1] == -TRUE_ID then ToLit(if n[0] == -TRUE_ID then n[1] else n[0])
    else ToNode(PogNode(KOr, n, 0))
  }

  // ---------------------------------------------------------------- AND nodes

  /** One child of an AND node added to the ordinary children (nch) and
      Skolem arguments (sch) gathered so far: TRUE is dropped, FALSE
      gives None, a child that became a new Skolem node contributes its
      arguments, a projection literal is a Skolem argument. */
  function AndChild(b: Build, c: int, nch: seq<int>, sch: seq<int>): (r: Option<(seq<int>, seq<int>)>)
    requires BuildOk(b)
    ensures r.Some? ==> nch <= r.value.0 && sch <= r.value.1
    ensures r.Some? ==> |r.value.0| <= |nch| + 1
  {
    if c == TRUE_ID then Some((nch, sch))
    else if IsOld(b, c) then
      var nvar := b.remap[Abs(c) - b.start];
      var nlit := MatchPhase(nvar, c);
      var off := nvar - b.start;
      if nlit == TRUE_ID then Some((nch, sch))
      else if nlit == -TRUE_ID then None
      else if 0 <= off < |b.newNodes| && b.newNodes[off].kind == KSkolem then
        Some((nch, sch + b.newNodes[off].children))
      else Some((nch + [nlit], sch))
    else if b.dataVars.Some? && Abs(c) !in b.dataVars.value then Some((nch, sch + [c]))
    else Some((nch + [c], sch))
  }

  /** The loop of the AND case from child i; None when a child is
      FALSE. */
  function AndScan(b: Build, cs: seq<int>, i: nat, nch: seq<int>, sch: seq<int>): (r: Option<(seq<int>, seq<int>)>)
    requires BuildOk(b) && i <= |cs|
    decreases |cs| - i
  {
    if i == |cs| then Some((nch, sch))
    else
      match AndChild(b, cs[i], nch, sch)
      case None => None
      case Some((n1, s1)) => AndScan(b, cs, i + 1, n1, s1)
  }

  /** The end of the AND case: clashing Skolem arguments are an error;
      with nothing left the node is TRUE; Skolem arguments alone make a
      Skolem node; one ordinary child stands for the node; otherwise a
      product node, preceded by a Skolem node when there are Skolem
      arguments. */
  function AndFinish(b: Build, nch: seq<int>, sch: seq<int>): (r: Result<Outcome, string>)
    ensures r.Failure? <==> CheckSkolem(sch).0 != 0
    ensures r.Success? && r.value.ToLit? ==> |nch| <= 1
    ensures r.Success? && r.value.ToNode? && r.value.node.kind == KAnd ==> |r.value.node.children| >= 2
    ensures r.Success? && r.value.ToPair? ==>
              && r.value.skolem.kind == KSkolem && r.value.product.kind == KAnd
              && r.value.product.children == nch + [b.start + |b.newNodes|]
  {
    var (v, sk) := CheckSkolem(sch);
    if v != 0 then Failure("Skolem argument occurs in both phases")
    else if nch == [] then
      if sk == [] then Success(ToLit(TRUE_ID)) else Success(ToNode(PogNode(KSkolem, sk, 0)))
    else if sk == [] then
      if |nch| == 1 then Success(ToLit(nch[0])) else Success(ToNode(PogNode(KAnd, nch, 0)))
    else Success(ToPair(PogNode(KSkolem, sk, 0), PogNode(KAnd, nch + [b.start + |b.newNodes|], 0)))
  }

  /** The optimizing rewrite of an AND (or Skolem) node. */
  function AndRewrite(b: Build, cs: seq<int>): Result<Outcome, string>
    requires BuildOk(b)
  {
    match AndScan(b, cs, 0, [], [])
    case None => Success(ToLit(-TRUE_ID))
    case Some((nch, sch)) => AndFinish(b, nch, sch)
  }

  // ---------------------------------------------------------------- one node

  /** Record what old node idx became. */
  function Settle(b: Build, idx: nat, o: Outcome): (b': Build)
    requires BuildOk(b) && idx < b.oldCount
    ensures BuildOk(b') && b'.start == b.start && b'.oldCount == b.oldCount && b'.dataVars == b.dataVars
    ensures forall j :: 0 <= j < b.oldCount && j != idx ==> b'.remap[j] == b.remap[j]
    ensures b.newNodes <= b'.newNodes
    ensures o.ToLit? ==> b'.remap[idx] == o.lit && b'.newNodes == b.newNodes
    ensures !o.ToLit? ==> b'.remap[idx] == b.start + |b'.newNodes| - 1
  {
    match o
    case ToLit(l) => b.(remap := b.remap[idx := l])
    case ToNode(n) => b.(remap := b.remap[idx := b.start + |b.newNodes|], newNodes := b.newNodes + [n])
    case ToPair(s, a) => b.(remap := b.remap[idx := b.start + |b.newNodes| + 1], newNodes := b.newNodes + [s, a])
  }

  /** The work of compress on one reachable old node. */
  function Step(b: Build, idx: nat, n: PogNode, optimize: bool): (r: Result<Build, string>)
    requires BuildOk(b) && idx < b.oldCount
    ensures r.Success? ==> BuildOk(r.value) && r.value.oldCount == b.oldCount && r.value.start == b.start
    ensures r.Success? ==> b.newNodes <= r.value.newNodes
    ensures !optimize ==> r.Success? && r.value.newNodes == b.newNodes + [PogNode(n.kind, RemapAll(b, n.children), 0)]
  {
    if !optimize then Success(Settle(b, idx, ToNode(PogNode(n.kind, RemapAll(b, n.children), 0))))
    else
      match n.kind
      case KTrue => Success(Settle(b, idx, ToLit(TRUE_ID)))
      case KFalse => Success(Settle(b, idx, ToLit(-TRUE_ID)))
      case KOr =>
        if |n.children| == 0 then Failure("OR node without children")
        else Success(Settle(b, idx, OrRewrite(RemapAll(b, n.children))))
      case _ =>
        var o :- AndRewrite(b, n.children);
        Success(Settle(b, idx, o))
  }

  /** The loop of compress over the reachable nodes in topological
      order. */
  function Rebuild(p: Pog, b: Build, order: seq<int>, k: nat, optimize: bool): (r: Result<Build, string>)
    requires BuildOk(b) && b.oldCount == |p.nodes| && b.start == p.startVar && k <= |order|
    ensures r.Success? ==> BuildOk(r.value) && r.value.oldCount == b.oldCount && r.value.start == b.start
    decreases |order| - k
  {
    if k == |order| then Success(b)
    else if !IsNode(p, order[k]) then Rebuild(p, b, order, k + 1, optimize)
    else
      var b1 :- Step(b, Index(p, order[k]), GetNode(p, order[k]), optimize);
      Rebuild(p, b1, order, k + 1, optimize)
  }

  /** compress(optimize).  A constant or missing root leaves at most a
      constant node; an input-literal root leaves no nodes (or, without
      optimization, one product node over it); otherwise the reachable
      nodes are rebuilt and the root renamed.  The marks of the walk are
      the initial remap entries (1 for a reachable node). */
  function Compress(p: Pog, optimize: bool): (r: Result<Pog, string>)
    requires p.startVar >= 1
    ensures r.Success? ==> r.value.startVar == p.startVar && r.value.dataVars == p.dataVars
    ensures (p.root == 0 || Abs(p.root) == TRUE_ID) ==>
              r.Success? && (p.root == TRUE_ID ==> r.value.root == p.startVar && |r.value.nodes| == 1)
                         && (p.root != TRUE_ID ==> r.value.root == 0 && r.value.nodes == [])
    ensures p.root != 0 && Abs(p.root) != TRUE_ID && !IsNode(p, p.root) ==>
              r.Success? && (optimize ==> r.value.root == p.root && r.value.nodes == [])
                         && (!optimize ==> r.value.root == p.startVar && r.value.nodes == [PogNode(KAnd, [p.root], 0)])
  {
    if p.root == 0 || Abs(p.root) == TRUE_ID then
      if p.root == TRUE_ID then Success(p.(nodes := [PogNode(KAnd, [], 0)], root := p.startVar))
      else Success(p.(nodes := [], root := 0))
    else if !IsNode(p, p.root) then
      if optimize then Success(p.(nodes := []))
      else Success(p.(nodes := [PogNode(KAnd, [p.root], 0)], root := p.startVar))
    else
      var order := PogTopo.TopoOrder(p, p.root);
      var marks := seq(|p.nodes|, i requires 0 <= i < |p.nodes| => if p.startVar + i in order then 1 else 0);
      var b :- Rebuild(p, Build(p.startVar, |p.nodes|, marks, [], p.dataVars), order, 0, optimize);
      var root := MatchPhase(b.remap[Index(p, p.root)], p.root);
      if root == 0 then Success(p.(nodes := [], root := 0))
      else if Abs(root) == TRUE_ID then
        if root < 0 then Success(p.(nodes := [], root := 0))
        else Success(p.(nodes := [PogNode(KTrue, [], 0)], root := p.startVar))
      else if Abs(root) >= p.startVar then Success(p.(nodes := b.newNodes, root := root))
      else Success(p.(nodes := [], root := root))
  }

  // ---------------------------------------------------------------- meaning

  /** Every literal of s is true under v. */
  predicate AllTrue(s: seq<int>, v: int -> bool) {
    forall k :: 0 <= k < |s| ==> v(s[k])
  }

  /** A valuation of the rebuilt graph's literals: consistent on
      negation, TRUE_ID true, and each new Skolem node the conjunction of
      its arguments. */
  ghost predicate Valuation(b: Build, v: int -> bool) {
    && Consistent(v)
    && v(TRUE_ID)
    && forall k :: 0 <= k < |b.newNodes| && b.newNodes[k].kind == KSkolem ==>
         v(b.start + k) == AllTrue(b.newNodes[k].children, v)
  }

  /** The value of a rewrite outcome, the pair's product reading its
      Skolem node through the node's own arguments. */
  ghost function Meaning(o: Outcome, v: int -> bool): bool {
    match o
    case ToLit(l) => v(l)
    case ToNode(n) => if n.kind == KOr then exists k :: 0 <= k < |n.children| && v(n.children[k]) else AllTrue(n.children, v)
    case ToPair(s, a) =>
      |a.children| >= 1 && AllTrue(a.children[..|a.children| - 1], v) && AllTrue(s.children, v)
  }

  /** The OR rewrite keeps the node's value: the outcome is true exactly
      when one of its (at most two) children is. */
  lemma OrRewriteMeaning(n: seq<int>, v: int -> bool)
    requires 1 <= |n| <= 2 && 0 !in n
    requires Consistent(v) && v(TRUE_ID)
    ensures Meaning(OrRewrite(n), v) <==> exists k :: 0 <= k < |n| && v(n[k])
  {
    if |n| == 2 {
      assert v(-TRUE_ID) == !v(TRUE_ID);
      if HasClash(n) {
        assert n[0] == -n[1];
        assert v(n[0]) == !v(n[1]);
      }
    }
  }

  /** Old node children are named positively (as in an NNF graph), the
      remapped Skolem arguments are nonzero, and TRUE_ID names no old
      node. */
  predicate AndReady(b: Build, cs: seq<int>) {
    && BuildOk(b)
    && b.start >= 1 && b.start + b.oldCount <= TRUE_ID
    && 0 !in cs
    && (forall c :: c in cs && IsOld(b, c) ==> c > 0)
    && (forall k :: 0 <= k < |b.newNodes| && b.newNodes[k].kind == KSkolem ==> 0 !in b.newNodes[k].children)
  }

  /** One child's contribution keeps the value of the gathered lists:
      they are all true afterwards exactly when they were before and the
      remapped child is true. */
  lemma AndChildMeaning(b: Build, cs: seq<int>, c: int, nch: seq<int>, sch: seq<int>, v: int -> bool)
    requires AndReady(b, cs) && c in cs && Valuation(b, v) && 0 !in sch
    ensures var r := AndChild(b, c, nch, sch);
            && (r.Some? ==> (0 !in r.value.1 &&
                  (AllTrue(r.value.0, v) && AllTrue(r.value.1, v) <==>
                     AllTrue(nch, v) && AllTrue(sch, v) && v(Remapped(b, c)))))
            && (r.None? ==> !v(Remapped(b, c)))
  {
    if c == TRUE_ID {
    } else if IsOld(b, c) {
      var nvar := b.remap[Abs(c) - b.start];
      var nlit := MatchPhase(nvar, c);
      var off := nvar - b.start;
      if nlit == TRUE_ID {
      } else if nlit == -TRUE_ID {
        assert v(-TRUE_ID) == !v(TRUE_ID);
      } else if 0 <= off < |b.newNodes| && b.newNodes[off].kind == KSkolem {
        assert nlit == b.start + off;
        assert 0 !in b.newNodes[off].children;
        assert v(nlit) == AllTrue(b.newNodes[off].children, v);
        AllTrueAppend(sch, b.newNodes[off].children, v);

      } else {
        AllTrueAppend(nch, [nlit], v);
        AllTrueSingle(nlit, v);
      }
    } else if b.dataVars.Some? && Abs(c) !in b.dataVars.value {
      AllTrueAppend(sch, [c], v);
      AllTrueSingle(c, v);
    } else {
      AllTrueAppend(nch, [c], v);
      AllTrueSingle(c, v);
    }
  }

  lemma {:induction false} AndScanMeaning(b: Build, cs: seq<int>, i: nat, nch: seq<int>, sch: seq<int>, v: int -> bool)
    requires AndReady(b, cs) && i <= |cs| && Valuation(b, v) && 0 !in sch
    ensures var r := AndScan(b, cs, i, nch, sch);
            && (r.Some? ==> (0 !in r.value.1 &&
                  (AllTrue(r.value.0, v) && AllTrue(r.value.1, v) <==>
                     AllTrue(nch, v) && AllTrue(sch, v) && AllTrue(RemapAll(b, cs)[i..], v))))
            && (r.None? ==> !AllTrue(RemapAll(b, cs)[i..], v))
    decreases |cs| - i
  {
    var rs := RemapAll(b, cs);
    if i == |cs| {
      assert rs[i..] == [];
    } else {
      assert rs[i..] == [rs[i]] + rs[i + 1..];
      AllTrueAppend([rs[i]], rs[i + 1..], v);
      AndChildMeaning(b, cs, cs[i], nch, sch, v);
      match AndChild(b, cs[i], nch, sch)
      case None =>
      case Some((n1, s1)) =>
        AndScanMeaning(b, cs, i + 1, n1, s1, v);
    }
  }

  lemma AllTrueSingle(x: int, v: int -> bool)
    ensures AllTrue([x], v) == v(x)
  {
    assert [x][0] == x;
  }

  lemma AllTrueAppend(s: seq<int>, t: seq<int>, v: int -> bool)
    ensures AllTrue(s + t, v) <==> AllTrue(s, v) && AllTrue(t, v)
  {
    if AllTrue(s, v) && AllTrue(t, v) {
      forall k | 0 <= k < |s + t| ensures v((s + t)[k]) {
        if k >= |s| { assert (s + t)[k] == t[k - |s|]; }
      }
    }
    if AllTrue(s + t, v) {
      forall k | 0 <= k < |t| ensures v(t[k]) { assert (s + t)[|s| + k] == t[k]; }
      forall k | 0 <= k < |s| ensures v(s[k]) { assert (s + t)[k] == s[k]; }
    }
  }

  /** Literals with the same elements are all true together. */
  lemma AllTrueSameElements(s: seq<int>, t: seq<int>, v: int -> bool)
    requires forall x :: x in s <==> x in t
    ensures AllTrue(s, v) <==> AllTrue(t, v)
  {
    if AllTrue(s, v) {
      forall k | 0 <= k < |t| ensures v(t[k]) { assert t[k] in t; var j :| 0 <= j < |s| && s[j] == t[k]; }
    }
    if AllTrue(t, v) {
      forall k | 0 <= k < |s| ensures v(s[k]) { assert s[k] in s; var j :| 0 <= j < |t| && t[j] == s[k]; }
    }
  }

  /** The finished AND is true exactly when the gathered children and
      Skolem arguments all are. */
  lemma AndFinishMeaning(b: Build, nch: seq<int>, sch: seq<int>, v: int -> bool)
    requires 0 !in sch && v(TRUE_ID)
    ensures AndFinish(b, nch, sch).Success? ==>
              (Meaning(AndFinish(b, nch, sch).value, v) <==> AllTrue(nch, v) && AllTrue(sch, v))
  {
    CheckSkolemSpec(sch);
    var (x, sk) := CheckSkolem(sch);
    if x == 0 {
      AllTrueSameElements(sch, sk, v);
      var r := AndFinish(b, nch, sch);
      if nch != [] && sk != [] {
        assert r.value.product.children[..|r.value.product.children| - 1] == nch;
      }
    }
  }

  /** The AND rewrite keeps the node's value: when it succeeds, the
      outcome is true exactly when every remapped child is. */
  lemma AndRewriteMeaning(b: Build, cs: seq<int>, v: int -> bool)
    requires AndReady(b, cs) && Valuation(b, v)
    ensures AndRewrite(b, cs).Success? ==> (Meaning(AndRewrite(b, cs).value, v) <==> AllTrue(RemapAll(b, cs), v))
  {
    var rs := RemapAll(b, cs);
    assert rs[0..] == rs;
    AndScanMeaning(b, cs, 0, [], [], v);
    match AndScan(b, cs, 0, [], [])
    case None =>
      assert v(-TRUE_ID) == !v(TRUE_ID);
    case Some((nch, sch)) =>
      AndFinishMeaning(b, nch, sch, v);
  }
}
