/** The generator's partitioned-operation graph (POG): nodes named by
    extension variables numbered consecutively from start_extension_var,
    each an AND, OR, Skolem or constant node over child literals.  A
    child literal names an input variable, a node, or the negation of
    either; TRUE_ID and -TRUE_ID stand for the constants while the graph
    is being compressed. */
module PogNodes {
  import opened Wrappers
  import opened Literals
  import opened Clauses

  const TRUE_ID: int := INT_MAX

  datatype Kind = KTrue | KFalse | KAnd | KOr | KSkolem

  datatype PogNode = PogNode(kind: Kind, children: seq<int>, definingCid: int)

  /** data_variables is missing (None) when every variable is a data
      variable. */
  datatype Pog = Pog(startVar: int, nodes: seq<PogNode>, root: int, dataVars: Option<set<int>>)

  /** is_node as written: the variable's offset from start_extension_var
      may equal the number of nodes. */
  predicate IsNodeAsWritten(p: Pog, lit: int) {
    0 <= Abs(lit) - p.startVar <= |p.nodes|
  }

  /** is_node with the bound get_node relies on: the offset indexes an
      existing node. */
  predicate IsNode(p: Pog, lit: int) {
    0 <= Abs(lit) - p.startVar < |p.nodes|
  }

  /** The position in nodes of the node a literal names. */
  function Index(p: Pog, lit: int): (i: nat)
    requires IsNode(p, lit)
    ensures i < |p.nodes| && p.startVar + i == Abs(lit)
  {
    Abs(lit) - p.startVar
  }

  /** get_node(id). */
  function GetNode(p: Pog, lit: int): PogNode
    requires IsNode(p, lit)
  {
    p.nodes[Index(p, lit)]
  }

  /** The variable one past the last node passes the test as written,
      although get_node has no node for it. */
  lemma IsNodeOnePast(p: Pog)
    requires p.startVar >= 0
    ensures IsNodeAsWritten(p, p.startVar + |p.nodes|)
    ensures !IsNode(p, p.startVar + |p.nodes|)
  {
  }

  /** The corrected test accepts exactly the literals whose node
      get_node can fetch, and agrees with the written one elsewhere. */
  lemma IsNodeCorrected(p: Pog, lit: int)
    ensures IsNode(p, lit) <==> IsNodeAsWritten(p, lit) && Abs(lit) != p.startVar + |p.nodes|
  {
  }

  /** is_node_type(lit, type), with the corrected range test. */
  predicate IsNodeType(p: Pog, lit: int, k: Kind) {
    IsNode(p, lit) && GetNode(p, lit).kind == k
  }

  /** is_projection_literal: with data variables given, a literal whose
      variable is not one of them. */
  predicate IsProjectionLiteral(p: Pog, lit: int) {
    p.dataVars.Some? && Abs(lit) !in p.dataVars.value
  }

  /** Every node's child nodes come earlier in nodes and are named
      positively, as compress leaves them. */
  predicate WellOrdered(p: Pog) {
    forall i, k :: 0 <= i < |p.nodes| && 0 <= k < |p.nodes[i].children| && IsNode(p, p.nodes[i].children[k]) ==>
      p.nodes[i].children[k] > 0 && Index(p, p.nodes[i].children[k]) < i
  }

  // ---------------------------------------------------------------- Skolem arguments

  /** The literals of s with later repeats removed. */
  function FirstOccurrences(s: seq<int>): (r: seq<int>)
    ensures forall x :: x in r <==> x in s
    ensures forall i, j :: 0 <= i < j < |r| ==> r[i] != r[j]
  {
    if s == [] then []
    else
      var d := FirstOccurrences(s[..|s| - 1]);
      assert forall x :: x in s <==> x in s[..|s| - 1] || x == s[|s| - 1];
      if s[|s| - 1] in d then d else d + [s[|s| - 1]]
  }

  /** Some literal of s has its complement earlier in s. */
  predicate HasClash(s: seq<int>) {
    exists i, j :: 0 <= j < i < |s| && s[j] == -s[i]
  }

  /** The scan of check_skolem from position i, with the literals seen so
      far and the list kept so far. */
  function SkolemScan(s: seq<int>, i: nat, seen: set<int>, kept: seq<int>): (r: (int, seq<int>))
    requires i <= |s|
    decreases |s| - i
  {
    if i == |s| then (0, kept)
    else if -s[i] in seen then (Abs(s[i]), kept)
    else if s[i] in seen then SkolemScan(s, i + 1, seen, kept)
    else SkolemScan(s, i + 1, seen + {s[i]}, kept + [s[i]])
  }

  /** check_skolem: 0 and the literals without repeats, or the variable of
      the first literal whose complement came earlier (the caller then
      stops with an error, so the list is of no further use). */
  function CheckSkolem(s: seq<int>): (r: (int, seq<int>))
  {
    if |s| <= 1 then (0, s) else SkolemScan(s, 0, {}, [])
  }

  lemma FirstOccurrencesSnoc(s: seq<int>, x: int)
    ensures FirstOccurrences(s + [x]) == if x in s then FirstOccurrences(s) else FirstOccurrences(s) + [x]
  {
    assert (s + [x])[..|s + [x]| - 1] == s;
  }

  lemma ClashFound(s: seq<int>, i: nat)
    requires i < |s| && -s[i] in Elems(s[..i])
    ensures HasClash(s)
  {
    var j :| 0 <= j < i && s[..i][j] == -s[i];
    assert s[j] == -s[i];
  }

  lemma NoClashSnoc(s: seq<int>, i: nat)
    requires i < |s| && !HasClash(s[..i]) && -s[i] !in Elems(s[..i])
    ensures !HasClash(s[..i + 1])
  {
    var t := s[..i + 1];
    forall a, b | 0 <= b < a < i + 1 ensures t[b] != -t[a] {
      if a < i {
        assert s[..i][b] != -s[..i][a];
      } else {
        assert s[..i][b] in Elems(s[..i]);
      }
    }
  }

  lemma {:induction false} SkolemScanSpec(s: seq<int>, i: nat, seen: set<int>, kept: seq<int>)
    requires i <= |s|
    requires seen == Elems(s[..i]) && kept == FirstOccurrences(s[..i])
    requires !HasClash(s[..i])
    ensures var r := SkolemScan(s, i, seen, kept);
            (r.0 == 0 && 0 !in s) ==> !HasClash(s) && r.1 == FirstOccurrences(s)
    ensures var r := SkolemScan(s, i, seen, kept);
            r.0 != 0 ==> HasClash(s)
    decreases |s| - i
  {
    if i == |s| {
      assert s[..i] == s;
    } else if -s[i] in seen {
      ClashFound(s, i);
    } else {
      assert s[..i + 1] == s[..i] + [s[i]];
      FirstOccurrencesSnoc(s[..i], s[i]);
      NoClashSnoc(s, i);
      var seen' := if s[i] in seen then seen else seen + {s[i]};
      var kept' := if s[i] in seen then kept else kept + [s[i]];
      assert seen' == Elems(s[..i + 1]);
      SkolemScanSpec(s, i + 1, seen', kept');
    }
  }

  /** check_skolem reports a clash only when some literal's complement
      occurs earlier; otherwise (for lists without 0) there is no clash
      and the list keeps the first occurrence of each literal in order. */
  lemma CheckSkolemSpec(s: seq<int>)
    requires 0 !in s
    ensures CheckSkolem(s).0 != 0 ==> HasClash(s)
    ensures CheckSkolem(s).0 == 0 ==> !HasClash(s) && CheckSkolem(s).1 == FirstOccurrences(s)
    ensures CheckSkolem(s).0 != 0 ==> exists i :: 0 <= i < |s| && CheckSkolem(s).0 == Abs(s[i])
  {
    if |s| <= 1 {
      if |s| == 1 {
        assert FirstOccurrences(s) == FirstOccurrences(s[..0]) + [s[0]];
      }
    } else {
      assert s[..0] == [];
      SkolemScanSpec(s, 0, {}, []);
      SkolemScanVar(s, 0, {}, []);
    }
  }

  lemma {:induction false} SkolemScanVar(s: seq<int>, i: nat, seen: set<int>, kept: seq<int>)
    requires i <= |s|
    ensures var r := SkolemScan(s, i, seen, kept);
            r.0 != 0 ==> exists k :: i <= k < |s| && r.0 == Abs(s[k])
    decreases |s| - i
  {
    if i < |s| && -s[i] !in seen {
      var seen' := if s[i] in seen then seen else seen + {s[i]};
      var kept' := if s[i] in seen then kept else kept + [s[i]];
      SkolemScanVar(s, i + 1, seen', kept');
    }
  }

  // ---------------------------------------------------------------- splitting literal

  /** The literals find_splitting_literal compares for one argument: the
      children of an AND node, or the literal itself. */
  function SplitLits(p: Pog, lit: int): seq<int> {
    if IsNodeType(p, lit, KAnd) then GetNode(p, lit).children else [lit]
  }

  function FirstComplement(a: seq<int>, b: seq<int>): (r: int)
    ensures r != 0 ==> r in a && -r in b
    ensures r == 0 && 0 !in a ==> forall i :: 0 <= i < |a| ==> -a[i] !in b
  {
    if a == [] then 0
    else if -a[0] in b then a[0]
    else FirstComplement(a[1..], b)
  }

  /** find_splitting_literal(rlit1, rlit2): the first literal of the first
      argument whose complement is among the second's, or 0. */
  function FindSplittingLiteral(p: Pog, rlit1: int, rlit2: int): (r: int)
    ensures r != 0 ==> r in SplitLits(p, rlit1) && -r in SplitLits(p, rlit2)
    ensures r == 0 && 0 !in SplitLits(p, rlit1) ==> forall x :: x in SplitLits(p, rlit1) ==> -x !in SplitLits(p, rlit2)
  {
    FirstComplement(SplitLits(p, rlit1), SplitLits(p, rlit2))
  }

  /** The literal found is the first candidate in the first argument's
      order: no earlier literal there has its complement in the second. */
  lemma {:induction false} FirstComplementFirst(a: seq<int>, b: seq<int>)
    requires FirstComplement(a, b) != 0
    ensures exists k :: 0 <= k < |a| && a[k] == FirstComplement(a, b) &&
              forall j :: 0 <= j < k ==> -a[j] !in b
  {
    if -a[0] !in b {
      FirstComplementFirst(a[1..], b);
      var k :| 0 <= k < |a[1..]| && a[1..][k] == FirstComplement(a[1..], b) &&
              forall j :: 0 <= j < k ==> -a[1..][j] !in b;
      assert a[k + 1] == FirstComplement(a, b);
      forall j | 0 <= j < k + 1 ensures -a[j] !in b {
        if j > 0 { assert a[j] == a[1..][j - 1]; }
      }
    } else {
      assert a[0] == FirstComplement(a, b);
    }
  }

  // ---------------------------------------------------------------- meaning

  /** A truth assignment to input literals: a literal and its negation
      take opposite values. */
  ghost predicate Consistent(a: int -> bool) {
    forall l :: l != 0 ==> a(-l) == !a(l)
  }

  /** The value of node i under the input assignment a. */
  function EvalNode(p: Pog, i: nat, a: int -> bool): bool
    requires WellOrdered(p) && i < |p.nodes|
    decreases i, 1
  {
    var cs := p.nodes[i].children;
    match p.nodes[i].kind
    case KTrue => true
    case KFalse => false
    case KOr => exists k :: 0 <= k < |cs| && EvalChild(p, i, cs[k], a)
    case _ => forall k :: 0 <= k < |cs| ==> EvalChild(p, i, cs[k], a)
  }

  /** The value of a child literal of node i: a node child's value, or
      the assignment's value for an input literal. */
  function EvalChild(p: Pog, i: nat, c: int, a: int -> bool): bool
    requires WellOrdered(p) && i < |p.nodes|
    requires IsNode(p, c) ==> c > 0 && Index(p, c) < i
    decreases i, 0
  {
    if IsNode(p, c) then EvalNode(p, Index(p, c), a) else a(c)
  }
}
