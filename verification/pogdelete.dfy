/** Pog::delete_input_clause: the hints for deleting an input clause
    once the POG is in place.  Each node, in index order, is labelled by
    whether it implies the clause: a product (AND or Skolem) node when one
    of its children does, a sum (OR) node when all of them do, where a
    literal child implies the clause when the clause contains it.  The
    clause is deleted when the last node is labelled. */
module PogDelete {
  import opened Wrappers
  import opened Clauses
  import opened PogNodes

  /** A child implies the clause: a labelled node, or a literal of the
      clause. */
  predicate ChildImplies(p: Pog, labels: seq<bool>, lits: set<int>, c: int)
    requires |labels| == |p.nodes|
  {
    if IsNode(p, c) then labels[Index(p, c)] else c in lits
  }

  /** A child the labelling rejects: a node named negatively. */
  predicate BadChild(p: Pog, c: int) {
    IsNode(p, c) && c <= 0
  }

  /** The loop over the children of a product node from child i: the
      position of the first child implying the clause, None when there
      is none, Failure when a negatively named node comes first. */
  function FirstImplying(p: Pog, labels: seq<bool>, lits: set<int>, cs: seq<int>, i: nat): (r: Result<Option<nat>, string>)
    requires |labels| == |p.nodes| && i <= |cs|
    ensures r.Success? && r.value.Some? ==>
              && i <= r.value.value < |cs| && ChildImplies(p, labels, lits, cs[r.value.value])
              && forall j :: i <= j < r.value.value ==> !ChildImplies(p, labels, lits, cs[j]) && !BadChild(p, cs[j])
    ensures r.Success? && r.value.None? ==> forall j :: i <= j < |cs| ==> !ChildImplies(p, labels, lits, cs[j])
    ensures r.Failure? ==> exists j :: i <= j < |cs| && BadChild(p, cs[j])
    decreases |cs| - i
  {
    if i == |cs| then Success(None)
    else if BadChild(p, cs[i]) then Failure("invalid POG identifier while deleting clause")
    else if ChildImplies(p, labels, lits, cs[i]) then Success(Some(i))
    else FirstImplying(p, labels, lits, cs, i + 1)
  }

  /** The loop over the children of a sum node from child i: true when
      all of them imply the clause; it stops at the first that does not,
      and fails on a negatively named node met before that. */
  function AllImplying(p: Pog, labels: seq<bool>, lits: set<int>, cs: seq<int>, i: nat): (r: Result<bool, string>)
    requires |labels| == |p.nodes| && i <= |cs|
    ensures r.Success? ==> (r.value <==> forall j :: i <= j < |cs| ==> ChildImplies(p, labels, lits, cs[j]))
    ensures r.Failure? ==> exists j :: i <= j < |cs| && BadChild(p, cs[j])
    decreases |cs| - i
  {
    if i == |cs| then Success(true)
    else if BadChild(p, cs[i]) then Failure("invalid POG identifier while deleting clause")
    else if !ChildImplies(p, labels, lits, cs[i]) then Success(false)
    else AllImplying(p, labels, lits, cs, i + 1)
  }

  /** The label of one node and the hint it contributes: the defining
      clause's argument clause for the implying child of a product node
      (definingCid + position + 1), the defining clause itself for a sum
      node.  Constant nodes are an error. */
  function Label(p: Pog, labels: seq<bool>, lits: set<int>, n: PogNode): (r: Result<(bool, seq<int>), string>)
    requires |labels| == |p.nodes|
    ensures r.Success? ==> (r.value.0 <==> r.value.1 != [])
    ensures r.Success? && (n.kind == KAnd || n.kind == KSkolem) ==>
              (r.value.0 <==> exists k :: 0 <= k < |n.children| && ChildImplies(p, labels, lits, n.children[k]))
    ensures r.Success? && n.kind == KOr ==>
              (r.value.0 <==> forall k :: 0 <= k < |n.children| ==> ChildImplies(p, labels, lits, n.children[k]))
    ensures r.Success? && n.kind == KOr && r.value.0 ==> r.value.1 == [n.definingCid]
    ensures n.kind == KTrue || n.kind == KFalse ==> r.Failure?
  {
    match n.kind
    case KOr =>
      var all :- AllImplying(p, labels, lits, n.children, 0);
      Success((all, if all then [n.definingCid] else []))
    case KTrue => Failure("unknown POG node type")
    case KFalse => Failure("unknown POG node type")
    case _ =>
      var first :- FirstImplying(p, labels, lits, n.children, 0);
      match first
      case None => Success((false, []))
      case Some(k) => Success((true, [n.definingCid + k + 1]))
  }

  /** The labelling loop from node idx; labels beyond idx are still
      false, as the vector starts out. */
  function LabelFrom(p: Pog, lits: set<int>, idx: nat, labels: seq<bool>, hints: seq<int>): (r: Result<(seq<bool>, seq<int>), string>)
    requires |labels| == |p.nodes| && idx <= |p.nodes|
    ensures r.Success? ==> |r.value.0| == |p.nodes| && hints <= r.value.1
    decreases |p.nodes| - idx
  {
    if idx == |p.nodes| then Success((labels, hints))
    else
      var (implies, h) :- Label(p, labels, lits, p.nodes[idx]);
      LabelFrom(p, lits, idx + 1, labels[idx := implies], hints + h)
  }

  /** delete_input_clause(cid, unit_cid): a tautology is deleted with no
      hints; otherwise the hints follow cid and unit_cid, and the result
      says whether the last node (the root) implies the clause, with the
      deletion hints when it does. */
  function DeleteInputClause(p: Pog, c: Clause, cid: int, unitCid: int): (r: Result<(bool, seq<int>), string>)
    requires |p.nodes| >= 1
    ensures Canonize(c).tautology ==> r == Success((true, [cid]))
    ensures r.Success? && r.value.0 && !Canonize(c).tautology ==> [cid, unitCid] <= r.value.1
    ensures r.Success? && !r.value.0 ==> r.value.1 == []
  {
    var lits := Elems(Visible(c));
    if Canonize(c).tautology then Success((true, [cid]))
    else
      var (labels, hints) :- LabelFrom(p, lits, 0, seq(|p.nodes|, _ => false), [cid, unitCid]);
      var proved := labels[|p.nodes| - 1];
      Success((proved, if proved then hints else []))
  }

  // ---------------------------------------------------------------- soundness

  /** Node i implies the clause: under every consistent assignment that
      makes it true, some literal of the clause is true. */
  ghost predicate Implies(p: Pog, i: nat, lits: set<int>)
    requires WellOrdered(p) && i < |p.nodes|
  {
    forall a: int -> bool :: Consistent(a) && EvalNode(p, i, a) ==> exists l :: l in lits && a(l)
  }

  /** Every label set so far is justified, and no later node is
      labelled. */
  ghost predicate SoundLabels(p: Pog, lits: set<int>, idx: nat, labels: seq<bool>)
    requires WellOrdered(p)
  {
    && |labels| == |p.nodes| && idx <= |p.nodes|
    && (forall j :: 0 <= j < idx && labels[j] ==> Implies(p, j, lits))
    && (forall j :: idx <= j < |p.nodes| ==> !labels[j])
  }

  /** A child that implies the clause makes it true whenever the child is
      true. */
  lemma ChildSound(p: Pog, lits: set<int>, idx: nat, labels: seq<bool>, c: int, a: int -> bool)
    requires WellOrdered(p) && SoundLabels(p, lits, idx, labels) && idx < |p.nodes|
    requires IsNode(p, c) ==> c > 0 && Index(p, c) < idx
    requires ChildImplies(p, labels, lits, c) && Consistent(a) && EvalChild(p, idx, c, a)
    ensures exists l :: l in lits && a(l)
  {
    if IsNode(p, c) {
      assert Implies(p, Index(p, c), lits);
    }
  }

  /** The label given to node idx is justified. */
  lemma LabelSound(p: Pog, lits: set<int>, idx: nat, labels: seq<bool>)
    requires WellOrdered(p) && SoundLabels(p, lits, idx, labels) && idx < |p.nodes|
    ensures var r := Label(p, labels, lits, p.nodes[idx]);
            r.Success? && r.value.0 ==> Implies(p, idx, lits)
  {
    var n := p.nodes[idx];
    var cs := n.children;
    var r := Label(p, labels, lits, n);
    if r.Success? && r.value.0 {
      forall a: int -> bool | Consistent(a) && EvalNode(p, idx, a) ensures exists l :: l in lits && a(l) {
        if n.kind == KOr {
          var k :| 0 <= k < |cs| && EvalChild(p, idx, cs[k], a);
          ChildSound(p, lits, idx, labels, cs[k], a);
        } else {
          var k :| 0 <= k < |cs| && ChildImplies(p, labels, lits, cs[k]);
          assert EvalChild(p, idx, cs[k], a);
          ChildSound(p, lits, idx, labels, cs[k], a);
        }
      }
    }
  }

  lemma {:induction false} LabelFromSound(p: Pog, lits: set<int>, idx: nat, labels: seq<bool>, hints: seq<int>)
    requires WellOrdered(p) && SoundLabels(p, lits, idx, labels)
    ensures var r := LabelFrom(p, lits, idx, labels, hints);
            r.Success? ==> SoundLabels(p, lits, |p.nodes|, r.value.0)
    decreases |p.nodes| - idx
  {
    if idx < |p.nodes| {
      LabelSound(p, lits, idx, labels);
      var r := Label(p, labels, lits, p.nodes[idx]);
      if r.Success? {
        var labels' := labels[idx := r.value.0];
        forall j | 0 <= j < idx + 1 && labels'[j] ensures Implies(p, j, lits) {
          if j < idx {
            assert labels[j];
          }
        }
        LabelFromSound(p, lits, idx + 1, labels', hints + r.value.1);
      }
    }
  }

  /** When deletion is claimed for a clause that is not a tautology, the
      root node implies the clause: every consistent assignment that
      makes the POG true satisfies the clause. */
  lemma DeleteSound(p: Pog, c: Clause, cid: int, unitCid: int, a: int -> bool)
    requires WellOrdered(p) && |p.nodes| >= 1
    requires !Canonize(c).tautology
    requires DeleteInputClause(p, c, cid, unitCid).Success? && DeleteInputClause(p, c, cid, unitCid).value.0
    requires Consistent(a) && EvalNode(p, |p.nodes| - 1, a)
    ensures exists i :: 0 <= i < Length(c) && a(c.contents[i])
  {
    var lits := Elems(Visible(c));
    var init := seq(|p.nodes|, _ => false);
    LabelFromSound(p, lits, 0, init, [cid, unitCid]);
    var (labels, _) := LabelFrom(p, lits, 0, init, [cid, unitCid]).value;
    assert Implies(p, |p.nodes| - 1, lits);
    var l :| l in lits && a(l);
    var i :| 0 <= i < |Visible(c)| && Visible(c)[i] == l;
  }
}
