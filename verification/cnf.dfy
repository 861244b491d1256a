/** The generator's input formula (Cnf) and the reduced formula handed to
    a SAT solver (Cnf_reduced).  Clause ids are 1-based positions in the
    clause list.  A reduced formula remembers, for each of its clauses,
    the id of the clause it came from, and replays the solver's proof
    one step at a time. */
module InputCnf {
  import opened Wrappers
  import opened Literals
  import opened Clauses

  datatype Formula = Formula(clauses: seq<Clause>, maxInputVar: int)

  const Empty: Formula := Formula([], 0)

  /** Cnf::add: the clause goes last; the largest variable seen so far
      grows to cover it. */
  function Add(f: Formula, c: Clause): (r: Formula)
    ensures r.clauses == f.clauses + [c]
    ensures r.maxInputVar >= f.maxInputVar && r.maxInputVar >= MaxVariable(c)
    ensures r.maxInputVar == f.maxInputVar || r.maxInputVar == MaxVariable(c)
  {
    var m := MaxVariable(c);
    Formula(f.clauses + [c], if f.maxInputVar >= m then f.maxInputVar else m)
  }

  /** The clauses added in order, from the empty formula. */
  function AddAll(cs: seq<Clause>): Formula
  {
    if cs == [] then Empty
    else Add(AddAll(cs[..|cs| - 1]), cs[|cs| - 1])
  }

  /** Reading clauses one by one keeps them all, and the largest variable
      is that of some clause (or 0 for no variable at all). */
  lemma {:induction false} AddAllMax(cs: seq<Clause>)
    ensures AddAll(cs).clauses == cs
    ensures forall k :: 0 <= k < |cs| ==> MaxVariable(cs[k]) <= AddAll(cs).maxInputVar
    ensures AddAll(cs).maxInputVar == 0 || exists k :: 0 <= k < |cs| && MaxVariable(cs[k]) == AddAll(cs).maxInputVar
  {
    if cs != [] {
      var init, c := cs[..|cs| - 1], cs[|cs| - 1];
      AddAllMax(init);
      var f, f' := AddAll(init), AddAll(cs);
      assert f' == Add(f, c);
      assert init + [c] == cs;
      assert forall k :: 0 <= k < |cs| ==> MaxVariable(cs[k]) <= f'.maxInputVar by {
        forall k | 0 <= k < |cs| ensures MaxVariable(cs[k]) <= f'.maxInputVar {
          if k < |init| {
            assert cs[k] == init[k];
          }
        }
      }
      assert f'.maxInputVar == 0 || exists k :: 0 <= k < |cs| && MaxVariable(cs[k]) == f'.maxInputVar by {
        if f'.maxInputVar == MaxVariable(c) {
          assert MaxVariable(cs[|cs| - 1]) == f'.maxInputVar;
        } else if f'.maxInputVar != 0 {
          var k :| 0 <= k < |init| && MaxVariable(init[k]) == f.maxInputVar;
          assert cs[k] == init[k];
        }
      }
    }
  }

  /** The header check after reading: with a header, the largest variable
      may not exceed the declared one and the clause count must match,
      and the declared maximum then becomes the variable count; without
      one, the formula is taken as read. */
  function CheckHeader(f: Formula, noHeader: bool, expectedMax: int, expectedCount: int): (r: Result<Formula, string>)
    ensures r.Failure? <==> !noHeader && (f.maxInputVar > expectedMax || |f.clauses| != expectedCount)
    ensures noHeader ==> r == Success(f)
    ensures r.Success? && !noHeader ==>
              && r.value.clauses == f.clauses
              && r.value.maxInputVar == expectedMax
              && |r.value.clauses| == expectedCount
              && f.maxInputVar <= expectedMax
  {
    if !noHeader && f.maxInputVar > expectedMax then Failure("variable beyond declared maximum")
    else if !noHeader && |f.clauses| != expectedCount then Failure("clause count differs from header")
    else if !noHeader then Success(f.(maxInputVar := expectedMax))
    else Success(f)
  }

  /** The assignment gives every variable of every clause a value. */
  predicate Covers(f: Formula, assignment: seq<int>) {
    forall k :: 0 <= k < |f.clauses| ==> InAssignment(f.clauses[k], assignment)
  }

  /** Cnf::satisfied: the id of the first clause the assignment does not
      satisfy, or 0 when it satisfies them all. */
  function FirstUnsatisfied(f: Formula, assignment: seq<int>): (cid: nat)
    requires Covers(f, assignment)
    ensures cid <= |f.clauses|
    ensures cid == 0 <==> forall k :: 0 <= k < |f.clauses| ==> Satisfied(f.clauses[k], assignment)
    ensures cid > 0 ==> !Satisfied(f.clauses[cid - 1], assignment)
    ensures cid > 0 ==> forall k :: 0 <= k < cid - 1 ==> Satisfied(f.clauses[k], assignment)
  {
    FirstUnsatisfiedFrom(f, assignment, 0)
  }

  function FirstUnsatisfiedFrom(f: Formula, assignment: seq<int>, k: nat): (cid: nat)
    requires Covers(f, assignment) && k <= |f.clauses|
    ensures cid == 0 || k < cid <= |f.clauses|
    ensures cid == 0 <==> forall j :: k <= j < |f.clauses| ==> Satisfied(f.clauses[j], assignment)
    ensures cid > 0 ==> !Satisfied(f.clauses[cid - 1], assignment)
    ensures cid > 0 ==> forall j :: k <= j < cid - 1 ==> Satisfied(f.clauses[j], assignment)
    decreases |f.clauses| - k
  {
    if k == |f.clauses| then 0
    else if !Satisfied(f.clauses[k], assignment) then k + 1
    else FirstUnsatisfiedFrom(f, assignment, k + 1)
  }

  /** A tautology counts as satisfied by any assignment, so it is never
      the clause reported. */
  lemma TautologyNeverReported(f: Formula, assignment: seq<int>)
    requires Covers(f, assignment)
    ensures var cid := FirstUnsatisfied(f, assignment);
            cid > 0 ==> !f.clauses[cid - 1].tautology
  {
  }

  /** Cnf_reduced: the reduced clauses, the id each came from, whether an
      empty clause was added (and its id), and the solver's proof with the
      count of steps handed out. */
  datatype Reduced = Reduced(
    formula: Formula,
    inverseCid: map<int, int>,
    unsatisfiable: bool,
    unsatisfiableId: int,
    proofClauses: seq<seq<int>>,
    proofHints: seq<seq<int>>,
    emitted: nat)

  const NewReduced: Reduced := Reduced(Empty, map[], false, 0, [], [], 0)

  /** Cnf_reduced::add_clause: a clause a unit satisfies is dropped;
      otherwise its residue is added under the next id, which maps back
      to cid, and an empty residue makes the formula unsatisfiable. */
  function AddClause(r: Reduced, c: Clause, units: set<int>, cid: int): (r': Reduced)
    ensures Simplify(c, units).None? ==> r' == r
    ensures Simplify(c, units).Some? ==>
              var ncid := |r.formula.clauses| + 1;
              && r'.formula.clauses == r.formula.clauses + [FromLiterals(Simplify(c, units).value)]
              && r'.inverseCid == r.inverseCid[ncid := cid]
              && (Simplify(c, units).value == [] ==> r'.unsatisfiable && r'.unsatisfiableId == ncid)
              && (Simplify(c, units).value != [] ==> r'.unsatisfiable == r.unsatisfiable && r'.unsatisfiableId == r.unsatisfiableId)
    ensures r'.proofClauses == r.proofClauses && r'.proofHints == r.proofHints && r'.emitted == r.emitted
  {
    match Simplify(c, units)
    case None => r
    case Some(lits) =>
      var f := Add(r.formula, FromLiterals(lits));
      var ncid := |f.clauses|;
      var r1 := r.(formula := f, inverseCid := r.inverseCid[ncid := cid]);
      if lits == [] then r1.(unsatisfiable := true, unsatisfiableId := ncid) else r1
  }

  /** The map from reduced ids back to ids of the larger formula, starting
      from a fresh reduced formula. */
  predicate MapsBack(r: Reduced, source: seq<(Clause, int)>, units: set<int>) {
    forall ncid :: 1 <= ncid <= |r.formula.clauses| ==> MapsBackId(r, source, units, ncid)
  }

  /** Reduced clause ncid is the residue of a clause its id maps back to. */
  predicate MapsBackId(r: Reduced, source: seq<(Clause, int)>, units: set<int>, ncid: int)
    requires 1 <= ncid <= |r.formula.clauses|
  {
    && ncid in r.inverseCid
    && exists j :: 0 <= j < |source| && source[j].1 == r.inverseCid[ncid]
         && Simplify(source[j].0, units) == Some(r.formula.clauses[ncid - 1].contents)
  }

  /** The clauses added in order. */
  function AddClauses(source: seq<(Clause, int)>, units: set<int>): Reduced {
    if source == [] then NewReduced
    else
      var last := source[|source| - 1];
      AddClause(AddClauses(source[..|source| - 1], units), last.0, units, last.1)
  }

  /** Every reduced clause is the residue of a clause it maps back to. */
  lemma {:induction false} AddClausesMapBack(source: seq<(Clause, int)>, units: set<int>)
    ensures MapsBack(AddClauses(source, units), source, units)
    ensures AddClauses(source, units).emitted == 0
  {
    if source != [] {
      var init := source[..|source| - 1];
      AddClausesMapBack(init, units);
      MapsBackStep(AddClauses(init, units), init, source[|source| - 1], units);
      assert init + [source[|source| - 1]] == source;
    }
  }

  lemma MapsBackStep(r: Reduced, init: seq<(Clause, int)>, last: (Clause, int), units: set<int>)
    requires MapsBack(r, init, units)
    ensures MapsBack(AddClause(r, last.0, units, last.1), init + [last], units)
  {
    var source := init + [last];
    var r' := AddClause(r, last.0, units, last.1);
    var n := |r.formula.clauses|;
    var sim := Simplify(last.0, units);
    if sim.Some? {
      AddClauseSome(r, last.0, units, last.1, sim.value);
    } else {
      assert r' == r;
    }
    assert |r'.formula.clauses| == n + (if sim.Some? then 1 else 0);
    forall ncid | 1 <= ncid <= n
      ensures MapsBackId(r', source, units, ncid)
    {
      assert MapsBackId(r, init, units, ncid);
      var j :| 0 <= j < |init| && init[j].1 == r.inverseCid[ncid]
               && Simplify(init[j].0, units) == Some(r.formula.clauses[ncid - 1].contents);
      assert source[j] == init[j];
      assert r'.formula.clauses[ncid - 1] == r.formula.clauses[ncid - 1];
      assert r'.inverseCid[ncid] == r.inverseCid[ncid];
    }
    if sim.Some? {
      var j := |init|;
      assert source[j] == last;
      assert r'.formula.clauses[n] == FromLiterals(sim.value);
      assert source[j].1 == r'.inverseCid[n + 1]
             && Simplify(source[j].0, units) == Some(r'.formula.clauses[n].contents);
      assert MapsBackId(r', source, units, n + 1);
    }
    forall ncid | 1 <= ncid <= |r'.formula.clauses|
      ensures MapsBackId(r', source, units, ncid)
    {
      if ncid > n {
        assert sim.Some? && ncid == n + 1;
      }
    }
  }

  lemma AddClauseSome(r: Reduced, c: Clause, units: set<int>, cid: int, lits: seq<int>)
    requires Simplify(c, units) == Some(lits)
    ensures AddClause(r, c, units, cid).formula.clauses == r.formula.clauses + [FromLiterals(lits)]
    ensures AddClause(r, c, units, cid).inverseCid == r.inverseCid[|r.formula.clauses| + 1 := cid]
  {
  }

  /** The reduced formula is marked unsatisfiable exactly when some clause
      leaves an empty residue. */
  lemma {:induction false} AddClausesUnsat(source: seq<(Clause, int)>, units: set<int>)
    ensures AddClauses(source, units).unsatisfiable <==> EmptyResidue(source, units)
  {
    if source != [] {
      var init := source[..|source| - 1];
      AddClausesUnsat(init, units);
      EmptyResidueSnoc(init, source[|source| - 1], units);
      assert init + [source[|source| - 1]] == source;
    }
  }

  /** Some clause of the list leaves an empty residue. */
  predicate EmptyResidue(source: seq<(Clause, int)>, units: set<int>) {
    exists j :: 0 <= j < |source| && Simplify(source[j].0, units) == Some([])
  }

  lemma EmptyResidueSnoc(init: seq<(Clause, int)>, last: (Clause, int), units: set<int>)
    ensures EmptyResidue(init + [last], units) <==> EmptyResidue(init, units) || Simplify(last.0, units) == Some([])
  {
    var source := init + [last];
    if EmptyResidue(source, units) {
      var j :| 0 <= j < |source| && Simplify(source[j].0, units) == Some([]);
      if j < |init| {
        assert init[j] == source[j];
      }
    }
    if EmptyResidue(init, units) {
      var j :| 0 <= j < |init| && Simplify(init[j].0, units) == Some([]);
      assert source[j] == init[j];
    }
    assert source[|init|] == last;
  }

  /** A hint of the solver's proof, as an id of the larger proof: ids of
      reduced clauses map back (0 when unknown), and ids of earlier proof
      steps follow on from startId. */
  function MapHint(r: Reduced, startId: int, hint: int): (nhint: int)
    ensures hint <= |r.formula.clauses| && hint in r.inverseCid ==> nhint == r.inverseCid[hint]
    ensures hint > |r.formula.clauses| ==> nhint - startId == hint - |r.formula.clauses| - 1
  {
    var ccount := |r.formula.clauses|;
    if hint <= ccount then (if hint in r.inverseCid then r.inverseCid[hint] else 0)
    else startId + hint - ccount - 1
  }

  /** get_proof_hint: the hints of the next step, remapped; nothing once
      every step has been handed out.  The step count is not advanced. */
  function GetProofHint(r: Reduced, startId: int): (h: Option<seq<int>>)
    ensures r.emitted >= |r.proofHints| <==> h.None?
    ensures h.Some? ==>
              && |h.value| == |r.proofHints[r.emitted]|
              && forall i :: 0 <= i < |h.value| ==> h.value[i] == MapHint(r, startId, r.proofHints[r.emitted][i])
  {
    if r.emitted >= |r.proofHints| then None
    else Some(seq(|r.proofHints[r.emitted]|, i requires 0 <= i < |r.proofHints[r.emitted]| => MapHint(r, startId, r.proofHints[r.emitted][i])))
  }

  /** get_proof_clause: the next step's clause extended by the negated
      context literals; only this advances the step count. */
  function GetProofClause(r: Reduced, context: seq<int>): (res: (Option<seq<int>>, Reduced))
    ensures r.emitted >= |r.proofClauses| ==> res == (None, r)
    ensures r.emitted < |r.proofClauses| ==>
              && res.1 == r.(emitted := r.emitted + 1)
              && res.0.Some?
              && |res.0.value| == |r.proofClauses[r.emitted]| + |context|
              && res.0.value[..|r.proofClauses[r.emitted]|] == r.proofClauses[r.emitted]
              && forall i :: 0 <= i < |context| ==> res.0.value[|r.proofClauses[r.emitted]| + i] == -context[i]
  {
    if r.emitted >= |r.proofClauses| then (None, r)
    else (Some(r.proofClauses[r.emitted] + seq(|context|, i requires 0 <= i < |context| => -context[i])), r.(emitted := r.emitted + 1))
  }

  /** Asking for the hints and then the clause hands out the hints and
      the clause of one step and moves on to the next step.  (The source
      frees a step's hint clause as it hands the hints out, so each step's
      hints are asked for once.) */
  lemma HintThenClause(r: Reduced, startId: int, context: seq<int>)
    requires r.emitted < |r.proofHints| && |r.proofHints| == |r.proofClauses|
    ensures GetProofHint(r, startId).Some?
    ensures var r' := GetProofClause(r, context).1;
            && r'.emitted == r.emitted + 1
            && (r'.emitted < |r.proofHints| ==> |GetProofHint(r', startId).value| == |r.proofHints[r.emitted + 1]|)
            && (r'.emitted == |r.proofHints| ==> GetProofHint(r', startId).None? && GetProofClause(r', context).0.None?)
  {
  }
}
