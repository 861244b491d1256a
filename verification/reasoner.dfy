/** The proof-clause side of the generator's Cnf_reasoner: the clause ids
    after the input clauses, clause lookup by id, and the dispatch of
    literal validation between unit propagation and a SAT solver.  The
    outcome of propagation and of the solver are inputs here. */
module Reasoner {
  import opened Wrappers
  import opened Clauses
  import ContextStack

  datatype State = State(
    inputs: seq<Clause>,
    proof: seq<Clause>,
    aux: map<int, Clause>,
    units: set<int>,
    justifying: map<int, int>,
    unsatisfiable: bool,
    clauseLimit: int)

  /** add_proof_clause: the clause gets the next id after the input and
      proof clauses (reaching clause_limit is fatal).  An empty clause
      makes the formula unsatisfiable; a unit clause makes its literal a
      unit justified by the new id. */
  function AddProofClause(s: State, c: Clause): (r: Result<(int, State), string>)
    ensures r.Failure? <==> |s.inputs| + |s.proof| == s.clauseLimit
    ensures r.Success? ==>
              var (cid, s') := r.value;
              && cid == |s.inputs| + |s.proof| + 1
              && s'.proof == s.proof + [c] && s'.inputs == s.inputs && s'.aux == s.aux
              && s'.unsatisfiable == (s.unsatisfiable || Length(c) == 0)
              && (Length(c) == 1 ==> s'.units == s.units + {c.contents[0]} && s'.justifying == s.justifying[c.contents[0] := cid])
              && (Length(c) != 1 ==> s'.units == s.units && s'.justifying == s.justifying)
  {
    var pcid := |s.inputs| + |s.proof|;
    if pcid == s.clauseLimit then Failure("adding clause exceeds limit")
    else
      var cid := pcid + 1;
      var s1 := s.(proof := s.proof + [c]);
      if Length(c) == 0 then Success((cid, s1.(unsatisfiable := true)))
      else if Length(c) == 1 then
        var lit := c.contents[0];
        Success((cid, s1.(units := s.units + {lit}, justifying := s.justifying[lit := cid])))
      else Success((cid, s1))
  }

  /** get_clause: an input clause, else an auxiliary clause with that id,
      else a proof clause; any other id is fatal. */
  function GetClause(s: State, cid: int): (r: Result<Clause, string>)
    requires cid >= 1
    ensures cid <= |s.inputs| ==> r == Success(s.inputs[cid - 1])
    ensures cid > |s.inputs| && cid in s.aux ==> r == Success(s.aux[cid])
    ensures cid > |s.inputs| && cid !in s.aux && cid <= |s.inputs| + |s.proof| ==> r == Success(s.proof[cid - |s.inputs| - 1])
    ensures r.Failure? <==> cid > |s.inputs| + |s.proof| && cid !in s.aux
  {
    if cid <= |s.inputs| then Success(s.inputs[cid - 1])
    else if cid in s.aux then Success(s.aux[cid])
    else if cid <= |s.inputs| + |s.proof| then Success(s.proof[cid - |s.inputs| - 1])
    else Failure("no clause with this id")
  }

  /** A proof clause is found again under the id it was given, unless an
      auxiliary clause holds that id; the earlier clauses keep theirs. */
  lemma AddThenGet(s: State, c: Clause, id: int)
    requires AddProofClause(s, c).Success?
    requires 1 <= id
    ensures var (cid, s') := AddProofClause(s, c).value;
            && (cid !in s.aux ==> GetClause(s', cid) == Success(c))
            && (id < cid ==> GetClause(s', id) == GetClause(s, id))
  {
    var (cid, s') := AddProofClause(s, c).value;
    if id < cid && id > |s.inputs| && id !in s.aux {
      assert s'.proof[id - |s.inputs| - 1] == s.proof[id - |s.inputs| - 1];
    }
  }

  /** The validation modes: everything, unit propagation only, bounded
      unit propagation only, or the SAT solver only. */
  datatype Mode = ModeFull | ModeBcp | ModeBbcp | ModeSat

  datatype Dispatch = Dispatch(ncid: int, ranBcp: bool, bounded: bool, ranSat: bool)

  /** The solver choice of validate_literal: unit propagation (bounded in
      MODE_BBCP) unless in MODE_SAT or with a zero bcp_limit; the SAT
      solver when propagation found nothing, except in MODE_BCP and
      MODE_BBCP.  bcpResult and satResult are the clause ids they would
      produce (0 for failure). */
  function Choose(mode: Mode, bcpLimit: int, bcpResult: int, satResult: int): (d: Dispatch)
    ensures d.ranBcp <==> mode != ModeSat && bcpLimit > 0
    ensures d.ranBcp ==> (d.bounded <==> mode == ModeBbcp)
    ensures d.ranSat <==> (mode == ModeFull || mode == ModeSat) && (!d.ranBcp || bcpResult == 0)
    ensures mode == ModeBcp || mode == ModeBbcp ==> !d.ranSat
    ensures mode == ModeSat ==> !d.ranBcp
    ensures d.ncid == (if d.ranSat then satResult else if d.ranBcp then bcpResult else 0)
  {
    var ranBcp := mode != ModeSat && bcpLimit > 0;
    var n1 := if ranBcp then bcpResult else 0;
    var ranSat := n1 == 0 && mode != ModeBcp && mode != ModeBbcp;
    Dispatch(if ranSat then satResult else n1, ranBcp, mode == ModeBbcp, ranSat)
  }

  /** validate_literal(lit, mode): a literal with a justifying clause
      gives that id, any other unit gives 0 without work; otherwise the
      chosen solvers run inside a context (which pop_context undoes), and
      a nonzero id makes lit a derived unit, unless the proof clauses
      added meanwhile (provedUnits) already made it one. */
  function ValidateLiteral(c: ContextStack.Ctx, lit: int, mode: Mode, bcpLimit: int,
                           bcpResult: int, satResult: int, provedUnits: set<int>): (r: (int, ContextStack.Ctx))
    ensures lit in c.justifying ==> r == (c.justifying[lit], c)
    ensures lit !in c.justifying && lit in c.units ==> r == (0, c)
    ensures lit !in c.justifying && lit !in c.units ==>
              && r.0 == Choose(mode, bcpLimit, bcpResult, satResult).ncid
              && (r.0 != 0 && lit !in provedUnits ==>
                    r.1.units == c.units + {lit} && r.1.justifying == c.justifying[lit := r.0])
              && (r.0 == 0 || lit in provedUnits ==> r.1 == c)
  {
    if lit in c.justifying then (c.justifying[lit], c)
    else if lit in c.units then (0, c)
    else
      var ncid := Choose(mode, bcpLimit, bcpResult, satResult).ncid;
      if ncid != 0 && lit !in provedUnits then (ncid, ContextStack.PushDerived(c, lit, ncid).0)
      else (ncid, c)
  }

  /** Validation never asks the SAT solver in the propagation-only modes,
      and a literal already justified or a unit costs nothing. */
  lemma ValidationModes(c: ContextStack.Ctx, lit: int, bcpLimit: int, bcpResult: int, satResult: int, provedUnits: set<int>)
    requires lit !in c.justifying && lit !in c.units
    ensures ValidateLiteral(c, lit, ModeBcp, bcpLimit, bcpResult, satResult, provedUnits).0
            == (if bcpLimit > 0 then bcpResult else 0)
    ensures ValidateLiteral(c, lit, ModeBbcp, bcpLimit, bcpResult, satResult, provedUnits).0
            == (if bcpLimit > 0 then bcpResult else 0)
    ensures ValidateLiteral(c, lit, ModeSat, bcpLimit, bcpResult, satResult, provedUnits).0 == satResult
    ensures ValidateLiteral(c, lit, ModeFull, bcpLimit, bcpResult, satResult, provedUnits).0
            == (if bcpLimit > 0 && bcpResult != 0 then bcpResult else satResult)
  {
  }
}
