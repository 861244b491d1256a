/** Cnf_opt::unit_propagate: the live unit clauses are collected (a
    complementary pair of them is a conflict) and deleted; then each unit
    in turn satisfies the clauses holding it, which are deleted, and is
    removed from the clauses holding its negation, which are replaced by
    their residues: an empty residue is a conflict, a one-literal residue
    is a further unit, a longer one is added.  Finally the units on kept
    variables are set aside. */
module CnfPropagate {
  import opened Literals
  import opened Clauses
  import opened CnfOpt

  /** A live clause of one literal. */
  predicate IsUnit(c: Clause) {
    !c.tautology && |c.contents| == 1
  }

  /** The literals of the unit clauses of a vector, in order. */
  function UnitLits(cs: seq<Clause>): seq<int> {
    if cs == [] then []
    else
      var front := UnitLits(cs[..|cs| - 1]);
      var c := cs[|cs| - 1];
      if IsUnit(c) then front + [c.contents[0]] else front
  }

  /** The unit literals of a prefix of the vector start those of all. */
  lemma {:induction false} UnitLitsPrefix(cs: seq<Clause>, k: nat)
    requires k <= |cs|
    ensures UnitLits(cs[..k]) <= UnitLits(cs)
    decreases |cs|
  {
    if k < |cs| {
      var front := cs[..|cs| - 1];
      UnitLitsPrefix(front, k);
      assert front[..k] == cs[..k];
    } else {
      assert cs[..k] == cs;
    }
  }

  /** No live clause has exactly one literal. */
  predicate NoUnitClauses(db: Db) {
    forall j :: 0 <= j < |db.clauses| ==> !IsUnit(db.clauses[j])
  }

  /** Pushing a nonzero literal whose negation is not among the units
      keeps them free of complementary pairs. */
  lemma PushNoClash(units: seq<int>, lit: int)
    requires !Complementary(Elems(units)) && lit != 0 && -lit !in units
    ensures !Complementary(Elems(units + [lit]))
  {
    assert Elems(units + [lit]) == Elems(units) + {lit};
  }

  /** The literals of s on kept variables, in order. */
  function KeepLits(keep: set<int>, s: seq<int>): (r: seq<int>)
    ensures forall x :: x in r <==> x in s && Abs(x) in keep
    ensures |r| <= |s|
  {
    if s == [] then []
    else if Abs(s[0]) in keep then [s[0]] + KeepLits(keep, s[1..])
    else KeepLits(keep, s[1..])
  }

  // ---------------------------------------------------------------- collecting units

  /** The first loop of unit_propagate: every live unit clause, in vector
      order, has its literal recorded and is deleted, unless the negation
      of the literal is already recorded, which causes a conflict. */
  method CollectUnits(db: Db) returns (ok: bool, r: Db, units: seq<int>)
    requires Inv(db) && !db.conflict
    ensures ok <==> !Complementary(Elems(UnitLits(db.clauses)))
    ensures ok ==>
              && Inv(r) && !r.conflict && r.keep == db.keep && r.unitKeep == db.unitKeep
              && units == UnitLits(db.clauses) && NonzeroLits(units)
              && |r.clauses| == |db.clauses| && NoUnitClauses(r)
              && (forall j :: 0 <= j < |db.clauses| && IsUnit(db.clauses[j]) ==> !Live(r, j))
              && (forall j :: 0 <= j < |db.clauses| && !IsUnit(db.clauses[j]) ==> r.clauses[j] == db.clauses[j])
              && (forall lit :: Occ(r, lit) <= Occ(db, lit))
              && |LiveSet(r)| + |units| == |LiveSet(db)|
    ensures !ok ==> Conflicted(r, db.keep)
  {
    var cs := db.clauses;
    r, units := db, [];
    var k := 0;
    while k < |cs|
      invariant 0 <= k <= |cs|
      invariant Inv(r) && !r.conflict && r.keep == db.keep && r.unitKeep == db.unitKeep && |r.clauses| == |cs|
      invariant units == UnitLits(cs[..k])
      invariant NonzeroLits(units) && !Complementary(Elems(units))
      invariant forall j :: k <= j < |cs| ==> r.clauses[j] == cs[j]
      invariant forall j :: 0 <= j < k && IsUnit(cs[j]) ==> !Live(r, j)
      invariant forall j :: 0 <= j < k && !IsUnit(cs[j]) ==> r.clauses[j] == cs[j]
      invariant forall lit :: Occ(r, lit) <= Occ(db, lit)
      invariant |LiveSet(r)| + |units| == |LiveSet(db)|
    {
      UnitLitsSnoc(cs, k);
      if IsUnit(r.clauses[k]) {
        var lit := r.clauses[k].contents[0];
        if -lit in units {
          ConflictFound(cs, k, units, lit);
          ok, r := false, CauseConflict(r);
          return;
        }
        assert lit != 0 by {
          assert Canonical(r.clauses[k]);
        }
        PushNoClash(units, lit);
        units := units + [lit];
        r := DeleteClause(r, k);
      }
      k := k + 1;
    }
    assert cs[..k] == cs;
    ok := true;
    forall j | 0 <= j < |cs| ensures !IsUnit(r.clauses[j]) {
      if IsUnit(cs[j]) {
        assert !Live(r, j);
      }
    }
  }

  /** The unit literals of the first k + 1 clauses: those of the first k,
      then clause k's literal when it is a unit clause. */
  lemma UnitLitsSnoc(cs: seq<Clause>, k: nat)
    requires k < |cs|
    ensures UnitLits(cs[..k + 1]) == UnitLits(cs[..k]) + (if IsUnit(cs[k]) then [cs[k].contents[0]] else [])
  {
    assert cs[..k + 1][..k] == cs[..k];
  }

  /** A unit clause at position k whose negation is an earlier unit makes
      the unit literals of the whole vector complementary. */
  lemma ConflictFound(cs: seq<Clause>, k: nat, units: seq<int>, lit: int)
    requires k < |cs| && units == UnitLits(cs[..k]) && -lit in units
    requires IsUnit(cs[k]) && cs[k].contents[0] == lit
    ensures Complementary(Elems(UnitLits(cs)))
  {
    UnitLitsSnoc(cs, k);
    UnitLitsPrefix(cs, k + 1);
    PrefixClash(units, lit, UnitLits(cs));
  }

  /** A list starting with units and then lit, where -lit is among the
      units, holds a complementary pair. */
  lemma PrefixClash(units: seq<int>, lit: int, full: seq<int>)
    requires units + [lit] <= full && -lit in units
    ensures Complementary(Elems(full))
  {
    assert full[|units|] == lit;
    var j :| 0 <= j < |units| && units[j] == -lit;
    assert full[j] == -lit;
    assert lit in Elems(full) && -lit in Elems(full);
  }

  // ---------------------------------------------------------------- propagating one unit

  /** Propagation state with units[..pc] done: the database invariant,
      nonzero units with no complementary pair, no live unit clause, and
      no live clause mentioning the variable of a propagated unit. */
  ghost predicate Propagating(db: Db, units: seq<int>, pc: nat) {
    && Inv(db) && !db.conflict && pc <= |units|
    && NonzeroLits(units) && !Complementary(Elems(units))
    && NoUnitClauses(db)
    && forall j :: 0 <= j < pc ==> Absent(db, units[j])
  }

  /** The residue of a clause under unit ulit: its literals but -ulit. */
  function Reduced(c: Clause, ulit: int): seq<int> {
    Without(c.contents, -ulit)
  }

  /** The residue is what the clause still demands once ulit holds: an
      assignment consistent on negation that makes ulit true and satisfies
      the clause satisfies the residue. */
  lemma ReducedSound(c: Clause, ulit: int, a: int -> bool)
    requires ulit != 0 && a(ulit) && a(-ulit) == !a(ulit)
    requires exists x :: x in c.contents && a(x)
    ensures exists x :: x in Reduced(c, ulit) && a(x)
  {
    var x :| x in c.contents && a(x);
    assert x != -ulit;
    assert x in Reduced(c, ulit);
  }

  /** What became of a clause holding -ulit: a one-literal residue is a
      unit, a longer residue is a live clause. */
  ghost predicate ResidueKept(db: Db, units: seq<int>, c: Clause, ulit: int) {
    var res := Reduced(c, ulit);
    && (|res| == 1 ==> res[0] in units)
    && (|res| >= 2 ==> Holds(db, Elems(res)))
  }

  /** The body of the loop over the clauses holding -ulit, for clause id:
      an empty residue is a conflict, a one-literal residue is pushed as a
      unit (a conflict when its negation is a unit), a longer one is
      added. */
  function NegStep(db: Db, units: seq<int>, ulit: int, id: nat): (bool, Db, seq<int>)
    requires Inv(db) && Live(db, id)
  {
    var res := Reduced(db.clauses[id], ulit);
    if |res| == 0 then (false, CauseConflict(db), units)
    else if |res| == 1 then
      var units' := units + [res[0]];
      if -res[0] in units' then (false, CauseConflict(db), units') else (true, db, units')
    else
      var (_, d) := AddClause(db, FromLiterals(res));
      (true, d, units)
  }

  /** The loop over the clauses negs holding -ulit, after i of them: the
      vector has only grown, the index of ulit and -ulit is untouched, no
      literal is new, the live clauses and units together have grown by
      at most i, and each visited clause's residue is kept. */
  ghost predicate Midway(db0: Db, units0: seq<int>, pc: nat, negs: seq<nat>, i: nat, db: Db, units: seq<int>)
    requires pc < |units0|
  {
    var ulit := units0[pc];
    && Propagating(db, units, pc) && units0 <= units
    && i <= |negs|
    && db.keep == db0.keep && db.unitKeep == db0.unitKeep
    && db0.clauses <= db.clauses
    && Occ(db, ulit) == Occ(db0, ulit) && Occ(db, -ulit) == Occ(db0, -ulit)
    && NoNewLits(db0, db)
    && |LiveSet(db)| + |units| <= |LiveSet(db0)| + |units0| + i
    && forall j :: 0 <= j < i ==> negs[j] < |db0.clauses| && ResidueKept(db, units, db0.clauses[negs[j]], ulit)
  }

  /** The clause being reduced: live, canonical, holding -ulit and not
      ulit; its residue is strictly ascending, nonzero and free of ulit. */
  lemma ReducedFacts(db: Db, id: nat, ulit: int)
    requires Inv(db) && id in Occ(db, -ulit)
    ensures Live(db, id) && Canonical(db.clauses[id])
    ensures -ulit in db.clauses[id].contents && ulit !in db.clauses[id].contents
    ensures var res := Reduced(db.clauses[id], ulit);
            && AbsStrictlyAscending(res) && NonzeroLits(res)
            && (forall l :: l in res ==> l in db.clauses[id].contents && -l !in res)
            && ulit !in res && -ulit !in res
  {
    var c := db.clauses[id];
    CanonicalDistinct(c);
    WithoutAscending(c.contents, -ulit);
  }

  /** Two different literals need at least two places. */
  lemma TwoPlaces(s: seq<int>, t: seq<int>)
    requires |t| >= 2 && t[0] != t[1] && Elems(s) == Elems(t)
    ensures |s| >= 2
  {
    assert t[0] in Elems(s) && t[1] in Elems(s);
    var i :| 0 <= i < |s| && s[i] == t[0];
    var j :| 0 <= j < |s| && s[j] == t[1];
    assert i != j;
  }

  /** Adding the residue of a clause holding -ulit: the vector only grows,
      the residue's literals become a live clause, only the residue's
      literals gain an index entry, and no unit clause appears. */
  lemma AddResidue(db: Db, id: nat, ulit: int)
    requires Inv(db) && id in Occ(db, -ulit) && NoUnitClauses(db)
    requires |Reduced(db.clauses[id], ulit)| >= 2
    ensures var res := Reduced(db.clauses[id], ulit);
            var d := AddClause(db, FromLiterals(res)).1;
            && Inv(d) && d.conflict == db.conflict && d.keep == db.keep && d.unitKeep == db.unitKeep
            && NoUnitClauses(d)
            && |LiveSet(d)| <= |LiveSet(db)| + 1
            && db.clauses <= d.clauses
            && Holds(d, Elems(res))
            && (forall lit :: lit in res ==> Occ(db, lit) != {})
            && (forall lit :: lit !in res ==> Occ(d, lit) == Occ(db, lit))
            && ulit !in res && -ulit !in res
  {
    ReducedFacts(db, id, ulit);
    var c := db.clauses[id];
    var res := Reduced(c, ulit);
    var f := FromLiterals(res);
    CopyCanonized(f);
    var n := Canonize(Copy(f));
    assert !Complementary(Elems(res));
    var (added, d) := AddClause(db, f);
    assert Abs(res[0]) < Abs(res[1]);
    assert Holds(d, Elems(res)) by {
      if added {
        assert d.clauses[|db.clauses|] == n;
      } else {
        var w :| 0 <= w < |db.clauses| && !db.clauses[w].tautology && db.clauses[w].contents == n.contents;
        assert d.clauses[w] == db.clauses[w];
      }
    }
    forall lit | lit in res ensures Occ(db, lit) != {} {
      assert id in Occ(db, lit);
    }
    forall j | 0 <= j < |d.clauses| ensures !IsUnit(d.clauses[j]) {
      if j < |db.clauses| {
        assert d.clauses[j] == db.clauses[j];
      } else {
        TwoPlaces(n.contents, res);
      }
    }
  }

  /** A residue of two or more literals is added and the loop goes on. */
  lemma NegStepAdds(db0: Db, units0: seq<int>, pc: nat, negs: seq<nat>, i: nat, db: Db, units: seq<int>)
    requires pc < |units0| && Midway(db0, units0, pc, negs, i, db, units) && i < |negs|
    requires negs[i] < |db0.clauses| && negs[i] in Occ(db, -units0[pc])
    requires |Reduced(db.clauses[negs[i]], units0[pc])| >= 2
    ensures var (ok, d, u) := NegStep(db, units, units0[pc], negs[i]);
            ok && Midway(db0, units0, pc, negs, i + 1, d, u)
  {
    var ulit := units0[pc];
    var id := negs[i];
    AddResidue(db, id, ulit);
    var res := Reduced(db.clauses[id], ulit);
    var d := AddClause(db, FromLiterals(res)).1;
    assert NegStep(db, units, ulit, id) == (true, d, units);
    assert db.clauses[id] == db0.clauses[id];
    MidwayGrows(db0, units0, pc, negs, i, db, units, res, d);
  }

  /** The loop invariant survives the addition of the residue res of
      clause negs[i] as a live clause d. */
  lemma MidwayGrows(db0: Db, units0: seq<int>, pc: nat, negs: seq<nat>, i: nat, db: Db, units: seq<int>, res: seq<int>, d: Db)
    requires pc < |units0| && Midway(db0, units0, pc, negs, i, db, units) && i < |negs|
    requires negs[i] < |db0.clauses| && res == Reduced(db0.clauses[negs[i]], units0[pc]) && |res| >= 2
    requires Inv(d) && d.conflict == db.conflict && d.keep == db.keep && d.unitKeep == db.unitKeep
    requires NoUnitClauses(d) && |LiveSet(d)| <= |LiveSet(db)| + 1 && db.clauses <= d.clauses
    requires Holds(d, Elems(res))
    requires forall lit :: lit in res ==> Occ(db, lit) != {}
    requires forall lit :: lit !in res ==> Occ(d, lit) == Occ(db, lit)
    requires units0[pc] !in res && -units0[pc] !in res
    ensures Midway(db0, units0, pc, negs, i + 1, d, units)
  {
    var ulit := units0[pc];
    forall j | 0 <= j < i ensures ResidueKept(d, units, db0.clauses[negs[j]], ulit) {
      var rj := Reduced(db0.clauses[negs[j]], ulit);
      if |rj| >= 2 {
        var w :| 0 <= w < |db.clauses| && !db.clauses[w].tautology && Elems(db.clauses[w].contents) == Elems(rj);
        assert d.clauses[w] == db.clauses[w];
      }
    }
    forall j | 0 <= j < pc ensures Absent(d, units[j]) {
      assert Absent(db, units[j]);
    }
    forall lit | Occ(d, lit) != {} ensures Occ(db0, lit) != {} {
      if lit !in res {
        assert Occ(db, lit) != {};
      }
    }
  }

  /** A one-literal residue is pushed as a unit; the loop goes on unless
      the unit's negation is a unit too. */
  lemma NegStepPushes(db0: Db, units0: seq<int>, pc: nat, negs: seq<nat>, i: nat, db: Db, units: seq<int>)
    requires pc < |units0| && Midway(db0, units0, pc, negs, i, db, units) && i < |negs|
    requires negs[i] < |db0.clauses| && negs[i] in Occ(db, -units0[pc])
    requires |Reduced(db.clauses[negs[i]], units0[pc])| == 1
    ensures var (ok, d, u) := NegStep(db, units, units0[pc], negs[i]);
            && (ok ==> Midway(db0, units0, pc, negs, i + 1, d, u))
            && (!ok ==> Conflicted(d, db0.keep))
  {
    var ulit := units0[pc];
    var id := negs[i];
    ReducedFacts(db, id, ulit);
    assert db.clauses[id] == db0.clauses[id];
    var res := Reduced(db.clauses[id], ulit);
    var units' := units + [res[0]];
    if -res[0] !in units' {
      PushNoClash(units, res[0]);
      forall j | 0 <= j < pc ensures Absent(db, units'[j]) {
        assert units'[j] == units[j];
      }
      forall j | 0 <= j < i ensures ResidueKept(db, units', db0.clauses[negs[j]], ulit) {
        assert ResidueKept(db, units, db0.clauses[negs[j]], ulit);
      }
    }
  }

  /** One turn of the loop over the clauses holding -ulit keeps the loop
      invariant, or ends in a conflict. */
  lemma NegStepKeeps(db0: Db, units0: seq<int>, pc: nat, negs: seq<nat>, i: nat, db: Db, units: seq<int>)
    requires pc < |units0| && Midway(db0, units0, pc, negs, i, db, units) && i < |negs|
    requires negs[i] in Occ(db0, -units0[pc])
    ensures Live(db, negs[i])
    ensures var (ok, d, u) := NegStep(db, units, units0[pc], negs[i]);
            && (ok ==> Midway(db0, units0, pc, negs, i + 1, d, u))
            && (!ok ==> Conflicted(d, db0.keep))
  {
    assert negs[i] in Occ(db, -units0[pc]);
    var n := |Reduced(db.clauses[negs[i]], units0[pc])|;
    if n >= 2 {
      NegStepAdds(db0, units0, pc, negs, i, db, units);
    } else if n == 1 {
      NegStepPushes(db0, units0, pc, negs, i, db, units);
    }
  }

  /** What one turn of the propagation loop achieves for unit units[pc]:
      the propagation state moves on by one, the units only grow, the
      count of live clauses and units does not grow, no literal is new,
      every clause holding -units[pc] has its residue kept, and every
      clause without the unit's variable is untouched. */
  ghost predicate Propagated(db: Db, units: seq<int>, pc: nat, r: Db, units': seq<int>)
    requires pc < |units|
  {
    TurnState(db, units, pc, r, units') && TurnClauses(db, units[pc], r, units')
  }

  ghost predicate TurnState(db: Db, units: seq<int>, pc: nat, r: Db, units': seq<int>) {
    && Propagating(r, units', pc + 1) && units <= units'
    && r.keep == db.keep && r.unitKeep == db.unitKeep
    && |db.clauses| <= |r.clauses|
    && |LiveSet(r)| + |units'| <= |LiveSet(db)| + |units|
    && NoNewLits(db, r)
  }

  ghost predicate TurnClauses(db: Db, ulit: int, r: Db, units': seq<int>) {
    && |db.clauses| <= |r.clauses|
    && (forall id :: id in Occ(db, -ulit) ==> ResidueKept(r, units', db.clauses[id], ulit))
    && (forall j :: 0 <= j < |db.clauses| && ulit !in db.clauses[j].contents && -ulit !in db.clauses[j].contents
                   ==> r.clauses[j] == db.clauses[j])
  }

  /** After the deletions no live clause mentions ulit's variable or
      those of the earlier units, and no unit clause is live. */
  lemma FinishPropagating(mid: Db, u: seq<int>, pc: nat, ids: seq<nat>, r: Db)
    requires Propagating(mid, u, pc) && pc < |u|
    requires forall j :: j in Occ(mid, u[pc]) || j in Occ(mid, -u[pc]) ==> j in IdSet(ids)
    requires DeletedFrom(mid, ids, r)
    ensures Propagating(r, u, pc + 1)
  {
    forall j | 0 <= j < |r.clauses| ensures !IsUnit(r.clauses[j]) {
      if j in ids {
        var k :| 0 <= k < |ids| && ids[k] == j;
      } else {
        assert r.clauses[j] == mid.clauses[j];
      }
    }
    forall j | 0 <= j < pc + 1 ensures Absent(r, u[j]) {
      if j < pc {
        assert Absent(mid, u[j]);
      }
    }
  }

  /** A residue of two or more literals, kept as a live clause before the
      deletions, survives them: it holds neither ulit nor -ulit. */
  lemma FinishResidue(db0: Db, ulit: int, id: nat, mid: Db, ids: seq<nat>, r: Db)
    requires Inv(db0) && id in Occ(db0, -ulit)
    requires Holds(mid, Elems(Reduced(db0.clauses[id], ulit)))
    requires forall j :: j in IdSet(ids) ==> j in Occ(mid, ulit) || j in Occ(mid, -ulit)
    requires |r.clauses| == |mid.clauses|
    requires forall j :: 0 <= j < |mid.clauses| && j !in ids ==> r.clauses[j] == mid.clauses[j]
    ensures Holds(r, Elems(Reduced(db0.clauses[id], ulit)))
  {
    var res := Reduced(db0.clauses[id], ulit);
    ReducedFacts(db0, id, ulit);
    var w :| 0 <= w < |mid.clauses| && !mid.clauses[w].tautology && Elems(mid.clauses[w].contents) == Elems(res);
    assert ulit !in Elems(res) && -ulit !in Elems(res);
    assert w !in Occ(mid, ulit) && w !in Occ(mid, -ulit);
    assert w !in IdSet(ids);
    assert r.clauses[w] == mid.clauses[w];
  }

  /** The end of one turn of the propagation loop, once every clause
      holding -units0[pc] has been reduced: the clauses holding the unit
      or its negation are deleted. */
  lemma FinishTurn(db0: Db, units0: seq<int>, pc: nat, negs: seq<nat>, mid: Db, u: seq<int>, ids: seq<nat>, r: Db)
    requires pc < |units0| && Midway(db0, units0, pc, negs, |negs|, mid, u)
    requires negs == Ascending(Occ(db0, -units0[pc]), |db0.clauses|)
    requires forall j :: j in IdSet(ids) <==> j in Occ(db0, units0[pc]) || j in Occ(db0, -units0[pc])
    requires |ids| >= |negs|
    requires DeletedFrom(mid, ids, r)
    ensures TurnState(db0, units0, pc, r, u)
  {
    FinishPropagating(mid, u, pc, ids, r);
    assert forall lit :: Occ(r, lit) <= Occ(mid, lit);
  }

  /** Every residue kept before the deletions is kept after them. */
  lemma FinishResidues(db0: Db, ulit: int, negs: seq<nat>, mid: Db, u: seq<int>, ids: seq<nat>, r: Db)
    requires Inv(db0) && negs == Ascending(Occ(db0, -ulit), |db0.clauses|)
    requires forall j :: 0 <= j < |negs| ==> negs[j] < |db0.clauses| && ResidueKept(mid, u, db0.clauses[negs[j]], ulit)
    requires forall j :: j in IdSet(ids) ==> j in Occ(mid, ulit) || j in Occ(mid, -ulit)
    requires |r.clauses| == |mid.clauses|
    requires forall j :: 0 <= j < |mid.clauses| && j !in ids ==> r.clauses[j] == mid.clauses[j]
    ensures forall id :: id in Occ(db0, -ulit) ==> ResidueKept(r, u, db0.clauses[id], ulit)
  {
    forall id | id in Occ(db0, -ulit) ensures ResidueKept(r, u, db0.clauses[id], ulit) {
      var k :| 0 <= k < |negs| && negs[k] == id;
      assert ResidueKept(mid, u, db0.clauses[id], ulit);
      if |Reduced(db0.clauses[id], ulit)| >= 2 {
        FinishResidue(db0, ulit, id, mid, ids, r);
      }
    }
  }

  /** The clauses without ulit's variable are not deleted. */
  lemma FinishSurvivors(db0: Db, ulit: int, mid: Db, ids: seq<nat>, r: Db)
    requires db0.clauses <= mid.clauses
    requires forall j :: j in IdSet(ids) ==> j in Occ(db0, ulit) || j in Occ(db0, -ulit)
    requires |r.clauses| == |mid.clauses|
    requires forall j :: 0 <= j < |mid.clauses| && j !in ids ==> r.clauses[j] == mid.clauses[j]
    ensures forall j :: 0 <= j < |db0.clauses| && ulit !in db0.clauses[j].contents && -ulit !in db0.clauses[j].contents
                        ==> r.clauses[j] == db0.clauses[j]
  {
    forall j | 0 <= j < |db0.clauses| && ulit !in db0.clauses[j].contents && -ulit !in db0.clauses[j].contents
      ensures r.clauses[j] == db0.clauses[j]
    {
      assert j !in IdSet(ids);
      assert mid.clauses[j] == db0.clauses[j];
    }
  }

  /** One turn of the propagation loop: the clauses holding the unit
      units[pc] are deleted, those holding its negation are replaced by
      their residues. */
  method PropagateOne(db: Db, units: seq<int>, pc: nat) returns (ok: bool, r: Db, units': seq<int>)
    requires Propagating(db, units, pc) && pc < |units|
    ensures ok ==> Propagated(db, units, pc, r, units')
    ensures !ok ==> Conflicted(r, db.keep)
  {
    var ulit := units[pc];
    var dl := Ascending(Occ(db, ulit), |db.clauses|);
    var negs := Ascending(Occ(db, -ulit), |db.clauses|);
    r, units' := db, units;
    var i := 0;
    while i < |negs|
      invariant Midway(db, units, pc, negs, i, r, units')
    {
      assert negs[i] in negs;
      NegStepKeeps(db, units, pc, negs, i, r, units');
      var step := NegStep(r, units', ulit, negs[i]);
      if !step.0 {
        return false, step.1, step.2;
      }
      r, units' := step.1, step.2;
      i := i + 1;
    }
    var mid := r;
    PhasesLive(db, ulit, mid, dl, negs);
    PhasesDistinct(db, ulit, dl, negs);
    PhasesIds(db, ulit, dl, negs);
    r := DeleteAll(mid, dl + negs);
    FinishTurn(db, units, pc, negs, mid, units', dl + negs, r);
    FinishResidues(db, ulit, negs, mid, units', dl + negs, r);
    FinishSurvivors(db, ulit, mid, dl + negs, r);
    ok := true;
  }

  // ---------------------------------------------------------------- unit_propagate

  /** unit_propagate: with no conflict, the unit clauses are collected
      and propagated to a fixed point, and the kept ones are set aside;
      the result says whether propagation found units beyond the unit
      clauses, and the units are returned with it. */
  method UnitPropagate(db: Db) returns (progress: bool, r: Db, units: seq<int>)
    requires Inv(db)
    ensures Inv(r) && r.keep == db.keep
    ensures db.conflict ==> !progress && r == db && units == []
    ensures r.conflict && !db.conflict ==> Conflicted(r, db.keep) && !progress
    ensures !db.conflict && Complementary(Elems(UnitLits(db.clauses))) ==> r.conflict
    ensures !r.conflict ==>
              && UnitLits(db.clauses) <= units
              && (progress <==> |units| > |UnitLits(db.clauses)|)
              && NonzeroLits(units) && !Complementary(Elems(units))
              && (forall j :: 0 <= j < |units| ==> Absent(r, units[j]))
              && NoUnitClauses(r) && NoNewLits(db, r)
              && r.unitKeep == db.unitKeep + KeepLits(db.keep, units)
  {
    if db.conflict {
      return false, db, [];
    }
    var ok;
    ok, r, units := CollectUnits(db);
    if !ok {
      return false, r, units;
    }
    var u0 := units;
    var pc := 0;
    while pc < |units|
      invariant Propagating(r, units, pc)
      invariant u0 == UnitLits(db.clauses) && u0 <= units
      invariant r.keep == db.keep && r.unitKeep == db.unitKeep
      invariant NoNewLits(db, r)
      decreases |LiveSet(r)| + |units| - pc
    {
      var ok', r', units'' := PropagateOne(r, units, pc);
      if !ok' {
        return false, r', units'';
      }
      r, units := r', units'';
      pc := pc + 1;
    }
    var done := r;
    r := done.(unitKeep := done.unitKeep + KeepLits(done.keep, units));
    assert forall lit :: Occ(r, lit) == Occ(done, lit);
    progress := |units| > |u0|;
  }
}
