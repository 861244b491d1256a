/** Cnf_opt::ordered_bve: bounded variable elimination in variable order.
    A variable that is not kept and occurs in few enough clauses is
    eliminated: every resolvent of a clause holding it with a clause
    holding its negation is added, the clauses holding either phase are
    deleted, and the scan steps back to the smallest unkept variable
    occurring positively in a deleted negative clause, whose degree may
    have dropped. */
module CnfEliminate {
  import opened Literals
  import opened Clauses
  import opened CnfOpt

  /** The literals occurring in live clauses. */
  function LitsOf(db: Db): set<int> {
    set i, k | 0 <= i < |db.clauses| && !db.clauses[i].tautology && 0 <= k < |db.clauses[i].contents| :: db.clauses[i].contents[k]
  }

  /** A literal occurs in a live clause exactly when its index entry is
      not empty. */
  lemma LitsOfOcc(db: Db, lit: int)
    ensures lit in LitsOf(db) <==> Occ(db, lit) != {}
  {
    if lit in LitsOf(db) {
      var i, k :| 0 <= i < |db.clauses| && !db.clauses[i].tautology && 0 <= k < |db.clauses[i].contents| && db.clauses[i].contents[k] == lit;
      assert i in Occ(db, lit);
    }
    if Occ(db, lit) != {} {
      var i :| i in Occ(db, lit);
      var k :| 0 <= k < |db.clauses[i].contents| && db.clauses[i].contents[k] == lit;
      assert lit in LitsOf(db);
    }
  }

  /** A step that brings in no literal and removes v leaves fewer
      literals: the measure that makes the scan terminate although it
      steps back. */
  lemma FewerLits(a: Db, b: Db, v: int)
    requires NoNewLits(a, b) && Occ(a, v) != {} && Occ(b, v) == {}
    ensures LitsOf(b) < LitsOf(a)
  {
    forall lit | lit in LitsOf(b) ensures lit in LitsOf(a) {
      LitsOfOcc(b, lit);
      LitsOfOcc(a, lit);
    }
    LitsOfOcc(a, v);
    LitsOfOcc(b, v);
  }

  /** The budget of added clauses for a degree bound d: d*d - 2*d. */
  function MaxAdded(d: int): int {
    d * d - 2 * d
  }

  /** The test that decides elimination: the variable is not kept, occurs
      in some live clause, and the number of resolvents less the number of
      clauses deleted stays within the budget. */
  predicate Eliminable(db: Db, v: int, maxDegree: int) {
    var pos := |Occ(db, v)|;
    var neg := |Occ(db, -v)|;
    && !IsKeepLiteral(db, v)
    && (pos != 0 || neg != 0)
    && pos * neg - (pos + neg) <= MaxAdded(maxDegree)
  }

  // ---------------------------------------------------------------- resolvents

  /** The pairs of a clause of ps with a clause of ns, in the order of
      the two nested loops: ps outermost. */
  function Pairs(ps: seq<nat>, ns: seq<nat>): (r: seq<(nat, nat)>)
    ensures forall p, n :: (p, n) in r <==> p in ps && n in ns
    ensures forall k :: 0 <= k < |r| ==> r[k].0 in ps && r[k].1 in ns
    decreases |ps|
  {
    if ps == [] then []
    else
      var row := seq(|ns|, k requires 0 <= k < |ns| => (ps[0], ns[k]));
      var rest := Pairs(ps[1..], ns);
      assert forall p :: p in ps ==> p == ps[0] || p in ps[1..];
      assert forall p, n :: (p, n) in row + rest <==> p in ps && n in ns by {
        forall p, n ensures (p, n) in row <==> p == ps[0] && n in ns {
          if p == ps[0] && n in ns {
            var k :| 0 <= k < |ns| && ns[k] == n;
            assert row[k] == (p, n);
          }
          if (p, n) in row {
            var k :| 0 <= k < |row| && row[k] == (p, n);
            assert ns[k] == n;
          }
        }
      }
      row + rest
  }

  /** The resolvent on v of each pair of clauses. */
  function Resolvents(db: Db, v: int, pairs: seq<(nat, nat)>): (r: seq<Clause>)
    requires forall k :: 0 <= k < |pairs| ==> pairs[k].0 < |db.clauses| && pairs[k].1 < |db.clauses|
    ensures |r| == |pairs|
    ensures forall k :: 0 <= k < |pairs| ==> r[k] == Resolve(v, db.clauses[pairs[k].0], db.clauses[pairs[k].1])
  {
    seq(|pairs|, k requires 0 <= k < |pairs| => Resolve(v, db.clauses[pairs[k].0], db.clauses[pairs[k].1]))
  }

  /** A resolvent of a live clause holding v with a live clause holding
      -v: a proper clause over literals already present, without v or
      -v. */
  lemma ResolventFacts(db: Db, v: int, p: nat, n: nat)
    requires Inv(db) && p in Occ(db, v) && n in Occ(db, -v)
    ensures var c := Resolve(v, db.clauses[p], db.clauses[n]);
            && Proper(c)
            && v !in c.contents && -v !in c.contents
            && forall x :: x in c.contents ==> Occ(db, x) != {}
  {
    var cp := db.clauses[p];
    var cn := db.clauses[n];
    CanonicalDistinct(cp);
    CanonicalDistinct(cn);
    assert Visible(cp) == cp.contents && Visible(cn) == cn.contents;
    var c := Resolve(v, cp, cn);
    forall i | 0 <= i < |c.contents| ensures c.contents[i] != 0 {
      assert c.contents[i] in c.contents;
      if c.contents[i] in cp.contents {
        var j :| 0 <= j < |cp.contents| && cp.contents[j] == c.contents[i];
      } else {
        var j :| 0 <= j < |cn.contents| && cn.contents[j] == c.contents[i];
      }
    }
    forall x | x in c.contents ensures Occ(db, x) != {} {
      if x in cp.contents {
        assert p in Occ(db, x);
      } else {
        assert n in Occ(db, x);
      }
    }
  }

  // ---------------------------------------------------------------- adding them

  /** add_clause on each clause of cs, in turn. */
  function AddAll(db: Db, cs: seq<Clause>): (r: Db)
    requires Inv(db) && forall k :: 0 <= k < |cs| ==> Proper(cs[k])
    ensures Inv(r) && db.clauses <= r.clauses
    ensures r.conflict == db.conflict && r.keep == db.keep && r.unitKeep == db.unitKeep
    ensures forall k :: 0 <= k < |cs| && !Complementary(Elems(cs[k].contents)) && !cs[k].canonized ==> Holds(r, Elems(cs[k].contents))
    ensures forall i :: |db.clauses| <= i < |r.clauses| ==>
              !r.clauses[i].tautology && exists k :: 0 <= k < |cs| && Elems(r.clauses[i].contents) == Elems(cs[k].contents)
    ensures forall lit :: Occ(db, lit) <= Occ(r, lit)
    ensures forall lit :: (forall k :: 0 <= k < |cs| ==> lit !in cs[k].contents) ==> Occ(r, lit) == Occ(db, lit)
    decreases |cs|
  {
    if cs == [] then db
    else
      var (_, d) := AddClause(db, cs[0]);
      var rest := cs[1..];
      assert forall k :: 1 <= k < |cs| ==> cs[k] == rest[k - 1];
      var r := AddAll(d, rest);
      AddAllStep(db, cs, d, r);
      r
  }

  /** add_clause on the first clause, then the rest. */
  lemma AddAllStep(db: Db, cs: seq<Clause>, d: Db, r: Db)
    requires Inv(db) && cs != [] && forall k :: 0 <= k < |cs| ==> Proper(cs[k])
    requires d == AddClause(db, cs[0]).1
    requires db.clauses <= d.clauses && d.clauses <= r.clauses
    requires forall k :: 0 <= k < |cs[1..]| && !Complementary(Elems(cs[1..][k].contents)) && !cs[1..][k].canonized ==> Holds(r, Elems(cs[1..][k].contents))
    requires forall i :: |d.clauses| <= i < |r.clauses| ==>
               !r.clauses[i].tautology && exists k :: 0 <= k < |cs[1..]| && Elems(r.clauses[i].contents) == Elems(cs[1..][k].contents)
    requires forall lit :: Occ(d, lit) <= Occ(r, lit)
    requires forall lit :: (forall k :: 0 <= k < |cs[1..]| ==> lit !in cs[1..][k].contents) ==> Occ(r, lit) == Occ(d, lit)
    ensures forall k :: 0 <= k < |cs| && !Complementary(Elems(cs[k].contents)) && !cs[k].canonized ==> Holds(r, Elems(cs[k].contents))
    ensures forall i :: |db.clauses| <= i < |r.clauses| ==>
              !r.clauses[i].tautology && exists k :: 0 <= k < |cs| && Elems(r.clauses[i].contents) == Elems(cs[k].contents)
    ensures forall lit :: Occ(db, lit) <= Occ(r, lit)
    ensures forall lit :: (forall k :: 0 <= k < |cs| ==> lit !in cs[k].contents) ==> Occ(r, lit) == Occ(db, lit)
  {
    var c := cs[0];
    var rest := cs[1..];
    CopyCanonized(c);
    var n := Canonize(Copy(c));
    assert forall k :: 1 <= k < |cs| ==> cs[k] == rest[k - 1];
    forall k | 0 <= k < |cs| && !Complementary(Elems(cs[k].contents)) && !cs[k].canonized
      ensures Holds(r, Elems(cs[k].contents))
    {
      if k == 0 {
        var w: nat;
        if |d.clauses| > |db.clauses| {
          w := |db.clauses|;
        } else {
          w :| 0 <= w < |db.clauses| && !db.clauses[w].tautology && db.clauses[w].contents == n.contents;
        }
        assert r.clauses[w] == d.clauses[w];
      } else {
        assert cs[k] == rest[k - 1];
      }
    }
    forall i | |db.clauses| <= i < |r.clauses|
      ensures !r.clauses[i].tautology && exists k :: 0 <= k < |cs| && Elems(r.clauses[i].contents) == Elems(cs[k].contents)
    {
      if i < |d.clauses| {
        assert r.clauses[i] == d.clauses[i] == n;
      } else {
        var k :| 0 <= k < |rest| && Elems(r.clauses[i].contents) == Elems(rest[k].contents);
        assert rest[k] == cs[k + 1];
      }
    }
    forall lit | forall k :: 0 <= k < |cs| ==> lit !in cs[k].contents ensures Occ(r, lit) == Occ(db, lit) {
      assert lit !in cs[0].contents;
      assert forall k :: 0 <= k < |rest| ==> lit !in rest[k].contents;
    }
  }

  // ---------------------------------------------------------------- stepping back

  /** The scan of one deleted negative clause: each unkept variable
      occurring positively below next becomes next. */
  function Rewind(db: Db, lits: seq<int>, next: int): (r: int)
    ensures r <= next
    ensures r == next || (r in lits && r > 0 && !IsKeepLiteral(db, r))
    ensures forall lit :: lit in lits && 0 < lit < next && !IsKeepLiteral(db, lit) ==> r <= lit
  {
    if lits == [] then next
    else
      var lit := lits[0];
      var next' := if lit > 0 && lit < next && !IsKeepLiteral(db, lit) then lit else next;
      assert forall l :: l in lits ==> l == lit || l in lits[1..];
      Rewind(db, lits[1..], next')
  }

  /** The scan over every deleted negative clause: the smallest unkept
      variable occurring positively in one of them, when it is below
      next. */
  function NextEvar(db: Db, ns: seq<nat>, next: int): (r: int)
    requires forall k :: 0 <= k < |ns| ==> ns[k] < |db.clauses|
    ensures r <= next
    ensures r == next || exists k :: 0 <= k < |ns| && r in db.clauses[ns[k]].contents && r > 0 && !IsKeepLiteral(db, r)
    ensures forall k, lit :: 0 <= k < |ns| && lit in db.clauses[ns[k]].contents && 0 < lit < next && !IsKeepLiteral(db, lit) ==> r <= lit
    decreases |ns|
  {
    if ns == [] then next
    else
      var next' := Rewind(db, db.clauses[ns[0]].contents, next);
      var r := NextEvar(db, ns[1..], next');
      assert forall k :: 1 <= k < |ns| ==> ns[k] == ns[1..][k - 1];
      assert r == next || exists k :: 0 <= k < |ns| && r in db.clauses[ns[k]].contents && r > 0 && !IsKeepLiteral(db, r) by {
        if r != next && r != next' {
          var k :| 0 <= k < |ns[1..]| && r in db.clauses[ns[1..][k]].contents && r > 0 && !IsKeepLiteral(db, r);
          assert ns[1..][k] == ns[k + 1];
        }
      }
      r
  }

  // ---------------------------------------------------------------- one elimination

  /** cs holds the resolvent on v of every clause holding v with every
      clause holding -v, and nothing else. */
  ghost predicate ResolventCover(db: Db, v: int, cs: seq<Clause>) {
    && (forall p, n :: p in Occ(db, v) && n in Occ(db, -v) ==>
          exists k :: 0 <= k < |cs| && cs[k] == Resolve(v, db.clauses[p], db.clauses[n]))
    && (forall k :: 0 <= k < |cs| ==> IsResolvent(db, v, cs[k]))
  }

  /** c is the resolvent on v of a clause holding v with a clause holding
      -v. */
  ghost predicate IsResolvent(db: Db, v: int, c: Clause) {
    exists p, n :: p in Occ(db, v) && n in Occ(db, -v) && c == Resolve(v, db.clauses[p], db.clauses[n])
  }

  /** Each clause of cs is proper, not canonized, without v or -v, and
      over literals already present. */
  ghost predicate ResolventClean(db: Db, v: int, cs: seq<Clause>) {
    && (forall k :: 0 <= k < |cs| ==> Proper(cs[k]) && !cs[k].canonized && v !in cs[k].contents && -v !in cs[k].contents)
    && (forall k, x :: 0 <= k < |cs| && x in cs[k].contents ==> Occ(db, x) != {})
  }

  /** The resolvents the two nested loops of ordered_bve produce, in
      their order. */
  function AllResolvents(db: Db, v: int): (cs: seq<Clause>)
    requires Inv(db)
    ensures ResolventCover(db, v, cs) && ResolventClean(db, v, cs)
  {
    var ps := Ascending(Occ(db, v), |db.clauses|);
    var ns := Ascending(Occ(db, -v), |db.clauses|);
    var pairs := Pairs(ps, ns);
    var cs := Resolvents(db, v, pairs);
    ResolventsCover(db, v, ps, ns, pairs, cs);
    ResolventsClean(db, v, pairs, cs);
    cs
  }

  lemma ResolventsCover(db: Db, v: int, ps: seq<nat>, ns: seq<nat>, pairs: seq<(nat, nat)>, cs: seq<Clause>)
    requires forall i :: i in ps <==> i in Occ(db, v) && i < |db.clauses|
    requires forall i :: i in ns <==> i in Occ(db, -v) && i < |db.clauses|
    requires forall p, n :: (p, n) in pairs <==> p in ps && n in ns
    requires |cs| == |pairs|
    requires forall k :: 0 <= k < |pairs| ==> pairs[k].0 < |db.clauses| && pairs[k].1 < |db.clauses|
    requires forall k :: 0 <= k < |pairs| ==> cs[k] == Resolve(v, db.clauses[pairs[k].0], db.clauses[pairs[k].1])
    ensures ResolventCover(db, v, cs)
  {
    forall p, n | p in Occ(db, v) && n in Occ(db, -v)
      ensures exists k :: 0 <= k < |cs| && cs[k] == Resolve(v, db.clauses[p], db.clauses[n])
    {
      assert (p, n) in pairs;
      var k :| 0 <= k < |pairs| && pairs[k] == (p, n);
      assert cs[k] == Resolve(v, db.clauses[p], db.clauses[n]);
    }
    forall k | 0 <= k < |cs| ensures IsResolvent(db, v, cs[k]) {
      var p := pairs[k].0;
      var n := pairs[k].1;
      assert (p, n) in pairs;
      assert p in Occ(db, v) && n in Occ(db, -v);
    }
  }

  lemma ResolventsClean(db: Db, v: int, pairs: seq<(nat, nat)>, cs: seq<Clause>)
    requires Inv(db)
    requires forall k :: 0 <= k < |pairs| ==> pairs[k].0 in Occ(db, v) && pairs[k].1 in Occ(db, -v)
    requires forall k :: 0 <= k < |pairs| ==> pairs[k].0 < |db.clauses| && pairs[k].1 < |db.clauses|
    requires |cs| == |pairs|
    requires forall k :: 0 <= k < |pairs| ==> cs[k] == Resolve(v, db.clauses[pairs[k].0], db.clauses[pairs[k].1])
    ensures ResolventClean(db, v, cs)
  {
    forall k | 0 <= k < |cs|
      ensures Proper(cs[k]) && !cs[k].canonized && v !in cs[k].contents && -v !in cs[k].contents
      ensures forall x :: x in cs[k].contents ==> Occ(db, x) != {}
    {
      ResolventFacts(db, v, pairs[k].0, pairs[k].1);
    }
  }

  /** The database after the resolvents cs are added to db: the vector
      has grown, each resolvent that is not a tautology is present, each
      new clause is a resolvent, the index entries of v and -v are
      unchanged and no literal is new. */
  ghost predicate AddedFrom(db: Db, v: int, cs: seq<Clause>, mid: Db) {
    && Inv(mid) && db.clauses <= mid.clauses
    && mid.conflict == db.conflict && mid.keep == db.keep && mid.unitKeep == db.unitKeep
    && (forall k :: 0 <= k < |cs| && !Complementary(Elems(cs[k].contents)) ==> Holds(mid, Elems(cs[k].contents)))
    && (forall i :: |db.clauses| <= i < |mid.clauses| ==>
          !mid.clauses[i].tautology && exists k :: 0 <= k < |cs| && Elems(mid.clauses[i].contents) == Elems(cs[k].contents))
    && Occ(mid, v) == Occ(db, v) && Occ(mid, -v) == Occ(db, -v)
    && NoNewLits(db, mid)
  }

  /** add_clause on every resolvent. */
  function AddResolvents(db: Db, v: int, cs: seq<Clause>): (mid: Db)
    requires Inv(db) && ResolventClean(db, v, cs)
    ensures AddedFrom(db, v, cs, mid)
  {
    var mid := AddAll(db, cs);
    AddedOcc(db, v, cs, mid);
    mid
  }

  /** Adding clauses without v or -v over literals already present leaves
      the index entries of v and -v as they were and brings in no
      literal. */
  lemma AddedOcc(db: Db, v: int, cs: seq<Clause>, mid: Db)
    requires forall k :: 0 <= k < |cs| ==> v !in cs[k].contents && -v !in cs[k].contents
    requires forall k, x :: 0 <= k < |cs| && x in cs[k].contents ==> Occ(db, x) != {}
    requires forall lit :: (forall k :: 0 <= k < |cs| ==> lit !in cs[k].contents) ==> Occ(mid, lit) == Occ(db, lit)
    ensures Occ(mid, v) == Occ(db, v) && Occ(mid, -v) == Occ(db, -v)
    ensures NoNewLits(db, mid)
  {
    forall lit | Occ(mid, lit) != {} ensures Occ(db, lit) != {} {
      if exists k :: 0 <= k < |cs| && lit in cs[k].contents {
        var k :| 0 <= k < |cs| && lit in cs[k].contents;
      }
    }
  }

  /** What eliminating v leaves: v and -v gone, no literal new, and every
      clause without v or -v untouched. */
  ghost predicate ElimFrame(db: Db, v: int, r: Db) {
    && Inv(r) && |db.clauses| <= |r.clauses|
    && r.conflict == db.conflict && r.keep == db.keep && r.unitKeep == db.unitKeep
    && Absent(r, v)
    && NoNewLits(db, r)
    && (forall j :: 0 <= j < |db.clauses| && v !in db.clauses[j].contents && -v !in db.clauses[j].contents
                   ==> r.clauses[j] == db.clauses[j])
  }

  /** ... and what it puts in their place: every resolvent that is not a
      tautology is present, and every live clause is an untouched one or
      a resolvent. */
  ghost predicate ElimClauses(db: Db, v: int, r: Db) {
    && (forall p, n :: p in Occ(db, v) && n in Occ(db, -v) && !Complementary(Elems(Resolve(v, db.clauses[p], db.clauses[n]).contents))
                   ==> Holds(r, Elems(Resolve(v, db.clauses[p], db.clauses[n]).contents)))
    && (forall i :: Live(r, i) ==>
          (i < |db.clauses| && r.clauses[i] == db.clauses[i])
          || exists p, n :: p in Occ(db, v) && n in Occ(db, -v) && Elems(r.clauses[i].contents) == Elems(Resolve(v, db.clauses[p], db.clauses[n]).contents))
  }

  /** The variable the scan moves to after eliminating v: v + 1, or the
      smallest unkept variable at most v occurring positively in a clause
      holding -v. */
  ghost predicate NextAfter(db: Db, v: int, next: int) {
    && 1 <= next <= v + 1
    && (next == v + 1 || exists n :: n in Occ(db, -v) && next in db.clauses[n].contents && !IsKeepLiteral(db, next))
    && forall n, lit :: n in Occ(db, -v) && lit in db.clauses[n].contents && 0 < lit <= v && !IsKeepLiteral(db, lit) ==> next <= lit
  }

  /** The scan for the next variable over the clauses holding -v, in
      ascending order. */
  function StepBack(db: Db, v: int): (next: int)
    requires v > 0
    ensures NextAfter(db, v, next)
  {
    var ns := Ascending(Occ(db, -v), |db.clauses|);
    var next := NextEvar(db, ns, v + 1);
    forall n, lit | n in Occ(db, -v) && lit in db.clauses[n].contents && 0 < lit <= v && !IsKeepLiteral(db, lit)
      ensures next <= lit
    {
      var k :| 0 <= k < |ns| && ns[k] == n;
    }
    assert next == v + 1 || exists n :: n in Occ(db, -v) && next in db.clauses[n].contents && !IsKeepLiteral(db, next) by {
      if next != v + 1 {
        var k :| 0 <= k < |ns| && next in db.clauses[ns[k]].contents && next > 0 && !IsKeepLiteral(db, next);
        assert ns[k] in Occ(db, -v);
      }
    }
    next
  }

  /** The elimination branch of ordered_bve for variable v: the
      resolvents are added in loop order, the next variable is found, and
      the clauses holding v, then those holding -v, are deleted. */
  function EliminateVar(db: Db, v: int): (r: (int, Db))
    requires Inv(db) && v > 0
    ensures ElimFrame(db, v, r.1) && ElimClauses(db, v, r.1)
    ensures NextAfter(db, v, r.0)
  {
    var cs := AllResolvents(db, v);
    var mid := AddResolvents(db, v, cs);
    var ps := Ascending(Occ(db, v), |db.clauses|);
    var ns := Ascending(Occ(db, -v), |db.clauses|);
    PhasesLive(db, v, mid, ps, ns);
    PhasesDistinct(db, v, ps, ns);
    PhasesIds(db, v, ps, ns);
    var r := DeleteAll(mid, ps + ns);
    DeletedFrame(db, v, mid, ps + ns, r);
    DeletedResolvents(db, v, cs, mid, ps + ns, r);
    DeletedOrigins(db, v, cs, mid, ps + ns, r);
    (StepBack(db, v), r)
  }

  /** The deletion leaves v and -v absent and the other clauses as they
      were. */
  lemma DeletedFrame(db: Db, v: int, mid: Db, ids: seq<nat>, r: Db)
    requires Inv(mid) && db.clauses <= mid.clauses
    requires mid.conflict == db.conflict && mid.keep == db.keep && mid.unitKeep == db.unitKeep
    requires Occ(mid, v) == Occ(db, v) && Occ(mid, -v) == Occ(db, -v) && NoNewLits(db, mid)
    requires forall j :: j in IdSet(ids) <==> j in Occ(db, v) || j in Occ(db, -v)
    requires DeletedFrom(mid, ids, r)
    ensures ElimFrame(db, v, r)
  {
    assert NoNewLits(db, r) by {
      forall lit | Occ(r, lit) != {} ensures Occ(db, lit) != {} {
        assert Occ(mid, lit) != {};
      }
    }
    forall j | 0 <= j < |db.clauses| && v !in db.clauses[j].contents && -v !in db.clauses[j].contents
      ensures r.clauses[j] == db.clauses[j]
    {
      assert j !in IdSet(ids);
      assert mid.clauses[j] == db.clauses[j];
    }
  }

  /** Every resolvent that is not a tautology survives the deletion. */
  lemma DeletedResolvents(db: Db, v: int, cs: seq<Clause>, mid: Db, ids: seq<nat>, r: Db)
    requires forall p, n :: p in Occ(db, v) && n in Occ(db, -v) ==>
               exists k :: 0 <= k < |cs| && cs[k] == Resolve(v, db.clauses[p], db.clauses[n])
    requires forall k :: 0 <= k < |cs| ==> v !in cs[k].contents && -v !in cs[k].contents
    requires forall k :: 0 <= k < |cs| && !Complementary(Elems(cs[k].contents)) ==> Holds(mid, Elems(cs[k].contents))
    requires forall j :: j in IdSet(ids) ==> j in Occ(mid, v) || j in Occ(mid, -v)
    requires |r.clauses| == |mid.clauses|
    requires forall j :: 0 <= j < |mid.clauses| && j !in ids ==> r.clauses[j] == mid.clauses[j]
    ensures forall p, n :: p in Occ(db, v) && n in Occ(db, -v) && !Complementary(Elems(Resolve(v, db.clauses[p], db.clauses[n]).contents))
                           ==> Holds(r, Elems(Resolve(v, db.clauses[p], db.clauses[n]).contents))
  {
    forall p, n | p in Occ(db, v) && n in Occ(db, -v) && !Complementary(Elems(Resolve(v, db.clauses[p], db.clauses[n]).contents))
      ensures Holds(r, Elems(Resolve(v, db.clauses[p], db.clauses[n]).contents))
    {
      var k :| 0 <= k < |cs| && cs[k] == Resolve(v, db.clauses[p], db.clauses[n]);
      var e := Elems(cs[k].contents);
      var w :| 0 <= w < |mid.clauses| && !mid.clauses[w].tautology && Elems(mid.clauses[w].contents) == e;
      assert v !in e && -v !in e;
      assert w !in Occ(mid, v) && w !in Occ(mid, -v);
      assert w !in IdSet(ids);
      assert r.clauses[w] == mid.clauses[w];
    }
  }

  /** Every clause live after the deletion was live before it and is
      untouched, or is a resolvent. */
  lemma DeletedOrigins(db: Db, v: int, cs: seq<Clause>, mid: Db, ids: seq<nat>, r: Db)
    requires forall k :: 0 <= k < |cs| ==> IsResolvent(db, v, cs[k])
    requires db.clauses <= mid.clauses
    requires forall i :: |db.clauses| <= i < |mid.clauses| ==>
               !mid.clauses[i].tautology && exists k :: 0 <= k < |cs| && Elems(mid.clauses[i].contents) == Elems(cs[k].contents)
    requires |r.clauses| == |mid.clauses|
    requires forall j :: 0 <= j < |mid.clauses| && j !in ids ==> r.clauses[j] == mid.clauses[j]
    requires forall k :: 0 <= k < |ids| ==> !Live(r, ids[k])
    ensures forall i :: Live(r, i) ==>
              (i < |db.clauses| && r.clauses[i] == db.clauses[i])
              || exists p, n :: p in Occ(db, v) && n in Occ(db, -v) && Elems(r.clauses[i].contents) == Elems(Resolve(v, db.clauses[p], db.clauses[n]).contents)
  {
    forall i | Live(r, i) && i !in ids
      ensures (i < |db.clauses| && r.clauses[i] == db.clauses[i])
              || exists p, n :: p in Occ(db, v) && n in Occ(db, -v) && Elems(r.clauses[i].contents) == Elems(Resolve(v, db.clauses[p], db.clauses[n]).contents)
    {
      assert r.clauses[i] == mid.clauses[i];
      if i >= |db.clauses| {
        var k :| 0 <= k < |cs| && Elems(mid.clauses[i].contents) == Elems(cs[k].contents);
        var p, n :| p in Occ(db, v) && n in Occ(db, -v) && cs[k] == Resolve(v, db.clauses[p], db.clauses[n]);
      }
    }
    forall i | Live(r, i) ensures i !in ids {
      forall k | 0 <= k < |ids| ensures ids[k] != i {
        assert !Live(r, ids[k]);
      }
    }
  }

  // ---------------------------------------------------------------- ordered_bve

  /** The loop invariant of ordered_bve: the eliminated variables are
      distinct, within range, unkept and absent; no literal is new; and a
      clause holding none of them is untouched. */
  ghost predicate BveInv(db: Db, r: Db, elim: seq<int>, maxVariable: int) {
    && Inv(r) && r.conflict == db.conflict && r.keep == db.keep && r.unitKeep == db.unitKeep
    && (forall k :: 0 <= k < |elim| ==> 1 <= elim[k] <= maxVariable && !IsKeepLiteral(db, elim[k]) && Absent(r, elim[k]))
    && (forall p, q :: 0 <= p < q < |elim| ==> elim[p] != elim[q])
    && NoNewLits(db, r)
    && |db.clauses| <= |r.clauses|
    && (forall j :: 0 <= j < |db.clauses| && Untouched(db.clauses[j], elim) ==> r.clauses[j] == db.clauses[j])
  }

  /** A clause holding none of the variables vs, in either phase. */
  predicate Untouched(c: Clause, vs: seq<int>) {
    forall k :: 0 <= k < |vs| ==> vs[k] !in c.contents && -vs[k] !in c.contents
  }

  /** The databases before and after each elimination: trace[k] is the
      database in which elim[k] passed the degree test and was eliminated,
      giving trace[k + 1]; the last is the result. */
  ghost predicate Traced(db: Db, r: Db, elim: seq<int>, trace: seq<Db>, maxDegree: int) {
    && |trace| == |elim| + 1 && trace[0] == db && trace[|elim|] == r
    && forall k :: 0 <= k < |elim| ==>
         Eliminable(trace[k], elim[k], maxDegree) && ElimFrame(trace[k], elim[k], trace[k + 1])
         && ElimClauses(trace[k], elim[k], trace[k + 1])
  }

  lemma TracedSnoc(db: Db, r: Db, elim: seq<int>, trace: seq<Db>, maxDegree: int, v: int, d: Db)
    requires Traced(db, r, elim, trace, maxDegree)
    requires Eliminable(r, v, maxDegree) && ElimFrame(r, v, d) && ElimClauses(r, v, d)
    ensures Traced(db, d, elim + [v], trace + [d], maxDegree)
  {
    var t := trace + [d];
    var e := elim + [v];
    forall k | 0 <= k < |e|
      ensures Eliminable(t[k], e[k], maxDegree) && ElimFrame(t[k], e[k], t[k + 1]) && ElimClauses(t[k], e[k], t[k + 1])
    {
      if k < |elim| {
        assert t[k] == trace[k] && t[k + 1] == trace[k + 1] && e[k] == elim[k];
      } else {
        assert t[k] == r && t[k + 1] == d && e[k] == v;
      }
    }
  }

  /** ordered_bve(max_degree, max_variable): with no conflict, variables
      1 to maxVariable are scanned in order, stepping back after each
      elimination; the result says whether any variable was eliminated,
      and the eliminated variables are returned with it. */
  method OrderedBve(db: Db, maxDegree: int, maxVariable: int) returns (eliminated: bool, r: Db, elim: seq<int>, trace: seq<Db>)
    requires Inv(db)
    ensures db.conflict ==> !eliminated && r == db && elim == []
    ensures Traced(db, r, elim, trace, maxDegree)
    ensures Inv(r) && r.conflict == db.conflict && r.keep == db.keep && r.unitKeep == db.unitKeep
    ensures eliminated <==> elim != []
    ensures forall k :: 0 <= k < |elim| ==> 1 <= elim[k] <= maxVariable && !IsKeepLiteral(db, elim[k]) && Absent(r, elim[k])
    ensures forall p, q :: 0 <= p < q < |elim| ==> elim[p] != elim[q]
    ensures NoNewLits(db, r)
    ensures |db.clauses| <= |r.clauses|
    ensures forall j :: 0 <= j < |db.clauses| && Untouched(db.clauses[j], elim) ==> r.clauses[j] == db.clauses[j]
  {
    if db.conflict {
      return false, db, [], [db];
    }
    r, elim, trace := db, [], [db];
    var evar := 1;
    while evar <= maxVariable
      invariant 1 <= evar
      invariant BveInv(db, r, elim, maxVariable)
      invariant Traced(db, r, elim, trace, maxDegree)
      decreases |LitsOf(r)|, maxVariable + 1 - evar
    {
      var next := evar + 1;
      if Eliminable(r, evar, maxDegree) {
        next, r, elim, trace := BveTurn(db, r, elim, trace, evar, maxDegree, maxVariable);
      }
      evar := next;
    }
    eliminated := |elim| > 0;
  }

  /** One turn of the scan that eliminates evar: the loop invariant and
      the trace carry over, and the database has fewer literals. */
  method BveTurn(db: Db, r: Db, elim: seq<int>, trace: seq<Db>, evar: int, maxDegree: int, maxVariable: int)
      returns (next: int, d: Db, elim': seq<int>, trace': seq<Db>)
    requires BveInv(db, r, elim, maxVariable) && Traced(db, r, elim, trace, maxDegree)
    requires 1 <= evar <= maxVariable && Eliminable(r, evar, maxDegree)
    ensures BveInv(db, d, elim', maxVariable) && Traced(db, d, elim', trace', maxDegree)
    ensures elim' == elim + [evar] && |LitsOf(d)| < |LitsOf(r)| && 1 <= next <= evar + 1
  {
    next, d := EliminateStep(r, evar);
    BveStep(db, r, elim, evar, maxVariable, d);
    BveShrinks(r, d, evar);
    TracedSnoc(db, r, elim, trace, maxDegree, evar, d);
    elim', trace' := elim + [evar], trace + [d];
  }

  /** EliminateVar as the scan sees it: v and -v gone, no literal new,
      the other clauses untouched, and the next variable at most v + 1. */
  method EliminateStep(db: Db, v: int) returns (next: int, r: Db)
    requires Inv(db) && v > 0
    ensures ElimFrame(db, v, r) && ElimClauses(db, v, r) && 1 <= next <= v + 1
  {
    var e := EliminateVar(db, v);
    next, r := e.0, e.1;
  }

  /** One elimination keeps the loop invariant of ordered_bve. */
  lemma BveStep(db: Db, r: Db, elim: seq<int>, evar: int, maxVariable: int, d: Db)
    requires BveInv(db, r, elim, maxVariable)
    requires 1 <= evar <= maxVariable && !IsKeepLiteral(r, evar) && !Absent(r, evar)
    requires ElimFrame(r, evar, d)
    ensures BveInv(db, d, elim + [evar], maxVariable)
  {
    var elim' := elim + [evar];
    forall k | 0 <= k < |elim| ensures Absent(d, elim[k]) && elim[k] != evar {
      assert Absent(r, elim[k]);
    }
    assert NoNewLits(db, d) by {
      forall lit | Occ(d, lit) != {} ensures Occ(db, lit) != {} {
        assert Occ(r, lit) != {};
      }
    }
    forall j | 0 <= j < |db.clauses| && Untouched(db.clauses[j], elim')
      ensures d.clauses[j] == db.clauses[j]
    {
      assert Untouched(db.clauses[j], elim) by {
        forall k | 0 <= k < |elim| ensures elim[k] !in db.clauses[j].contents && -elim[k] !in db.clauses[j].contents {
          assert elim[k] == elim'[k];
        }
      }
      assert evar == elim'[|elim|];
      assert r.clauses[j] == db.clauses[j];
    }
  }

  /** One elimination removes a literal: the measure of the scan drops
      although it steps back. */
  lemma BveShrinks(r: Db, d: Db, evar: int)
    requires !Absent(r, evar) && Absent(d, evar) && NoNewLits(r, d)
    ensures |LitsOf(d)| < |LitsOf(r)|
  {
    if Occ(r, evar) != {} {
      FewerLits(r, d, evar);
    } else {
      FewerLits(r, d, -evar);
    }
    ProperSubsetSmaller(LitsOf(d), LitsOf(r));
  }

  /** A proper subset is smaller. */
  lemma ProperSubsetSmaller(a: set<int>, b: set<int>)
    requires a < b
    ensures |a| < |b|
  {
    assert b == a + (b - a);
    assert a !! (b - a);
    assert b - a != {};
  }
}
