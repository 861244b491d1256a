/** Cnf_opt: the clause database the generator optimizes before
    compilation.  Live clauses are kept canonical and without duplicates;
    unit propagation and bounded variable elimination shrink the database
    while the units on kept variables are set aside. */
module CnfOpt {
  import opened Literals
  import opened Clauses

  /** The database: the clauses vector, where a deleted clause stays as a
      tautology until compact_clauses drops it, the conflict flag, the
      kept variables, and the units on kept variables set aside.  A clause
      is named by its position in the vector.  The source's two indexes,
      literal_map and clause_lookup, hold exactly the live clauses; the
      model computes them from the vector (Occ, HasEqual). */
  datatype Db = Db(conflict: bool, keep: set<int>, unitKeep: seq<int>, clauses: seq<Clause>)

  /** is_keep_literal: the literal's variable is kept. */
  predicate IsKeepLiteral(db: Db, lit: int) {
    Abs(lit) in db.keep
  }

  /** Both phases of a variable are kept or neither is. */
  lemma KeepBothPhases(db: Db, lit: int)
    ensures IsKeepLiteral(db, lit) <==> IsKeepLiteral(db, -lit)
  {
  }

  /** Clause i is live: in the vector and not deleted. */
  predicate Live(db: Db, i: int) {
    0 <= i < |db.clauses| && !db.clauses[i].tautology
  }

  /** The live clauses. */
  function LiveSet(db: Db): set<nat> {
    set i: nat | i < |db.clauses| && !db.clauses[i].tautology
  }

  /** literal_map[lit]: the live clauses holding lit. */
  function Occ(db: Db, lit: int): set<nat> {
    set i: nat | i < |db.clauses| && !db.clauses[i].tautology && lit in db.clauses[i].contents
  }

  /** clause_lookup: some live clause has exactly these literals. */
  predicate HasEqual(db: Db, lits: seq<int>) {
    exists i :: 0 <= i < |db.clauses| && !db.clauses[i].tautology && db.clauses[i].contents == lits
  }

  // ---------------------------------------------------------------- invariant

  /** A clause as callers hand it over: nonzero literals, and canonical
      when flagged canonized. */
  predicate Proper(c: Clause) {
    NonzeroLits(c.contents) && (c.canonized ==> AbsStrictlyAscending(c.contents))
  }

  /** The form of a live clause. */
  predicate Canonical(c: Clause) {
    !c.tautology && c.canonized && NonzeroLits(c.contents) && AbsStrictlyAscending(c.contents)
  }

  /** The database invariant: every live clause is canonical and no two
      live clauses are equal. */
  predicate WellFormed(cs: seq<Clause>) {
    && (forall i :: 0 <= i < |cs| && !cs[i].tautology ==> Canonical(cs[i]))
    && (forall i, j :: 0 <= i < j < |cs| && !cs[i].tautology && !cs[j].tautology ==> cs[i].contents != cs[j].contents)
  }

  predicate Inv(db: Db) {
    WellFormed(db.clauses)
  }

  /** A live clause lists each literal once and never a literal with its
      negation. */
  lemma CanonicalDistinct(c: Clause)
    requires Canonical(c)
    ensures forall i, j :: 0 <= i < j < |c.contents| ==> c.contents[i] != c.contents[j]
    ensures forall l :: l in c.contents ==> -l !in c.contents
  {
    forall l | l in c.contents ensures -l !in c.contents {
      var i :| 0 <= i < |c.contents| && c.contents[i] == l;
      forall j | 0 <= j < |c.contents| ensures c.contents[j] != -l {
        if j != i {
          assert Abs(c.contents[i]) != Abs(c.contents[j]);
        }
      }
    }
  }

  // ---------------------------------------------------------------- add_clause

  /** The copy add_clause makes: not a tautology, the canonized flag
      kept. */
  function Copy(c: Clause): Clause {
    Clause(c.contents, false, c.canonized)
  }

  /** The copy, canonized, keeps the clause's literals unless they hold
      a complementary pair. */
  lemma CopyCanonized(c: Clause)
    requires Proper(c)
    ensures var n := Canonize(Copy(c));
            && n.canonized
            && (!c.canonized ==> (n.tautology <==> Complementary(Elems(c.contents))))
            && (!n.tautology ==> Canonical(n) && Elems(n.contents) == Elems(c.contents))
  {
    var n := Canonize(Copy(c));
    if !c.canonized {
      CanonizeSpec(Copy(c));
      if !n.tautology {
        forall i | 0 <= i < |n.contents| ensures n.contents[i] != 0 {
          assert n.contents[i] in Elems(n.contents);
        }
      }
    }
  }

  /** Appending a clause indexes it under its literals when it is live. */
  lemma OccAppend(db: Db, n: Clause, lit: int)
    ensures Occ(db.(clauses := db.clauses + [n]), lit)
            == Occ(db, lit) + (if !n.tautology && lit in n.contents then {|db.clauses|} else {})
  {
    var d := db.(clauses := db.clauses + [n]);
    forall i: nat ensures i in Occ(d, lit) <==> i in Occ(db, lit) + (if !n.tautology && lit in n.contents then {|db.clauses|} else {}) {
      if i < |db.clauses| {
        assert d.clauses[i] == db.clauses[i];
      }
    }
  }

  /** add_clause: the canonized copy is appended, unless it is a tautology
      or equal to a live clause; the result says whether it was added. */
  function AddClause(db: Db, c: Clause): (r: (bool, Db))
    requires Inv(db) && Proper(c)
    ensures Inv(r.1)
    ensures r.0 <==> !Canonize(Copy(c)).tautology && !HasEqual(db, Canonize(Copy(c)).contents)
    ensures !r.0 ==> r.1 == db
    ensures r.0 ==>
              && Elems(Canonize(Copy(c)).contents) == Elems(c.contents)
              && r.1.clauses == db.clauses + [Canonize(Copy(c))]
              && (forall lit :: Occ(r.1, lit) == Occ(db, lit) + (if lit in c.contents then {|db.clauses|} else {}))
              && |LiveSet(r.1)| == |LiveSet(db)| + 1
    ensures r.1.conflict == db.conflict && r.1.keep == db.keep && r.1.unitKeep == db.unitKeep
  {
    CopyCanonized(c);
    var n := Canonize(Copy(c));
    if n.tautology || HasEqual(db, n.contents) then (false, db)
    else
      var d := db.(clauses := db.clauses + [n]);
      AddKeepsInv(db, n);
      assert forall lit :: lit in n.contents <==> lit in c.contents by {
        assert forall lit :: lit in n.contents <==> lit in Elems(n.contents);
      }
      (true, d)
  }

  lemma AddKeepsInv(db: Db, n: Clause)
    requires Inv(db) && Canonical(n) && !HasEqual(db, n.contents)
    ensures Inv(db.(clauses := db.clauses + [n]))
    ensures forall lit :: Occ(db.(clauses := db.clauses + [n]), lit) == Occ(db, lit) + (if lit in n.contents then {|db.clauses|} else {})
    ensures |LiveSet(db.(clauses := db.clauses + [n]))| == |LiveSet(db)| + 1
  {
    var cs := db.clauses + [n];
    assert LiveSet(db.(clauses := cs)) == LiveSet(db) + {|db.clauses|} by {
      forall i: nat ensures i in LiveSet(db.(clauses := cs)) <==> i in LiveSet(db) + {|db.clauses|} {
        if i < |db.clauses| {
          assert cs[i] == db.clauses[i];
        }
      }
    }
    forall i, j | 0 <= i < j < |cs| && !cs[i].tautology && !cs[j].tautology ensures cs[i].contents != cs[j].contents {
      if j == |db.clauses| {
        assert cs[i] == db.clauses[i];
      } else {
        assert cs[i] == db.clauses[i] && cs[j] == db.clauses[j];
      }
    }
    forall lit ensures Occ(db.(clauses := cs), lit) == Occ(db, lit) + (if lit in n.contents then {|db.clauses|} else {}) {
      OccAppend(db, n, lit);
    }
  }

  // ---------------------------------------------------------------- delete_clause

  /** make_tautology on a deleted clause; an empty clause, which the
      source never deletes, is only flagged. */
  function Kill(c: Clause): (r: Clause)
    ensures r.tautology
  {
    if |c.contents| >= 1 then MakeTautology(c) else c.(tautology := true, canonized := true)
  }

  /** delete_clause: the clause leaves both indexes and becomes a
      tautology; every other clause is untouched. */
  function DeleteClause(db: Db, i: nat): (r: Db)
    requires Inv(db) && Live(db, i)
    ensures Inv(r)
    ensures |r.clauses| == |db.clauses| && !Live(r, i)
    ensures forall j :: 0 <= j < |db.clauses| && j != i ==> r.clauses[j] == db.clauses[j]
    ensures forall lit :: Occ(r, lit) == Occ(db, lit) - {i}
    ensures |LiveSet(r)| == |LiveSet(db)| - 1
    ensures r.conflict == db.conflict && r.keep == db.keep && r.unitKeep == db.unitKeep
  {
    var r := db.(clauses := db.clauses[i := Kill(db.clauses[i])]);
    assert LiveSet(db) == LiveSet(r) + {i} && i !in LiveSet(r);
    assert forall lit :: Occ(r, lit) == Occ(db, lit) - {i} by {
      forall lit, j: nat ensures j in Occ(r, lit) <==> j in Occ(db, lit) - {i} {
        if j < |db.clauses| && j != i {
          assert r.clauses[j] == db.clauses[j];
        }
      }
    }
    r
  }

  // ---------------------------------------------------------------- resolve

  /** The literals of s other than x, in order. */
  function Without(s: seq<int>, x: int): (r: seq<int>)
    ensures forall y :: y in r <==> y in s && y != x
    ensures NonzeroLits(s) ==> NonzeroLits(r)
    ensures |r| <= |s|
    ensures x !in s ==> r == s
  {
    if s == [] then []
    else if s[0] == x then Without(s[1..], x)
    else [s[0]] + Without(s[1..], x)
  }

  /** Dropping a literal that occurs once shortens the list by one. */
  lemma {:induction false} WithoutOnce(s: seq<int>, x: int)
    requires x in s && forall i, j :: 0 <= i < j < |s| ==> s[i] != s[j]
    ensures |Without(s, x)| == |s| - 1
  {
    if s[0] == x {
      assert x !in s[1..];
    } else {
      WithoutOnce(s[1..], x);
    }
  }

  /** Dropping a literal keeps the variables strictly increasing. */
  lemma {:induction false} WithoutAscending(s: seq<int>, x: int)
    requires AbsStrictlyAscending(s)
    ensures AbsStrictlyAscending(Without(s, x))
  {
    if s != [] {
      WithoutAscending(s[1..], x);
      var rest := Without(s[1..], x);
      if s[0] != x {
        forall k | 0 <= k < |rest| ensures Abs(s[0]) < Abs(rest[k]) {
          assert rest[k] in s[1..];
          var j :| 0 <= j < |s[1..]| && s[1..][j] == rest[k];
          assert s[j + 1] == rest[k];
        }
        assert Without(s, x) == [s[0]] + rest;
      }
    }
  }

  /** resolve(var, P, N): P's literals except var, then N's except -var,
      as a new (uncanonized) clause. */
  function Resolve(v: int, p: Clause, n: Clause): (r: Clause)
    ensures !r.tautology && !r.canonized
    ensures forall x :: x in r.contents <==> (x in Visible(p) && x != v) || (x in Visible(n) && x != -v)
    ensures Without(Visible(p), v) <= r.contents
  {
    FromLiterals(Without(Visible(p), v) + Without(Visible(n), -v))
  }

  /** Resolution is sound: an assignment consistent on negation that
      satisfies both clauses satisfies the resolvent. */
  lemma ResolveSound(v: int, p: Clause, n: Clause, a: int -> bool)
    requires v != 0 && v in Visible(p) && -v in Visible(n)
    requires forall l :: l != 0 ==> a(-l) == !a(l)
    requires exists x :: x in Visible(p) && a(x)
    requires exists x :: x in Visible(n) && a(x)
    ensures exists x :: x in Resolve(v, p, n).contents && a(x)
  {
    var x :| x in Visible(p) && a(x);
    var y :| y in Visible(n) && a(y);
    if x == v {
      assert a(-v) == !a(v);
      assert y != -v;
      assert y in Resolve(v, p, n).contents;
    } else {
      assert x in Resolve(v, p, n).contents;
    }
  }


  // ---------------------------------------------------------------- compact_clauses

  /** The live clauses of a vector, in order. */
  function LiveOnly(cs: seq<Clause>): (r: seq<Clause>)
    ensures forall k :: 0 <= k < |r| ==> !r[k].tautology && r[k] in cs
    ensures forall c :: c in cs && !c.tautology ==> c in r
    ensures |r| <= |cs|
  {
    if cs == [] then []
    else
      var rest := LiveOnly(cs[1..]);
      assert forall c :: c in cs ==> c == cs[0] || c in cs[1..];
      if cs[0].tautology then rest else [cs[0]] + rest
  }

  /** Dropping the deleted clauses keeps the live ones canonical and
      distinct. */
  lemma {:induction false} LiveOnlyWellFormed(cs: seq<Clause>)
    requires WellFormed(cs)
    ensures WellFormed(LiveOnly(cs))
  {
    if cs != [] {
      var tail := cs[1..];
      TailWellFormed(cs);
      LiveOnlyWellFormed(tail);
      var rest := LiveOnly(tail);
      if !cs[0].tautology {
        forall k | 0 <= k < |rest| ensures rest[k].contents != cs[0].contents {
          var p :| 0 <= p < |tail| && tail[p] == rest[k];
          assert cs[p + 1] == rest[k];
        }
        ConsWellFormed(cs[0], rest);
      }
    }
  }

  lemma TailWellFormed(cs: seq<Clause>)
    requires WellFormed(cs) && cs != []
    ensures WellFormed(cs[1..])
  {
    var tail := cs[1..];
    forall i, j | 0 <= i < j < |tail| && !tail[i].tautology && !tail[j].tautology
      ensures tail[i].contents != tail[j].contents
    {
      assert tail[i] == cs[i + 1] && tail[j] == cs[j + 1];
    }
  }

  lemma ConsWellFormed(c: Clause, rest: seq<Clause>)
    requires WellFormed(rest) && !c.tautology && Canonical(c)
    requires forall k :: 0 <= k < |rest| ==> rest[k].contents != c.contents
    ensures WellFormed([c] + rest)
  {
    var r := [c] + rest;
    forall i, j | 0 <= i < j < |r| && !r[i].tautology && !r[j].tautology ensures r[i].contents != r[j].contents {
      if i > 0 {
        assert r[i] == rest[i - 1] && r[j] == rest[j - 1];
      }
    }
    forall i | 0 <= i < |r| && !r[i].tautology ensures Canonical(r[i]) {
      if i > 0 {
        assert r[i] == rest[i - 1];
      }
    }
  }

  /** r lists some of the entries of cs, in the order cs has them: each
      entry of r is matched with the first fitting entry of cs after the
      previous match. */
  predicate InOrder(r: seq<Clause>, cs: seq<Clause>)
    decreases |cs|
  {
    if r == [] then true
    else if cs == [] then false
    else if r[0] == cs[0] then InOrder(r[1..], cs[1..])
    else InOrder(r, cs[1..])
  }

  /** The survivors keep their relative order. */
  lemma {:induction false} LiveOnlyInOrder(cs: seq<Clause>)
    ensures InOrder(LiveOnly(cs), cs)
  {
    if cs != [] {
      LiveOnlyInOrder(cs[1..]);
      var rest := LiveOnly(cs[1..]);
      if cs[0].tautology && rest != [] {
        assert !rest[0].tautology;
      }
    }
  }

  /** Dropping deleted clauses works piecewise: compacting a + b keeps
      a's survivors followed by b's. */
  lemma {:induction false} LiveOnlyAppend(a: seq<Clause>, b: seq<Clause>)
    ensures LiveOnly(a + b) == LiveOnly(a) + LiveOnly(b)
  {
    if a == [] {
      assert a + b == b;
    } else {
      LiveOnlyAppend(a[1..], b);
      LiveOnlyAppendStep(a, b);
    }
  }

  /** The inductive step of LiveOnlyAppend, for the first clause of a. */
  lemma LiveOnlyAppendStep(a: seq<Clause>, b: seq<Clause>)
    requires a != []
    requires LiveOnly(a[1..] + b) == LiveOnly(a[1..]) + LiveOnly(b)
    ensures LiveOnly(a + b) == LiveOnly(a) + LiveOnly(b)
  {
    var c, t := a[0], a[1..];
    SplitHead(a, b);
    LiveOnlyCons(c, t);
    LiveOnlyCons(c, t + b);
    ConcatAssoc(if c.tautology then [] else [c], LiveOnly(t), LiveOnly(b));
  }

  /** Sequence facts kept apart from LiveOnly's quantified contract. */
  lemma SplitHead<T>(a: seq<T>, b: seq<T>)
    requires a != []
    ensures a == [a[0]] + a[1..] && a + b == [a[0]] + (a[1..] + b)
  {
  }

  lemma ConcatAssoc<T>(h: seq<T>, x: seq<T>, y: seq<T>)
    ensures h + (x + y) == (h + x) + y
  {
  }

  /** One clause in front: kept when live. */
  lemma LiveOnlyCons(c: Clause, rest: seq<Clause>)
    ensures LiveOnly([c] + rest) == (if c.tautology then [] else [c]) + LiveOnly(rest)
  {
    assert ([c] + rest)[0] == c && ([c] + rest)[1..] == rest;
  }

  /** The largest variable over a list of clauses. */
  function MaxVarOf(cs: seq<Clause>): (m: nat)
    ensures forall k :: 0 <= k < |cs| ==> MaxVariable(cs[k]) <= m
    ensures m == 0 || exists k :: 0 <= k < |cs| && MaxVariable(cs[k]) == m
  {
    if cs == [] then 0
    else
      var rest := MaxVarOf(cs[1..]);
      assert forall k :: 1 <= k < |cs| ==> cs[k] == cs[1..][k - 1];
      var here := MaxVariable(cs[0]);
      if here >= rest then here else rest
  }

  /** compact_clauses: the deleted clauses are dropped, the survivors
      keep their order, and the largest variable of the survivors is
      returned. */
  function CompactClauses(db: Db): (r: (nat, Db))
    requires Inv(db)
    ensures Inv(r.1)
    ensures forall k :: 0 <= k < |r.1.clauses| ==> !r.1.clauses[k].tautology
    ensures forall c :: c in r.1.clauses <==> c in db.clauses && !c.tautology
    ensures forall c :: c in db.clauses ==> MaxVariable(c) <= r.0
    ensures r.0 == 0 || exists c :: c in r.1.clauses && MaxVariable(c) == r.0
    ensures InOrder(r.1.clauses, db.clauses)
    ensures r.1.conflict == db.conflict && r.1.keep == db.keep && r.1.unitKeep == db.unitKeep
  {
    var live := LiveOnly(db.clauses);
    LiveOnlyWellFormed(db.clauses);
    LiveOnlyInOrder(db.clauses);
    var m := MaxVarOf(live);
    assert forall c :: c in db.clauses && c.tautology ==> MaxVariable(c) == 0;
    (m, db.(clauses := live))
  }

  // ---------------------------------------------------------------- cause_conflict

  /** The empty clause as Clause() builds it. */
  const EmptyClause := Clause([], false, true)

  /** The database after cause_conflict: flagged, the empty clause its
      only clause, no unit set aside. */
  predicate Conflicted(r: Db, keep: set<int>) {
    && Inv(r) && r.conflict && r.keep == keep && r.unitKeep == []
    && r.clauses == [EmptyClause]
  }

  /** cause_conflict: the database is cleared and holds only the empty
      clause, with the conflict flag set. */
  function CauseConflict(db: Db): (r: Db)
    ensures Conflicted(r, db.keep)
    ensures forall lit :: Occ(r, lit) == {}
  {
    var cleared := db.(conflict := false, unitKeep := [], clauses := []);
    var (_, d) := AddClause(cleared, EmptyClause);
    d.(conflict := true)
  }

  // ---------------------------------------------------------------- shared by the passes

  /** Neither phase of lit's variable occurs in a live clause. */
  predicate Absent(db: Db, lit: int) {
    Occ(db, lit) == {} && Occ(db, -lit) == {}
  }

  /** Some live clause has exactly these literals. */
  ghost predicate Holds(db: Db, e: set<int>) {
    exists i :: 0 <= i < |db.clauses| && !db.clauses[i].tautology && Elems(db.clauses[i].contents) == e
  }

  /** Every literal occurring in b already occurred in a. */
  ghost predicate NoNewLits(a: Db, b: Db) {
    forall lit :: Occ(b, lit) != {} ==> Occ(a, lit) != {}
  }

  /** The members of s below n, ascending: the model's order for iterating
      a set of clauses, which the source takes from a hash set. */
  function Ascending(s: set<nat>, n: nat): (r: seq<nat>)
    ensures forall i :: i in r <==> i in s && i < n
    ensures forall k :: 0 <= k < |r| ==> r[k] < n
    ensures forall p, q :: 0 <= p < q < |r| ==> r[p] < r[q]
  {
    if n == 0 then []
    else if n - 1 in s then
      var rest := Ascending(s, n - 1);
      assert forall p :: 0 <= p < |rest| ==> rest[p] in rest;
      rest + [n - 1]
    else Ascending(s, n - 1)
  }

  /** delete_clause on each of the distinct live clauses ids, in turn. */
  function DeleteAll(db: Db, ids: seq<nat>): (r: Db)
    requires Inv(db)
    requires forall k :: 0 <= k < |ids| ==> Live(db, ids[k])
    requires forall p, q :: 0 <= p < q < |ids| ==> ids[p] != ids[q]
    ensures Inv(r) && |r.clauses| == |db.clauses|
    ensures forall j :: 0 <= j < |db.clauses| && j !in ids ==> r.clauses[j] == db.clauses[j]
    ensures forall k :: 0 <= k < |ids| ==> !Live(r, ids[k])
    ensures forall lit :: Occ(r, lit) == Occ(db, lit) - IdSet(ids)
    ensures |LiveSet(r)| == |LiveSet(db)| - |ids|
    ensures r.conflict == db.conflict && r.keep == db.keep && r.unitKeep == db.unitKeep
    decreases |ids|
  {
    if ids == [] then db
    else
      var d := DeleteClause(db, ids[0]);
      var rest := ids[1..];
      forall k | 0 <= k < |rest| ensures Live(d, rest[k]) {
        assert rest[k] == ids[k + 1] && Live(db, ids[k + 1]);
        assert ids[0] != ids[k + 1];
        assert d.clauses[rest[k]] == db.clauses[rest[k]];
      }
      assert forall p, q :: 0 <= p < q < |rest| ==> rest[p] != rest[q];
      var r := DeleteAll(d, rest);
      DeleteAllStep(db, ids, d, r);
      r
  }

  /** One delete_clause followed by the rest of the deletions. */
  lemma DeleteAllStep(db: Db, ids: seq<nat>, d: Db, r: Db)
    requires ids != [] && ids[0] < |db.clauses|
    requires |d.clauses| == |db.clauses| && !Live(d, ids[0])
    requires forall j :: 0 <= j < |db.clauses| && j != ids[0] ==> d.clauses[j] == db.clauses[j]
    requires forall lit :: Occ(d, lit) == Occ(db, lit) - {ids[0]}
    requires |r.clauses| == |d.clauses|
    requires forall j :: 0 <= j < |d.clauses| && j !in ids[1..] ==> r.clauses[j] == d.clauses[j]
    requires forall k :: 0 <= k < |ids[1..]| ==> !Live(r, ids[1..][k])
    requires forall lit :: Occ(r, lit) == Occ(d, lit) - IdSet(ids[1..])
    ensures forall j :: 0 <= j < |db.clauses| && j !in ids ==> r.clauses[j] == db.clauses[j]
    ensures forall k :: 0 <= k < |ids| ==> !Live(r, ids[k])
    ensures forall lit :: Occ(r, lit) == Occ(db, lit) - IdSet(ids)
  {
    assert IdSet(ids) == {ids[0]} + IdSet(ids[1..]) by {
      assert ids == [ids[0]] + ids[1..];
    }
    forall k | 0 <= k < |ids| ensures !Live(r, ids[k]) {
      if k == 0 {
        if ids[0] !in ids[1..] {
          assert r.clauses[ids[0]] == d.clauses[ids[0]];
        } else {
          var p :| 0 <= p < |ids[1..]| && ids[1..][p] == ids[0];
        }
      } else {
        assert ids[k] == ids[1..][k - 1];
      }
    }
    forall j | 0 <= j < |db.clauses| && j !in ids ensures r.clauses[j] == db.clauses[j] {
      assert j !in ids[1..] && j != ids[0];
    }
  }

  /** The ids of a list, as a set. */
  function IdSet(ids: seq<nat>): set<nat> {
    set id | id in ids
  }

  /** The clauses holding lit then those holding -lit, both listed in
      ascending order, as a pass deletes them: live in any later database
      whose index entries for lit and -lit are the same, ... */
  lemma PhasesLive(db0: Db, lit: int, mid: Db, ps: seq<nat>, ns: seq<nat>)
    requires Occ(mid, lit) == Occ(db0, lit) && Occ(mid, -lit) == Occ(db0, -lit)
    requires ps == Ascending(Occ(db0, lit), |db0.clauses|)
    requires ns == Ascending(Occ(db0, -lit), |db0.clauses|)
    ensures forall k :: 0 <= k < |ps + ns| ==> Live(mid, (ps + ns)[k])
  {
    var ids := ps + ns;
    forall k | 0 <= k < |ids| ensures Live(mid, ids[k]) {
      if k < |ps| {
        assert ids[k] == ps[k] && ps[k] in ps;
      } else {
        assert ids[k] == ns[k - |ps|] && ns[k - |ps|] in ns;
      }
    }
  }

  /** ... distinct, since no live clause holds both lit and -lit, ... */
  lemma PhasesDistinct(db0: Db, lit: int, ps: seq<nat>, ns: seq<nat>)
    requires Inv(db0)
    requires ps == Ascending(Occ(db0, lit), |db0.clauses|)
    requires ns == Ascending(Occ(db0, -lit), |db0.clauses|)
    ensures forall p, q :: 0 <= p < q < |ps + ns| ==> (ps + ns)[p] != (ps + ns)[q]
  {
    var ids := ps + ns;
    forall p, q | 0 <= p < q < |ids| ensures ids[p] != ids[q] {
      if p < |ps| && q >= |ps| {
        assert ps[p] in ps && ns[q - |ps|] in ns;
        CanonicalDistinct(db0.clauses[ps[p]]);
      } else if p >= |ps| {
        assert ids[p] == ns[p - |ps|] && ids[q] == ns[q - |ps|];
      }
    }
  }

  /** ... and exactly the clauses holding lit or -lit. */
  lemma PhasesIds(db0: Db, lit: int, ps: seq<nat>, ns: seq<nat>)
    requires ps == Ascending(Occ(db0, lit), |db0.clauses|)
    requires ns == Ascending(Occ(db0, -lit), |db0.clauses|)
    ensures forall j :: j in IdSet(ps + ns) <==> j in Occ(db0, lit) || j in Occ(db0, -lit)
  {
    var ids := ps + ns;
    forall j ensures j in IdSet(ids) <==> j in Occ(db0, lit) || j in Occ(db0, -lit) {
      if j in Occ(db0, lit) {
        var k :| 0 <= k < |ps| && ps[k] == j;
        assert ids[k] == j;
      } else if j in Occ(db0, -lit) {
        var k :| 0 <= k < |ns| && ns[k] == j;
        assert ids[|ps| + k] == j;
      }
    }
  }

  /** mid after the deletion of the distinct live clauses ids, as
      DeleteAll leaves it. */
  ghost predicate DeletedFrom(mid: Db, ids: seq<nat>, r: Db) {
    && Inv(r) && |r.clauses| == |mid.clauses|
    && (forall j :: 0 <= j < |mid.clauses| && j !in ids ==> r.clauses[j] == mid.clauses[j])
    && (forall k :: 0 <= k < |ids| ==> !Live(r, ids[k]))
    && (forall lit :: Occ(r, lit) == Occ(mid, lit) - IdSet(ids))
    && |LiveSet(r)| == |LiveSet(mid)| - |ids|
    && r.conflict == mid.conflict && r.keep == mid.keep && r.unitKeep == mid.unitKeep
  }
}
