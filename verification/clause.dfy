/** The generator's clause: a list of literals with a tautology flag and a
    "canonized" flag.  A canonized clause lists its variables in strictly
    increasing order, each once; a clause holding some literal and its
    negation is a tautology and is stored as [x, -x].  A tautology has
    length 0 to every caller. */
module Clauses {
  import opened Wrappers
  import opened Literals

  datatype Clause = Clause(contents: seq<int>, tautology: bool, canonized: bool)

  /** A clause built literal by literal (Clause(array, len)). */
  function FromLiterals(lits: seq<int>): Clause {
    Clause(lits, false, false)
  }

  /** length(): 0 for a tautology, otherwise every stored literal. */
  function Length(c: Clause): (n: nat)
    ensures n <= |c.contents|
    ensures c.tautology ==> n == 0
    ensures !c.tautology ==> n == |c.contents|
  {
    if c.tautology then 0 else |c.contents|
  }

  /** The literals a caller sees. */
  function Visible(c: Clause): seq<int> {
    c.contents[..Length(c)]
  }

  /** max_variable(): the largest variable, 0 for a tautology or an empty
      clause. */
  function MaxVariable(c: Clause): (m: nat)
    ensures forall i :: 0 <= i < Length(c) ==> Abs(c.contents[i]) <= m
    ensures m == 0 || exists i :: 0 <= i < Length(c) && Abs(c.contents[i]) == m
  {
    MaxAbs(Visible(c))
  }

  function MaxAbs(s: seq<int>): (m: nat)
    ensures forall i :: 0 <= i < |s| ==> Abs(s[i]) <= m
    ensures m == 0 || exists i :: 0 <= i < |s| && Abs(s[i]) == m
  {
    if s == [] then 0
    else
      var m := MaxAbs(s[..|s| - 1]);
      var last := Abs(s[|s| - 1]);
      if last > m then last
      else
        assert m == 0 || exists i :: 0 <= i < |s| && Abs(s[i]) == m by {
          if m != 0 {
            var i :| 0 <= i < |s| - 1 && Abs(s[..|s| - 1][i]) == m;
            assert s[i] == s[..|s| - 1][i];
          }
        }
        m
  }

  /** The values of a list, as a set. */
  function Elems(s: seq<int>): set<int> {
    set x | x in s
  }

  /** Some literal occurs together with its negation. */
  predicate Complementary(e: set<int>) {
    exists x :: x in e && -x in e
  }

  /** v is the least variable occurring in both phases. */
  predicate LeastClash(e: set<int>, v: int) {
    v > 0 && v in e && -v in e && forall x :: x in e && -x in e ==> v <= Abs(x)
  }

  /** Variables do not decrease along the list. */
  predicate AbsAscending(s: seq<int>) {
    forall i, j :: 0 <= i < j < |s| ==> Abs(s[i]) <= Abs(s[j])
  }

  /** Variables strictly increase along the list. */
  predicate AbsStrictlyAscending(s: seq<int>) {
    forall i, j :: 0 <= i < j < |s| ==> Abs(s[i]) < Abs(s[j])
  }

  predicate NonzeroLits(s: seq<int>) {
    forall i :: 0 <= i < |s| ==> s[i] != 0
  }

  /** Inserting a literal among literals ordered by variable. */
  function InsertByAbs(x: int, s: seq<int>): (r: seq<int>)
    requires AbsAscending(s)
    ensures AbsAscending(r) && multiset(r) == multiset(s) + multiset{x}
  {
    if s == [] || Abs(x) <= Abs(s[0]) then [x] + s
    else
      var r' := InsertByAbs(x, s[1..]);
      InsertKeepsHead(x, s, r');
      [s[0]] + r'
  }

  lemma InsertKeepsHead(x: int, s: seq<int>, r': seq<int>)
    requires s != [] && Abs(x) > Abs(s[0]) && AbsAscending(s) && AbsAscending(r')
    requires multiset(r') == multiset(s[1..]) + multiset{x}
    ensures AbsAscending([s[0]] + r')
    ensures multiset([s[0]] + r') == multiset(s) + multiset{x}
  {
    assert s == [s[0]] + s[1..];
    forall k | 0 <= k < |r'| ensures Abs(s[0]) <= Abs(r'[k]) {
      assert r'[k] in multiset(r');
      if r'[k] != x {
        assert r'[k] in multiset(s[1..]);
        var j :| 0 <= j < |s[1..]| && s[1..][j] == r'[k];
        assert s[j + 1] == r'[k];
      }
    }
  }

  /** std::sort with abs_less: an ordering by variable.  The order among
      literals of one variable is unspecified in the source; canonization
      does not depend on it (CanonizeBySet). */
  function SortByAbs(s: seq<int>): (r: seq<int>)
    ensures AbsAscending(r) && multiset(r) == multiset(s)
  {
    if s == [] then []
    else
      assert s == s[..|s| - 1] + [s[|s| - 1]];
      InsertByAbs(s[|s| - 1], SortByAbs(s[..|s| - 1]))
  }

  datatype ScanResult = ScanResult(tautology: bool, written: seq<int>, last: int)

  /** The compaction loop of canonize over the sorted literals: a repeat
      of the previous literal is dropped, a new variable is written, and
      the negation of the previous literal stops the scan. */
  function Scan(s: seq<int>, i: nat, last: int, w: seq<int>): ScanResult
    requires i <= |s|
    decreases |s| - i
  {
    if i == |s| then ScanResult(false, w, last)
    else
      var lit := s[i];
      if Abs(lit) == Abs(last) then
        if lit != last then ScanResult(true, w, last)
        else Scan(s, i + 1, lit, w)
      else Scan(s, i + 1, lit, w + [lit])
  }

  /** Clause::canonize: nothing when already canonized; otherwise sort by
      variable, drop repeats, and on a complementary pair become the
      tautology [v, -v]. */
  function Canonize(c: Clause): Clause {
    if c.canonized then c
    else
      Finish(Scan(SortByAbs(c.contents), 0, 0, []))
  }

  /** The canonized clause a finished scan leaves. */
  function Finish(r: ScanResult): Clause {
    var v: int := Abs(r.last);
    if r.tautology then Clause([v, -v], true, true)
    else Clause(r.written, false, true)
  }

  /** What a finished scan over literals e promises of the clause. */
  ghost predicate CanonizedFrom(r: Clause, e: set<int>) {
    && r.canonized
    && (r.tautology <==> Complementary(e))
    && (r.tautology ==> exists v :: LeastClash(e, v) && r.contents == [v, -v])
    && (!r.tautology ==> AbsStrictlyAscending(r.contents) && Elems(r.contents) == e)
  }

  /** The scan's loop invariant at read position i. */
  predicate ScanInv(s: seq<int>, i: nat, last: int, w: seq<int>) {
    && i <= |s|
    && AbsAscending(s) && NonzeroLits(s)
    && (i == 0 ==> last == 0 && w == [])
    && (i > 0 ==> last == s[i - 1] && w != [] && w[|w| - 1] == last)
    && AbsStrictlyAscending(w)
    && Elems(w) == Elems(s[..i])
    && !Complementary(Elems(s[..i]))
  }

  lemma ElemsPrefixSnoc(s: seq<int>, i: nat)
    requires i < |s|
    ensures Elems(s[..i + 1]) == Elems(s[..i]) + {s[i]}
  {
    assert s[..i + 1] == s[..i] + [s[i]];
  }

  /** A value of the prefix before i sits at some position below i. */
  lemma InPrefix(s: seq<int>, i: nat, x: int) returns (j: nat)
    requires i <= |s| && x in Elems(s[..i])
    ensures j < i && s[j] == x
  {
    var k :| 0 <= k < |s[..i]| && s[..i][k] == x;
    j := k;
  }

  /** Scan step: a repeat of the previous literal. */
  lemma ScanRepeat(s: seq<int>, i: nat, last: int, w: seq<int>)
    requires ScanInv(s, i, last, w) && i < |s| && s[i] == last
    ensures ScanInv(s, i + 1, s[i], w)
  {
    ElemsPrefixSnoc(s, i);
  }

  /** Scan step: a new variable. */
  lemma ScanNew(s: seq<int>, i: nat, last: int, w: seq<int>)
    requires ScanInv(s, i, last, w) && i < |s| && Abs(s[i]) != Abs(last)
    ensures ScanInv(s, i + 1, s[i], w + [s[i]])
  {
    ElemsPrefixSnoc(s, i);
    ScanNewOrder(s, i, last, w);
    ScanNewElems(w, s[i]);
    ScanNewNoClash(s, i, last, w);
  }

  /** Every literal before position i has a variable at most that of
      position i-1. */
  lemma PrefixBelowLast(s: seq<int>, i: nat, x: int)
    requires AbsAscending(s) && 0 < i <= |s| && x in Elems(s[..i])
    ensures Abs(x) <= Abs(s[i - 1])
  {
    var j := InPrefix(s, i, x);
    assert Abs(s[j]) <= Abs(s[i - 1]);
  }

  lemma ScanNewOrder(s: seq<int>, i: nat, last: int, w: seq<int>)
    requires ScanInv(s, i, last, w) && i < |s| && Abs(s[i]) != Abs(last)
    ensures AbsStrictlyAscending(w + [s[i]])
  {
    var lit := s[i];
    var w' := w + [lit];
    assert Abs(last) < Abs(lit) by {
      if i > 0 {
        assert Abs(s[i - 1]) <= Abs(s[i]);
      }
    }
    forall p, q | 0 <= p < q < |w'| ensures Abs(w'[p]) < Abs(w'[q]) {
      if q == |w'| - 1 {
        assert w[p] in Elems(w);
        PrefixBelowLast(s, i, w[p]);
      } else {
        assert w'[p] == w[p] && w'[q] == w[q];
      }
    }
  }

  lemma ScanNewElems(w: seq<int>, lit: int)
    ensures Elems(w + [lit]) == Elems(w) + {lit}
  {
    assert forall y :: y in w + [lit] <==> y in w || y == lit;
  }

  lemma ScanNewNoClash(s: seq<int>, i: nat, last: int, w: seq<int>)
    requires ScanInv(s, i, last, w) && i < |s| && Abs(s[i]) != Abs(last)
    ensures !Complementary(Elems(s[..i + 1]))
  {
    var lit := s[i];
    ElemsPrefixSnoc(s, i);
    forall y | y in Elems(s[..i]) ensures Abs(y) < Abs(lit) {
      PrefixBelowLast(s, i, y);
      assert Abs(s[i - 1]) <= Abs(s[i]);
    }
  }

  lemma IndexInPrefix(s: seq<int>, i: nat, k: nat)
    requires k < |s| && i <= |s|
    ensures k < i ==> s[k] in Elems(s[..i])
  {
    if k < i {
      assert s[..i][k] == s[k];
    }
  }

  /** Scan step: the negation of the previous literal; its variable is the
      least one occurring in both phases. */
  lemma ScanClash(s: seq<int>, i: nat, last: int, w: seq<int>)
    requires ScanInv(s, i, last, w) && i < |s| && Abs(s[i]) == Abs(last) && s[i] != last
    ensures Complementary(Elems(s)) && LeastClash(Elems(s), Abs(last))
  {
    var lit := s[i];
    assert i > 0 && lit == -last;
    assert s[i - 1] in Elems(s) && s[i] in Elems(s);
    var v := Abs(lit);
    assert v in Elems(s) && -v in Elems(s);
    forall x | x in Elems(s) && -x in Elems(s) ensures v <= Abs(x) {
      var j :| 0 <= j < |s| && s[j] == x;
      var k :| 0 <= k < |s| && s[k] == -x;
      if j < i {
        assert s[..i][j] == x;
        assert x in Elems(s[..i]);
        assert -x !in Elems(s[..i]);
        IndexInPrefix(s, i, k);
        assert k >= i;
        assert Abs(s[i]) <= Abs(s[k]);
      } else {
        assert Abs(s[i]) <= Abs(s[j]);
      }
    }
  }

  lemma {:induction false} ScanSpec(s: seq<int>, i: nat, last: int, w: seq<int>)
    requires ScanInv(s, i, last, w)
    ensures var r := Scan(s, i, last, w);
            && (r.tautology <==> Complementary(Elems(s)))
            && (r.tautology ==> LeastClash(Elems(s), Abs(r.last)))
            && (!r.tautology ==> AbsStrictlyAscending(r.written) && Elems(r.written) == Elems(s))
    decreases |s| - i
  {
    if i == |s| {
      assert s[..i] == s;
    } else if Abs(s[i]) == Abs(last) {
      if s[i] != last {
        ScanClash(s, i, last, w);
      } else {
        ScanRepeat(s, i, last, w);
        ScanSpec(s, i + 1, s[i], w);
      }
    } else {
      ScanNew(s, i, last, w);
      ScanSpec(s, i + 1, s[i], w + [s[i]]);
    }
  }

  lemma SameMultisetSameElems(a: seq<int>, b: seq<int>)
    requires multiset(a) == multiset(b)
    ensures Elems(a) == Elems(b)
  {
    forall x ensures x in Elems(a) <==> x in Elems(b) {
      assert x in a <==> x in multiset(a);
      assert x in b <==> x in multiset(b);
    }
  }

  /** Sorting keeps the literals, so they stay nonzero. */
  lemma SortKeepsLits(s: seq<int>)
    requires NonzeroLits(s)
    ensures Elems(SortByAbs(s)) == Elems(s) && NonzeroLits(SortByAbs(s))
    ensures AbsAscending(SortByAbs(s))
  {
    var t := SortByAbs(s);
    SameMultisetSameElems(t, s);
    forall i | 0 <= i < |t| ensures t[i] != 0 {
      assert t[i] in multiset(s);
    }
  }

  lemma ScanStart(s: seq<int>)
    requires AbsAscending(s) && NonzeroLits(s)
    ensures ScanInv(s, 0, 0, [])
  {
    assert s[..0] == [];
    assert Elems([]) == {};
  }

  /** canonize: a clause with a complementary pair becomes the tautology
      [v, -v] for the least such variable v; any other clause becomes its
      literals, each once, in strictly increasing order of variable. */
  lemma CanonizeSpec(c: Clause)
    requires !c.canonized && NonzeroLits(c.contents)
    ensures CanonizedFrom(Canonize(c), Elems(c.contents))
  {
    var s := SortByAbs(c.contents);
    SortKeepsLits(c.contents);
    ScanStart(s);
    ScanSpec(s, 0, 0, []);
    FinishSpec(Scan(s, 0, 0, []), Elems(s));
  }

  lemma FinishSpec(r: ScanResult, e: set<int>)
    requires r.tautology <==> Complementary(e)
    requires r.tautology ==> LeastClash(e, Abs(r.last))
    requires !r.tautology ==> AbsStrictlyAscending(r.written) && Elems(r.written) == e
    ensures CanonizedFrom(Finish(r), e)
  {
    if r.tautology {
      var v: int := Abs(r.last);
      assert Finish(r).contents == [v, -v];
    }
  }

  /** Two clauses with the same literals canonize alike, however the sort
      orders literals of one variable. */
  lemma CanonizeBySet(c: Clause, d: Clause)
    requires !c.canonized && !d.canonized && NonzeroLits(c.contents) && NonzeroLits(d.contents)
    requires Elems(c.contents) == Elems(d.contents)
    ensures Canonize(c) == Canonize(d)
  {
    CanonizeSpec(c);
    CanonizeSpec(d);
    CanonizedUnique(Canonize(c), Canonize(d), Elems(c.contents));
  }

  /** The canonical form of a set of literals is unique. */
  lemma CanonizedUnique(a: Clause, b: Clause, e: set<int>)
    requires CanonizedFrom(a, e) && CanonizedFrom(b, e)
    ensures a == b
  {
    if a.tautology {
      var v :| LeastClash(e, v) && a.contents == [v, -v];
      var u :| LeastClash(e, u) && b.contents == [u, -u];
      assert v <= u && u <= v;
    } else {
      AbsStrictUnique(a.contents, b.contents);
    }
  }

  lemma ElemsEmpty(s: seq<int>)
    ensures Elems(s) == {} <==> s == []
  {
    if s != [] {
      assert s[0] in Elems(s);
    }
  }

  /** The head of a list strictly ascending by variable has the least
      variable. */
  lemma HeadLeast(a: seq<int>, k: nat)
    requires AbsStrictlyAscending(a) && k < |a|
    ensures Abs(a[0]) <= Abs(a[k])
    ensures k > 0 ==> Abs(a[0]) < Abs(a[k])
  {
  }

  /** Two such lists with the same set start with the same literal. */
  lemma HeadsEqual(a: seq<int>, b: seq<int>)
    requires AbsStrictlyAscending(a) && AbsStrictlyAscending(b)
    requires a != [] && b != [] && Elems(a) == Elems(b)
    ensures a[0] == b[0]
  {
    assert a[0] in Elems(b) && b[0] in Elems(a);
    var j :| 0 <= j < |b| && b[j] == a[0];
    var k :| 0 <= k < |a| && a[k] == b[0];
    HeadLeast(a, k);
    HeadLeast(b, j);
    assert j == 0;
  }

  /** ... and then have the same set after it. */
  lemma TailsSameElems(a: seq<int>, b: seq<int>)
    requires AbsStrictlyAscending(a) && AbsStrictlyAscending(b)
    requires a != [] && b != [] && a[0] == b[0] && Elems(a) == Elems(b)
    ensures Elems(a[1..]) == Elems(b[1..])
  {
    forall x ensures x in Elems(a[1..]) <==> x in Elems(b[1..]) {
      if x in a[1..] {
        var p :| 1 <= p < |a| && a[p] == x;
        HeadLeast(a, p);
        assert x in Elems(b) && x != b[0];
      }
      if x in b[1..] {
        var p :| 1 <= p < |b| && b[p] == x;
        HeadLeast(b, p);
        assert x in Elems(a) && x != a[0];
      }
    }
  }

  /** Literals listed by strictly increasing variable are determined by
      their set. */
  lemma {:induction false} AbsStrictUnique(a: seq<int>, b: seq<int>)
    requires AbsStrictlyAscending(a) && AbsStrictlyAscending(b)
    requires Elems(a) == Elems(b)
    ensures a == b
    decreases |a|
  {
    if a == [] || b == [] {
      ElemsEmpty(a);
      ElemsEmpty(b);
    } else {
      HeadsEqual(a, b);
      TailsSameElems(a, b);
      AbsStrictUnique(a[1..], b[1..]);
      assert a == [a[0]] + a[1..] && b == [b[0]] + b[1..];
    }
  }

  /** make_tautology: the first literal and its negation. */
  function MakeTautology(c: Clause): (r: Clause)
    requires |c.contents| >= 1
    ensures r.tautology && r.canonized && Length(r) == 0
    ensures r.contents == [c.contents[0], -c.contents[0]]
  {
    Clause([c.contents[0], -c.contents[0]], true, true)
  }

  /** simplify(units): nothing (NULL) when a visible literal is a unit;
      otherwise the visible literals whose negation is not a unit, in
      order. */
  function Simplify(c: Clause, units: set<int>): (r: Option<seq<int>>)
    ensures r.None? <==> exists i :: 0 <= i < Length(c) && c.contents[i] in units
    ensures r.Some? ==> r.value == Residue(Visible(c), units)
  {
    SimplifyFrom(Visible(c), units)
  }

  /** The literals whose negation is not a unit, in order. */
  function Residue(s: seq<int>, units: set<int>): (r: seq<int>)
    ensures forall i :: 0 <= i < |r| ==> r[i] in s && -r[i] !in units
    ensures forall x :: x in s && -x !in units ==> x in r
  {
    if s == [] then []
    else
      var rest := Residue(s[1..], units);
      assert forall x :: x in s && x != s[0] ==> x in s[1..];
      if -s[0] in units then rest else [s[0]] + rest
  }

  /** The simplify loop, front to back. */
  function SimplifyFrom(s: seq<int>, units: set<int>): (r: Option<seq<int>>)
    ensures r.None? <==> exists i :: 0 <= i < |s| && s[i] in units
    ensures r.Some? ==> r.value == Residue(s, units)
  {
    if s == [] then Some([])
    else if s[0] in units then None
    else
      var rest := SimplifyFrom(s[1..], units);
      assert (exists i :: 0 <= i < |s| && s[i] in units) <==> (exists i :: 0 <= i < |s[1..]| && s[1..][i] in units) by {
        if exists i :: 0 <= i < |s| && s[i] in units {
          var i :| 0 <= i < |s| && s[i] in units;
          assert s[1..][i - 1] == s[i];
        }
      }
      match rest
      case None => None
      case Some(lits) => Some(if -s[0] in units then lits else [s[0]] + lits)
  }

  /** A literal is true under a 0/1 assignment to variables 1..n (entry
      v-1 for variable v). */
  predicate LitSatisfied(assignment: seq<int>, lit: int) {
    (lit < 0 && -lit - 1 < |assignment| && assignment[-lit - 1] == 0)
    || (lit > 0 && lit - 1 < |assignment| && assignment[lit - 1] == 1)
  }

  predicate InAssignment(c: Clause, assignment: seq<int>) {
    forall i :: 0 <= i < |c.contents| ==> 1 <= Abs(c.contents[i]) <= |assignment|
  }

  /** Clause::satisfied: a tautology always; otherwise some literal
      agrees with the assignment. */
  function Satisfied(c: Clause, assignment: seq<int>): (b: bool)
    requires InAssignment(c, assignment)
    ensures b <==> c.tautology || exists i :: 0 <= i < |c.contents| && LitSatisfied(assignment, c.contents[i])
  {
    c.tautology || SomeSatisfied(c.contents, assignment)
  }

  function SomeSatisfied(s: seq<int>, assignment: seq<int>): (b: bool)
    ensures b <==> exists i :: 0 <= i < |s| && LitSatisfied(assignment, s[i])
  {
    if s == [] then false
    else if LitSatisfied(assignment, s[0]) then true
    else
      var b := SomeSatisfied(s[1..], assignment);
      assert b <==> exists i :: 1 <= i < |s| && LitSatisfied(assignment, s[i]) by {
        if exists i :: 1 <= i < |s| && LitSatisfied(assignment, s[i]) {
          var i :| 1 <= i < |s| && LitSatisfied(assignment, s[i]);
          assert s[1..][i - 1] == s[i];
        }
      }
      b
  }
}
