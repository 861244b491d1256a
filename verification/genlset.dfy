/** The generator's Literal_set: one int per variable, stamped with the
    generation of the clause last loaded.  Entry v-1 holds +generation
    when literal v was loaded last and -generation when -v was, so
    loading a new clause forgets every earlier one without clearing the
    array.  The 32-bit generation counter is unbounded here. */
module ClauseLiteralSet {
  import opened Literals

  datatype StampSet = StampSet(lastGen: seq<int>, generation: int)

  /** Every entry is older than or as old as the current generation. */
  predicate Valid(s: StampSet) {
    s.generation >= 1
    && forall k :: 0 <= k < |s.lastGen| ==> -s.generation <= s.lastGen[k] <= s.generation
  }

  /** The literals over variables 1..nvar. */
  predicate InRange(s: StampSet, lit: int) {
    lit != 0 && Abs(lit) <= |s.lastGen|
  }

  /** contains(lit): the entry of lit's variable carries the current
      generation with lit's sign. */
  predicate Contains(s: StampSet, lit: int)
    requires InRange(s, lit)
  {
    if lit < 0 then s.lastGen[-lit - 1] == -s.generation
    else s.lastGen[lit - 1] == s.generation
  }

  /** Literal_set(nvar): nvar zeros and generation 1; it holds nothing. */
  function New(nvar: nat): (s: StampSet)
    ensures Valid(s) && |s.lastGen| == nvar
    ensures forall lit :: InRange(s, lit) ==> !Contains(s, lit)
  {
    StampSet(seq(nvar, _ => 0), 1)
  }

  /** No literal of the list meets its negation. */
  predicate Consistent(lits: seq<int>) {
    forall i, j :: 0 <= i < |lits| && 0 <= j < |lits| ==> lits[i] != -lits[j]
  }

  /** load_clause(cp) over the visible literals: a new generation, then
      each literal stamped in turn.  Afterwards the set holds exactly the
      clause's literals, whatever was loaded before. */
  method LoadClause(s: StampSet, lits: seq<int>) returns (s': StampSet)
    requires Valid(s)
    requires forall i :: 0 <= i < |lits| ==> InRange(s, lits[i])
    requires Consistent(lits)
    ensures Valid(s') && |s'.lastGen| == |s.lastGen| && s'.generation == s.generation + 1
    ensures forall lit :: InRange(s', lit) ==> (Contains(s', lit) <==> lit in lits)
  {
    var g := s.generation + 1;
    var a := s.lastGen;
    var i := 0;
    while i < |lits|
      invariant 0 <= i <= |lits| && |a| == |s.lastGen|
      invariant forall k :: 0 <= k < |a| ==> -g <= a[k] <= g
      invariant forall k :: 0 <= k < |a| ==> (a[k] == g <==> k + 1 in lits[..i])
      invariant forall k :: 0 <= k < |a| ==> (a[k] == -g <==> -(k + 1) in lits[..i])
    {
      var lit := lits[i];
      assert lits[..i + 1] == lits[..i] + [lit];
      if lit < 0 {
        a := a[-lit - 1 := -g];
      } else {
        a := a[lit - 1 := g];
      }
      i := i + 1;
    }
    assert lits[..i] == lits;
    s' := StampSet(a, g);
  }
}
