/** The checker's generation-stamped set of literals.  The array holds one
    int per variable: +generation means the positive literal is in the
    set, -generation the negative one, and any entry of smaller magnitude
    means neither.  Clearing the set only bumps the generation; the array
    is zeroed when the 32-bit generation counter would wrap around. */
module LiteralSet {

  import opened Literals

  const MIN_SIZE: nat := 10

  datatype LSet = LSet(generation: int, entries: seq<int>)

  /** The state before lset_init: generation 0 and no array. */
  const Uninitialized: LSet := LSet(0, [])

  /** Either not yet initialised, or a positive generation that bounds
      every entry. */
  predicate Valid(s: LSet) {
    s == Uninitialized
    || (1 <= s.generation <= INT_MAX
        && forall k :: 0 <= k < |s.entries| ==> -s.generation <= s.entries[k] <= s.generation)
  }

  /** lset_init(var): an array of max(MIN_SIZE, var) zeros, generation 1. */
  function Init(v: int): (s: LSet)
    ensures Valid(s) && s.generation == 1
    ensures |s.entries| >= MIN_SIZE && |s.entries| >= v
    ensures forall k :: 0 <= k < |s.entries| ==> s.entries[k] == 0
  {
    var size := if v > MIN_SIZE then v else MIN_SIZE;
    LSet(1, seq(size, _ => 0))
  }

  /** lset_get_lit(var): var or -var when that literal is in the set, 0
      otherwise (also for a variable outside the array). */
  function GetLit(s: LSet, v: int): int {
    if v <= 0 || v > |s.entries| then 0
    else if s.entries[v - 1] == s.generation then v
    else if s.entries[v - 1] == -s.generation then -v
    else 0
  }

  /** The literals in the set. */
  predicate Has(s: LSet, lit: int) {
    lit != 0 && GetLit(s, Abs(lit)) == lit
  }

  /** lset_clear: the next generation, or a zeroed array and generation 1
      when incrementing the 32-bit counter would make it negative. */
  method Clear(s: LSet) returns (s': LSet)
    requires Valid(s)
    ensures Valid(s')
    ensures |s'.entries| == |s.entries|
    ensures forall lit :: !Has(s', lit)
  {
    if s.generation + 1 <= INT_MAX {
      s' := s.(generation := s.generation + 1);
      assert s' != Uninitialized ==> s'.generation >= 1;
      forall lit ensures !Has(s', lit) {
        if lit != 0 && Abs(lit) <= |s.entries| {
          assert -s.generation <= s.entries[Abs(lit) - 1] <= s.generation;
        }
      }
    } else {
      var zeros: seq<int> := [];
      var v := 1;
      while v <= |s.entries|
        invariant 1 <= v <= |s.entries| + 1
        invariant |zeros| == v - 1
        invariant forall k :: 0 <= k < |zeros| ==> zeros[k] == 0
      {
        zeros := zeros + [0];
        v := v + 1;
      }
      s' := LSet(1, zeros);
    }
  }

  /** The size lset_check_size grows the array to: GROW_RATIO (1.45)
      times the old size, at least var. */
  function GrownSize(asize: nat, v: nat): (n: nat)
    ensures n >= v && n >= asize
  {
    var g := asize * 145 / 100;
    if g < v then v else g
  }

  /** lset_check_size(var): nothing when var fits; lset_init when there is
      no array yet; otherwise the array is extended with zeros. */
  method CheckSize(s: LSet, v: int) returns (s': LSet)
    requires Valid(s)
    requires v >= 1
    ensures Valid(s') && s' != Uninitialized
    ensures v <= |s'.entries|
    ensures |s'.entries| >= |s.entries|
    ensures forall u :: GetLit(s', u) == GetLit(s, u)
  {
    if v <= |s.entries| {
      return s;
    }
    if |s.entries| == 0 {
      s' := Init(v);
      forall u ensures GetLit(s', u) == GetLit(s, u) {
      }
      return;
    }
    var nasize := GrownSize(|s.entries|, v);
    var e := s.entries;
    var nv := |s.entries| + 1;
    while nv <= nasize
      invariant |s.entries| + 1 <= nv <= nasize + 1
      invariant |e| == nv - 1
      invariant e[..|s.entries|] == s.entries
      invariant forall k :: |s.entries| <= k < |e| ==> e[k] == 0
    {
      e := e + [0];
      nv := nv + 1;
    }
    s' := s.(entries := e);
    forall u ensures GetLit(s', u) == GetLit(s, u) {
      if 0 < u <= |s.entries| {
        assert e[u - 1] == e[..|s.entries|][u - 1];
      }
    }
  }

  /** lset_add_lit(lit): false when the opposite literal is present;
      otherwise lit is recorded with the current generation. */
  method AddLit(s: LSet, lit: int) returns (ok: bool, s': LSet)
    requires Valid(s)
    requires lit != 0 && -INT_MAX <= lit <= INT_MAX
    ensures Valid(s')
    ensures ok <==> !Has(s, -lit)
    ensures !ok ==> s' == s
    ensures ok ==> Has(s', lit) && !Has(s', -lit)
    ensures ok ==> forall u :: u != Abs(lit) ==> GetLit(s', u) == GetLit(s, u)
  {
    var v := Abs(lit);
    var t := CheckSize(s, v);
    var olit := GetLit(t, v);
    if olit != 0 && olit != lit {
      return false, s;
    }
    var val := if lit > 0 then t.generation else -t.generation;
    s' := t.(entries := t.entries[v - 1 := val]);
    ok := true;
    forall u | u != v ensures GetLit(s', u) == GetLit(t, u) {
    }
  }
}
