/** The checker's reverse-unit-propagation (RUP) step.  The literal set
    holds the negation of the target clause plus the units derived so far;
    each hint clause must either become unit (its one unassigned literal
    is added) or, at the end, be falsified completely.  The type of each
    hint clause must also suit the type of the target clause. */
module Rup {

  import opened Wrappers
  import opened Literals
  import opened LiteralSet
  import opened ClauseBlocks
  import opened Tokenizer

  /** rup_unit_prop's two special results. */
  const RUP_CONFLICT: int := INT_MAX
  const RUP_STALL: int := 0

  predicate IsTrue(s: LSet, lit: int) {
    Has(s, lit)
  }

  predicate IsFalse(s: LSet, lit: int) {
    Has(s, -lit)
  }

  predicate Unassigned(s: LSet, lit: int) {
    !IsTrue(s, lit) && !IsFalse(s, lit)
  }

  /** The distinct unassigned literals of a clause. */
  function UnassignedLits(s: LSet, lits: seq<int>): set<int> {
    set lit | lit in lits && Unassigned(s, lit)
  }

  predicate SomeTrue(s: LSet, lits: seq<int>) {
    exists k :: 0 <= k < |lits| && IsTrue(s, lits[k])
  }

  predicate TwoDistinct(u: set<int>) {
    exists a, b :: a in u && b in u && a != b
  }

  /** The scan of rup_unit_prop, with the unassigned literal found so far
      (RUP_CONFLICT while there is none).  A repeat of that literal is
      skipped; a true literal or a second unassigned one stalls. */
  function UnitPropFrom(s: LSet, lits: seq<int>, unit: int): int
    decreases |lits|
  {
    if lits == [] then unit
    else
      var lit := lits[0];
      if lit == unit then UnitPropFrom(s, lits[1..], unit)
      else
        var rlit := GetLit(s, Abs(lit));
        if rlit == lit then RUP_STALL
        else if rlit == -lit then UnitPropFrom(s, lits[1..], unit)
        else if unit == RUP_CONFLICT then UnitPropFrom(s, lits[1..], lit)
        else RUP_STALL
  }

  /** rup_unit_prop over the literals of a hint clause. */
  function UnitProp(s: LSet, lits: seq<int>): int {
    UnitPropFrom(s, lits, RUP_CONFLICT)
  }

  /** The clause literals the checker can hold: nonzero (0 ends a clause)
      and different from the RUP_CONFLICT marker. */
  predicate Proper(lits: seq<int>) {
    forall k :: 0 <= k < |lits| ==> lits[k] != 0 && lits[k] != RUP_CONFLICT
  }

  /** The unassigned literals the scan has to account for: those of the
      rest of the clause and the one already found. */
  function Pending(s: LSet, lits: seq<int>, unit: int): set<int> {
    UnassignedLits(s, lits) + (if unit == RUP_CONFLICT then {} else {unit})
  }

  /** What a scan result r means for the literals still to be read. */
  predicate ScanMeaning(s: LSet, lits: seq<int>, unit: int, r: int) {
    var u := Pending(s, lits, unit);
    && (r == RUP_STALL <==> SomeTrue(s, lits) || TwoDistinct(u))
    && (r == RUP_CONFLICT <==> !SomeTrue(s, lits) && u == {})
    && (r != RUP_STALL && r != RUP_CONFLICT ==> !SomeTrue(s, lits) && u == {r})
  }

  lemma {:induction false} UnitPropFromSpec(s: LSet, lits: seq<int>, unit: int)
    requires Proper(lits)
    requires unit == RUP_CONFLICT || (unit != 0 && Unassigned(s, unit))
    ensures ScanMeaning(s, lits, unit, UnitPropFrom(s, lits, unit))
    decreases |lits|
  {
    if lits == [] {
      assert UnassignedLits(s, lits) == {};
      assert !SomeTrue(s, lits);
      if unit != RUP_CONFLICT {
        assert !TwoDistinct({unit});
      }
    } else {
      var lit := lits[0];
      var rest := lits[1..];
      assert Proper(rest);
      ScanSplit(s, lits);
      var rlit := GetLit(s, Abs(lit));
      if lit == unit {
        UnitPropFromSpec(s, rest, unit);
        SameMeaning(s, lits, unit, rest, unit, UnitPropFrom(s, rest, unit));
      } else if rlit == lit {
        assert IsTrue(s, lit);
      } else if rlit == -lit {
        assert IsFalse(s, lit) && !Unassigned(s, lit);
        UnitPropFromSpec(s, rest, unit);
        SameMeaning(s, lits, unit, rest, unit, UnitPropFrom(s, rest, unit));
      } else if unit == RUP_CONFLICT {
        assert Unassigned(s, lit);
        UnitPropFromSpec(s, rest, lit);
        SameMeaning(s, lits, unit, rest, lit, UnitPropFrom(s, rest, lit));
      } else {
        assert Unassigned(s, lit);
        assert TwoDistinct(Pending(s, lits, unit)) by {
          assert lit in Pending(s, lits, unit) && unit in Pending(s, lits, unit);
        }
      }
    }
  }

  /** The first literal of a clause against the rest. */
  lemma ScanSplit(s: LSet, lits: seq<int>)
    requires |lits| > 0
    ensures UnassignedLits(s, lits) == (if Unassigned(s, lits[0]) then {lits[0]} else {}) + UnassignedLits(s, lits[1..])
    ensures SomeTrue(s, lits) <==> IsTrue(s, lits[0]) || SomeTrue(s, lits[1..])
  {
    var rest := lits[1..];
    assert forall x :: x in lits <==> x == lits[0] || x in rest;
    if SomeTrue(s, rest) {
      var k :| 0 <= k < |rest| && IsTrue(s, rest[k]);
      assert lits[k + 1] == rest[k];
    }
  }

  /** Two scans with the same literals to account for mean the same. */
  lemma SameMeaning(s: LSet, lits: seq<int>, unit: int, rest: seq<int>, unit': int, r: int)
    requires SomeTrue(s, lits) == SomeTrue(s, rest)
    requires Pending(s, lits, unit) == Pending(s, rest, unit')
    requires ScanMeaning(s, rest, unit', r)
    ensures ScanMeaning(s, lits, unit, r)
  {
  }

  /** rup_unit_prop stalls when some literal is true or two distinct
      literals are unassigned, reports a conflict when every literal is
      false, and otherwise returns the one unassigned literal, repeats of
      it included. */
  lemma UnitPropSpec(s: LSet, lits: seq<int>)
    requires Proper(lits)
    ensures var r := UnitProp(s, lits);
            && (r == RUP_STALL <==> SomeTrue(s, lits) || TwoDistinct(UnassignedLits(s, lits)))
            && (r == RUP_CONFLICT <==> forall k :: 0 <= k < |lits| ==> IsFalse(s, lits[k]))
            && (r != RUP_STALL && r != RUP_CONFLICT ==>
                  r in lits && Unassigned(s, r)
                  && forall k :: 0 <= k < |lits| ==> lits[k] == r || IsFalse(s, lits[k]))
  {
    UnitPropFromSpec(s, lits, RUP_CONFLICT);
    var u := UnassignedLits(s, lits);
    assert u + {} == u;
    forall k | 0 <= k < |lits| && !SomeTrue(s, lits) && !IsFalse(s, lits[k])
      ensures lits[k] in u
    {
      assert !IsTrue(s, lits[k]);
    }
    if forall k :: 0 <= k < |lits| ==> IsFalse(s, lits[k]) {
      forall k | 0 <= k < |lits| ensures !IsTrue(s, lits[k]) {
        assert IsFalse(s, lits[k]);
        AtMostOnePolarity(s, lits[k]);
      }
      assert u == {};
    }
  }

  /** A literal and its negation are never both in the set. */
  lemma AtMostOnePolarity(s: LSet, lit: int)
    ensures !(IsTrue(s, lit) && IsFalse(s, lit))
  {
  }

  /** rup_setup: the set is cleared and loaded with the negations of the
      target clause's literals; false when the clause holds some literal
      together with its negation. */
  method RupSetup(s: LSet, lits: seq<int>) returns (ok: bool, s': LSet)
    requires LiteralSet.Valid(s)
    requires forall k :: 0 <= k < |lits| ==> lits[k] != 0 && -INT_MAX <= lits[k] <= INT_MAX
    ensures LiteralSet.Valid(s')
    ensures ok <==> !exists i, j :: 0 <= i < j < |lits| && lits[j] == -lits[i]
    ensures ok ==> forall lit :: Has(s', lit) <==> -lit in lits
  {
    s' := Clear(s);
    var i := 0;
    while i < |lits|
      invariant 0 <= i <= |lits|
      invariant LiteralSet.Valid(s')
      invariant forall lit :: Has(s', lit) <==> -lit in lits[..i]
      invariant !exists p, q :: 0 <= p < q < i && lits[q] == -lits[p]
    {
      var lit := lits[i];
      var prev := s';
      var added;
      added, s' := AddLit(s', -lit);
      if !added {
        assert Has(prev, lit);
        var p :| 0 <= p < i && lits[p] == -lit;
        return false, s';
      }
      SetupStep(lits, i, prev, s');
      i := i + 1;
    }
    assert lits[..i] == lits;
    ok := true;
  }

  /** Adding the negation of literal i keeps the set equal to the
      negations of the literals read. */
  lemma SetupStep(lits: seq<int>, i: nat, prev: LSet, s': LSet)
    requires i < |lits| && forall k :: 0 <= k < |lits| ==> lits[k] != 0
    requires forall lit :: Has(prev, lit) <==> -lit in lits[..i]
    requires Has(s', -lits[i]) && !Has(s', lits[i]) && !Has(prev, lits[i])
    requires forall u :: u != Abs(lits[i]) ==> GetLit(s', u) == GetLit(prev, u)
    ensures forall lit :: Has(s', lit) <==> -lit in lits[..i + 1]
  {
    var lit := lits[i];
    assert lits[..i + 1] == lits[..i] + [lit];
    assert -lit !in lits[..i];
    forall x ensures Has(s', x) <==> -x in lits[..i + 1] {
      if x == 0 {
        assert 0 !in lits[..i + 1];
      } else if Abs(x) != Abs(lit) {
        assert GetLit(s', Abs(x)) == GetLit(prev, Abs(x));
        assert Has(s', x) == Has(prev, x) && -x != lit;
      } else if x == lit {
        assert -lit != lit;
      } else {
        assert x == -lit;
        assert lits[..i + 1][i] == lit;
      }
    }
  }

  /** The hint table of rup_run: may a hint clause of type htype be used
      in the proof of a clause of type target? */
  predicate HintAllowed(htype: ClauseType, target: ClauseType) {
    match htype
    case Tseitin => true
    case Forward => target == Forward || target == Root
    case Input => target == Forward || target == Root || target == Input
    case Skolem => target == Input
    case Root => target == Input
    case Structural => target == Forward || target == Root || target == Structural
    case Disable => target == Forward || target == Root || target == Structural
    case Unknown => false
  }

  /** The same table read by target: the hint types each target accepts. */
  function AcceptedHints(target: ClauseType): set<ClauseType> {
    match target
    case Input => {Tseitin, Input, Skolem, Root}
    case Forward => {Tseitin, Forward, Input, Structural, Disable}
    case Root => {Tseitin, Forward, Input, Structural, Disable}
    case Structural => {Tseitin, Structural, Disable}
    case Tseitin => {Tseitin}
    case Skolem => {Tseitin}
    case Disable => {Tseitin}
    case Unknown => {Tseitin}
  }

  lemma HintTableByTarget(htype: ClauseType, target: ClauseType)
    ensures HintAllowed(htype, target) <==> htype in AcceptedHints(target)
  {
  }

  /** What one hint does: an error, a crash, or a new value of the
      "hint types allowed so far" flag with rup_unit_prop's result. */
  datatype StepResult = StepFail(msg: string) | StepCrash | Stepped(ok: bool, unit: int)

  /** One hint as rup_run handles it: find_clause, then the type table,
      then rup_unit_prop on the literals clause_locate returns.  For a null
      entry, which find_clause does locate, clause_locate returns NULL and
      rup_unit_prop reads through it. */
  function HintStepAsWritten(e: Option<Entry>, s: LSet, ok: bool, target: ClauseType): (r: StepResult)
    ensures r.StepCrash? <==> e == Some(Null)
  {
    match e
    case None => StepFail("invalid hint clause")
    case Some(Null) => StepCrash
    case Some(Clause(t, lits)) => Stepped(ok && HintAllowed(t, target), UnitProp(s, lits))
  }

  /** The same step with a null entry rejected as an invalid hint. */
  function HintStep(e: Option<Entry>, s: LSet, ok: bool, target: ClauseType): (r: StepResult)
    ensures !r.StepCrash?
    ensures r.Stepped? <==> e.Some? && e.value.Clause?
    ensures r.Stepped? ==> (r.ok <==> ok && HintAllowed(e.value.ctype, target))
    ensures e.Some? && e.value.Clause? ==> HintStepAsWritten(e, s, ok, target) == r
  {
    match e
    case None => StepFail("invalid hint clause")
    case Some(Null) => StepFail("invalid hint clause")
    case Some(Clause(t, lits)) => Stepped(ok && HintAllowed(t, target), UnitProp(s, lits))
  }

  /** Clauses 1, 2 and 5 added in order: ids 3 and 4 become null entries
      of the first block. */
  function GapStore(): Store {
    Store([Block(1, [Clause(Input, [1]), Clause(Input, [2]), Null, Null, Clause(Input, [-1, -2])])], 5, 3)
  }

  /** A hint naming id 3 of that store: find_clause succeeds, and the
      step as written crashes where the corrected one reports an invalid
      hint. */
  lemma GapHintCrashes(s: LSet, ok: bool, target: ClauseType)
    ensures ClauseBlocks.Valid(GapStore())
    ensures EntryOf(GapStore().blocks, 3) == Some(Null)
    ensures HintStepAsWritten(EntryOf(GapStore().blocks, 3), s, ok, target) == StepCrash
    ensures HintStep(EntryOf(GapStore().blocks, 3), s, ok, target).StepFail?
  {
  }

  /** A token of the hint list, as token_next returns it. */
  datatype Token = Token(ttype: TokType, value: int)

  /** The hint clause a token names is a clause of a type the target
      accepts. */
  predicate AcceptedHint(st: Store, t: Token, target: ClauseType) {
    var e := EntryOf(st.blocks, t.value);
    e.Some? && e.value.Clause? && HintAllowed(e.value.ctype, target)
  }

  /** The shape of an accepted hint list: hints 0..c were used, each a
      clause whose type the target accepts, and the list ends with the 0
      at m, right after c unless early_rup skipped the hints in between. */
  predicate AcceptedRun(st: Store, target: ClauseType, earlyRup: bool, toks: seq<Token>, c: int, m: int) {
    0 <= c < m < |toks|
    && NonzeroInts(toks[..m]) && toks[m] == Token(TInt, 0)
    && (forall k :: 0 <= k <= c ==> AcceptedHint(st, toks[k], target))
    && (!earlyRup ==> c == m - 1)
  }

  /** What a hint before the conflict does to the literal set: it names a
      clause that does not conflict; a unit is added and nothing else
      changes, and a stall (allowed only with skipping_rup) changes
      nothing. */
  ghost predicate HintEffect(st: Store, skippingRup: bool, t: Token, a: LSet, b: LSet) {
    var e := EntryOf(st.blocks, t.value);
    && e.Some? && e.value.Clause?
    && var u := UnitProp(a, e.value.lits);
       && u != RUP_CONFLICT
       && (u == RUP_STALL ==> skippingRup && b == a)
       && (u != RUP_STALL ==> forall lit :: Has(b, lit) <==> Has(a, lit) || lit == u)
  }

  /** The hint names a clause whose every literal is false in the set. */
  predicate Conflicts(st: Store, t: Token, a: LSet) {
    var e := EntryOf(st.blocks, t.value);
    && e.Some? && e.value.Clause?
    && forall k :: 0 <= k < |e.value.lits| ==> IsFalse(a, e.value.lits[k])
  }

  /** trace lists the literal set before each hint used so far and after
      the last one, starting from s. */
  ghost predicate Replayed(st: Store, skippingRup: bool, toks: seq<Token>, s: LSet, trace: seq<LSet>) {
    && 1 <= |trace| <= |toks| + 1
    && trace[0] == s
    && forall k :: 0 <= k < |trace| - 1 ==> HintEffect(st, skippingRup, toks[k], trace[k], trace[k + 1])
  }

  /** A successful rup_run: an accepted hint list whose hints before c
      each give a unit (or, with skipping_rup, stall) on the set built so
      far, and whose hint c then has every literal false. */
  ghost predicate RupCertified(st: Store, s: LSet, target: ClauseType, earlyRup: bool, skippingRup: bool,
                         toks: seq<Token>, c: int, m: int, trace: seq<LSet>) {
    && AcceptedRun(st, target, earlyRup, toks, c, m)
    && |trace| == c + 1
    && Replayed(st, skippingRup, toks, s, trace)
    && Conflicts(st, toks[c], trace[c])
  }

  lemma ReplayedSnoc(st: Store, skippingRup: bool, toks: seq<Token>, s: LSet, trace: seq<LSet>, b: LSet)
    requires Replayed(st, skippingRup, toks, s, trace) && |trace| <= |toks|
    requires HintEffect(st, skippingRup, toks[|trace| - 1], trace[|trace| - 1], b)
    ensures Replayed(st, skippingRup, toks, s, trace + [b])
  {
    var t := trace + [b];
    forall k | 0 <= k < |t| - 1 ensures HintEffect(st, skippingRup, toks[k], t[k], t[k + 1]) {
      if k < |trace| - 1 {
        assert t[k] == trace[k] && t[k + 1] == trace[k + 1];
      }
    }
  }

  predicate NonzeroInts(toks: seq<Token>) {
    forall k :: 0 <= k < |toks| ==> toks[k].ttype == TInt && toks[k].value != 0
  }

  /** rup_run (with null entries rejected): hints are read until the 0
      that ends the list.  The last hint must give a conflict, or, with
      early_rup, any hint, the rest up to the 0 being skipped.  Before
      the conflict every hint must give a unit, which is added, unless
      skipping_rup lets a stalled hint pass.  Every hint up to the conflict
      must be a clause whose type suits the target.  Reading past the end
      of the tokens is reading the end-of-file token, an error. */
  method RupRun(st: Store, s: LSet, target: ClauseType, earlyRup: bool, skippingRup: bool, toks: seq<Token>)
    returns (r: Result<LSet, string>)
    requires ClauseBlocks.Valid(st) && LiteralSet.Valid(s)
    requires ProperStore(st)
    ensures r.Success? ==> LiteralSet.Valid(r.value)
    ensures r.Success? ==>
              exists c, m, trace :: RupCertified(st, s, target, earlyRup, skippingRup, toks, c, m, trace)
                                    && r.value == trace[c]
    ensures |toks| == 0 || toks[0].ttype != TInt ==> r.Failure?
  {
    var cur := s;
    var conflict := false;
    var ok := true;
    var i := 0;
    ghost var trace := [s];
    while i < |toks|
      invariant 0 <= i <= |toks|
      invariant LiteralSet.Valid(cur)
      invariant NonzeroInts(toks[..i])
      invariant conflict ==> i >= 1
      invariant ok ==> forall k :: 0 <= k < i ==> AcceptedHint(st, toks[k], target)
      invariant |trace| == (if conflict then i else i + 1)
      invariant Replayed(st, skippingRup, toks, s, trace) && trace[|trace| - 1] == cur
      invariant conflict ==> Conflicts(st, toks[i - 1], cur)
    {
      var t := toks[i];
      if t.ttype == TStar {
        return Failure("this checker requires explicit hints");
      } else if t.ttype != TInt {
        return Failure("expecting integer hint");
      } else if t.value == 0 || conflict {
        r := FinishRun(st, s, target, earlyRup, skippingRup, toks, i, conflict, ok, cur, trace);
        return;
      }
      var h := UseHint(st, cur, ok, target, skippingRup, t);
      if h.Failure? {
        return Failure(h.error);
      }
      assert toks[..i + 1] == toks[..i] + [t];
      if !h.value.conflict {
        ReplayedSnoc(st, skippingRup, toks, s, trace, h.value.cur);
        trace := trace + [h.value.cur];
      }
      cur, ok, conflict := h.value.cur, h.value.ok, h.value.conflict;
      i := i + 1;
    }
    return Failure("expecting integer hint");
  }

  /** The truth of a literal under an assignment to its variable. */
  predicate LitTrue(val: int -> bool, lit: int) {
    if lit > 0 then val(lit) else !val(-lit)
  }

  /** The hint names a clause that the assignment satisfies. */
  ghost predicate HintSatisfied(st: Store, t: Token, val: int -> bool) {
    var e := EntryOf(st.blocks, t.value);
    && e.Some? && e.value.Clause?
    && exists j :: 0 <= j < |e.value.lits| && LitTrue(val, e.value.lits[j])
  }

  lemma {:induction false} EntryOfMember(blocks: seq<Block>, cid: int)
    requires EntryOf(blocks, cid).Some?
    ensures exists b, p :: 0 <= b < |blocks| && 0 <= p < |blocks[b].entries|
                           && blocks[b].entries[p] == EntryOf(blocks, cid).value
  {
    var last := blocks[|blocks| - 1];
    if InBlock(last, cid) {
      assert blocks[|blocks| - 1].entries[cid - last.startId] == EntryOf(blocks, cid).value;
    } else {
      var init := blocks[..|blocks| - 1];
      EntryOfMember(init, cid);
      var b, p :| 0 <= b < |init| && 0 <= p < |init[b].entries| && init[b].entries[p] == EntryOf(init, cid).value;
      assert blocks[b] == init[b];
    }
  }

  lemma EntryInRange(st: Store, t: Token)
    requires ProperStore(st)
    requires EntryOf(st.blocks, t.value).Some? && EntryOf(st.blocks, t.value).value.Clause?
    ensures InRange(EntryOf(st.blocks, t.value).value.lits)
  {
    EntryOfMember(st.blocks, t.value);
  }

  /** An assignment that makes every literal of s true and satisfies the
      hints used so far makes every literal of each later set true. */
  lemma {:induction false} ReplayKeepsTrue(st: Store, skippingRup: bool, toks: seq<Token>, s: LSet,
                                           trace: seq<LSet>, val: int -> bool, k: nat)
    requires ProperStore(st) && Replayed(st, skippingRup, toks, s, trace) && k < |trace|
    requires forall l :: Has(s, l) ==> LitTrue(val, l)
    requires forall j :: 0 <= j < k ==> HintSatisfied(st, toks[j], val)
    ensures forall l :: Has(trace[k], l) ==> LitTrue(val, l)
  {
    if k > 0 {
      ReplayKeepsTrue(st, skippingRup, toks, s, trace, val, k - 1);
      var a, b := trace[k - 1], trace[k];
      assert HintEffect(st, skippingRup, toks[k - 1], a, b);
      assert HintSatisfied(st, toks[k - 1], val);
      var lits := EntryOf(st.blocks, toks[k - 1].value).value.lits;
      EntryInRange(st, toks[k - 1]);
      UnitPropSpec(a, lits);
      var u := UnitProp(a, lits);
      if u != RUP_STALL {
        forall j | 0 <= j < |lits| && lits[j] != u ensures !LitTrue(val, lits[j]) {
          assert Has(a, -lits[j]);
        }
        assert LitTrue(val, u);
      }
    }
  }

  /** Soundness of an accepted hint list: an assignment that makes every
      literal of the starting set true (falsifies the clause being added,
      whose negation rup_run starts from) and satisfies hints 0..c-1
      cannot satisfy hint c. So the used hint clauses imply that clause. */
  lemma RupSound(st: Store, s: LSet, target: ClauseType, earlyRup: bool, skippingRup: bool,
                 toks: seq<Token>, c: int, m: int, trace: seq<LSet>, val: int -> bool)
    requires ProperStore(st) && RupCertified(st, s, target, earlyRup, skippingRup, toks, c, m, trace)
    requires forall l :: Has(s, l) ==> LitTrue(val, l)
    requires forall j :: 0 <= j < c ==> HintSatisfied(st, toks[j], val)
    ensures !HintSatisfied(st, toks[c], val)
  {
    ReplayKeepsTrue(st, skippingRup, toks, s, trace, val, c);
    var lits := EntryOf(st.blocks, toks[c].value).value.lits;
    EntryInRange(st, toks[c]);
    forall j | 0 <= j < |lits| ensures !LitTrue(val, lits[j]) {
      assert IsFalse(trace[c], lits[j]);
      assert LitTrue(val, -lits[j]);
    }
  }

  /** The end of rup_run's hint list: the 0 that closes it, or, after the
      conflict, either the skip that early_rup allows or an error. */
  method FinishRun(st: Store, s: LSet, target: ClauseType, earlyRup: bool, skippingRup: bool, toks: seq<Token>,
                   i: nat, conflict: bool, ok: bool, cur: LSet, ghost trace: seq<LSet>)
    returns (r: Result<LSet, string>)
    requires i < |toks| && toks[i].ttype == TInt && (toks[i].value == 0 || conflict)
    requires NonzeroInts(toks[..i]) && (conflict ==> i >= 1)
    requires ok ==> forall k :: 0 <= k < i ==> AcceptedHint(st, toks[k], target)
    requires |trace| == (if conflict then i else i + 1)
    requires Replayed(st, skippingRup, toks, s, trace) && trace[|trace| - 1] == cur
    requires conflict ==> Conflicts(st, toks[i - 1], cur)
    ensures r.Success? ==> r.value == cur
    ensures r.Success? ==>
              exists c, m, tr :: RupCertified(st, s, target, earlyRup, skippingRup, toks, c, m, tr) && r.value == tr[c]
  {
    var t := toks[i];
    if t.value == 0 {
      if !conflict {
        return Failure("no conflict on final hint clause");
      }
      if !ok {
        return Failure("combination of target type and hint types not allowed");
      }
      assert RupCertified(st, s, target, earlyRup, skippingRup, toks, i - 1, i, trace);
      return Success(cur);
    }
    if !earlyRup {
      return Failure("conflict before the end of the hint list");
    }
    r := SkipToZero(toks, i + 1, ok, cur);
    if r.Success? {
      var m :| i < m < |toks| && NonzeroInts(toks[i + 1..m]) && toks[m] == Token(TInt, 0);
      NonzeroJoin(toks, i, m);
      assert RupCertified(st, s, target, earlyRup, skippingRup, toks, i - 1, m, trace);
    }
  }

  /** The state rup_run carries from one hint to the next. */
  datatype HintOutcome = HintOutcome(cur: LSet, ok: bool, conflict: bool)

  /** One nonzero hint of rup_run before any conflict: locate the clause,
      check its type, and add its unit, stall or record the conflict. */
  method UseHint(st: Store, cur: LSet, ok: bool, target: ClauseType, skippingRup: bool, t: Token)
    returns (r: Result<HintOutcome, string>)
    requires ClauseBlocks.Valid(st) && LiteralSet.Valid(cur) && ProperStore(st)
    ensures r.Success? ==> LiteralSet.Valid(r.value.cur)
    ensures r.Success? && r.value.ok ==> ok && AcceptedHint(st, t, target)
    ensures r.Success? && r.value.conflict ==> r.value.cur == cur && Conflicts(st, t, cur)
    ensures r.Success? && !r.value.conflict ==> HintEffect(st, skippingRup, t, cur, r.value.cur)
  {
    var loc := FindClause(st, t.value);
    var e: Option<Entry> := if loc.None? then None else Some(st.blocks[loc.value.bid].entries[loc.value.pos]);
    var step := HintStep(e, cur, ok, target);
    if !step.Stepped? {
      return Failure(step.msg);
    }
    assert step.ok ==> AcceptedHint(st, t, target);
    if step.unit == RUP_CONFLICT {
      UnitPropSpec(cur, e.value.lits);
      return Success(HintOutcome(cur, step.ok, true));
    } else if step.unit == RUP_STALL {
      if !skippingRup {
        return Failure("hint clause did not cause unit propagation");
      }
      return Success(HintOutcome(cur, step.ok, false));
    }
    var cur' := AddUnit(e.value.lits, cur, step.unit);
    return Success(HintOutcome(cur', step.ok, false));
  }

  /** Every clause of the store has proper literals within int range. */
  predicate ProperStore(st: Store) {
    forall b, p :: 0 <= b < |st.blocks| && 0 <= p < |st.blocks[b].entries| && st.blocks[b].entries[p].Clause? ==>
      InRange(st.blocks[b].entries[p].lits)
  }

  predicate InRange(lits: seq<int>) {
    Proper(lits) && forall k :: 0 <= k < |lits| ==> -INT_MAX <= lits[k] <= INT_MAX
  }

  /** lset_add_lit of the unit a hint clause gave. */
  method AddUnit(lits: seq<int>, cur: LSet, unit: int) returns (cur': LSet)
    requires InRange(lits) && LiteralSet.Valid(cur)
    requires unit == UnitProp(cur, lits)
    requires unit != RUP_STALL && unit != RUP_CONFLICT
    ensures LiteralSet.Valid(cur')
    ensures forall lit :: Has(cur', lit) <==> Has(cur, lit) || lit == unit
  {
    UnitPropSpec(cur, lits);
    var ok, c := AddLit(cur, unit);
    assert ok;
    forall lit ensures Has(c, lit) <==> Has(cur, lit) || lit == unit {
      if lit != 0 && Abs(lit) != Abs(unit) {
        assert GetLit(c, Abs(lit)) == GetLit(cur, Abs(lit));
      }
    }
    cur' := c;
  }

  lemma NonzeroJoin(toks: seq<Token>, i: nat, m: nat)
    requires i < m <= |toks|
    requires NonzeroInts(toks[..i]) && NonzeroInts(toks[i + 1..m])
    requires toks[i].ttype == TInt && toks[i].value != 0
    ensures NonzeroInts(toks[..m])
  {
    forall k | 0 <= k < m ensures toks[k].ttype == TInt && toks[k].value != 0 {
      if k < i {
        assert toks[..i][k] == toks[k];
      } else if k > i {
        assert toks[i + 1..m][k - i - 1] == toks[k];
      }
    }
  }

  /** The early_rup path: the remaining hints are read up to the 0, each
      of which must be an integer. */
  method SkipToZero(toks: seq<Token>, from: nat, ok: bool, cur: LSet) returns (r: Result<LSet, string>)
    requires from <= |toks|
    ensures r.Success? ==> r.value == cur && ok
    ensures r.Success? ==> exists m :: from <= m < |toks| && NonzeroInts(toks[from..m]) && toks[m] == Token(TInt, 0)
  {
    var j := from;
    while j < |toks|
      invariant from <= j <= |toks|
      invariant NonzeroInts(toks[from..j])
    {
      if toks[j].ttype != TInt {
        return Failure("expecting integer hint");
      }
      if toks[j].value == 0 {
        if !ok {
          return Failure("combination of target type and hint types not allowed");
        }
        return Success(cur);
      }
      assert toks[from..j + 1] == toks[from..j] + [toks[j]];
      j := j + 1;
    }
    return Failure("expecting integer hint");
  }
}
