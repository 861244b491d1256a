/** The generator's unit-propagation step on one clause
    (bcp_unit_propagate).  Unassigned literals are swapped to the front of
    the clause; the outcome is 0 (satisfied, or at least two unassigned
    literals, which are then watched), CONFLICT_LIT (every literal false),
    or the clause's one unassigned literal.  Outside the first pass the
    scan stops at the second unassigned literal, and the clause was
    already watched on its first two literals. */
module Bcp {
  import opened Literals
  import Watching

  /** Neither the literal nor its negation is a unit. */
  predicate Unassigned(units: set<int>, x: int) {
    x !in units && -x !in units
  }

  /** The literal is false: its negation is a unit and it is not. */
  predicate Falsified(units: set<int>, x: int) {
    x !in units && -x in units
  }

  predicate SatisfiedBy(units: set<int>, s: seq<int>) {
    exists i :: 0 <= i < |s| && s[i] in units
  }

  predicate TwoUnassigned(units: set<int>, s: seq<int>) {
    exists i, j :: 0 <= i < j < |s| && Unassigned(units, s[i]) && Unassigned(units, s[j])
  }

  predicate NoneUnassigned(units: set<int>, s: seq<int>) {
    forall i :: 0 <= i < |s| ==> !Unassigned(units, s[i])
  }

  /** The number of positions holding an unassigned literal. */
  function CountUnassigned(units: set<int>, s: seq<int>): nat {
    if s == [] then 0
    else CountUnassigned(units, s[..|s| - 1]) + (if Unassigned(units, s[|s| - 1]) then 1 else 0)
  }

  lemma {:induction false} CountMeaning(units: set<int>, s: seq<int>)
    ensures CountUnassigned(units, s) == 0 <==> NoneUnassigned(units, s)
    ensures CountUnassigned(units, s) >= 2 <==> TwoUnassigned(units, s)
  {
    if s != [] {
      var init := s[..|s| - 1];
      CountMeaning(units, init);
      assert forall i :: 0 <= i < |init| ==> init[i] == s[i];
      if TwoUnassigned(units, s) && !TwoUnassigned(units, init) {
        var i, j :| 0 <= i < j < |s| && Unassigned(units, s[i]) && Unassigned(units, s[j]);
        assert j == |s| - 1;
        assert !NoneUnassigned(units, init);
      }
      if CountUnassigned(units, s) >= 2 && !TwoUnassigned(units, init) {
        assert CountUnassigned(units, init) == 1;
        var i :| 0 <= i < |init| && Unassigned(units, init[i]);
        assert Unassigned(units, s[i]) && Unassigned(units, s[|s| - 1]);
      }
    }
  }

  lemma {:induction false} CountPrefix(units: set<int>, s: seq<int>, k: nat)
    requires k <= |s|
    ensures CountUnassigned(units, s[..k]) <= CountUnassigned(units, s)
    decreases |s|
  {
    if k < |s| {
      CountPrefix(units, s[..|s| - 1], k);
      assert s[..|s| - 1][..k] == s[..k];
    } else {
      assert s[..k] == s;
    }
  }

  function SwapLits(a: seq<int>, i: nat, j: nat): (r: seq<int>)
    requires i < |a| && j < |a|
    ensures |r| == |a| && multiset(r) == multiset(a)
    ensures r[i] == a[j] && r[j] == a[i]
    ensures forall k :: 0 <= k < |a| && k != i && k != j ==> r[k] == a[k]
  {
    a[i := a[j]][j := a[i]]
  }

  /** What the scan promises: the clause is permuted; the outcome is
      CONFLICT_LIT exactly when every literal is false, 0 exactly when
      some literal is true or two are unassigned, and otherwise the lone
      unassigned literal, now in front.  When the clause gets watched its
      two front literals are unassigned, and the first pass moves every
      unassigned literal before every assigned one. */
  predicate Outcome(lits: seq<int>, units: set<int>, firstPass: bool, ret: int, r: seq<int>, watch: bool) {
    && |r| == |lits| && multiset(r) == multiset(lits)
    && (watch ==> ret == 0 && TwoUnassigned(units, lits) && Unassigned(units, r[0]) && Unassigned(units, r[1]))
    && (!SatisfiedBy(units, lits) && TwoUnassigned(units, lits) ==> watch)
    && (firstPass && watch ==> !SatisfiedBy(units, lits))
    && (ret == CONFLICT_LIT <==> !SatisfiedBy(units, lits) && NoneUnassigned(units, lits))
    && (ret == 0 <==> SatisfiedBy(units, lits) || TwoUnassigned(units, lits))
    && (ret != 0 && ret != CONFLICT_LIT ==> ret == r[0] && Unassigned(units, ret) && ret in lits)
    && (firstPass && !SatisfiedBy(units, lits) ==>
          forall i, j :: 0 <= i < j < |r| && !Unassigned(units, r[i]) ==> !Unassigned(units, r[j]))
  }

  /** The scan of bcp_unit_propagate over the visible literals: the
      outcome, the permuted clause, and whether the clause is to be
      watched. */
  method Propagate(lits: seq<int>, units: set<int>, firstPass: bool) returns (ret: int, r: seq<int>, watch: bool)
    requires forall i :: 0 <= i < |lits| ==> IsLiteral(lits[i])
    ensures Outcome(lits, units, firstPass, ret, r, watch)
  {
    var a := lits;
    var count := 0;
    var idx := 0;
    assert lits[..0] == [];
    while idx < |a|
      invariant ScanState(lits, units, a, count, idx)
      invariant !firstPass ==> count < 2
    {
      var stop, a', count' := ScanOne(lits, units, a, count, idx, firstPass);
      if stop {
        return 0, a', !firstPass && count' >= 2;
      }
      a, count, idx := a', count', idx + 1;
    }
    r := a;
    watch := count >= 2;
    ret := if count == 0 then CONFLICT_LIT else if count == 1 then a[0] else 0;
    ScanComplete(lits, units, a, count, firstPass);
  }

  /** One literal of the scan: a true literal stops it, an unassigned one
      is swapped to the front (outside the first pass, a second one stops
      it), a false one is passed over. */
  method ScanOne(lits: seq<int>, units: set<int>, a: seq<int>, count: nat, idx: nat, firstPass: bool)
    returns (stop: bool, a': seq<int>, count': nat)
    requires ScanState(lits, units, a, count, idx) && idx < |a|
    requires !firstPass ==> count < 2
    ensures stop ==> Outcome(lits, units, firstPass, 0, a', !firstPass && count' >= 2)
    ensures !stop ==> ScanState(lits, units, a', count', idx + 1) && (!firstPass ==> count' < 2)
  {
    var clit := a[idx];
    if clit in units {
      SatisfiedStop(lits, units, a, count, idx, firstPass);
      return true, a, 0;
    } else if -clit !in units {
      a' := SwapLits(a, count, idx);
      ScanUnassigned(lits, units, a, count, idx, a');
      count' := count + 1;
      if !firstPass && count' >= 2 {
        SecondUnassignedStop(lits, units, a', count', idx + 1);
        return true, a', count';
      }
      return false, a', count';
    } else {
      ScanFalsified(lits, units, a, count, idx);
      return false, a, count;
    }
  }

  lemma SatisfiedStop(lits: seq<int>, units: set<int>, a: seq<int>, count: nat, idx: nat, firstPass: bool)
    requires ScanState(lits, units, a, count, idx) && idx < |a| && a[idx] in units
    ensures Outcome(lits, units, firstPass, 0, a, false)
  {
    assert lits[idx] == a[idx];
    assert SatisfiedBy(units, lits);
  }

  lemma SecondUnassignedStop(lits: seq<int>, units: set<int>, a: seq<int>, count: nat, idx: nat)
    requires ScanState(lits, units, a, count, idx) && count >= 2
    ensures Outcome(lits, units, false, 0, a, true)
  {
    CountPrefix(units, lits, idx);
    CountMeaning(units, lits);
  }

  /** The scan's loop invariant: the first count literals are
      unassigned, the next ones up to idx are false, the rest are as
      given, and no literal read so far is true. */
  predicate ScanState(lits: seq<int>, units: set<int>, a: seq<int>, count: nat, idx: nat) {
    && count <= idx <= |a| == |lits|
    && multiset(a) == multiset(lits) && a[idx..] == lits[idx..]
    && (forall i :: 0 <= i < count ==> Unassigned(units, a[i]))
    && (forall i :: count <= i < idx ==> Falsified(units, a[i]))
    && (forall i :: 0 <= i < idx ==> lits[i] !in units)
    && count == CountUnassigned(units, lits[..idx])
  }

  lemma ScanUnassigned(lits: seq<int>, units: set<int>, a: seq<int>, count: nat, idx: nat, a': seq<int>)
    requires ScanState(lits, units, a, count, idx) && idx < |a|
    requires Unassigned(units, a[idx])
    requires a' == SwapLits(a, count, idx)
    ensures ScanState(lits, units, a', count + 1, idx + 1)
  {
    assert lits[..idx + 1] == lits[..idx] + [lits[idx]];
    assert a[idx] == lits[idx];
    assert a'[idx + 1..] == lits[idx + 1..];
  }

  lemma ScanFalsified(lits: seq<int>, units: set<int>, a: seq<int>, count: nat, idx: nat)
    requires ScanState(lits, units, a, count, idx) && idx < |a|
    requires Falsified(units, a[idx])
    ensures ScanState(lits, units, a, count, idx + 1)
  {
    assert lits[..idx + 1] == lits[..idx] + [lits[idx]];
    assert a[idx] == lits[idx];
    assert a[idx + 1..] == lits[idx + 1..];
  }

  /** The state after a full scan: unassigned literals first, the rest
      false, none true. */
  lemma ScanComplete(lits: seq<int>, units: set<int>, a: seq<int>, count: nat, firstPass: bool)
    requires forall i :: 0 <= i < |lits| ==> IsLiteral(lits[i])
    requires ScanState(lits, units, a, count, |a|)
    ensures Outcome(lits, units, firstPass, if count == 0 then CONFLICT_LIT else if count == 1 then a[0] else 0, a, count >= 2)
  {
    assert lits[..|a|] == lits;
    CountMeaning(units, lits);
    if count == 1 {
      assert a[0] in multiset(lits);
      var k :| 0 <= k < |lits| && lits[k] == a[0];
      ConflictLitIsNoLiteral(lits[k]);
    }
  }

  /** The literals whose watch lists receive the clause: the negations of
      the two front literals, except those already watched. */
  function NewWatches(r: seq<int>, old0: int, old1: int): (ws: seq<int>)
    requires |r| >= 2
    ensures forall x :: x in ws ==> x == -r[0] || x == -r[1]
    ensures -r[0] in ws <== r[0] != old0 && r[0] != old1
    ensures -r[1] in ws <== r[1] != old0 && r[1] != old1
    ensures |ws| <= 2
  {
    (if r[0] != old0 && r[0] != old1 then [-r[0]] else [])
    + (if r[1] != old0 && r[1] != old1 then [-r[1]] else [])
  }

  function AddAll(w: Watching.Watcher, cid: int, ws: seq<int>): (w': Watching.Watcher)
    ensures forall l :: l !in ws ==> Watching.List(w', l) == Watching.List(w, l)
    ensures forall l :: l in ws ==> cid in Watching.List(w', l)
    ensures w'.trail == w.trail && w'.propagateCount == w.propagateCount
    ensures w'.savedPairs == w.savedPairs
    decreases |ws|
  {
    if ws == [] then w else AddAll(Watching.AddClauseId(w, cid, ws[0]), cid, ws[1..])
  }

  /** bcp_unit_propagate(cid, first_pass, watches): the scan, the watched
      pair recorded for a clause longer than two, and the clause put on
      the watch lists of its new front literals when two are unassigned.
      Outside the first pass the clause has at least two literals, which
      are its current watches. */
  method UnitPropagate(w: Watching.Watcher, cid: int, lits: seq<int>, units: set<int>, firstPass: bool)
    returns (ret: int, r: seq<int>, w': Watching.Watcher)
    requires forall i :: 0 <= i < |lits| ==> IsLiteral(lits[i])
    requires !firstPass ==> |lits| >= 2
    ensures |r| == |lits| && multiset(r) == multiset(lits)
    ensures ret == CONFLICT_LIT <==> !SatisfiedBy(units, lits) && NoneUnassigned(units, lits)
    ensures ret == 0 <==> SatisfiedBy(units, lits) || TwoUnassigned(units, lits)
    ensures ret != 0 && ret != CONFLICT_LIT ==> ret == r[0] && Unassigned(units, ret)
    ensures ret != 0 ==> forall l :: Watching.List(w', l) == Watching.List(w, l)
    ensures ret == 0 && !SatisfiedBy(units, lits) ==>
              && |r| >= 2
              && Unassigned(units, r[0]) && Unassigned(units, r[1])
              && (firstPass ==> cid in Watching.List(w', -r[0]) && cid in Watching.List(w', -r[1]))
              && (!firstPass ==> forall k :: 0 <= k < 2 && r[k] != lits[0] && r[k] != lits[1] ==> cid in Watching.List(w', -r[k]))
    ensures w'.trail == w.trail && w'.propagateCount == w.propagateCount
    ensures |lits| > 2 && w.saving && cid !in w.savedPairs ==> cid in w'.savedPairs && w'.savedPairs[cid] == (lits[0], lits[1])
  {
    var old0, old1 := 0, 0;
    if !firstPass {
      old0, old1 := lits[0], lits[1];
    }
    w' := w;
    if |lits| > 2 {
      w' := Watching.WatchingPair(w', cid, lits[0], lits[1]);
    }
    var watch;
    ret, r, watch := Propagate(lits, units, firstPass);
    if watch {
      assert r[0] in multiset(lits) && r[1] in multiset(lits);
      assert r[0] != 0 && r[1] != 0;
      w' := WatchFront(w', cid, r, old0, old1);
    }
  }

  /** The clause joins the watch lists of its two front literals' negations,
      except where it is already watched. */
  method WatchFront(w: Watching.Watcher, cid: int, r: seq<int>, old0: int, old1: int) returns (w': Watching.Watcher)
    requires |r| >= 2
    ensures forall k :: 0 <= k < 2 && r[k] != old0 && r[k] != old1 ==> cid in Watching.List(w', -r[k])
    ensures forall l :: l != -r[0] && l != -r[1] ==> Watching.List(w', l) == Watching.List(w, l)
    ensures w'.trail == w.trail && w'.propagateCount == w.propagateCount
    ensures w'.savedPairs == w.savedPairs
  {
    var ws := NewWatches(r, old0, old1);
    w' := AddAll(w, cid, ws);
  }
}
