/** The generator's Watcher: watch lists from literals to clause ids, a
    trail of unit literals with a propagation cursor, and a checkpoint
    that lets a failed propagation be undone.  While saving, the first
    change to a watch list records the list's earlier length, and the
    first watched pair recorded for a clause is kept.  A literal without a
    list has the empty list (get_list creates one on demand). */
module Watching {

  datatype Tele = Tele(lit: int, cid: int)

  datatype Watcher = Watcher(
    lists: map<int, seq<int>>,
    trail: seq<Tele>,
    propagateCount: nat,
    saving: bool,
    saveLengths: map<int, nat>,
    savedPairs: map<int, (int, int)>,
    saveUnitCount: nat,
    savePropagateCount: nat)

  /** Watcher() and clear(): no lists, an empty trail, not saving. */
  const Cleared: Watcher := Watcher(map[], [], 0, false, map[], map[], 0, 0)

  /** get_list(lit) as a value. */
  function List(w: Watcher, lit: int): seq<int> {
    if lit in w.lists then w.lists[lit] else []
  }

  /** The cursor stays on the trail, and while saving the saved lengths
      and counts lie within what is there now. */
  ghost predicate Valid(w: Watcher) {
    && w.propagateCount <= |w.trail|
    && (w.saving ==>
          && w.savePropagateCount <= w.saveUnitCount <= |w.trail|
          && forall lit :: lit in w.saveLengths ==> w.saveLengths[lit] <= |List(w, lit)|)
  }

  /** add_clause_id(cid, lit): cid goes to the end of lit's list; the
      first change while saving records the list's length. */
  function AddClauseId(w: Watcher, cid: int, lit: int): (w': Watcher)
    ensures List(w', lit) == List(w, lit) + [cid]
    ensures forall l :: l != lit ==> List(w', l) == List(w, l)
    ensures w.saving && lit !in w.saveLengths ==> w'.saveLengths == w.saveLengths[lit := |List(w, lit)|]
    ensures !(w.saving && lit !in w.saveLengths) ==> w'.saveLengths == w.saveLengths
    ensures w'.trail == w.trail && w'.propagateCount == w.propagateCount && w'.saving == w.saving
    ensures w'.savedPairs == w.savedPairs
  {
    var saved := if w.saving && lit !in w.saveLengths then w.saveLengths[lit := |List(w, lit)|] else w.saveLengths;
    w.(lists := w.lists[lit := List(w, lit) + [cid]], saveLengths := saved)
  }

  /** add_unit(lit, cid): the unit goes to the end of the trail. */
  function AddUnit(w: Watcher, lit: int, cid: int): (w': Watcher)
    ensures w'.trail == w.trail + [Tele(lit, cid)]
    ensures w'.lists == w.lists && w'.propagateCount == w.propagateCount
  {
    w.(trail := w.trail + [Tele(lit, cid)])
  }

  /** get_unit(): the next unpropagated literal of the trail, or 0 once
      every entry has been propagated. */
  function GetUnit(w: Watcher): (r: (int, Watcher))
    requires Valid(w)
    ensures w.propagateCount == |w.trail| ==> r == (0, w)
    ensures w.propagateCount < |w.trail| ==>
              r.0 == w.trail[w.propagateCount].lit && r.1 == w.(propagateCount := w.propagateCount + 1)
  {
    if w.propagateCount >= |w.trail| then (0, w)
    else (w.trail[w.propagateCount].lit, w.(propagateCount := w.propagateCount + 1))
  }

  /** Calling get_unit until it gives 0 hands out the unpropagated trail
      entries in order, when no trail literal is 0. */
  function Drain(w: Watcher): (lits: seq<int>)
    requires Valid(w)
    requires forall i :: w.propagateCount <= i < |w.trail| ==> w.trail[i].lit != 0
    ensures |lits| == |w.trail| - w.propagateCount
    ensures forall i :: 0 <= i < |lits| ==> lits[i] == w.trail[w.propagateCount + i].lit
    decreases |w.trail| - w.propagateCount
  {
    var (lit, w') := GetUnit(w);
    if lit == 0 then [] else [lit] + Drain(w')
  }

  /** watching(cid, lit1, lit2): while saving, the first pair recorded
      for a clause is kept. */
  function WatchingPair(w: Watcher, cid: int, lit1: int, lit2: int): (w': Watcher)
    ensures w.saving && cid !in w.savedPairs ==> w'.savedPairs == w.savedPairs[cid := (lit1, lit2)]
    ensures !(w.saving && cid !in w.savedPairs) ==> w' == w
    ensures w'.lists == w.lists && w'.trail == w.trail && w'.saveLengths == w.saveLengths
  {
    if w.saving && cid !in w.savedPairs then w.(savedPairs := w.savedPairs[cid := (lit1, lit2)]) else w
  }

  /** checkpoint(): start saving from the current trail and cursor. */
  function Checkpoint(w: Watcher): (w': Watcher)
    requires Valid(w)
    ensures Valid(w') && w'.saving
    ensures w'.lists == w.lists && w'.trail == w.trail && w'.propagateCount == w.propagateCount
    ensures w'.saveUnitCount == |w.trail| && w'.savePropagateCount == w.propagateCount
    ensures w'.saveLengths == map[] && w'.savedPairs == map[]
  {
    Watcher(w.lists, w.trail, w.propagateCount, true, map[], map[], |w.trail|, w.propagateCount)
  }

  /** vector::resize: cut to n entries, or padded with v. */
  function Resize<T>(s: seq<T>, n: nat, v: T): (r: seq<T>)
    ensures |r| == n
    ensures n <= |s| ==> r == s[..n]
    ensures forall i :: 0 <= i < n && i < |s| ==> r[i] == s[i]
  {
    if n <= |s| then s[..n] else s + seq(n - |s|, _ => v)
  }

  /** restore(): each list changed since the checkpoint goes back to its
      saved length, the trail and cursor to their saved values, and
      saving stops. */
  function Restore(w: Watcher): (w': Watcher)
    ensures forall lit :: lit in w.saveLengths ==> List(w', lit) == Resize(List(w, lit), w.saveLengths[lit], 0)
    ensures forall lit :: lit !in w.saveLengths ==> List(w', lit) == List(w, lit)
    ensures w'.trail == Resize(w.trail, w.saveUnitCount, Tele(0, 0))
    ensures w'.propagateCount == w.savePropagateCount
    ensures !w'.saving && w'.saveLengths == map[] && w'.savedPairs == map[]
  {
    var lists := map lit | lit in w.lists.Keys + w.saveLengths.Keys ::
      if lit in w.saveLengths then Resize(List(w, lit), w.saveLengths[lit], 0) else w.lists[lit];
    Watcher(lists, Resize(w.trail, w.saveUnitCount, Tele(0, 0)), w.savePropagateCount, false,
            map[], map[], w.saveUnitCount, w.savePropagateCount)
  }

  /** The operations a propagation performs on the watcher between a
      checkpoint and a restore. */
  datatype Op =
    | AddId(cid: int, lit: int)
    | Unit(lit: int, cid: int)
    | Get
    | Pair(cid: int, lit1: int, lit2: int)

  function Apply(w: Watcher, op: Op): (w': Watcher)
    requires Valid(w)
    ensures Valid(w')
  {
    match op
    case AddId(cid, lit) => AddClauseId(w, cid, lit)
    case Unit(lit, cid) => AddUnit(w, lit, cid)
    case Get => GetUnit(w).1
    case Pair(cid, l1, l2) => WatchingPair(w, cid, l1, l2)
  }

  function ApplyAll(w: Watcher, ops: seq<Op>): (w': Watcher)
    requires Valid(w)
    ensures Valid(w')
    decreases |ops|
  {
    if ops == [] then w else ApplyAll(Apply(w, ops[0]), ops[1..])
  }

  /** What the watcher w keeps of the checkpointed state w0: the saved
      counts, the trail as a prefix, and every list either untouched or
      extended beyond its saved length. */
  ghost predicate Extends(w0: Watcher, w: Watcher) {
    && w.saving
    && w.saveUnitCount == |w0.trail| && w.savePropagateCount == w0.propagateCount
    && |w0.trail| <= |w.trail| && w.trail[..|w0.trail|] == w0.trail
    && (forall lit :: lit in w.saveLengths ==>
          w.saveLengths[lit] == |List(w0, lit)| <= |List(w, lit)| && List(w, lit)[..|List(w0, lit)|] == List(w0, lit))
    && (forall lit :: lit !in w.saveLengths ==> List(w, lit) == List(w0, lit))
  }

  lemma ExtendsStep(w0: Watcher, w: Watcher, op: Op)
    requires Valid(w) && Extends(w0, w)
    ensures Extends(w0, Apply(w, op))
  {
    var w' := Apply(w, op);
    match op {
      case AddId(cid, lit) =>
        forall l | l in w'.saveLengths
          ensures w'.saveLengths[l] == |List(w0, l)| <= |List(w', l)| && List(w', l)[..|List(w0, l)|] == List(w0, l)
        {
          if l == lit {
            assert List(w', l)[..|List(w0, l)|] == List(w, l)[..|List(w0, l)|];
          }
        }
      case Unit(lit, cid) =>
        assert w'.trail[..|w0.trail|] == w.trail[..|w0.trail|];
      case Get =>
      case Pair(cid, l1, l2) =>
    }
  }

  lemma {:induction false} ExtendsAll(w0: Watcher, w: Watcher, ops: seq<Op>)
    requires Valid(w) && Extends(w0, w)
    ensures Extends(w0, ApplyAll(w, ops))
    decreases |ops|
  {
    if ops != [] {
      ExtendsStep(w0, w, ops[0]);
      ExtendsAll(w0, Apply(w, ops[0]), ops[1..]);
    }
  }

  /** Whatever propagation does after a checkpoint, restore brings back
      every watch list, the trail and the cursor as they were at the
      checkpoint, and stops saving. */
  lemma CheckpointRestore(w: Watcher, ops: seq<Op>)
    requires Valid(w)
    ensures var w' := Restore(ApplyAll(Checkpoint(w), ops));
            && (forall lit :: List(w', lit) == List(w, lit))
            && w'.trail == w.trail
            && w'.propagateCount == w.propagateCount
            && !w'.saving
  {
    var c := Checkpoint(w);
    assert Extends(w, c);
    ExtendsAll(w, c, ops);
  }
}
