/** The generator's context stack.  A context records, on three stacks,
    the literals asserted or derived in it, the asserted literals cleared
    at its start, and the clauses to reactivate when it ends; each stack
    gets the marker 0 when a context begins.  Popping a context undoes
    its literals, reasserts the cleared ones and reactivates the
    clauses.  Popping past the base of a stack is fatal. */
module ContextStack {
  import opened Wrappers

  const CONTEXT_MARKER: int := 0

  datatype Ctx = Ctx(
    units: set<int>,
    asserted: seq<int>,
    justifying: map<int, int>,
    litStack: seq<int>,
    clearedStack: seq<int>,
    clauseStack: seq<int>,
    active: set<int>)

  function Elems(s: seq<int>): set<int> {
    set x | x in s
  }

  /** Units are literals (never the marker); justified and asserted
      literals are units, and no literal is both. */
  predicate WellFormed(c: Ctx) {
    && CONTEXT_MARKER !in c.units
    && c.justifying.Keys <= c.units
    && Elems(c.asserted) <= c.units
    && Elems(c.asserted) !! c.justifying.Keys
  }

  /** new_context: a marker on each stack. */
  function NewContext(c: Ctx): (c': Ctx)
    ensures c'.litStack == c.litStack + [CONTEXT_MARKER]
    ensures c'.clearedStack == c.clearedStack + [CONTEXT_MARKER]
    ensures c'.clauseStack == c.clauseStack + [CONTEXT_MARKER]
    ensures c'.units == c.units && c'.asserted == c.asserted && c'.justifying == c.justifying && c'.active == c.active
  {
    c.(litStack := c.litStack + [CONTEXT_MARKER],
       clearedStack := c.clearedStack + [CONTEXT_MARKER],
       clauseStack := c.clauseStack + [CONTEXT_MARKER])
  }

  /** push_assigned_literal: lit becomes an asserted unit of the context.
      The warning (not fatal) is raised when lit or its negation is
      already a unit. */
  function PushAssigned(c: Ctx, lit: int): (r: (Ctx, bool))
    ensures r.1 <==> lit in c.units || -lit in c.units
    ensures r.0.units == c.units + {lit}
    ensures r.0.asserted == c.asserted + [lit] && r.0.litStack == c.litStack + [lit]
    ensures r.0.justifying == c.justifying && r.0.clearedStack == c.clearedStack
    ensures r.0.clauseStack == c.clauseStack && r.0.active == c.active
  {
    (c.(units := c.units + {lit}, asserted := c.asserted + [lit], litStack := c.litStack + [lit]),
     lit in c.units || -lit in c.units)
  }

  /** push_derived_literal: lit becomes a unit justified by clause cid.
      The warning (not fatal) is raised when lit or its negation is
      already a unit. */
  function PushDerived(c: Ctx, lit: int, cid: int): (r: (Ctx, bool))
    ensures r.1 <==> lit in c.units || -lit in c.units
    ensures r.0.units == c.units + {lit}
    ensures r.0.justifying == c.justifying[lit := cid] && r.0.litStack == c.litStack + [lit]
    ensures r.0.asserted == c.asserted && r.0.clearedStack == c.clearedStack
    ensures r.0.clauseStack == c.clauseStack && r.0.active == c.active
  {
    (c.(units := c.units + {lit}, justifying := c.justifying[lit := cid], litStack := c.litStack + [lit]),
     lit in c.units || -lit in c.units)
  }

  /** push_clause: the clause is remembered for reactivation when forced,
      when it is an input clause, or when it is an auxiliary clause. */
  function PushClause(c: Ctx, cid: int, force: bool, clauseCount: int, aux: set<int>): (c': Ctx)
    ensures force || cid <= clauseCount || cid in aux ==> c'.clauseStack == c.clauseStack + [cid]
    ensures !(force || cid <= clauseCount || cid in aux) ==> c' == c
    ensures c'.units == c.units && c'.asserted == c.asserted && c'.justifying == c.justifying && c'.active == c.active
  {
    if force || cid <= clauseCount || cid in aux then c.(clauseStack := c.clauseStack + [cid]) else c
  }

  function Reverse(s: seq<int>): (r: seq<int>)
    ensures |r| == |s| && forall i :: 0 <= i < |s| ==> r[i] == s[|s| - 1 - i]
  {
    if s == [] then [] else Reverse(s[1..]) + [s[0]]
  }

  /** clear_assigned_literals: every asserted literal, last first, leaves
      the units and goes on the cleared stack. */
  function ClearAssigned(c: Ctx): (c': Ctx)
    ensures c'.asserted == [] && c'.units == c.units - Elems(c.asserted)
    ensures c'.clearedStack == c.clearedStack + Reverse(c.asserted)
    ensures c'.justifying == c.justifying && c'.litStack == c.litStack
    ensures c'.clauseStack == c.clauseStack && c'.active == c.active
    decreases |c.asserted|
  {
    if c.asserted == [] then c
    else
      var n := |c.asserted| - 1;
      var alit := c.asserted[n];
      var c1 := c.(asserted := c.asserted[..n], units := c.units - {alit}, clearedStack := c.clearedStack + [alit]);
      var r := ClearAssigned(c1);
      assert Elems(c.asserted) == Elems(c.asserted[..n]) + {alit} by {
        assert c.asserted == c.asserted[..n] + [alit];
      }
      assert [alit] + Reverse(c.asserted[..n]) == Reverse(c.asserted);
      r
  }

  datatype LitPart = LitPart(stack: seq<int>, units: set<int>, asserted: seq<int>, justifying: map<int, int>)

  /** The first loop of pop_context: each literal above the marker leaves
      the units, and also the asserted list (when it was asserted) or the
      justifying map (when it was derived). */
  function PopLiterals(p: LitPart): Result<LitPart, string>
    decreases |p.stack|
  {
    if p.stack == [] then Failure("popped beyond base of context literal stack")
    else
      var n := |p.stack| - 1;
      var lit := p.stack[n];
      if lit == CONTEXT_MARKER then Success(p.(stack := p.stack[..n]))
      else if lit !in p.justifying then
        if p.asserted == [] then Failure("no asserted literal to pop")
        else PopLiterals(LitPart(p.stack[..n], p.units - {lit}, p.asserted[..|p.asserted| - 1], p.justifying))
      else PopLiterals(LitPart(p.stack[..n], p.units - {lit}, p.asserted, p.justifying - {lit}))
  }

  /** The second loop: the cleared literals, last first, are units and
      asserted again. */
  function PopCleared(stack: seq<int>, units: set<int>, asserted: seq<int>): Result<(seq<int>, set<int>, seq<int>), string>
    decreases |stack|
  {
    if stack == [] then Failure("popped beyond base of context cleared literal stack")
    else
      var n := |stack| - 1;
      var lit := stack[n];
      if lit == CONTEXT_MARKER then Success((stack[..n], units, asserted))
      else PopCleared(stack[..n], units + {lit}, asserted + [lit])
  }

  /** The third loop: the clauses are active again. */
  function PopClauses(stack: seq<int>, active: set<int>): Result<(seq<int>, set<int>), string>
    decreases |stack|
  {
    if stack == [] then Failure("popped beyond base of context clause stack")
    else
      var n := |stack| - 1;
      var cid := stack[n];
      if cid == CONTEXT_MARKER then Success((stack[..n], active))
      else PopClauses(stack[..n], active + {cid})
  }

  /** pop_context. */
  function PopContext(c: Ctx): Result<Ctx, string> {
    var lp :- PopLiterals(LitPart(c.litStack, c.units, c.asserted, c.justifying));
    var cl :- PopCleared(c.clearedStack, lp.units, lp.asserted);
    var ca :- PopClauses(c.clauseStack, c.active);
    Success(Ctx(cl.1, cl.2, lp.justifying, lp.stack, cl.0, ca.0, ca.1))
  }

  /** What a context does between new_context and pop_context. */
  datatype Op =
    | Assign(lit: int)
    | Derive(lit: int, cid: int)
    | KeepClause(cid: int, force: bool)
    | Deactivate(cid: int)

  function Apply(c: Ctx, op: Op, clauseCount: int, aux: set<int>): Ctx {
    match op
    case Assign(lit) => PushAssigned(c, lit).0
    case Derive(lit, cid) => PushDerived(c, lit, cid).0
    case KeepClause(cid, force) => PushClause(c, cid, force, clauseCount, aux)
    case Deactivate(cid) => c.(active := c.active - {cid})
  }

  function ApplyAll(c: Ctx, ops: seq<Op>, clauseCount: int, aux: set<int>): Ctx
    decreases |ops|
  {
    if ops == [] then c
    else Apply(ApplyAll(c, ops[..|ops| - 1], clauseCount, aux), ops[|ops| - 1], clauseCount, aux)
  }

  /** The clause ids a run of operations keeps for reactivation. */
  function Kept(ops: seq<Op>, clauseCount: int, aux: set<int>): seq<int>
    decreases |ops|
  {
    if ops == [] then []
    else
      var op := ops[|ops| - 1];
      Kept(ops[..|ops| - 1], clauseCount, aux)
      + (if op.KeepClause? && (op.force || op.cid <= clauseCount || op.cid in aux) then [op.cid] else [])
  }

  /** Each pushed literal is a literal that is not yet a unit, and each
      kept clause id is positive. */
  predicate Admissible(c: Ctx, ops: seq<Op>, clauseCount: int, aux: set<int>) {
    forall k :: 0 <= k < |ops| ==>
      && ((ops[k].Assign? || ops[k].Derive?) ==>
            ops[k].lit != CONTEXT_MARKER && ops[k].lit !in ApplyAll(c, ops[..k], clauseCount, aux).units)
      && (ops[k].KeepClause? ==> ops[k].cid != CONTEXT_MARKER)
  }

  lemma AdmissiblePrefix(c: Ctx, ops: seq<Op>, clauseCount: int, aux: set<int>)
    requires |ops| > 0 && Admissible(c, ops, clauseCount, aux)
    ensures Admissible(c, ops[..|ops| - 1], clauseCount, aux)
  {
    var init := ops[..|ops| - 1];
    forall k | 0 <= k < |init| ensures init[..k] == ops[..k] && init[k] == ops[k] {
    }
  }

  /** Operations leave the cleared stack alone, add the kept clauses to
      the clause stack, and keep justified literals among the units. */
  lemma {:induction false} ApplyAllFrame(c: Ctx, ops: seq<Op>, clauseCount: int, aux: set<int>)
    requires c.justifying.Keys <= c.units
    ensures var t := ApplyAll(c, ops, clauseCount, aux);
            && t.clearedStack == c.clearedStack
            && t.clauseStack == c.clauseStack + Kept(ops, clauseCount, aux)
            && t.justifying.Keys <= t.units
    decreases |ops|
  {
    if ops != [] {
      ApplyAllFrame(c, ops[..|ops| - 1], clauseCount, aux);
    }
  }

  function Parts(c: Ctx): LitPart {
    LitPart(c.litStack, c.units, c.asserted, c.justifying)
  }

  /** Popping a context's literals gives the same result as popping them
      before the context's last operations: each pushed literal is undone
      exactly. */
  lemma {:induction false} PopLiteralsUndo(c: Ctx, ops: seq<Op>, clauseCount: int, aux: set<int>)
    requires c.justifying.Keys <= c.units
    requires Admissible(c, ops, clauseCount, aux)
    ensures PopLiterals(Parts(ApplyAll(c, ops, clauseCount, aux))) == PopLiterals(Parts(c))
    decreases |ops|
  {
    if ops != [] {
      var init := ops[..|ops| - 1];
      var op := ops[|ops| - 1];
      AdmissiblePrefix(c, ops, clauseCount, aux);
      PopLiteralsUndo(c, init, clauseCount, aux);
      var t := ApplyAll(c, init, clauseCount, aux);
      ApplyAllFrame(c, init, clauseCount, aux);
      assert ops[..|ops| - 1] == init;
      var t' := Apply(t, op, clauseCount, aux);
      match op {
        case Assign(lit) =>
          assert lit !in t.units;
          assert t'.litStack[..|t'.litStack| - 1] == t.litStack;
          assert t'.asserted[..|t'.asserted| - 1] == t.asserted;
          assert t.units + {lit} - {lit} == t.units;
        case Derive(lit, cid) =>
          assert lit !in t.units;
          assert t'.litStack[..|t'.litStack| - 1] == t.litStack;
          assert t.justifying[lit := cid] - {lit} == t.justifying;
          assert t.units + {lit} - {lit} == t.units;
        case KeepClause(_, _) =>
        case Deactivate(_) =>
      }
    }
  }

  lemma {:induction false} PopClearedReverse(base: seq<int>, a: seq<int>, units: set<int>, asserted: seq<int>)
    requires CONTEXT_MARKER !in a
    ensures PopCleared(base + [CONTEXT_MARKER] + Reverse(a), units, asserted) == Success((base, units + Elems(a), asserted + a))
    decreases |a|
  {
    var s := base + [CONTEXT_MARKER] + Reverse(a);
    if a == [] {
      assert s[..|s| - 1] == base && s[|s| - 1] == CONTEXT_MARKER;
      assert Elems(a) == {} && asserted + a == asserted;
      assert PopCleared(s, units, asserted) == Success((base, units, asserted));
      assert units + Elems(a) == units;
    } else {
      assert a[0] in a;
      assert Reverse(a) == Reverse(a[1..]) + [a[0]];
      assert s == base + [CONTEXT_MARKER] + Reverse(a[1..]) + [a[0]];
      assert s[|s| - 1] == a[0];
      assert s[..|s| - 1] == base + [CONTEXT_MARKER] + Reverse(a[1..]);
      assert CONTEXT_MARKER !in a[1..];
      assert PopCleared(s, units, asserted) == PopCleared(s[..|s| - 1], units + {a[0]}, asserted + [a[0]]);
      PopClearedReverse(base, a[1..], units + {a[0]}, asserted + [a[0]]);
      assert asserted + [a[0]] + a[1..] == asserted + a;
      assert Elems(a) == {a[0]} + Elems(a[1..]) by {
        assert a == [a[0]] + a[1..];
      }
      assert units + {a[0]} + Elems(a[1..]) == units + Elems(a);
    }
  }

  lemma {:induction false} PopClausesKept(base: seq<int>, q: seq<int>, active: set<int>)
    requires CONTEXT_MARKER !in q
    ensures PopClauses(base + [CONTEXT_MARKER] + q, active) == Success((base, active + Elems(q)))
    decreases |q|
  {
    var s := base + [CONTEXT_MARKER] + q;
    if q == [] {
      assert s[..|s| - 1] == base && s[|s| - 1] == CONTEXT_MARKER;
      assert Elems(q) == {};
      assert PopClauses(s, active) == Success((base, active));
      assert active + Elems(q) == active;
    } else {
      var n := |q| - 1;
      assert q[n] in q;
      assert s[|s| - 1] == q[n];
      assert s[..|s| - 1] == base + [CONTEXT_MARKER] + q[..n];
      assert CONTEXT_MARKER !in q[..n];
      assert PopClauses(s, active) == PopClauses(s[..|s| - 1], active + {q[n]});
      PopClausesKept(base, q[..n], active + {q[n]});
      assert Elems(q) == Elems(q[..n]) + {q[n]} by {
        assert q == q[..n] + [q[n]];
      }
      assert active + {q[n]} + Elems(q[..n]) == active + Elems(q);
    }
  }

  lemma {:induction false} KeptNoMarker(c: Ctx, ops: seq<Op>, clauseCount: int, aux: set<int>)
    requires Admissible(c, ops, clauseCount, aux)
    ensures CONTEXT_MARKER !in Kept(ops, clauseCount, aux)
    decreases |ops|
  {
    if ops != [] {
      AdmissiblePrefix(c, ops, clauseCount, aux);
      KeptNoMarker(c, ops[..|ops| - 1], clauseCount, aux);
    }
  }

  /** The state a context starts from: a new context, with the asserted
      literals cleared or not. */
  function Start(c: Ctx, clear: bool): Ctx {
    if clear then ClearAssigned(NewContext(c)) else NewContext(c)
  }

  /** new_context, optionally clear_assigned_literals, any admissible
      pushes and deactivations, then pop_context: the units, the asserted
      literals (in order), the justifying ids and all three stacks are as
      before, and the active clauses are those at the pop plus the kept
      ones. */
  lemma ContextRoundTrip(c: Ctx, clear: bool, ops: seq<Op>, clauseCount: int, aux: set<int>)
    requires WellFormed(c)
    requires Admissible(Start(c, clear), ops, clauseCount, aux)
    ensures var t := ApplyAll(Start(c, clear), ops, clauseCount, aux);
            var r := PopContext(t);
            && r.Success?
            && r.value.units == c.units && r.value.asserted == c.asserted
            && r.value.justifying == c.justifying
            && r.value.litStack == c.litStack && r.value.clearedStack == c.clearedStack
            && r.value.clauseStack == c.clauseStack
            && r.value.active == t.active + Elems(Kept(ops, clauseCount, aux))
  {
    var s := Start(c, clear);
    var t := ApplyAll(s, ops, clauseCount, aux);
    ApplyAllFrame(s, ops, clauseCount, aux);
    PopLiteralsUndo(s, ops, clauseCount, aux);
    var ls := s.litStack;
    assert ls[..|ls| - 1] == c.litStack;
    assert PopLiterals(Parts(s)) == Success(LitPart(c.litStack, s.units, s.asserted, s.justifying));
    KeptNoMarker(s, ops, clauseCount, aux);
    PopClausesKept(c.clauseStack, Kept(ops, clauseCount, aux), t.active);
    if clear {
      assert CONTEXT_MARKER !in c.asserted;
      PopClearedReverse(c.clearedStack, c.asserted, s.units, []);
      assert s.units + Elems(c.asserted) == c.units;
    } else {
      var cs := s.clearedStack;
      assert cs[..|cs| - 1] == c.clearedStack;
    }
  }
}
