/** The checker's rule for adding a product (AND) node: the children's
    dependency sets (the input variables each child mentions) must be
    pairwise disjoint, and the node's own dependency list is their union.
    Children are literals: an input literal depends on its variable, a
    node child on that node's dependency list.  Then the node is defined
    by its Tseitin clauses. */
module ProductDeps {
  import opened Wrappers
  import opened IntList
  import opened Literals
  import ClauseBlocks

  /** The variables of the input literals, in order: the local dependency
      list before sorting. */
  function InputVars(s: seq<int>, inputVarCount: int): seq<int>
    decreases |s|
  {
    if s == [] then []
    else
      var last := s[|s| - 1];
      InputVars(s[..|s| - 1], inputVarCount) + (if Abs(last) <= inputVarCount then [Abs(last)] else [])
  }

  /** A child that refers to a defined node. */
  predicate IsNodeChild(lit: int, inputVarCount: int, deps: map<int, seq<int>>) {
    Abs(lit) > inputVarCount && lit in deps
  }

  /** The union of the node children's dependency sets. */
  function NodeDeps(s: seq<int>, inputVarCount: int, deps: map<int, seq<int>>): set<int>
    decreases |s|
  {
    if s == [] then {}
    else
      var last := s[|s| - 1];
      NodeDeps(s[..|s| - 1], inputVarCount, deps)
      + (if IsNodeChild(last, inputVarCount, deps) then Elems(deps[last]) else {})
  }

  /** One child is acceptable on its own: an input literal on a variable
      that is not excluded (in a projected POG, a variable that is not a
      data variable, below the declared root), or a positive literal
      naming a defined node (negation would break negation normal form). */
  predicate ChildOk(lit: int, inputVarCount: int, excluded: set<int>, deps: map<int, seq<int>>) {
    if Abs(lit) <= inputVarCount then Abs(lit) !in excluded
    else lit == Abs(lit) && lit in deps
  }

  /** No two node children share a dependency. */
  predicate DisjointNodes(s: seq<int>, inputVarCount: int, deps: map<int, seq<int>>) {
    forall k, l :: 0 <= k < l < |s| && IsNodeChild(s[k], inputVarCount, deps) && IsNodeChild(s[l], inputVarCount, deps)
      ==> Elems(deps[s[k]]) !! Elems(deps[s[l]])
  }

  /** The product is decomposable: every child is acceptable, the node
      children have disjoint dependencies, no input variable repeats
      (unless repeats are allowed), and no input variable is a dependency
      of a node child. */
  predicate Decomposable(lits: seq<int>, inputVarCount: int, excluded: set<int>,
                         deps: map<int, seq<int>>, repeatedOk: bool) {
    && (forall k :: 0 <= k < |lits| ==> ChildOk(lits[k], inputVarCount, excluded, deps))
    && DisjointNodes(lits, inputVarCount, deps)
    && (!repeatedOk ==> Distinct(InputVars(lits, inputVarCount)))
    && Elems(InputVars(lits, inputVarCount)) !! NodeDeps(lits, inputVarCount, deps)
  }

  /** A value is in NodeDeps exactly when some node child depends on it. */
  lemma {:induction false} NodeDepsMembers(s: seq<int>, inputVarCount: int, deps: map<int, seq<int>>, x: int)
    ensures x in NodeDeps(s, inputVarCount, deps) <==>
            exists k :: 0 <= k < |s| && IsNodeChild(s[k], inputVarCount, deps) && x in Elems(deps[s[k]])
    decreases |s|
  {
    if s != [] {
      var t := s[..|s| - 1];
      NodeDepsMembers(t, inputVarCount, deps, x);
      if x in NodeDeps(t, inputVarCount, deps) {
        var k :| 0 <= k < |t| && IsNodeChild(t[k], inputVarCount, deps) && x in Elems(deps[t[k]]);
        assert s[k] == t[k];
      }
      if exists k :: 0 <= k < |s| && IsNodeChild(s[k], inputVarCount, deps) && x in Elems(deps[s[k]]) {
        var k :| 0 <= k < |s| && IsNodeChild(s[k], inputVarCount, deps) && x in Elems(deps[s[k]]);
        if k < |t| {
          assert t[k] == s[k];
        }
      }
    }
  }

  /** Adding one child keeps the node children disjoint exactly when the
      new child, if a node, shares nothing with the earlier ones. */
  lemma DisjointNodesSnoc(s: seq<int>, y: int, inputVarCount: int, deps: map<int, seq<int>>)
    ensures DisjointNodes(s + [y], inputVarCount, deps) <==>
            DisjointNodes(s, inputVarCount, deps)
            && (IsNodeChild(y, inputVarCount, deps) ==> NodeDeps(s, inputVarCount, deps) !! Elems(deps[y]))
  {
    var s' := s + [y];
    if DisjointNodes(s', inputVarCount, deps) {
      forall k, l | 0 <= k < l < |s| && IsNodeChild(s[k], inputVarCount, deps) && IsNodeChild(s[l], inputVarCount, deps)
        ensures Elems(deps[s[k]]) !! Elems(deps[s[l]])
      {
        assert s'[k] == s[k] && s'[l] == s[l];
      }
    }
    if DisjointNodes(s', inputVarCount, deps) && IsNodeChild(y, inputVarCount, deps) {
      forall x | x in NodeDeps(s, inputVarCount, deps) ensures x !in Elems(deps[y]) {
        NodeDepsMembers(s, inputVarCount, deps, x);
        var k :| 0 <= k < |s| && IsNodeChild(s[k], inputVarCount, deps) && x in Elems(deps[s[k]]);
        assert s'[k] == s[k] && s'[|s|] == y;
      }
    }
    if DisjointNodes(s, inputVarCount, deps)
       && (IsNodeChild(y, inputVarCount, deps) ==> NodeDeps(s, inputVarCount, deps) !! Elems(deps[y])) {
      forall k, l | 0 <= k < l < |s'| && IsNodeChild(s'[k], inputVarCount, deps) && IsNodeChild(s'[l], inputVarCount, deps)
        ensures Elems(deps[s'[k]]) !! Elems(deps[s'[l]])
      {
        if l == |s| {
          forall x | x in Elems(deps[s[k]]) ensures x !in Elems(deps[y]) {
            NodeDepsMembers(s, inputVarCount, deps, x);
          }
        } else {
          assert s'[k] == s[k] && s'[l] == s[l];
        }
      }
    }
  }

  lemma PrefixSnoc(s: seq<int>, i: nat)
    requires i < |s|
    ensures s[..i + 1] == s[..i] + [s[i]]
    ensures s[..i + 1][..i] == s[..i]
  {
  }

  /** A list and any permutation of it have the same values. */
  lemma SameMultisetSameElems(a: seq<int>, b: seq<int>)
    requires multiset(a) == multiset(b)
    ensures Elems(a) == Elems(b)
  {
    forall x ensures x in Elems(a) <==> x in Elems(b) {
      assert x in a <==> x in multiset(a);
      assert x in b <==> x in multiset(b);
    }
  }

  /** The children loop of cpog_add_product: each child is checked and,
      for a node child, its dependencies are merged into the node's list
      after a disjointness test; input variables are collected. */
  method CollectChildren(lits: seq<int>, inputVarCount: int, excluded: set<int>, deps: map<int, seq<int>>)
    returns (r: Result<(seq<int>, seq<int>), string>)
    requires forall v :: v in deps ==> StrictlyAscending(deps[v])
    ensures r.Success? <==>
            (forall k :: 0 <= k < |lits| ==> ChildOk(lits[k], inputVarCount, excluded, deps))
            && DisjointNodes(lits, inputVarCount, deps)
    ensures r.Success? ==> StrictlyAscending(r.value.0)
                           && Elems(r.value.0) == NodeDeps(lits, inputVarCount, deps)
                           && r.value.1 == InputVars(lits, inputVarCount)
  {
    var acc: seq<int> := [];
    var local: seq<int> := [];
    var i := 0;
    while i < |lits|
      invariant 0 <= i <= |lits|
      invariant local == InputVars(lits[..i], inputVarCount)
      invariant StrictlyAscending(acc) && Elems(acc) == NodeDeps(lits[..i], inputVarCount, deps)
      invariant forall k :: 0 <= k < i ==> ChildOk(lits[k], inputVarCount, excluded, deps)
      invariant DisjointNodes(lits[..i], inputVarCount, deps)
    {
      var lit := lits[i];
      var v := Abs(lit);
      CollectStep(lits, i, inputVarCount, deps);
      DisjointNodesSnoc(lits[..i], lit, inputVarCount, deps);
      if v <= inputVarCount {
        if v in excluded {
          return Failure("not a data variable");
        }
        local := local + [v];
      } else {
        if v != lit {
          return Failure("negative node literal violates NNF");
        }
        if lit !in deps {
          return Failure("invalid node id");
        }
        var common := IsDisjoint(acc, deps[lit]);
        if common.Some? {
          assert !DisjointNodes(lits[..i + 1], inputVarCount, deps);
          OverlapInPrefix(lits, i, inputVarCount, deps);
          return Failure("dependency sets overlap");
        }
        acc := Union(acc, deps[lit]);
      }
      i := i + 1;
    }
    assert lits[..i] == lits;
    r := Success((acc, local));
  }

  /** One more child extends the collected input variables and node
      dependencies by that child's own. */
  lemma CollectStep(lits: seq<int>, i: nat, inputVarCount: int, deps: map<int, seq<int>>)
    requires i < |lits|
    ensures lits[..i + 1] == lits[..i] + [lits[i]]
    ensures InputVars(lits[..i + 1], inputVarCount)
            == InputVars(lits[..i], inputVarCount) + (if Abs(lits[i]) <= inputVarCount then [Abs(lits[i])] else [])
    ensures NodeDeps(lits[..i + 1], inputVarCount, deps)
            == NodeDeps(lits[..i], inputVarCount, deps)
               + (if IsNodeChild(lits[i], inputVarCount, deps) then Elems(deps[lits[i]]) else {})
  {
    PrefixSnoc(lits, i);
  }

  /** An overlap among the first children is an overlap of the list. */
  lemma OverlapInPrefix(lits: seq<int>, i: nat, inputVarCount: int, deps: map<int, seq<int>>)
    requires i < |lits| && !DisjointNodes(lits[..i + 1], inputVarCount, deps)
    ensures !DisjointNodes(lits, inputVarCount, deps)
  {
    var k, l := Overlap(lits[..i + 1], inputVarCount, deps);
    assert lits[k] == lits[..i + 1][k] && lits[l] == lits[..i + 1][l];
  }

  /** A witness pair for a failed disjointness test. */
  lemma Overlap(s: seq<int>, inputVarCount: int, deps: map<int, seq<int>>) returns (k: int, l: int)
    requires !DisjointNodes(s, inputVarCount, deps)
    ensures 0 <= k < l < |s| && IsNodeChild(s[k], inputVarCount, deps) && IsNodeChild(s[l], inputVarCount, deps)
    ensures !(Elems(deps[s[k]]) !! Elems(deps[s[l]]))
  {
    k, l :| 0 <= k < l < |s| && IsNodeChild(s[k], inputVarCount, deps) && IsNodeChild(s[l], inputVarCount, deps)
            && !(Elems(deps[s[k]]) !! Elems(deps[s[l]]));
  }

  /** The input-variable part of cpog_add_product: the collected variables
      are sorted, then deduplicated when repeats are allowed, or rejected
      on a repeat otherwise. */
  method LocalDependencies(local: seq<int>, repeatedOk: bool) returns (r: Result<seq<int>, string>)
    ensures r.Success? <==> (repeatedOk || Distinct(local))
    ensures r.Success? ==> StrictlyAscending(r.value) && Elems(r.value) == Elems(local)
  {
    var sorted := Sort(local);
    SameMultisetSameElems(sorted, local);
    StrictIffDistinct(sorted);
    if repeatedOk {
      var list := Deduplicate(sorted);
      return Success(list);
    }
    var dup := FindDuplicate(sorted);
    NoAdjacentRepeatIsStrict(sorted);
    if dup.Some? {
      return Failure("same or opposite literals in argument");
    }
    return Success(sorted);
  }

  /** The dependency part of cpog_add_product: the children are checked,
      then the input variables are tested against the node dependencies
      and merged in.  Succeeds exactly for a decomposable product, with
      the strictly ascending list of all dependencies. */
  method ProductDependencies(lits: seq<int>, inputVarCount: int, excluded: set<int>,
                             deps: map<int, seq<int>>, repeatedOk: bool)
    returns (r: Result<seq<int>, string>)
    requires forall v :: v in deps ==> StrictlyAscending(deps[v])
    ensures r.Success? <==> Decomposable(lits, inputVarCount, excluded, deps, repeatedOk)
    ensures r.Success? ==>
              && StrictlyAscending(r.value)
              && Elems(r.value) == Elems(InputVars(lits, inputVarCount)) + NodeDeps(lits, inputVarCount, deps)
  {
    var children := CollectChildren(lits, inputVarCount, excluded, deps);
    if children.Failure? {
      return Failure(children.error);
    }
    var (acc, local) := children.value;
    if |local| == 0 {
      assert Elems(local) == {};
      return Success(acc);
    }
    var list := LocalDependencies(local, repeatedOk);
    if list.Failure? {
      return Failure(list.error);
    }
    var common := IsDisjoint(acc, list.value);
    if common.Some? {
      return Failure("variable already in dependency set");
    }
    var merged := Union(acc, list.value);
    return Success(merged);
  }

  /** Truth of a literal under an assignment to variables. */
  predicate LitTrue(a: int -> bool, lit: int) {
    if lit > 0 then a(lit) else !a(-lit)
  }

  predicate ClauseTrue(a: int -> bool, lits: seq<int>) {
    exists k :: 0 <= k < |lits| && LitTrue(a, lits[k])
  }

  lemma BinaryClauseTrue(a: int -> bool, x: int, y: int)
    ensures ClauseTrue(a, [x, y]) <==> LitTrue(a, x) || LitTrue(a, y)
  {
    if LitTrue(a, x) {
      assert [x, y][0] == x;
    }
    if LitTrue(a, y) {
      assert [x, y][1] == y;
    }
  }

  datatype Added = Added(cid: int, ctype: ClauseBlocks.ClauseType, lits: seq<int>)

  /** The clauses cpog_add_product adds for node nid at clause id cid: the
      long clause (nid, -children) and one clause (-nid, child) per child,
      at consecutive ids.  The long clause of a childless root is the root
      clause. */
  function ProductClauses(nid: int, cid: int, children: seq<int>, declaredRoot: int): (cs: seq<Added>)
    ensures |cs| == |children| + 1
    ensures forall k :: 0 <= k < |cs| ==> cs[k].cid == cid + k
    ensures cs[0].ctype == (if children == [] && nid == declaredRoot then ClauseBlocks.Root else ClauseBlocks.Tseitin)
    ensures forall k :: 1 <= k < |cs| ==> cs[k].ctype == ClauseBlocks.Tseitin
  {
    var ctype := if |children| == 0 && nid == declaredRoot then ClauseBlocks.Root else ClauseBlocks.Tseitin;
    [Added(cid, ctype, [nid] + seq(|children|, k requires 0 <= k < |children| => -children[k]))]
    + seq(|children|, k requires 0 <= k < |children| => Added(cid + k + 1, ClauseBlocks.Tseitin, [-nid, children[k]]))
  }

  /** The added clauses all hold exactly when the node is true iff every
      child is true: they define nid as the AND of its children. */
  lemma ProductClausesDefineAnd(a: int -> bool, nid: int, cid: int, children: seq<int>, declaredRoot: int)
    requires nid > 0
    requires forall k :: 0 <= k < |children| ==> children[k] != 0
    ensures var cs := ProductClauses(nid, cid, children, declaredRoot);
            (forall k :: 0 <= k < |cs| ==> ClauseTrue(a, cs[k].lits))
            <==> (a(nid) <==> forall k :: 0 <= k < |children| ==> LitTrue(a, children[k]))
  {
    var cs := ProductClauses(nid, cid, children, declaredRoot);
    assert forall k :: 1 <= k < |cs| ==> cs[k].lits == [-nid, children[k - 1]];
    DefineAnd(a, nid, children, cs);
  }

  /** The same for any clause list of that shape. */
  lemma DefineAnd(a: int -> bool, nid: int, children: seq<int>, cs: seq<Added>)
    requires nid > 0
    requires forall k :: 0 <= k < |children| ==> children[k] != 0
    requires |cs| == |children| + 1
    requires |cs[0].lits| == |children| + 1 && cs[0].lits[0] == nid
    requires forall k :: 0 <= k < |children| ==> cs[0].lits[k + 1] == -children[k]
    requires forall k :: 1 <= k < |cs| ==> cs[k].lits == [-nid, children[k - 1]]
    ensures (forall k :: 0 <= k < |cs| ==> ClauseTrue(a, cs[k].lits))
            <==> (a(nid) <==> forall k :: 0 <= k < |children| ==> LitTrue(a, children[k]))
  {
    LongClauseTrue(a, nid, children, cs[0].lits);
    forall k | 1 <= k < |cs| ensures ClauseTrue(a, cs[k].lits) <==> (a(nid) ==> LitTrue(a, children[k - 1])) {
      BinaryClauseTrue(a, -nid, children[k - 1]);
    }
    if forall k :: 0 <= k < |cs| ==> ClauseTrue(a, cs[k].lits) {
      if a(nid) {
        forall k | 0 <= k < |children| ensures LitTrue(a, children[k]) {
          assert ClauseTrue(a, cs[k + 1].lits);
        }
      }
    }
  }

  /** The long clause (nid, -children) holds exactly when nid is true or
      some child is false. */
  lemma LongClauseTrue(a: int -> bool, nid: int, children: seq<int>, long: seq<int>)
    requires nid > 0
    requires |long| == |children| + 1 && long[0] == nid
    requires forall k :: 0 <= k < |children| ==> long[k + 1] == -children[k] && children[k] != 0
    ensures ClauseTrue(a, long) <==> a(nid) || exists k :: 0 <= k < |children| && !LitTrue(a, children[k])
  {
    if a(nid) {
      assert LitTrue(a, long[0]);
    }
    if ClauseTrue(a, long) && !a(nid) {
      var j :| 0 <= j < |long| && LitTrue(a, long[j]);
      assert j > 0 && long[j] == -children[j - 1];
    }
    if exists k :: 0 <= k < |children| && !LitTrue(a, children[k]) {
      var k :| 0 <= k < |children| && !LitTrue(a, children[k]);
      assert long[k + 1] == -children[k];
      assert LitTrue(a, long[k + 1]);
    }
  }
}
