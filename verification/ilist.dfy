/** The checker's integer lists used as sets: a set is the list of its
    members in ascending order.  The C ilist is a resizable int array; here
    it is a seq<int>, and each operation returns a new list. */
module IntList {

  import opened Wrappers

  predicate Ascending(s: seq<int>) {
    forall i, j :: 0 <= i < j < |s| ==> s[i] <= s[j]
  }

  predicate StrictlyAscending(s: seq<int>) {
    forall i, j :: 0 <= i < j < |s| ==> s[i] < s[j]
  }

  /** The values of a list, as a set. */
  function Elems(s: seq<int>): set<int> {
    set x | x in s
  }

  lemma ElemsSnoc(s: seq<int>, x: int)
    ensures Elems(s + [x]) == Elems(s) + {x}
  {
    assert forall y :: y in s + [x] <==> y in s || y == x;
  }

  lemma ElemsEmpty(s: seq<int>)
    ensures Elems(s) == {} <==> s == []
  {
    if s != [] {
      assert s[0] in Elems(s);
    }
  }

  /** Appending a value above the last entry keeps a list strictly
      ascending. */
  lemma SnocStrict(r: seq<int>, v: int)
    requires StrictlyAscending(r)
    requires r != [] ==> r[|r| - 1] < v
    ensures StrictlyAscending(r + [v])
  {
  }

  /** No two neighbouring entries are equal. */
  predicate NoAdjacentRepeat(s: seq<int>) {
    forall i :: 1 <= i < |s| ==> s[i - 1] != s[i]
  }

  /** On an ascending list, having no equal neighbours is the same as
      being strictly ascending. */
  lemma NoAdjacentRepeatIsStrict(s: seq<int>)
    requires Ascending(s)
    ensures NoAdjacentRepeat(s) <==> StrictlyAscending(s)
  {
    if NoAdjacentRepeat(s) {
      forall i, j | 0 <= i < j < |s| ensures s[i] < s[j] {
        assert s[i] <= s[j - 1] && s[j - 1] != s[j];
      }
    }
  }

  /** ilist_find_duplicate: the value of the first neighbouring pair that
      is equal, if any. */
  method FindDuplicate(s: seq<int>) returns (dup: Option<int>)
    ensures dup.None? <==> NoAdjacentRepeat(s)
    ensures dup.Some? ==> exists i :: 1 <= i < |s| && s[i - 1] == s[i] == dup.value
  {
    if |s| <= 1 {
      return None;
    }
    var i := 1;
    while i < |s|
      invariant 1 <= i <= |s|
      invariant forall k :: 1 <= k < i ==> s[k - 1] != s[k]
    {
      if s[i - 1] == s[i] {
        return Some(s[i]);
      }
      i := i + 1;
    }
    return None;
  }

  /** ilist_deduplicate keeps the first entry and every entry that differs
      from the one before it. */
  function Dedup(s: seq<int>): seq<int> {
    if |s| <= 1 then s
    else if s[|s| - 1] == s[|s| - 2] then Dedup(s[..|s| - 1])
    else Dedup(s[..|s| - 1]) + [s[|s| - 1]]
  }

  /** ilist_deduplicate: compacts the list in place, remembering the last
      value kept. */
  method Deduplicate(s: seq<int>) returns (r: seq<int>)
    ensures r == Dedup(s)
    ensures Elems(r) == Elems(s)
    ensures NoAdjacentRepeat(r)
    ensures Ascending(s) ==> StrictlyAscending(r)
  {
    if |s| <= 1 {
      return s;
    }
    r := [s[0]];
    var lastVal := s[0];
    var i := 1;
    assert s[..1] == [s[0]];
    while i < |s|
      invariant 1 <= i <= |s|
      invariant |r| >= 1 && lastVal == r[|r| - 1] == s[i - 1]
      invariant DedupInv(s, i, r)
    {
      var val := s[i];
      DedupStep(s, i, r);
      if val != lastVal {
        r := r + [val];
        lastVal := val;
      }
      i := i + 1;
    }
    assert s[..i] == s;
  }

  /** What the compaction keeps after i entries. */
  predicate DedupInv(s: seq<int>, i: nat, r: seq<int>)
    requires i <= |s|
  {
    && r == Dedup(s[..i])
    && Elems(r) == Elems(s[..i])
    && NoAdjacentRepeat(r)
    && (Ascending(s) ==> StrictlyAscending(r))
  }

  /** One turn of the compaction: entry i is kept when it differs from
      the last value kept. */
  lemma DedupStep(s: seq<int>, i: nat, r: seq<int>)
    requires 1 <= i < |s| && |r| >= 1 && r[|r| - 1] == s[i - 1]
    requires DedupInv(s, i, r)
    ensures DedupInv(s, i + 1, if s[i] != r[|r| - 1] then r + [s[i]] else r)
  {
    var val := s[i];
    var r' := if val != r[|r| - 1] then r + [val] else r;
    DedupUnfold(s, i);
    assert Elems(r') == Elems(s[..i + 1]) by {
      assert s[..i + 1] == s[..i] + [val];
      ElemsSnoc(s[..i], val);
      ElemsSnoc(r, val);
    }
    if Ascending(s) {
      assert s[i - 1] <= s[i];
    }
  }

  /** Dedup on one more entry. */
  lemma DedupUnfold(s: seq<int>, i: nat)
    requires 1 <= i < |s|
    ensures Dedup(s[..i + 1]) == if s[i] == s[i - 1] then Dedup(s[..i]) else Dedup(s[..i]) + [s[i]]
  {
    var t := s[..i + 1];
    assert t[..|t| - 1] == s[..i];
    assert t[|t| - 1] == s[i] && t[|t| - 2] == s[i - 1];
  }

  /** ilist_is_disjoint: a merge walk over both lists that stops at the
      first common value. */
  method IsDisjoint(a: seq<int>, b: seq<int>) returns (common: Option<int>)
    ensures common.Some? ==> common.value in a && common.value in b
    ensures Ascending(a) && Ascending(b) ==> (common.None? <==> Elems(a) !! Elems(b))
  {
    var i1, i2 := 0, 0;
    ghost var sorted := Ascending(a) && Ascending(b);
    while i1 < |a| && i2 < |b|
      invariant 0 <= i1 <= |a| && 0 <= i2 <= |b|
      invariant sorted ==> forall p, q :: 0 <= p < i1 && 0 <= q < |b| ==> a[p] != b[q]
      invariant sorted ==> forall p, q :: 0 <= p < |a| && 0 <= q < i2 ==> a[p] != b[q]
    {
      var v1, v2 := a[i1], b[i2];
      if v1 == v2 {
        assert v1 in Elems(a) && v1 in Elems(b);
        return Some(v1);
      }
      if v1 < v2 {
        i1 := i1 + 1;
      } else {
        i2 := i2 + 1;
      }
    }
    common := None;
    if sorted {
      forall x | x in Elems(a) ensures x !in Elems(b) {
        var p :| 0 <= p < |a| && a[p] == x;
        assert forall q :: 0 <= q < |b| ==> b[q] != a[p];
      }
    }
  }

  /** ilist_union: a merge of both lists in which a value present in both
      is pushed once. */
  method Union(a: seq<int>, b: seq<int>) returns (r: seq<int>)
    ensures Elems(r) == Elems(a) + Elems(b)
    ensures StrictlyAscending(a) && StrictlyAscending(b) ==> StrictlyAscending(r)
  {
    var i1, i2 := 0, 0;
    r := [];
    while i1 < |a| && i2 < |b|
      invariant 0 <= i1 <= |a| && 0 <= i2 <= |b|
      invariant MergeInv(r, a, b, i1, i2)
    {
      var v1, v2 := a[i1], b[i2];
      if v1 < v2 {
        MergePush(r, a, b, i1, i2, i1 + 1, i2, v1);
        r := r + [v1];
        i1 := i1 + 1;
      } else if v2 < v1 {
        MergePush(r, a, b, i1, i2, i1, i2 + 1, v2);
        r := r + [v2];
        i2 := i2 + 1;
      } else {
        MergePush(r, a, b, i1, i2, i1 + 1, i2 + 1, v1);
        r := r + [v1];
        i1, i2 := i1 + 1, i2 + 1;
      }
    }
    while i1 < |a|
      invariant 0 <= i1 <= |a|
      invariant MergeInv(r, a, b, i1, i2)
      invariant i1 < |a| ==> i2 == |b|
    {
      MergePush(r, a, b, i1, i2, i1 + 1, i2, a[i1]);
      r := r + [a[i1]];
      i1 := i1 + 1;
    }
    while i2 < |b|
      invariant 0 <= i2 <= |b|
      invariant MergeInv(r, a, b, i1, i2)
      invariant i1 == |a|
    {
      MergePush(r, a, b, i1, i2, i1, i2 + 1, b[i2]);
      r := r + [b[i2]];
      i2 := i2 + 1;
    }
    assert a[..i1] == a && b[..i2] == b;
  }

  /** What the merge keeps: the output holds the values taken so far and,
      when both inputs are strictly ascending, is strictly ascending and
      below the next value of either input. */
  predicate MergeInv(r: seq<int>, a: seq<int>, b: seq<int>, i1: nat, i2: nat)
    requires i1 <= |a| && i2 <= |b|
  {
    && Elems(r) == Elems(a[..i1]) + Elems(b[..i2])
    && (StrictlyAscending(a) && StrictlyAscending(b) ==>
          && StrictlyAscending(r)
          && (r != [] && i1 < |a| ==> r[|r| - 1] < a[i1])
          && (r != [] && i2 < |b| ==> r[|r| - 1] < b[i2]))
  }

  /** One push of the merge: v is the next value of each input it is
      taken from, and below the next value of an input it is not taken
      from. */
  lemma MergePush(r: seq<int>, a: seq<int>, b: seq<int>, i1: nat, i2: nat, j1: nat, j2: nat, v: int)
    requires i1 <= j1 <= |a| && j1 <= i1 + 1 && i2 <= j2 <= |b| && j2 <= i2 + 1
    requires j1 > i1 || j2 > i2
    requires j1 > i1 ==> v == a[i1]
    requires j2 > i2 ==> v == b[i2]
    requires j1 == i1 && i1 < |a| ==> v < a[i1]
    requires j2 == i2 && i2 < |b| ==> v < b[i2]
    requires MergeInv(r, a, b, i1, i2)
    ensures MergeInv(r + [v], a, b, j1, j2)
  {
    ElemsSnoc(r, v);
    if j1 > i1 {
      TakeOne(a, i1);
    }
    if j2 > i2 {
      TakeOne(b, i2);
    }
    if StrictlyAscending(a) && StrictlyAscending(b) {
      SnocStrict(r, v);
    }
  }

  /** Taking one more entry of a list adds that entry's value. */
  lemma TakeOne(s: seq<int>, i: nat)
    requires i < |s|
    ensures Elems(s[..i + 1]) == Elems(s[..i]) + {s[i]}
  {
    assert s[..i + 1] == s[..i] + [s[i]];
    ElemsSnoc(s[..i], s[i]);
  }

  /** The reference meaning of ilist_union on sets: the merge of two
      strictly ascending lists is the unique strictly ascending list of
      the values of either. */
  lemma {:induction false} StrictlyAscendingUnique(r: seq<int>, t: seq<int>)
    requires StrictlyAscending(r) && StrictlyAscending(t)
    requires Elems(r) == Elems(t)
    ensures r == t
    decreases |r|
  {
    if r == [] || t == [] {
      ElemsEmpty(r);
      ElemsEmpty(t);
    } else {
      assert r[0] in Elems(t) && t[0] in Elems(r);
      assert r[0] == t[0];
      assert Elems(r[1..]) == Elems(t[1..]) by {
        forall x ensures x in Elems(r[1..]) <==> x in Elems(t[1..]) {
          if x in r[1..] {
            assert x in Elems(t) && x != t[0];
          }
          if x in t[1..] {
            assert x in Elems(r) && x != r[0];
          }
        }
      }
      StrictlyAscendingUnique(r[1..], t[1..]);
    }
  }

  /** Inserting a value into an ascending list at its place. */
  function Insert(x: int, s: seq<int>): (r: seq<int>)
    requires Ascending(s)
    ensures Ascending(r) && multiset(r) == multiset(s) + multiset{x}
    ensures |r| == |s| + 1
  {
    if s == [] || x <= s[0] then [x] + s
    else
      var r' := Insert(x, s[1..]);
      InsertCons(x, s, r');
      [s[0]] + r'
  }

  /** Putting the head back in front of the insertion into the tail. */
  lemma InsertCons(x: int, s: seq<int>, r': seq<int>)
    requires Ascending(s) && s != [] && s[0] < x
    requires Ascending(r') && multiset(r') == multiset(s[1..]) + multiset{x}
    ensures Ascending([s[0]] + r') && multiset([s[0]] + r') == multiset(s) + multiset{x}
  {
    assert s == [s[0]] + s[1..];
    LowerBound(s[0], s[1..], x, r');
  }

  /** A lower bound of a list and of x bounds any arrangement of them. */
  lemma LowerBound(m: int, s: seq<int>, x: int, r: seq<int>)
    requires m <= x && forall k :: 0 <= k < |s| ==> m <= s[k]
    requires multiset(r) == multiset(s) + multiset{x}
    ensures forall k :: 0 <= k < |r| ==> m <= r[k]
  {
    forall k | 0 <= k < |r| ensures m <= r[k] {
      assert r[k] in multiset(r);
      if r[k] != x {
        assert r[k] in multiset(s);
      }
    }
  }

  /** ilist_sort (qsort with an int comparison): an ascending permutation
      of the list. */
  function Sort(s: seq<int>): (r: seq<int>)
    ensures Ascending(r) && multiset(r) == multiset(s)
    ensures |r| == |s|
  {
    if s == [] then []
    else
      assert s == s[..|s| - 1] + [s[|s| - 1]];
      Insert(s[|s| - 1], Sort(s[..|s| - 1]))
  }

  /** No value occurs twice in the list. */
  predicate Distinct(s: seq<int>) {
    forall x :: x in multiset(s) ==> multiset(s)[x] <= 1
  }

  /** An ascending list is strictly ascending exactly when no value occurs
      twice in it. */
  lemma StrictIffDistinct(s: seq<int>)
    requires Ascending(s)
    ensures StrictlyAscending(s) <==> Distinct(s)
  {
    if StrictlyAscending(s) {
      StrictIsDistinct(s);
    }
    if Distinct(s) {
      DistinctIsStrict(s);
    }
  }

  lemma {:induction false} StrictIsDistinct(s: seq<int>)
    requires StrictlyAscending(s)
    ensures Distinct(s)
    decreases |s|
  {
    if s != [] {
      var t := s[..|s| - 1];
      var last := s[|s| - 1];
      assert s == t + [last];
      assert StrictlyAscending(t) by {
        forall i, j | 0 <= i < j < |t| ensures t[i] < t[j] {
          assert t[i] == s[i] && t[j] == s[j];
        }
      }
      StrictIsDistinct(t);
      assert last !in multiset(t) by {
        forall i | 0 <= i < |t| ensures t[i] != last {
          assert s[i] < s[|s| - 1];
        }
      }
      forall x | x in multiset(s) ensures multiset(s)[x] <= 1 {
        assert multiset(s)[x] == multiset(t)[x] + (if x == last then 1 else 0);
      }
    }
  }

  lemma {:induction false} DistinctIsStrict(s: seq<int>)
    requires Ascending(s) && Distinct(s)
    ensures StrictlyAscending(s)
    decreases |s|
  {
    if s != [] {
      var t := s[..|s| - 1];
      var last := s[|s| - 1];
      assert s == t + [last];
      assert Distinct(t) by {
        forall x | x in multiset(t) ensures multiset(t)[x] <= 1 {
          assert multiset(s)[x] == multiset(t)[x] + (if x == last then 1 else 0);
        }
      }
      DistinctIsStrict(t);
      forall i, j | 0 <= i < j < |s| ensures s[i] < s[j] {
        if j < |s| - 1 {
          assert t[i] < t[j];
        } else {
          assert t[i] in multiset(t);
          assert multiset(s)[t[i]] == multiset(t)[t[i]] + (if t[i] == last then 1 else 0);
        }
      }
    }
  }
}
