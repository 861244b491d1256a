/** The checker's node event queue used when deleting input clauses: a
    binary min-heap of node variables, and a per-node event counter that
    saturates at 2.  A node is queued only by its first event.  The C
    arrays become sequences; the heap holds exactly priority_count
    entries. */
module EventQueue {

  datatype Propagator = Propagator(queue: seq<int>, counts: seq<int>, eventCount: nat)

  /** Entry i's parent is entry (i-1)/2. */
  function Parent(i: nat): nat
    requires i > 0
  {
    (i - 1) / 2
  }

  /** The min-heap property: no entry is below its parent. */
  predicate IsHeap(q: seq<int>) {
    forall i :: 0 < i < |q| ==> q[Parent(i)] <= q[i]
  }

  /** Counters are between 0 and 2. */
  predicate Saturating(counts: seq<int>) {
    forall k :: 0 <= k < |counts| ==> 0 <= counts[k] <= 2
  }

  predicate Valid(p: Propagator) {
    IsHeap(p.queue) && Saturating(p.counts)
  }

  /** The heap's first entry is its least. */
  lemma {:induction false} HeapRootIsMin(q: seq<int>, i: nat)
    requires IsHeap(q) && i < |q|
    ensures q[0] <= q[i]
    decreases i
  {
    if i > 0 {
      HeapRootIsMin(q, Parent(i));
    }
  }

  /** plusplus_max2: the old counter value, and the counter increased
      unless it had reached 2. */
  function PlusPlusMax2(c: int): (r: (int, int))
    requires 0 <= c <= 2
    ensures r.0 == c
    ensures 0 <= r.1 <= 2 && r.1 >= c
    ensures r.1 == c + 1 || (c == 2 && r.1 == 2)
  {
    (c, if c < 2 then c + 1 else c)
  }

  /** Swapping two entries keeps the same entries. */
  function Swap(q: seq<int>, i: nat, j: nat): (r: seq<int>)
    requires i < |q| && j < |q|
    ensures |r| == |q| && multiset(r) == multiset(q)
    ensures r[i] == q[j] && r[j] == q[i]
    ensures forall k :: 0 <= k < |q| && k != i && k != j ==> r[k] == q[k]
  {
    q[i := q[j]][j := q[i]]
  }

  /** The heap property holds except between idx and its parent; idx's
      parent is also no greater than idx's children. */
  predicate HeapExceptUp(q: seq<int>, idx: nat) {
    idx < |q|
    && (forall i :: 0 < i < |q| && i != idx ==> q[Parent(i)] <= q[i])
    && (idx > 0 ==> forall i :: 0 < i < |q| && Parent(i) == idx ==> q[Parent(idx)] <= q[i])
  }

  /** sift_up: swap an entry with its parent while it is smaller. */
  method SiftUp(q: seq<int>, idx: nat) returns (r: seq<int>)
    requires HeapExceptUp(q, idx)
    ensures IsHeap(r)
    ensures multiset(r) == multiset(q) && |r| == |q|
  {
    r := q;
    var i: nat := idx;
    while i > 0
      invariant HeapExceptUp(r, i)
      invariant multiset(r) == multiset(q) && |r| == |q|
      decreases i
    {
      var parent := Parent(i);
      if r[i] < r[parent] {
        var r' := Swap(r, i, parent);
        assert HeapExceptUp(r', parent) by {
          forall k | 0 < k < |r'| && k != parent ensures r'[Parent(k)] <= r'[k] {
            if k == i {
            } else if Parent(k) == i {
              assert r[parent] <= r[k];
            } else if Parent(k) == parent {
              assert r[parent] <= r[k];
            } else if k != parent && Parent(k) != parent {
              assert r'[k] == r[k];
            }
          }
          if parent > 0 {
            forall k | 0 < k < |r'| && Parent(k) == parent ensures r'[Parent(parent)] <= r'[k] {
              assert r[Parent(parent)] <= r[parent];
              if k != i {
                assert r[parent] <= r[k];
              }
            }
          }
        }
        r := r';
        i := parent;
      } else {
        assert IsHeap(r) by {
          forall k | 0 < k < |r| ensures r[Parent(k)] <= r[k] {
          }
        }
        return;
      }
    }
  }

  /** The heap property holds except between idx and its children; idx's
      parent is also no greater than idx's children. */
  predicate HeapExceptDown(q: seq<int>, idx: nat) {
    idx < |q|
    && (forall i :: 0 < i < |q| && Parent(i) != idx ==> q[Parent(i)] <= q[i])
    && (idx > 0 ==> forall i :: 0 < i < |q| && Parent(i) == idx ==> q[Parent(idx)] <= q[i])
  }

  /** Swapping an entry with its least child, when that child is smaller,
      moves the one possible violation down to the child's place. */
  lemma SiftSwap(r: seq<int>, i: nat, min: nat, r': seq<int>)
    requires HeapExceptDown(r, i) && min < |r| && (min == 2 * i + 1 || min == 2 * i + 2)
    requires r[min] < r[i]
    requires r[min] <= r[2 * i + 1] && (2 * i + 2 < |r| ==> r[min] <= r[2 * i + 2])
    requires r' == Swap(r, i, min)
    ensures HeapExceptDown(r', min)
  {
    forall k | 0 < k < |r'| && Parent(k) != min ensures r'[Parent(k)] <= r'[k] {
      if k == min {
      } else if k == i {
        assert r[Parent(i)] <= r[min];
      } else if Parent(k) == i {
        assert k == 2 * i + 1 || k == 2 * i + 2;
      } else {
        assert r'[k] == r[k];
      }
    }
    forall k | 0 < k < |r'| && Parent(k) == min ensures r'[Parent(min)] <= r'[k] {
      assert Parent(min) == i;
      assert r[min] <= r[k];
    }
  }

  /** sift_down: swap an entry with its least child while that child is
      smaller. */
  method SiftDown(q: seq<int>, idx: nat) returns (r: seq<int>)
    requires HeapExceptDown(q, idx)
    ensures IsHeap(r)
    ensures multiset(r) == multiset(q) && |r| == |q|
  {
    r := q;
    var i: nat := idx;
    var left := 2 * i + 1;
    while left < |r|
      invariant HeapExceptDown(r, i) && left == 2 * i + 1
      invariant multiset(r) == multiset(q) && |r| == |q|
      decreases |q| - i
    {
      var right := left + 1;
      var min := i;
      if r[left] < r[min] {
        min := left;
      }
      if right < |r| && r[right] < r[min] {
        min := right;
      }
      if min == i {
        SiftDone(r, i);
        return;
      }
      var r' := Swap(r, i, min);
      SiftSwap(r, i, min, r');
      r := r';
      i := min;
      left := 2 * i + 1;
    }
    SiftDone(r, i);
  }

  /** An entry no larger than its children ends the sift. */
  lemma SiftDone(r: seq<int>, i: nat)
    requires HeapExceptDown(r, i)
    requires 2 * i + 1 < |r| ==> r[i] <= r[2 * i + 1]
    requires 2 * i + 2 < |r| ==> r[i] <= r[2 * i + 2]
    ensures IsHeap(r)
  {
    forall k | 0 < k < |r| ensures r[Parent(k)] <= r[k] {
      if Parent(k) == i {
        assert k == 2 * i + 1 || k == 2 * i + 2;
      }
    }
  }

  /** priority_add(var): the node's counter is bumped; only if it was 0
      is the node put on the heap.  Node variables come after the input
      variables, so node var has counter var - inputVarCount - 1. */
  method PriorityAdd(p: Propagator, inputVarCount: int, v: int) returns (p': Propagator)
    requires Valid(p)
    requires 1 <= v - inputVarCount <= |p.counts|
    ensures Valid(p')
    ensures var k := v - inputVarCount - 1;
            && |p'.counts| == |p.counts|
            && p'.counts[k] == PlusPlusMax2(p.counts[k]).1
            && (forall j :: 0 <= j < |p.counts| && j != k ==> p'.counts[j] == p.counts[j])
            && (p.counts[k] == 0 ==> multiset(p'.queue) == multiset(p.queue) + multiset{v})
            && (p.counts[k] != 0 ==> p'.queue == p.queue)
    ensures p'.eventCount == p.eventCount
  {
    var k := v - inputVarCount - 1;
    var (old_count, new_count) := PlusPlusMax2(p.counts[k]);
    var counts := p.counts[k := new_count];
    if old_count == 0 {
      var q := p.queue + [v];
      assert HeapExceptUp(q, |q| - 1);
      q := SiftUp(q, |q| - 1);
      p' := Propagator(q, counts, p.eventCount);
    } else {
      p' := p.(counts := counts);
    }
  }

  /** priority_next: -1 when the heap is empty; otherwise the least entry,
      which is removed (the last entry moves to the top and sifts down),
      and the event count goes up. */
  method PriorityNext(p: Propagator) returns (v: int, p': Propagator)
    requires Valid(p)
    ensures Valid(p')
    ensures p.queue == [] ==> v == -1 && p' == p
    ensures p.queue != [] ==>
              && v in p.queue
              && (forall x :: x in p.queue ==> v <= x)
              && multiset(p'.queue) == multiset(p.queue) - multiset{v}
              && |p'.queue| == |p.queue| - 1
              && p'.counts == p.counts
              && p'.eventCount == p.eventCount + 1
  {
    if |p.queue| == 0 {
      return -1, p;
    }
    v := p.queue[0];
    forall x | x in p.queue ensures v <= x {
      var i :| 0 <= i < |p.queue| && p.queue[i] == x;
      HeapRootIsMin(p.queue, i);
    }
    var n := |p.queue| - 1;
    var q := p.queue[0 := p.queue[n]][..n];
    assert p.queue == [v] + p.queue[1..];
    if n > 0 {
      assert q == [p.queue[n]] + p.queue[1..n];
      assert p.queue[1..] == p.queue[1..n] + [p.queue[n]];
      assert HeapExceptDown(q, 0);
      q := SiftDown(q, 0);
    }
    p' := Propagator(q, p.counts, p.eventCount + 1);
  }
}
