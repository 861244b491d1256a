/** The checker's queue of input-clause ranges for implicit deletion.  The
    input clauses 1..n are cut into consecutive blocks of at most
    CLAUSE_DELETION_BLOCK clauses, aiming at one block per thread; the
    deletion loop takes the blocks in order. */
module DeletionQueue {
  import opened Wrappers

  const CLAUSE_DELETION_BLOCK: int := 250

  datatype Range = Range(lo: int, hi: int)

  /** C's int division, which truncates toward zero. */
  function CDiv(a: int, b: int): (q: int)
    requires b != 0
    ensures b > 0 && a >= 0 ==> q == a / b
  {
    if (a >= 0) == (b > 0) then Abs(a) / Abs(b) else -(Abs(a) / Abs(b))
  }

  function Abs(x: int): nat {
    if x < 0 then -x else x
  }

  /** The ranges of size bs from lo up to n, the last one cut at n. */
  function Blocks(lo: int, n: int, bs: int): seq<Range>
    requires bs >= 1
    decreases n - lo + 1
  {
    if lo > n then []
    else [Range(lo, if lo + bs - 1 > n then n else lo + bs - 1)] + Blocks(lo + bs, n, bs)
  }

  /** The ranges are consecutive, non-empty, at most bs long, and go from
      lo to n. */
  predicate Tiles(r: seq<Range>, lo: int, n: int, bs: int) {
    && (forall i :: 0 <= i < |r| ==> r[i].lo <= r[i].hi <= r[i].lo + bs - 1)
    && (forall i :: 0 < i < |r| ==> r[i].lo == r[i - 1].hi + 1)
    && (lo <= n ==> |r| > 0 && r[0].lo == lo && r[|r| - 1].hi == n)
    && (lo > n ==> r == [])
  }

  /** The block count is the range length divided by bs, rounded up. */
  lemma {:induction false} BlocksTile(lo: int, n: int, bs: int)
    requires bs >= 1
    ensures Tiles(Blocks(lo, n, bs), lo, n, bs)
    ensures lo <= n ==> (|Blocks(lo, n, bs)| - 1) * bs < n - lo + 1 <= |Blocks(lo, n, bs)| * bs
    decreases n - lo + 1
  {
    if lo <= n {
      BlocksTile(lo + bs, n, bs);
      var k := |Blocks(lo + bs, n, bs)|;
      assert (k + 1) * bs == k * bs + bs;
      if k > 0 {
        assert (k - 1) * bs + bs == k * bs;
      }
    }
  }

  lemma {:induction false} MulAtLeast(d: int, b: int)
    requires d >= 1 && b >= 0
    ensures d * b >= b
    decreases d
  {
    if d > 1 {
      MulAtLeast(d - 1, b);
      assert d * b == (d - 1) * b + b;
    }
  }

  /** Euclidean division has one quotient. */
  lemma DivUnique(x: int, b: int, q: int)
    requires b >= 1 && q * b <= x < q * b + b
    ensures x / b == q
  {
    var q' := x / b;
    var r' := x % b;
    assert x == q' * b + r' && 0 <= r' < b;
    if q' > q {
      assert (q' - q) * b == q' * b - q * b;
      MulAtLeast(q' - q, b);
    } else if q' < q {
      assert (q - q') * b == q * b - q' * b;
      MulAtLeast(q - q', b);
    }
  }

  /** Consecutive ranges from 1 to n hold every clause 1..n, and each in
      only one range. */
  lemma {:induction false} TilesPartition(r: seq<Range>, n: int, bs: int, cid: int)
    requires Tiles(r, 1, n, bs)
    ensures (1 <= cid <= n) <==> exists i :: 0 <= i < |r| && r[i].lo <= cid <= r[i].hi
    ensures forall i, j :: 0 <= i < j < |r| ==> r[i].hi < r[j].lo
  {
    forall i, j | 0 <= i < j < |r| ensures r[i].hi < r[j].lo {
      Ascends(r, n, bs, i, j);
    }
    if 1 <= cid <= n {
      var k := Covering(r, n, bs, cid, |r| - 1);
    } else {
      forall i | 0 <= i < |r| ensures !(r[i].lo <= cid <= r[i].hi) {
        Ascends(r, n, bs, 0, i);
        Ascends(r, n, bs, i, |r| - 1);
      }
    }
  }

  lemma {:induction false} Ascends(r: seq<Range>, n: int, bs: int, i: int, j: int)
    requires Tiles(r, 1, n, bs) && 0 <= i <= j < |r|
    ensures r[i].lo <= r[j].lo && r[i].hi <= r[j].hi
    ensures i < j ==> r[i].hi < r[j].lo
    decreases j - i
  {
    if i < j {
      Ascends(r, n, bs, i, j - 1);
    }
  }

  /** The last range at or below k whose start is at most cid covers it. */
  lemma {:induction false} Covering(r: seq<Range>, n: int, bs: int, cid: int, k: int) returns (i: int)
    requires Tiles(r, 1, n, bs) && 1 <= cid <= n
    requires 0 <= k < |r| && cid <= r[k].hi
    ensures 0 <= i < |r| && r[i].lo <= cid <= r[i].hi
    decreases k
  {
    if r[k].lo <= cid {
      i := k;
    } else {
      i := Covering(r, n, bs, cid, k - 1);
    }
  }

  /** setup_deletion_queue as written: the block size is the clause count
      divided by thread_limit, rounded up, at most CLAUSE_DELETION_BLOCK.
      thread_limit is 0 unless "-n" is given, and then the division
      traps; a block size below 1 either divides by zero again or makes the
      range loop run forever. */
  function SetupAsWritten(n: int, threadLimit: int): (r: Result<seq<Range>, string>)
    requires n >= 1
    ensures threadLimit == 0 ==> r.Failure?
    ensures threadLimit >= 1 ==> r.Success?
    ensures r.Success? ==> exists bs :: 1 <= bs <= CLAUSE_DELETION_BLOCK && Tiles(r.value, 1, n, bs)
  {
    if threadLimit == 0 then Failure("division by zero")
    else
      var bs0 := CDiv(n + threadLimit - 1, threadLimit);
      var bs := if bs0 > CLAUSE_DELETION_BLOCK then CLAUSE_DELETION_BLOCK else bs0;
      if bs <= 0 then Failure("block size below 1")
      else
        BlocksTile(1, n, bs);
        Success(Blocks(1, n, bs))
  }

  /** Without "-n" the deletion phase divides by zero, for any number of
      input clauses. */
  lemma DefaultThreadLimitTraps(n: int)
    requires n >= 1
    ensures SetupAsWritten(n, 0).Failure?
    ensures Setup(n, 0) == SetupAsWritten(n, 1).value
  {
  }

  /** The evident intent: no "-n" (or a count below 1) means one thread. */
  function Threads(threadLimit: int): (t: int)
    ensures t >= 1 && (threadLimit >= 1 ==> t == threadLimit)
  {
    if threadLimit < 1 then 1 else threadLimit
  }

  /** The block size: the clause count over the threads, rounded up, at
      most CLAUSE_DELETION_BLOCK. */
  function BlockSize(n: int, threadLimit: int): (bs: int)
    requires n >= 1
    ensures 1 <= bs <= CLAUSE_DELETION_BLOCK
    ensures bs * Threads(threadLimit) >= n || bs == CLAUSE_DELETION_BLOCK
    ensures (bs - 1) * Threads(threadLimit) < n
  {
    var t := Threads(threadLimit);
    var b := (n + t - 1) / t;
    assert b * t >= n && (b - 1) * t < n by {
      assert (n + t - 1) == b * t + (n + t - 1) % t;
      assert (b - 1) * t == b * t - t;
    }
    if b > CLAUSE_DELETION_BLOCK then CLAUSE_DELETION_BLOCK else b
  }

  /** setup_deletion_queue with the thread count defaulting to one.  The
      queue has ceil(n / block size) entries, as many as the source
      allocates. */
  function Setup(n: int, threadLimit: int): (r: seq<Range>)
    requires n >= 1
    ensures Tiles(r, 1, n, BlockSize(n, threadLimit))
    ensures |r| == (n + BlockSize(n, threadLimit) - 1) / BlockSize(n, threadLimit)
  {
    var bs := BlockSize(n, threadLimit);
    BlocksTile(1, n, bs);
    var r := Blocks(1, n, bs);
    assert |r| * bs <= n + bs - 1 < |r| * bs + bs by {
      assert (|r| - 1) * bs == |r| * bs - bs;
    }
    DivUnique(n + bs - 1, bs, |r|);
    r
  }

  /** Every input clause is in exactly one range of the queue. */
  lemma SetupPartitions(n: int, threadLimit: int, cid: int)
    requires n >= 1
    ensures var r := Setup(n, threadLimit);
            && ((1 <= cid <= n) <==> exists i :: 0 <= i < |r| && r[i].lo <= cid <= r[i].hi)
            && (forall i, j :: 0 <= i < j < |r| ==> r[i].hi < r[j].lo)
  {
    TilesPartition(Setup(n, threadLimit), n, BlockSize(n, threadLimit), cid);
  }

  /** When the clauses fit in one capped block per thread, the queue has
      no more ranges than there are threads. */
  lemma SetupFitsThreads(n: int, threadLimit: int)
    requires n >= 1
    requires n <= CLAUSE_DELETION_BLOCK * Threads(threadLimit)
    ensures |Setup(n, threadLimit)| <= Threads(threadLimit)
  {
    var t := Threads(threadLimit);
    var bs := BlockSize(n, threadLimit);
    var r := Setup(n, threadLimit);
    BlocksTile(1, n, bs);
    FewBlocks(|r|, bs, t, n);
  }

  /** k blocks of size bs, the first k - 1 of which leave room, fit in t
      blocks when t blocks hold everything. */
  lemma FewBlocks(k: int, bs: int, t: int, n: int)
    requires k >= 1 && bs >= 1 && t >= 1
    requires bs * t >= n && (k - 1) * bs < n
    ensures k <= t
  {
    if k > t {
      assert (k - 1) * bs == t * bs + (k - 1 - t) * bs;
      if k - 1 > t {
        MulAtLeast(k - 1 - t, bs);
      }
    }
  }

  /** next_deletion: the next range in order, or nothing once every range
      has been handed out. */
  function NextDeletion(queue: seq<Range>, processed: nat): (r: (Option<Range>, nat))
    ensures processed >= |queue| ==> r == (None, processed)
    ensures processed < |queue| ==> r.0 == Some(queue[processed]) && r.1 == processed + 1
  {
    if processed >= |queue| then (None, processed)
    else (Some(queue[processed]), processed + 1)
  }

  /** Taking ranges until none is left hands out the whole queue, in
      order. */
  function Drain(queue: seq<Range>, processed: nat): (taken: seq<Range>)
    requires processed <= |queue|
    ensures taken == queue[processed..]
    decreases |queue| - processed
  {
    match NextDeletion(queue, processed)
    case (None, _) => []
    case (Some(rng), p) => [rng] + Drain(queue, p)
  }
}
