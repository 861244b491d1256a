/** The checker's clause store.  Clause ids arrive in increasing order,
    mostly consecutively; the store keeps them in blocks of consecutive
    ids, each block a start id and a list of entries.  A short gap between
    ids is filled with null entries, a long one starts a new block.  A
    clause is located by binary search over the blocks.  The chunked
    memory layout that holds the literals is not modelled: an entry holds
    its literals directly. */
module ClauseBlocks {

  import opened Wrappers

  /** The checker's clause_type_t (CLAUSE_INVALID and CLAUSE_COUNT are
      only used for printing and array sizes). */
  datatype ClauseType = Input | Tseitin | Disable | Skolem | Structural | Root | Forward | Unknown

  /** A null entry fills a gap in a block; a clause has a type and
      literals (a deleted clause keeps its literals, with type Unknown). */
  datatype Entry = Null | Clause(ctype: ClauseType, lits: seq<int>)

  datatype Block = Block(startId: int, entries: seq<Entry>)

  datatype Location = Location(bid: nat, pos: nat)

  datatype Store = Store(blocks: seq<Block>, lastId: int, count: nat)

  /** A gap of more than MAX_GAP ids starts a new block. */
  const MAX_GAP: int := 10

  /** clause_type of an entry: null entries read as CLAUSE_UNKNOWN. */
  function TypeOf(e: Entry): ClauseType {
    if e.Null? then Unknown else e.ctype
  }

  /** One past the last id of a block. */
  function End(b: Block): int {
    b.startId + |b.entries|
  }

  predicate InBlock(b: Block, cid: int) {
    b.startId <= cid < End(b)
  }

  /** Blocks are in increasing order of ids and do not overlap. */
  predicate Ordered(blocks: seq<Block>) {
    forall i, j :: 0 <= i < j < |blocks| ==> End(blocks[i]) <= blocks[j].startId
  }

  /** The store invariant: ordered blocks, the last of which ends right
      after the last id added; no block reaches beyond it. */
  predicate Valid(st: Store) {
    |st.blocks| >= 1
    && st.lastId >= 0
    && Ordered(st.blocks)
    && (forall i :: 0 <= i < |st.blocks| ==> st.blocks[i].startId >= 1 && End(st.blocks[i]) <= st.lastId + 1)
    && End(st.blocks[|st.blocks| - 1]) == st.lastId + 1
  }

  /** clause_init: one empty block starting at id 1. */
  const Initial: Store := Store([Block(1, [])], 0, 0)

  lemma InitialValid()
    ensures Valid(Initial)
    ensures forall cid :: EntryOf(Initial.blocks, cid).None?
  {
  }

  /** The entry for clause cid, searching blocks from the last one back:
      the reference meaning of the store as a partial map from ids. */
  function EntryOf(blocks: seq<Block>, cid: int): Option<Entry> {
    if blocks == [] then None
    else
      var b := blocks[|blocks| - 1];
      if InBlock(b, cid) then Some(b.entries[cid - b.startId])
      else EntryOf(blocks[..|blocks| - 1], cid)
  }

  /** In ordered blocks, the entry for cid is the one in the block that
      covers cid, and there is none when no block covers it. */
  lemma {:induction false} EntryOfCovering(blocks: seq<Block>, cid: int)
    requires Ordered(blocks)
    ensures EntryOf(blocks, cid).Some? <==> exists b :: 0 <= b < |blocks| && InBlock(blocks[b], cid)
    ensures forall b :: 0 <= b < |blocks| && InBlock(blocks[b], cid) ==>
              EntryOf(blocks, cid) == Some(blocks[b].entries[cid - blocks[b].startId])
    decreases |blocks|
  {
    if blocks != [] {
      var n := |blocks| - 1;
      var init := blocks[..n];
      assert Ordered(init);
      EntryOfCovering(init, cid);
      forall b | 0 <= b < |blocks| && InBlock(blocks[b], cid)
        ensures EntryOf(blocks, cid) == Some(blocks[b].entries[cid - blocks[b].startId])
      {
        if b < n {
          assert init[b] == blocks[b];
          assert !InBlock(blocks[n], cid);
        }
      }
      if !InBlock(blocks[n], cid) && EntryOf(blocks, cid).Some? {
        var b :| 0 <= b < n && InBlock(init[b], cid);
        assert InBlock(blocks[b], cid);
      }
    }
  }

  /** Ids past the last one added have no entry. */
  lemma {:induction false} NoEntryBeyond(blocks: seq<Block>, lastId: int, cid: int)
    requires forall i :: 0 <= i < |blocks| ==> End(blocks[i]) <= lastId + 1
    requires cid > lastId
    ensures EntryOf(blocks, cid).None?
    decreases |blocks|
  {
    if blocks != [] {
      NoEntryBeyond(blocks[..|blocks| - 1], lastId, cid);
    }
  }

  /** find_clause: binary search for the block covering cid. */
  method FindClause(st: Store, cid: int) returns (loc: Option<Location>)
    requires Valid(st)
    ensures loc.Some? ==>
              && loc.value.bid < |st.blocks|
              && loc.value.pos < |st.blocks[loc.value.bid].entries|
              && st.blocks[loc.value.bid].startId + loc.value.pos == cid
    ensures loc.Some? ==> EntryOf(st.blocks, cid) == Some(st.blocks[loc.value.bid].entries[loc.value.pos])
    ensures loc.None? <==> EntryOf(st.blocks, cid).None?
  {
    var blocks := st.blocks;
    EntryOfCovering(blocks, cid);
    var lid, rid := 0, |blocks| - 1;
    while lid <= rid
      invariant 0 <= lid <= |blocks| && -1 <= rid < |blocks| && lid <= rid + 1
      invariant forall b :: 0 <= b < lid ==> !InBlock(blocks[b], cid)
      invariant forall b :: rid < b < |blocks| ==> !InBlock(blocks[b], cid)
    {
      var bid := (lid + rid) / 2;
      var pos := cid - blocks[bid].startId;
      if pos < 0 {
        forall b | bid <= b < |blocks| ensures !InBlock(blocks[b], cid) {
          if bid < b {
            assert End(blocks[bid]) <= blocks[b].startId;
          }
        }
        rid := bid - 1;
      } else if pos >= |blocks[bid].entries| {
        forall b | 0 <= b <= bid ensures !InBlock(blocks[b], cid) {
          if b < bid {
            assert End(blocks[b]) <= blocks[bid].startId;
          }
        }
        lid := bid + 1;
      } else {
        return Some(Location(bid, pos));
      }
    }
    return None;
  }

  /** start_clause followed by finish_clause: clause cid of the given type
      and literals is added, after null entries for a short gap, or in a
      new block after a long gap or, while there is only the first block,
      for the first clause beyond the input clauses. */
  function AddClause(st: Store, inputCount: int, cid: int, ctype: ClauseType, lits: seq<int>): (r: Result<Store, string>)
    requires Valid(st)
    ensures r.Failure? <==> cid <= st.lastId
    ensures r.Success? ==> Valid(r.value)
    ensures r.Success? ==> r.value.lastId == cid && r.value.count == st.count + 1
    ensures r.Success? ==> EntryOf(r.value.blocks, cid) == Some(Clause(ctype, lits))
    ensures r.Success? ==> forall id :: id <= st.lastId || id > cid ==>
              EntryOf(r.value.blocks, id) == EntryOf(st.blocks, id)
    ensures r.Success? ==> forall id :: st.lastId < id < cid ==>
              EntryOf(r.value.blocks, id) == (if |r.value.blocks| == |st.blocks| then Some(Null) else None)
    ensures r.Success? ==>
              (|r.value.blocks| == |st.blocks| + 1 <==> cid > st.lastId + MAX_GAP || (|st.blocks| == 1 && cid > inputCount))
  {
    if cid <= st.lastId then Failure("already added same or higher-numbered clause")
    else
      var e := Clause(ctype, lits);
      if cid > st.lastId + MAX_GAP || (|st.blocks| == 1 && cid > inputCount) then
        Success(AppendBlock(st, cid, e))
      else
        Success(ExtendLast(st, cid, e))
  }

  /** A new block starting at cid and holding e. */
  function AppendBlock(st: Store, cid: int, e: Entry): (st': Store)
    requires Valid(st) && cid > st.lastId
    ensures Valid(st') && st'.lastId == cid && st'.count == st.count + 1
    ensures |st'.blocks| == |st.blocks| + 1
    ensures forall id :: EntryOf(st'.blocks, id) ==
              if id == cid then Some(e)
              else if st.lastId < id < cid then None
              else EntryOf(st.blocks, id)
  {
    NewBlockEntries(st, cid, e);
    Store(st.blocks + [Block(cid, [e])], cid, st.count + 1)
  }

  /** The last block extended by null entries up to cid, then e. */
  function ExtendLast(st: Store, cid: int, e: Entry): (st': Store)
    requires Valid(st) && cid > st.lastId
    ensures Valid(st') && st'.lastId == cid && st'.count == st.count + 1
    ensures |st'.blocks| == |st.blocks|
    ensures forall id :: EntryOf(st'.blocks, id) ==
              if id == cid then Some(e)
              else if st.lastId < id < cid then Some(Null)
              else EntryOf(st.blocks, id)
  {
    var n := |st.blocks| - 1;
    var last := st.blocks[n];
    var fill := seq(cid - st.lastId - 1, _ => Null);
    var last' := Block(last.startId, last.entries + fill + [e]);
    ExtendedEntries(st, cid, e);
    Store(st.blocks[n := last'], cid, st.count + 1)
  }

  lemma NewBlockEntries(st: Store, cid: int, e: Entry)
    requires Valid(st) && cid > st.lastId
    ensures var st' := Store(st.blocks + [Block(cid, [e])], cid, st.count + 1);
            Valid(st')
            && forall id :: EntryOf(st'.blocks, id) ==
                 if id == cid then Some(e)
                 else if st.lastId < id < cid then None
                 else EntryOf(st.blocks, id)
  {
    var blocks' := st.blocks + [Block(cid, [e])];
    assert blocks'[..|blocks'| - 1] == st.blocks;
    forall id | st.lastId < id < cid ensures EntryOf(st.blocks, id).None? {
      NoEntryBeyond(st.blocks, st.lastId, id);
    }
  }

  lemma ExtendedEntries(st: Store, cid: int, e: Entry)
    requires Valid(st) && st.lastId < cid
    ensures var n := |st.blocks| - 1;
            var last := st.blocks[n];
            var last' := Block(last.startId, last.entries + seq(cid - st.lastId - 1, _ => Null) + [e]);
            var st' := Store(st.blocks[n := last'], cid, st.count + 1);
            Valid(st')
            && forall id :: EntryOf(st'.blocks, id) ==
                 if id == cid then Some(e)
                 else if st.lastId < id < cid then Some(Null)
                 else EntryOf(st.blocks, id)
  {
    var n := |st.blocks| - 1;
    var last := st.blocks[n];
    var fill := seq(cid - st.lastId - 1, _ => Null);
    var last' := Block(last.startId, last.entries + fill + [e]);
    var blocks' := st.blocks[n := last'];
    assert End(last') == cid + 1;
    assert blocks'[..n] == st.blocks[..n];
    forall id ensures EntryOf(blocks', id) ==
                 if id == cid then Some(e)
                 else if st.lastId < id < cid then Some(Null)
                 else EntryOf(st.blocks, id)
    {
      if InBlock(last, id) {
        assert (last.entries + fill + [e])[id - last.startId] == last.entries[id - last.startId];
      } else if !InBlock(last', id) {
        assert EntryOf(blocks', id) == EntryOf(st.blocks[..n], id);
      } else if id == cid {
        assert (last.entries + fill + [e])[id - last.startId] == e;
      } else {
        assert (last.entries + fill + [e])[id - last.startId] == fill[id - st.lastId - 1];
      }
    }
  }

  /** clause_delete at a located clause: its type becomes Unknown and its
      literals stay; deleting a null entry is an error. */
  function DeleteClause(st: Store, loc: Location): (r: Result<Store, string>)
    requires Valid(st)
    requires loc.bid < |st.blocks| && loc.pos < |st.blocks[loc.bid].entries|
    ensures var e := st.blocks[loc.bid].entries[loc.pos];
            r.Failure? <==> e.Null?
    ensures r.Success? ==> Valid(r.value) && r.value.lastId == st.lastId && r.value.count == st.count
    ensures r.Success? ==>
              var cid := st.blocks[loc.bid].startId + loc.pos;
              forall id :: EntryOf(r.value.blocks, id) ==
                if id == cid then Some(Clause(Unknown, st.blocks[loc.bid].entries[loc.pos].lits))
                else EntryOf(st.blocks, id)
  {
    var b := st.blocks[loc.bid];
    var e := b.entries[loc.pos];
    if e.Null? then Failure("can't delete clause")
    else
      var b' := b.(entries := b.entries[loc.pos := Clause(Unknown, e.lits)]);
      var st' := st.(blocks := st.blocks[loc.bid := b']);
      DeletedEntries(st, loc, b');
      Success(st')
  }

  lemma DeletedEntries(st: Store, loc: Location, b': Block)
    requires Valid(st)
    requires loc.bid < |st.blocks| && loc.pos < |st.blocks[loc.bid].entries|
    requires st.blocks[loc.bid].entries[loc.pos].Clause?
    requires b' == st.blocks[loc.bid].(entries := st.blocks[loc.bid].entries[loc.pos := Clause(Unknown, st.blocks[loc.bid].entries[loc.pos].lits)])
    ensures var st' := st.(blocks := st.blocks[loc.bid := b']);
            Valid(st')
            && forall id :: EntryOf(st'.blocks, id) ==
                 if id == st.blocks[loc.bid].startId + loc.pos then Some(Clause(Unknown, st.blocks[loc.bid].entries[loc.pos].lits))
                 else EntryOf(st.blocks, id)
  {
    var blocks' := st.blocks[loc.bid := b'];
    assert forall i :: 0 <= i < |blocks'| ==> blocks'[i].startId == st.blocks[i].startId && End(blocks'[i]) == End(st.blocks[i]);
    assert Ordered(blocks');
    forall id ensures EntryOf(blocks', id) ==
                 if id == st.blocks[loc.bid].startId + loc.pos then Some(Clause(Unknown, st.blocks[loc.bid].entries[loc.pos].lits))
                 else EntryOf(st.blocks, id)
    {
      DeletedEntryAt(st, loc, b', id);
    }
  }

  /** The entry for one id after the deletion. */
  lemma DeletedEntryAt(st: Store, loc: Location, b': Block, id: int)
    requires Valid(st)
    requires loc.bid < |st.blocks| && loc.pos < |st.blocks[loc.bid].entries|
    requires st.blocks[loc.bid].entries[loc.pos].Clause?
    requires b' == st.blocks[loc.bid].(entries := st.blocks[loc.bid].entries[loc.pos := Clause(Unknown, st.blocks[loc.bid].entries[loc.pos].lits)])
    ensures EntryOf(st.blocks[loc.bid := b'], id) ==
              if id == st.blocks[loc.bid].startId + loc.pos then Some(Clause(Unknown, st.blocks[loc.bid].entries[loc.pos].lits))
              else EntryOf(st.blocks, id)
  {
    ReplaceBlock(st.blocks, loc.bid, b', id);
    if InBlock(st.blocks[loc.bid], id) {
      EntryOfCovering(st.blocks, id);
    }
  }

  /** Replacing the entries of one block, keeping its ids, changes the
      entries of those ids only. */
  lemma {:induction false} ReplaceBlock(blocks: seq<Block>, i: nat, nb: Block, id: int)
    requires Ordered(blocks) && i < |blocks|
    requires nb.startId == blocks[i].startId && |nb.entries| == |blocks[i].entries|
    ensures EntryOf(blocks[i := nb], id) ==
              if InBlock(blocks[i], id) then Some(nb.entries[id - nb.startId]) else EntryOf(blocks, id)
    decreases |blocks|
  {
    var n := |blocks| - 1;
    var blocks' := blocks[i := nb];
    var init := blocks[..n];
    assert blocks'[..n] == if i == n then init else init[i := nb];
    if i < n {
      assert Ordered(init);
      assert init[i] == blocks[i];
      assert End(blocks[i]) <= blocks[n].startId;
      ReplaceBlock(init, i, nb, id);
    }
  }
}
