/** Pog::read_d4ddnnf: the D4 NNF line grammar.  A node line ('t', 'f',
    'a' or 'o' followed by "id 0") creates a node; an edge line
    ("parent child lit ... 0") adds an edge between declared nodes, the
    literals between them going to a new AND node placed on the edge.
    Lines arrive already split into their command letter and numbers;
    numbers that do not parse are None. */
module D4Reader {
  import opened Wrappers
  import opened PogNodes

  /** One input line.  atEof says that the line ended at the end of the
      file rather than at a newline. */
  datatype Line = NodeLine(tag: char, nums: Option<seq<int>>, atEof: bool) | EdgeLine(nums: Option<seq<int>>, atEof: bool)

  /** The reader's tables: node kinds and argument lists by position, the
      node of each declared NNF id, the nodes that are some node's child,
      and the declared NNF ids in line order (the keys of idmap, which
      the root search visits in increasing order). */
  datatype Tables = Tables(kinds: seq<Kind>, args: seq<seq<int>>, idmap: map<int, int>, withParent: set<int>, declared: seq<int>)

  /** The tables name only nodes that exist. */
  predicate Valid(start: int, t: Tables) {
    && |t.args| == |t.kinds|
    && (forall nid :: nid in t.idmap ==> 0 <= t.idmap[nid] - start < |t.kinds|)
    && (forall pid :: pid in t.withParent ==> 0 <= pid - start < |t.kinds|)
    && (forall x :: x in t.declared ==> x in t.idmap)
    && (forall x :: x in t.idmap ==> x in t.declared)
  }

  /** The node command letters. */
  function KindOfTag(tag: char): (r: Option<Kind>)
    ensures r.Some? <==> tag in {'t', 'f', 'a', 'o'}
    ensures r.Some? ==> r.value != KSkolem
  {
    if tag == 't' then Some(KTrue)
    else if tag == 'f' then Some(KFalse)
    else if tag == 'a' then Some(KAnd)
    else if tag == 'o' then Some(KOr)
    else None
  }

  /** A line with no numbers that ends the file stops the reader. */
  predicate Stops(l: Line) {
    l.nums == Some([]) && l.atEof
  }

  /** What an edge line "parent child lit ... 0" does: the parent's
      argument list gains the child, or, when literals sit between them,
      a new AND node over those literals followed by the child. */
  predicate EdgeAdded(start: int, n: seq<int>, t: Tables, t': Tables) {
    && |n| >= 3 && n[0] in t.idmap && n[1] in t.idmap
    && var ppos := t.idmap[n[0]] - start;
       var cpid := if |n| > 3 then start + |t.kinds| else t.idmap[n[1]];
       && 0 <= ppos < |t.args| && |t'.args| == |t'.kinds|
       && t'.idmap == t.idmap && t'.declared == t.declared
       && t'.withParent == t.withParent + {cpid}
       && (|n| == 3 ==> t'.kinds == t.kinds && t'.args == t.args[ppos := t.args[ppos] + [cpid]])
       && (|n| > 3 ==>
             && t'.kinds == t.kinds + [KAnd]
             && t'.args == (t.args + [n[2..|n| - 1] + [t.idmap[n[1]]]])[ppos := t.args[ppos] + [cpid]])
  }

  /** One line: Success(None) stops, Success(Some(t')) continues.  A bad
      line is an error, whatever the reader had created for it. */
  function ReadLine(start: int, l: Line, t: Tables): (r: Result<Option<Tables>, string>)
    requires Valid(start, t)
    ensures r.Failure? <==> !LineOk(l, t.idmap.Keys)
    ensures r.Success? ==> (r.value.None? <==> Stops(l))
    ensures r.Success? && r.value.Some? ==> Valid(start, r.value.value) && t.kinds <= r.value.value.kinds
    ensures r.Success? && r.value.Some? ==> t.idmap.Keys <= r.value.value.idmap.Keys
    ensures r.Success? && r.value.Some? && l.NodeLine? ==>
              var t' := r.value.value;
              && t'.kinds == t.kinds + [KindOfTag(l.tag).value] && t'.args == t.args + [[]]
              && t'.idmap == t.idmap[l.nums.value[0] := start + |t.kinds|]
    ensures r.Success? && r.value.Some? && l.EdgeLine? ==> EdgeAdded(start, l.nums.value, t, r.value.value)
  {
    match l
    case NodeLine(tag, nums, eof) =>
      if KindOfTag(tag).None? then Failure("unknown D4 NNF command")
      else if nums.None? then Failure("couldn't parse numbers")
      else if nums.value == [] && eof then Success(None)
      else if |nums.value| != 2 then Failure("expected 2 numbers")
      else if nums.value[1] != 0 then Failure("line not zero-terminated")
      else
        var pid := start + |t.kinds|;
        Success(Some(Tables(t.kinds + [KindOfTag(tag).value], t.args + [[]], t.idmap[nums.value[0] := pid], t.withParent,
                            t.declared + [nums.value[0]])))
    case EdgeLine(nums, eof) =>
      if nums.None? then Failure("couldn't parse numbers")
      else if nums.value == [] && eof then Success(None)
      else
        var n := nums.value;
        if |n| < 3 then Failure("expected at least 3 numbers")
        else if n[|n| - 1] != 0 then Failure("line not zero-terminated")
        else if n[0] !in t.idmap || n[1] !in t.idmap then Failure("invalid NNF node id")
        else
          var ppos := t.idmap[n[0]] - start;
          assert forall nid :: nid in t.idmap ==> 0 <= t.idmap[nid] - start < |t.kinds|;
          var spid := t.idmap[n[1]];
          var t1 := if |n| > 3 then t.(kinds := t.kinds + [KAnd], args := t.args + [n[2..|n| - 1] + [spid]]) else t;
          var cpid := if |n| > 3 then start + |t.kinds| else spid;
          Success(Some(t1.(args := t1.args[ppos := t1.args[ppos] + [cpid]], withParent := t.withParent + {cpid})))
  }

  /** The reading loop from line i. */
  function ReadFrom(start: int, lines: seq<Line>, i: nat, t: Tables): (r: Result<Tables, string>)
    requires Valid(start, t) && i <= |lines|
    ensures r.Success? ==> Valid(start, r.value) && t.kinds <= r.value.kinds
    decreases |lines| - i
  {
    if i == |lines| then Success(t)
    else
      var next :- ReadLine(start, lines[i], t);
      match next
      case None => Success(t)
      case Some(t') => ReadFrom(start, lines, i + 1, t')
  }

  // ---------------------------------------------------------------- the grammar

  /** The NNF ids the node lines before line k declare. */
  function DeclaredIn(lines: seq<Line>, k: nat): set<int>
    requires k <= |lines|
  {
    if k == 0 then {}
    else
      var l := lines[k - 1];
      DeclaredIn(lines, k - 1) +
        (if l.NodeLine? && l.nums.Some? && |l.nums.value| == 2 then {l.nums.value[0]} else {})
  }

  /** A well-formed line, given the ids declared before it: a known
      command letter with "id 0", or an edge "parent child lit ... 0"
      between declared ids; either may instead stop the file. */
  predicate LineOk(l: Line, declared: set<int>) {
    match l
    case NodeLine(tag, nums, _) =>
      KindOfTag(tag).Some? && nums.Some? && (Stops(l) || (|nums.value| == 2 && nums.value[1] == 0))
    case EdgeLine(nums, _) =>
      nums.Some? &&
        (Stops(l) || (|nums.value| >= 3 && nums.value[|nums.value| - 1] == 0
                       && nums.value[0] in declared && nums.value[1] in declared))
  }

  /** No line from i up to (not including) k stops the file. */
  predicate NoStop(lines: seq<Line>, i: nat, k: nat)
    requires k <= |lines|
  {
    forall j :: i <= j < k ==> !Stops(lines[j])
  }

  /** The file from line i is accepted: every line up to and including
      the first stopping one is well formed. */
  predicate AcceptsFrom(lines: seq<Line>, i: nat)
    requires i <= |lines|
  {
    forall k :: i <= k < |lines| && NoStop(lines, i, k) ==> LineOk(lines[k], DeclaredIn(lines, k))
  }

  lemma {:induction false} ReadFromAccepts(start: int, lines: seq<Line>, i: nat, t: Tables)
    requires Valid(start, t) && i <= |lines|
    requires t.idmap.Keys == DeclaredIn(lines, i)
    ensures ReadFrom(start, lines, i, t).Success? <==> AcceptsFrom(lines, i)
    decreases |lines| - i
  {
    if i < |lines| {
      var l := lines[i];
      var r := ReadLine(start, l, t);
      if !LineOk(l, DeclaredIn(lines, i)) {
        assert NoStop(lines, i, i);
      } else if Stops(l) {
        forall k | i < k < |lines| ensures !NoStop(lines, i, k) {
          assert Stops(lines[i]);
        }
      } else {
        var t' := r.value.value;
        assert t'.idmap.Keys == DeclaredIn(lines, i + 1);
        ReadFromAccepts(start, lines, i + 1, t');
        if AcceptsFrom(lines, i + 1) {
          forall k | i <= k < |lines| && NoStop(lines, i, k) ensures LineOk(lines[k], DeclaredIn(lines, k)) {
            if k > i { assert NoStop(lines, i + 1, k); }
          }
        }
        if AcceptsFrom(lines, i) {
          forall k | i + 1 <= k < |lines| && NoStop(lines, i + 1, k) ensures LineOk(lines[k], DeclaredIn(lines, k)) {
            assert NoStop(lines, i, k);
          }
        }
      }
    }
  }

  /** The reader accepts a file exactly when the file follows the line
      grammar, each edge naming ids declared on earlier lines. */
  lemma ReadAccepts(start: int, lines: seq<Line>)
    ensures ReadFrom(start, lines, 0, Tables([], [], map[], {}, [])).Success? <==> AcceptsFrom(lines, 0)
  {
    ReadFromAccepts(start, lines, 0, Tables([], [], map[], {}, []));
  }

  // ---------------------------------------------------------------- the root

  /** The kind and degree of the node an NNF id was mapped to. */
  function KindAt(start: int, t: Tables, nid: int): Kind
    requires Valid(start, t) && nid in t.idmap
  {
    t.kinds[t.idmap[nid] - start]
  }

  function DegreeAt(start: int, t: Tables, nid: int): nat
    requires Valid(start, t) && nid in t.idmap
  {
    |t.args[t.idmap[nid] - start]|
  }

  /** An OR node of degree 0 or more than 2 is rejected. */
  predicate BadOr(start: int, t: Tables, nid: int)
    requires Valid(start, t) && nid in t.idmap
  {
    KindAt(start, t, nid) == KOr && (DegreeAt(start, t, nid) == 0 || DegreeAt(start, t, nid) > 2)
  }

  /** An id that can supply the root: an OR node with one child and no
      parent, or a constant node. */
  predicate RootCandidate(start: int, t: Tables, nid: int)
    requires Valid(start, t) && nid in t.idmap
  {
    || (KindAt(start, t, nid) == KOr && DegreeAt(start, t, nid) == 1 && t.idmap[nid] !in t.withParent)
    || KindAt(start, t, nid) == KTrue || KindAt(start, t, nid) == KFalse
  }

  /** The root literal a candidate supplies. */
  function RootOf(start: int, t: Tables, nid: int): int
    requires Valid(start, t) && nid in t.idmap
  {
    match KindAt(start, t, nid)
    case KTrue => TRUE_ID
    case KFalse => -TRUE_ID
    case _ => t.idmap[nid]
  }

  /** The least id of ids not yet visited. */
  function LeastLeft(ids: seq<int>, visited: set<int>): (r: Option<int>)
    ensures r.Some? ==> r.value in ids && r.value !in visited
    ensures r.Some? ==> forall k :: 0 <= k < |ids| && ids[k] !in visited ==> r.value <= ids[k]
    ensures r.None? ==> forall k :: 0 <= k < |ids| ==> ids[k] in visited
  {
    if ids == [] then None
    else
      var rest := LeastLeft(ids[1..], visited);
      assert forall k :: 1 <= k < |ids| ==> ids[k] == ids[1..][k - 1];
      if ids[0] in visited then rest
      else if rest.Some? && rest.value < ids[0] then rest
      else Some(ids[0])
  }

  /** The ids are visited in increasing order. */
  predicate VisitedBelow(t: Tables, visited: set<int>) {
    && visited <= t.idmap.Keys
    && forall x, y :: x in visited && y in t.idmap && y !in visited ==> x < y
  }

  /** The state of the root search after visiting some ids: none had a
      bad degree, and root is 0 or the value of the least candidate
      visited, rootId. */
  predicate Scanned(start: int, t: Tables, visited: set<int>, root: int, rootId: int)
    requires Valid(start, t) && visited <= t.idmap.Keys
  {
    && (forall x :: x in visited ==> !BadOr(start, t, x))
    && (root == 0 <==> forall x :: x in visited ==> !RootCandidate(start, t, x))
    && (root != 0 ==>
          && rootId in visited && RootCandidate(start, t, rootId)
          && root == RootOf(start, t, rootId)
          && forall m :: m in t.idmap && m < rootId ==> !RootCandidate(start, t, m))
  }

  /** The visit of one id: an OR node of bad degree is an error; the
      first candidate sets the root. */
  function Visit(start: int, t: Tables, nid: int, root: int, rootId: int): (r: Result<(int, int), string>)
    requires Valid(start, t) && nid in t.idmap
    ensures r.Failure? <==> BadOr(start, t, nid)
  {
    var pid := t.idmap[nid];
    var k := t.kinds[pid - start];
    var degree := |t.args[pid - start]|;
    if k == KOr then
      if degree == 0 || degree > 2 then Failure("invalid degree of NNF OR node")
      else if degree == 1 && pid !in t.withParent && root == 0 then Success((pid, nid))
      else Success((root, rootId))
    else if root == 0 && k == KFalse then Success((-TRUE_ID, nid))
    else if root == 0 && k == KTrue then Success((TRUE_ID, nid))
    else Success((root, rootId))
  }

  lemma VisitStep(start: int, t: Tables, visited: set<int>, nid: int, root: int, rootId: int)
    requires start >= 1 && Valid(start, t) && VisitedBelow(t, visited) && Scanned(start, t, visited, root, rootId)
    requires nid in t.idmap && nid !in visited
    requires forall y :: y in t.idmap && y !in visited ==> nid <= y
    ensures VisitedBelow(t, visited + {nid})
    ensures var v := Visit(start, t, nid, root, rootId);
            v.Success? ==> Scanned(start, t, visited + {nid}, v.value.0, v.value.1)
  {
    var v := Visit(start, t, nid, root, rootId);
    if v.Success? && root == 0 && RootCandidate(start, t, nid) {
      forall m | m in t.idmap && m < nid ensures !RootCandidate(start, t, m) {
        assert m in visited;
      }
    }
  }

  /** The root search after reading: the ids are visited in increasing
      order; the first candidate sets the root, and an OR node of bad
      degree anywhere is an error, as is finding no candidate. */
  method FindRoot(start: int, t: Tables) returns (r: Result<int, string>)
    requires start >= 1 && Valid(start, t)
    ensures r.Success? ==> r.value != 0
    ensures r.Failure? <==>
              (exists nid :: nid in t.idmap && BadOr(start, t, nid)) ||
              (forall nid :: nid in t.idmap ==> !RootCandidate(start, t, nid))
    ensures r.Success? ==>
              exists nid :: nid in t.idmap && RootCandidate(start, t, nid) && r.value == RootOf(start, t, nid) &&
                forall m :: m in t.idmap && m < nid ==> !RootCandidate(start, t, m)
  {
    var root := 0;
    var rootId := 0;
    var visited: set<int> := {};
    var next := LeastLeft(t.declared, visited);
    while next.Some?
      invariant VisitedBelow(t, visited) && Scanned(start, t, visited, root, rootId)
      invariant next == LeastLeft(t.declared, visited)
      decreases t.idmap.Keys - visited
    {
      var nid := next.value;
      VisitStep(start, t, visited, nid, root, rootId);
      var v := Visit(start, t, nid, root, rootId);
      if v.Failure? {
        return Failure(v.error);
      }
      root, rootId := v.value.0, v.value.1;
      visited := visited + {nid};
      next := LeastLeft(t.declared, visited);
    }
    forall x | x in t.idmap ensures x in visited {
      var k :| 0 <= k < |t.declared| && t.declared[k] == x;
    }
    if root == 0 {
      return Failure("failed to find root node");
    }
    return Success(root);
  }

  /** read_d4ddnnf up to the root: the nodes with their argument lists
      and the root literal.  (Compression follows, with the Compress
      operation.) */
  method ReadD4(start: int, lines: seq<Line>) returns (r: Result<Pog, string>)
    requires start >= 1
    ensures r.Success? ==> ReadFrom(start, lines, 0, Tables([], [], map[], {}, [])).Success?
    ensures r.Success? ==> AcceptsFrom(lines, 0)
    ensures r.Success? ==> r.value.startVar == start && r.value.root != 0
    ensures r.Success? ==>
              var t := ReadFrom(start, lines, 0, Tables([], [], map[], {}, [])).value;
              && |r.value.nodes| == |t.kinds|
              && (forall i :: 0 <= i < |t.kinds| ==> r.value.nodes[i].kind == t.kinds[i] && r.value.nodes[i].children == t.args[i])
              && exists nid :: nid in t.idmap && RootCandidate(start, t, nid) && r.value.root == RootOf(start, t, nid) &&
                   forall m :: m in t.idmap && m < nid ==> !RootCandidate(start, t, m)
    ensures !AcceptsFrom(lines, 0) ==> r.Failure?
  {
    ReadAccepts(start, lines);
    var read := ReadFrom(start, lines, 0, Tables([], [], map[], {}, []));
    if read.Failure? {
      return Failure(read.error);
    }
    var t := read.value;
    var root := FindRoot(start, t);
    if root.Failure? {
      return Failure(root.error);
    }
    var nodes := seq(|t.kinds|, i requires 0 <= i < |t.kinds| => PogNode(t.kinds[i], t.args[i], 0));
    return Success(Pog(start, nodes, root.value, None));
  }
}
