/** The generator's statistic counters and histograms (integer parts).
    The C code keeps them in static arrays that are initialised lazily on
    first use; here the state is a value, and Init is what the first use
    sees.  Timers and histogram totals are floating point and are not
    part of this model. */
module Counters {

  import opened Literals

  /** The counter_t enumeration, in declaration order; COUNT_NUM is its
      length. */
  const CounterNames: seq<string> := [
    "COUNT_VAR", "COUNT_DATA_VAR", "COUNT_CLAUSE", "COUNT_POG_AND", "COUNT_POG_DECISION_OR",
    "COUNT_POG_OR", "COUNT_POG_SKOLEM", "COUNT_DEFINING_CLAUSE", "COUNT_DEFINING_AUX_CLAUSE",
    "COUNT_VISIT_AND", "COUNT_VISIT_OR", "COUNT_VISIT_SKOLEM", "COUNT_VISIT_AND_SAT",
    "COUNT_LEMMA_DEFINITION", "COUNT_LEMMA_APPLICATION", "COUNT_LEMMA_ARGUMENT_MERGE", "COUNT_LEMMA_DUPLICATES",
    "COUNT_SAT_CALL", "COUNT_AUX_AND",
    "COUNT_OR_JUSTIFICATION_CLAUSE", "COUNT_AND_JUSTIFICATION_CLAUSE", "COUNT_LITERAL_JUSTIFICATION_CLAUSE",
    "COUNT_SKOLEM_JUSTIFICATION_CLAUSE",
    "COUNT_MONOLITHIC_CLAUSE", "COUNT_MUTEX_CLAUSE", "COUNT_UNSAT_CLAUSE",
    "COUNT_LEMMA_APPLICATION_CLAUSE",
    "COUNT_VIRTUAL_CLAUSE",
    "COUNT_MUTEX_HINT", "COUNT_ADDITION_HINT", "COUNT_DELETION_HINT"]

  const COUNT_NUM: int := 31

  /** The histogram_t enumeration: problem, proof, product degree,
      Skolem degree. */
  const HISTO_NUM: int := 4

  datatype Histo = Histo(min: int, max: int, count: int)

  datatype State = State(counters: seq<int>, histos: seq<Histo>)

  const EmptyHisto: Histo := Histo(INT_MAX, INT_MIN, 0)

  predicate Valid(st: State) {
    |st.counters| == COUNT_NUM && |st.histos| == HISTO_NUM
  }

  /** The state every counter function sees on first use. */
  function Init(): (st: State)
    ensures Valid(st)
    ensures forall c :: 0 <= c < COUNT_NUM ==> st.counters[c] == 0
    ensures forall h :: 0 <= h < HISTO_NUM ==>
              st.histos[h].min == INT_MAX && st.histos[h].max == INT_MIN && st.histos[h].count == 0
  {
    State(seq(COUNT_NUM, _ => 0), seq(HISTO_NUM, _ => EmptyHisto))
  }

  predicate CounterOk(c: int) {
    0 <= c < COUNT_NUM
  }

  predicate HistoOk(h: int) {
    0 <= h < HISTO_NUM
  }

  function ClearCount(st: State, c: int): (st': State)
    requires Valid(st)
    ensures Valid(st')
    ensures st'.histos == st.histos
    ensures forall d :: 0 <= d < COUNT_NUM ==>
              st'.counters[d] == (if d == c then 0 else st.counters[d])
  {
    if !CounterOk(c) then st else st.(counters := st.counters[c := 0])
  }

  /** The counters are C longs; the model leaves them unbounded. */
  function IncrCountBy(st: State, c: int, v: int): (st': State)
    requires Valid(st)
    ensures Valid(st')
    ensures st'.histos == st.histos
    ensures forall d :: 0 <= d < COUNT_NUM ==>
              st'.counters[d] == (if d == c then st.counters[d] + v else st.counters[d])
    ensures !CounterOk(c) ==> st' == st
  {
    if !CounterOk(c) then st else st.(counters := st.counters[c := st.counters[c] + v])
  }

  function IncrCount(st: State, c: int): (st': State)
    requires Valid(st)
    ensures st' == IncrCountBy(st, c, 1)
  {
    IncrCountBy(st, c, 1)
  }

  function GetCount(st: State, c: int): (r: int)
    requires Valid(st)
    ensures !CounterOk(c) ==> r == -1
    ensures CounterOk(c) ==> r == ToInt32(st.counters[c])
  {
    if !CounterOk(c) then -1 else ToInt32(st.counters[c])
  }

  function GetLongCount(st: State, c: int): (r: int)
    requires Valid(st)
    ensures !CounterOk(c) ==> r == -1
    ensures CounterOk(c) ==> r == st.counters[c]
  {
    if !CounterOk(c) then -1 else st.counters[c]
  }

  /** A count that fits an int reads the same through both getters; a
      count of 2^31 reads as INT_MIN through get_count. */
  lemma GetCountTruncates(st: State, c: int)
    requires Valid(st) && CounterOk(c)
    ensures INT_MIN <= st.counters[c] <= INT_MAX ==> GetCount(st, c) == GetLongCount(st, c)
    ensures st.counters[c] == INT_MAX + 1 ==> GetCount(st, c) == INT_MIN
  {
  }

  function IncrHisto(st: State, h: int, datum: int): (st': State)
    requires Valid(st)
    ensures Valid(st')
    ensures st'.counters == st.counters
    ensures !HistoOk(h) ==> st' == st
    ensures HistoOk(h) ==>
              st'.histos[h].count == st.histos[h].count + 1
              && st'.histos[h].min == Min(st.histos[h].min, datum)
              && st'.histos[h].max == Max(st.histos[h].max, datum)
    ensures forall g :: 0 <= g < HISTO_NUM && g != h ==> st'.histos[g] == st.histos[g]
  {
    if !HistoOk(h) then st
    else
      var o := st.histos[h];
      var nmin := if datum < o.min then datum else o.min;
      var nmax := if datum > o.max then datum else o.max;
      st.(histos := st.histos[h := Histo(nmin, nmax, o.count + 1)])
  }

  function Min(a: int, b: int): int { if a <= b then a else b }
  function Max(a: int, b: int): int { if a >= b then a else b }

  function GetHistoMin(st: State, h: int): (r: int)
    requires Valid(st)
    ensures !HistoOk(h) ==> r == INT_MAX
    ensures HistoOk(h) ==> r == st.histos[h].min
  {
    if !HistoOk(h) then INT_MAX else st.histos[h].min
  }

  function GetHistoMax(st: State, h: int): (r: int)
    requires Valid(st)
    ensures !HistoOk(h) ==> r == INT_MAX
    ensures HistoOk(h) ==> r == st.histos[h].max
  {
    if !HistoOk(h) then INT_MAX else st.histos[h].max
  }

  function GetHistoCount(st: State, h: int): (r: int)
    requires Valid(st)
    ensures !HistoOk(h) ==> r == INT_MAX
    ensures HistoOk(h) ==> r == st.histos[h].count
  {
    if !HistoOk(h) then INT_MAX else st.histos[h].count
  }

  /** Recording the data ds, in order, into histogram h. */
  function RecordAll(st: State, h: int, ds: seq<int>): (st': State)
    requires Valid(st)
    ensures Valid(st')
    decreases ds
  {
    if ds == [] then st else RecordAll(IncrHisto(st, h, ds[0]), h, ds[1..])
  }

  function SeqMin(ds: seq<int>): int
    requires |ds| >= 1
  {
    if |ds| == 1 then ds[0] else Min(ds[0], SeqMin(ds[1..]))
  }

  function SeqMax(ds: seq<int>): int
    requires |ds| >= 1
  {
    if |ds| == 1 then ds[0] else Max(ds[0], SeqMax(ds[1..]))
  }

  /** From the initial state, a histogram that has seen the 32-bit data ds
      reports |ds| as its count and the least and greatest datum as its
      min and max; with no data it keeps INT_MAX and INT_MIN. */
  lemma HistogramSummarizes(h: int, ds: seq<int>)
    requires HistoOk(h)
    requires forall k :: 0 <= k < |ds| ==> INT_MIN <= ds[k] <= INT_MAX
    ensures var st := RecordAll(Init(), h, ds);
            GetHistoCount(st, h) == |ds|
            && (ds == [] ==> GetHistoMin(st, h) == INT_MAX && GetHistoMax(st, h) == INT_MIN)
            && (ds != [] ==> GetHistoMin(st, h) == SeqMin(ds) && GetHistoMax(st, h) == SeqMax(ds))
  {
    RecordAllFrom(Init(), h, ds);
  }

  lemma {:induction false} RecordAllFrom(st: State, h: int, ds: seq<int>)
    requires Valid(st) && HistoOk(h)
    requires forall k :: 0 <= k < |ds| ==> INT_MIN <= ds[k] <= INT_MAX
    requires INT_MIN <= st.histos[h].max && st.histos[h].min <= INT_MAX
    decreases ds
    ensures var st' := RecordAll(st, h, ds);
            st'.histos[h].count == st.histos[h].count + |ds|
            && (ds == [] ==> st'.histos[h] == st.histos[h])
            && (ds != [] ==> st'.histos[h].min == Min(st.histos[h].min, SeqMin(ds))
                             && st'.histos[h].max == Max(st.histos[h].max, SeqMax(ds)))
  {
    if ds != [] {
      var st1 := IncrHisto(st, h, ds[0]);
      RecordAllFrom(st1, h, ds[1..]);
    }
  }
}
