/** The generator's temporary-file namer: a tag taken from the input
    file name and a sequence number, combined into
    "reduction-<tag>-<seq>.<suffix>". */
module Namer {

  import Decimal

  /** Size of the C name buffer (SMAX). */
  const SMAX: nat := 1024

  datatype NamerState = NamerState(tag: string, number: nat)

  /** The state before init_namer is called. */
  const Initial: NamerState := NamerState("cpog", 10_000_000)

  /** The part of buf after its last '/' and before the first '.' that
      follows it. */
  ghost predicate IsTagOf(buf: string, tag: string) {
    exists pre, rest ::
      buf == pre + tag + rest
      && (pre == [] || pre[|pre| - 1] == '/')
      && '/' !in tag && '/' !in rest
      && '.' !in tag
      && (rest == [] || rest[0] == '.')
  }

  lemma TagWitness(buf: string, pre: string, tag: string, rest: string)
    requires buf == pre + tag + rest
    requires pre == [] || pre[|pre| - 1] == '/'
    requires forall k :: 0 <= k < |tag| ==> tag[k] != '/' && tag[k] != '.'
    requires forall k :: 0 <= k < |rest| ==> rest[k] != '/'
    requires rest == [] || rest[0] == '.'
    ensures IsTagOf(buf, tag)
  {
    assert '/' !in tag && '.' !in tag && '/' !in rest;
    assert buf == pre + tag + rest
           && (pre == [] || pre[|pre| - 1] == '/')
           && '/' !in tag && '/' !in rest
           && '.' !in tag
           && (rest == [] || rest[0] == '.');
  }

  /** init_namer: copy at most SMAX-1 characters, scan back for the last
      '/', then forward for the first '.', and keep what lies between.
      A C string holds no NUL character. */
  method InitNamer(fname: string) returns (st: NamerState)
    requires '\0' !in fname
    ensures st.number == 1_000_000
    ensures |st.tag| <= SMAX - 1
    ensures IsTagOf(if |fname| <= SMAX - 1 then fname else fname[..SMAX - 1], st.tag)
  {
    var buf := if |fname| <= SMAX - 1 then fname else fname[..SMAX - 1];
    var len := |buf|;
    var lastSlash := len - 1;
    while lastSlash >= 0 && buf[lastSlash] != '/'
      invariant -1 <= lastSlash < len
      invariant forall k :: lastSlash < k < len ==> buf[k] != '/'
    {
      lastSlash := lastSlash - 1;
    }
    var firstDot := lastSlash + 1;
    while firstDot < len && buf[firstDot] != '.'
      invariant lastSlash + 1 <= firstDot <= len
      invariant forall k :: lastSlash + 1 <= k < firstDot ==> buf[k] != '.'
    {
      firstDot := firstDot + 1;
    }
    var tag := buf[lastSlash + 1..firstDot];
    TagBetween(buf, lastSlash, firstDot);
    st := NamerState(tag, 1_000_000);
  }

  /** What the two scans of init_namer find delimits the tag. */
  lemma TagBetween(buf: string, lastSlash: int, firstDot: int)
    requires -1 <= lastSlash && lastSlash + 1 <= firstDot <= |buf|
    requires lastSlash >= 0 ==> buf[lastSlash] == '/'
    requires forall k :: lastSlash < k < |buf| ==> buf[k] != '/'
    requires firstDot < |buf| ==> buf[firstDot] == '.'
    requires forall k :: lastSlash + 1 <= k < firstDot ==> buf[k] != '.'
    ensures IsTagOf(buf, buf[lastSlash + 1..firstDot])
  {
    var tag := buf[lastSlash + 1..firstDot];
    var pre := buf[..lastSlash + 1];
    var rest := buf[firstDot..];
    assert buf == pre + tag + rest;
    forall k | 0 <= k < |tag| ensures tag[k] != '/' && tag[k] != '.' {
      assert tag[k] == buf[lastSlash + 1 + k];
    }
    forall k | 0 <= k < |rest| ensures rest[k] != '/' {
      assert rest[k] == buf[firstDot + k];
    }
    TagWitness(buf, pre, tag, rest);
  }

  /** The untruncated name. */
  function FullName(tag: string, n: nat, suffix: string): string {
    "reduction-" + tag + "-" + Decimal.NatToString(n) + "." + suffix
  }

  /** generate_name: optionally advance the sequence number, then format
      the name; snprintf with size SMAX-1 keeps at most SMAX-2
      characters. */
  function GenerateName(st: NamerState, suffix: string, increment: bool): (r: (NamerState, string))
    ensures r.0.tag == st.tag
    ensures r.0.number == (if increment then st.number + 1 else st.number)
    ensures |r.1| <= SMAX - 2
    ensures |FullName(st.tag, r.0.number, suffix)| <= SMAX - 2 ==> r.1 == FullName(st.tag, r.0.number, suffix)
  {
    var st' := if increment then st.(number := st.number + 1) else st;
    var full := FullName(st'.tag, st'.number, suffix);
    (st', if |full| <= SMAX - 2 then full else full[..SMAX - 2])
  }

  /** Two names that fit the buffer and differ in their sequence numbers
      are different. */
  lemma FullNameInjective(tag: string, a: nat, b: nat, suffix: string)
    requires FullName(tag, a, suffix) == FullName(tag, b, suffix)
    ensures a == b
  {
    var sa := Decimal.NatToString(a);
    var sb := Decimal.NatToString(b);
    var p := "reduction-" + tag + "-";
    var x := p + sa + "." + suffix;
    var y := p + sb + "." + suffix;
    assert |sa| == |sb|;
    assert sa == x[|p|..|p| + |sa|];
    assert sb == y[|p|..|p| + |sb|];
    Decimal.NatToStringInjective(a, b);
  }

  /** Consecutive calls with increment set return distinct names, as long
      as the names are not cut short by the buffer (a tag and suffix of at
      most 1000 characters and a sequence number that stays an int). */
  lemma ConsecutiveNamesDistinct(st: NamerState, suffix: string)
    requires |st.tag| + |suffix| <= 1000
    requires st.number + 2 < 0x8000_0000
    ensures var (st1, n1) := GenerateName(st, suffix, true);
            var (st2, n2) := GenerateName(st1, suffix, true);
            n1 != n2 && st2.number == st.number + 2
  {
    assert Decimal.Pow10(10) == 10_000_000_000;
    Decimal.NatToStringLength(st.number + 1, 10);
    Decimal.NatToStringLength(st.number + 2, 10);
    if FullName(st.tag, st.number + 1, suffix) == FullName(st.tag, st.number + 2, suffix) {
      FullNameInjective(st.tag, st.number + 1, st.number + 2, suffix);
    }
  }
}
