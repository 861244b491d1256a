/** shift_mix, kept apart from the rest of the hash so that its proof
    sees only its own definition. */
module HashMix {

  /** shift_mix: v xor (v >> 47). */
  function ShiftMix(v: bv64): bv64 {
    v ^ (v >> 47)
  }

  /** The top 17 bits pass through shift_mix unchanged. */
  lemma HighBitsKept(v: bv64)
    ensures (v ^ (v >> 47)) >> 47 == v >> 47
  {
  }

  lemma XorTwice(a: bv64, b: bv64)
    ensures (a ^ b) ^ b == a
  {
  }

  /** shift_mix is its own inverse. */
  lemma ShiftMixInvolution(v: bv64)
    ensures ShiftMix(ShiftMix(v)) == v
  {
    calc {
      ShiftMix(ShiftMix(v));
    ==
      ShiftMix(v ^ (v >> 47));
    ==
      (v ^ (v >> 47)) ^ ((v ^ (v >> 47)) >> 47);
    == { HighBitsKept(v); }
      (v ^ (v >> 47)) ^ (v >> 47);
    == { XorTwice(v, v >> 47); }
      v;
    }
  }
}

/** The 64-bit MurmurHashUnaligned2 used by the D4 compiler to hash byte
    strings.  size_t is a 64-bit word (bv64), so every multiplication
    and addition wraps modulo 2^64, and loads are little-endian as the
    memcpy-based unaligned_load gives on the targets the code is built
    for. */
module HashBytes {

  import opened HashMix

  type byte = bv8

  /** The multiplier 0xc6a4a793 << 32 + 0x5bd1e995. */
  const Mul: bv64 := 0xc6a4a7935bd1e995

  /* ---------------------------------------------------------------
     Loads
     --------------------------------------------------------------- */

  /** The little-endian word of at most eight bytes: byte i fills bits
      8i .. 8i+7. */
  function LittleEndian(bs: seq<byte>): bv64
    requires |bs| <= 8
  {
    if bs == [] then 0 else (bs[0] as bv64) + (LittleEndian(bs[1..]) << 8)
  }

  /** load_bytes's do-while loop: it walks from byte n-1 down to byte 0,
      shifting the result left by eight bits before adding each byte. */
  function LoadFrom(p: seq<byte>, k: nat, acc: bv64): bv64
    requires k <= |p|
  {
    if k == 0 then acc else LoadFrom(p, k - 1, (acc << 8) + (p[k - 1] as bv64))
  }

  function LoadBytes(p: seq<byte>, n: nat): bv64
    requires 1 <= n < 8 && n <= |p|
  {
    LoadFrom(p, n, 0)
  }

  lemma {:induction false} LoadFromSpec(p: seq<byte>, n: nat, k: nat)
    requires k <= n <= |p| && n <= 8
    ensures LoadFrom(p, k, LittleEndian(p[k..n])) == LittleEndian(p[..n])
  {
    if k == 0 {
      assert p[0..n] == p[..n];
    } else {
      var s := p[k - 1..n];
      var acc := LittleEndian(p[k..n]);
      assert s[0] == p[k - 1] && s[1..] == p[k..n];
      var b := p[k - 1] as bv64;
      assert LittleEndian(s) == b + (acc << 8);
      AddCommutes(b, acc << 8);
      assert LoadFrom(p, k, acc) == LoadFrom(p, k - 1, (acc << 8) + b);
      LoadFromSpec(p, n, k - 1);
    }
  }

  lemma AddCommutes(a: bv64, b: bv64)
    ensures a + b == b + a
  {
  }

  /** load_bytes(p, n) for 1 <= n < 8 is the little-endian value of the
      first n bytes. */
  lemma LoadBytesLittleEndian(p: seq<byte>, n: nat)
    requires 1 <= n < 8 && n <= |p|
    ensures LoadBytes(p, n) == LittleEndian(p[..n])
  {
    assert p[n..n] == [];
    LoadFromSpec(p, n, n);
  }

  /** unaligned_load: the eight bytes at p as a little-endian word. */
  function UnalignedLoad(p: seq<byte>): bv64
    requires |p| >= 8
  {
    LittleEndian(p[..8])
  }

  /* ---------------------------------------------------------------
     Mixing
     --------------------------------------------------------------- */

  /** One step of the main loop: mix an 8-byte word into the hash. */
  function MixWord(hash: bv64, word: bv64): bv64 {
    (hash ^ (ShiftMix(word * Mul) * Mul)) * Mul
  }

  /** The main loop over the 8-byte words of data. */
  function MixWords(hash: bv64, data: seq<byte>): bv64
    requires |data| % 8 == 0
    decreases |data|
  {
    if data == [] then hash else MixWords(MixWord(hash, UnalignedLoad(data)), data[8..])
  }

  /** The loop processes words one after another, so it can be split at
      any word boundary. */
  lemma {:induction false} MixWordsAppend(hash: bv64, a: seq<byte>, b: seq<byte>)
    requires |a| % 8 == 0 && |b| % 8 == 0
    ensures MixWords(hash, a + b) == MixWords(MixWords(hash, a), b)
    decreases |a|
  {
    if a != [] {
      assert (a + b)[..8] == a[..8];
      assert (a + b)[8..] == a[8..] + b;
      MixWordsAppend(MixWord(hash, UnalignedLoad(a)), a[8..], b);
    } else {
      assert a + b == b;
    }
  }

  /** The closing mix: shift_mix, multiply, shift_mix. */
  function Finish(hash: bv64): bv64 {
    ShiftMix(ShiftMix(hash) * Mul)
  }

  /** C's len & ~7 and len & 7 on a 64-bit word are len minus its
      remainder by 8, and that remainder. */
  lemma MaskIsRemainder(len: bv64)
    ensures len & 7 == len % 8
    ensures len & !7 == len - len % 8
    ensures (len & !7) % 8 == 0
  {
  }

  /** The initial hash: seed xor (len * Mul), wrapping. */
  function Start(seed: bv64, len: bv64): bv64 {
    seed ^ (len * Mul)
  }

  /** The word the tail step mixes in: load_bytes of the len % 8 tail
      bytes (only used when there are any). */
  function TailWord(tail: seq<byte>): bv64
    requires |tail| < 8
  {
    if |tail| == 0 then 0 else LoadBytes(tail, |tail|)
  }

  /** The step after the main loop: the tail bytes, if any, are mixed in. */
  function MixTail(hash: bv64, tail: seq<byte>): bv64
    requires |tail| < 8
  {
    if |tail| == 0 then hash else (hash ^ TailWord(tail)) * Mul
  }

  /** The number of bytes the main loop covers: len & ~7. */
  function Aligned(buf: seq<byte>): nat {
    |buf| - |buf| % 8
  }

  /** The main loop over the whole words of buf, from the start value
      for the length word len. */
  function MainLoop(buf: seq<byte>, len: bv64, seed: bv64): bv64 {
    MixWords(Start(seed, len), buf[..Aligned(buf)])
  }

  /** The len & 7 bytes after the whole words. */
  function Tail(buf: seq<byte>): (t: seq<byte>)
    ensures |t| < 8
  {
    buf[Aligned(buf)..]
  }

  /** A length as a size_t: n counted up in 64-bit arithmetic, that is
      n modulo 2^64. */
  function LengthWord(n: nat): bv64 {
    if n == 0 then 0 else LengthWord(n - 1) + 1
  }

  /** hash_bytes on a byte string of length len < 2^64: the main loop
      covers the first len & ~7 bytes, the tail the remaining len & 7. */
  function Hash(buf: seq<byte>, seed: bv64): bv64
    requires |buf| < 0x1_0000_0000_0000_0000
  {
    Finish(MixTail(MainLoop(buf, LengthWord(|buf|), seed), Tail(buf)))
  }

  /** The tail word is the little-endian value of the tail bytes. */
  lemma TailWordLittleEndian(tail: seq<byte>)
    requires |tail| < 8
    ensures TailWord(tail) == LittleEndian(tail)
  {
    if |tail| != 0 {
      LoadBytesLittleEndian(tail, |tail|);
      assert tail[..|tail|] == tail;
    }
  }

  /** For a byte string of whole words there is no tail step: the hash is
      the closing mix of the main loop over all of it. */
  lemma HashOfWords(buf: seq<byte>, seed: bv64)
    requires |buf| % 8 == 0
    requires |buf| < 0x1_0000_0000_0000_0000
    ensures Hash(buf, seed) == Finish(MixWords(Start(seed, LengthWord(|buf|)), buf))
  {
    assert buf[..|buf|] == buf;
    assert buf[|buf|..] == [];
  }

  /** Cutting a + b, with a made of whole words, into words and tail:
      the words are a's followed by b's, the tail is b's. */
  lemma {:induction false} SplitAtWords(a: seq<byte>, b: seq<byte>)
    requires |a| % 8 == 0
    ensures (a + b)[..Aligned(a + b)] == a + b[..Aligned(b)]
    ensures Tail(a + b) == Tail(b)
  {
    var buf := a + b;
    assert |buf| % 8 == |b| % 8;
    assert Aligned(buf) == |a| + Aligned(b);
  }
}
