/** The KV prefix fingerprint: FNV-1a, 64 bit, over the tokens' low four bytes (pkg/kv/lmcache/lmcache.go). */
module Fingerprint {
  import opened Words

  const OFFSET: int := 14695981039346656037
  const PRIME: int := 1099511628211
  /** The inverse of the prime modulo 2^64; the prime is odd, so there is one. */
  const INVERSE: int := 14886173955864302971

  type Byte = b: int | 0 <= b < 256
  type Hash = h: int | 0 <= h < TWO_64

  // ---------- One step of the fold ----------

  function Power2(k: nat): nat {
    if k == 0 then 1 else 2 * Power2(k - 1)
  }

  /** Bitwise exclusive-or of the low k bits. */
  function XorBits(a: nat, b: nat, k: nat): (r: nat)
    ensures r < Power2(k)
  {
    if k == 0 then 0 else (a % 2 + b % 2) % 2 + 2 * XorBits(a / 2, b / 2, k - 1)
  }

  function Xor8(a: Byte, b: Byte): Byte {
    assert Power2(8) == 256;
    XorBits(a, b, 8)
  }

  /** Exclusive-or with a byte touches the low byte only. */
  function XorLow(h: Hash, b: Byte): Hash {
    h - h % 256 + Xor8(h % 256, b)
  }

  function Mix(h: Hash, b: Byte): Hash {
    XorLow(h, b) * PRIME % TWO_64
  }

  function Unmix(h: Hash, b: Byte): Hash {
    XorLow(h * INVERSE % TWO_64, b)
  }

  // ---------- The fold ----------

  function Write(h: Hash, bytes: seq<Byte>): Hash {
    if bytes == [] then h else Mix(Write(h, bytes[..|bytes| - 1]), bytes[|bytes| - 1])
  }

  /** byte(t >> k) on a Go int: an arithmetic shift floors and the conversion keeps the low eight bits. */
  function ByteAt(t: int, power: int): Byte
    requires power > 0
  {
    t / power % 256
  }

  function TokenBytes(t: int): (r: seq<Byte>)
    ensures |r| == 4
  {
    [ByteAt(t, 0x100_0000), ByteAt(t, 0x1_0000), ByteAt(t, 0x100), ByteAt(t, 1)]
  }

  function Encoding(tokens: seq<int>): (r: seq<Byte>)
    ensures |r| == 4 * |tokens|
  {
    if tokens == [] then [] else Encoding(tokens[..|tokens| - 1]) + TokenBytes(tokens[|tokens| - 1])
  }

  datatype Result = NoFingerprint | Fingerprint(h: Hash)

  function FingerprintOf(tokens: seq<int>): Result {
    if tokens == [] then NoFingerprint else Fingerprint(Write(OFFSET, Encoding(tokens)))
  }

  method Compute(tokens: seq<int>) returns (h: Hash, ok: bool)
    ensures ok == (tokens != [])
    ensures (if ok then Fingerprint(h) else NoFingerprint) == FingerprintOf(tokens)
  {
    if |tokens| == 0 {
      return 0, false;
    }
    h := OFFSET;
    for k := 0 to |tokens|
      invariant h == Write(OFFSET, Encoding(tokens[..k]))
    {
      var t := tokens[k];
      var b := new Byte[4];
      b[0] := ByteAt(t, 0x100_0000);
      b[1] := ByteAt(t, 0x1_0000);
      b[2] := ByteAt(t, 0x100);
      b[3] := ByteAt(t, 1);
      ghost var start := h;
      assert b[..4] == TokenBytes(t);
      for j := 0 to 4
        invariant b[..4] == TokenBytes(t)
        invariant h == Write(start, TokenBytes(t)[..j])
      {
        assert TokenBytes(t)[..j + 1][..j] == TokenBytes(t)[..j];
        h := Mix(h, b[j]);
      }
      assert TokenBytes(t)[..4] == TokenBytes(t);
      assert tokens[..k + 1][..k] == tokens[..k];
      WriteConcat(OFFSET, Encoding(tokens[..k]), TokenBytes(t));
    }
    assert tokens[..|tokens|] == tokens;
    ok := true;
  }

  lemma {:induction false} WriteConcat(h: Hash, a: seq<Byte>, b: seq<Byte>)
    ensures Write(h, a + b) == Write(Write(h, a), b)
    decreases |b|
  {
    if b == [] {
      assert a + b == a;
    } else {
      assert (a + b)[..|a + b| - 1] == a + b[..|b| - 1];
      WriteConcat(h, a, b[..|b| - 1]);
    }
  }

  // ---------- Every step can be undone ----------

  lemma {:induction false} XorTwice(a: nat, b: nat, k: nat)
    requires a < Power2(k)
    ensures XorBits(XorBits(a, b, k), b, k) == a
    decreases k
  {
    if k > 0 {
      XorTwice(a / 2, b / 2, k - 1);
      var rest := XorBits(a / 2, b / 2, k - 1);
      BitTwice(a, b);
      assert XorBits(XorBits(a, b, k), b, k) == (XorBits(a, b, k) % 2 + b % 2) % 2 + 2 * XorBits(rest, b / 2, k - 1);
    }
  }

  lemma BitTwice(a: nat, b: nat)
    ensures ((a % 2 + b % 2) % 2 + b % 2) % 2 == a % 2
  {
  }

  lemma Xor8Involution(a: Byte, b: Byte)
    ensures Xor8(Xor8(a, b), b) == a
  {
    assert Power2(8) == 256;
    XorTwice(a, b, 8);
  }

  lemma XorLowInvolution(h: Hash, b: Byte)
    ensures XorLow(XorLow(h, b), b) == h
  {
    Xor8Involution(h % 256, b);
    assert XorLow(h, b) % 256 == Xor8(h % 256, b);
  }

  lemma RemainderOfSum(x: int, t: int)
    requires 0 <= x < 0x1_0000_0000_0000_0000
    ensures (x + t * 0x1_0000_0000_0000_0000) % 0x1_0000_0000_0000_0000 == x
  {
  }

  lemma MultiplyUndone(x: Hash)
    ensures (x * PRIME % TWO_64) * INVERSE % TWO_64 == x
  {
    var q, r := x * PRIME / TWO_64, x * PRIME % TWO_64;
    RemainderOfSum(x, x * 887285111055 - q * INVERSE);
  }

  /** Knowing the byte, the state before a step can be recovered from the state after it. */
  lemma StepInvertible(h: Hash, b: Byte)
    ensures Unmix(Mix(h, b), b) == h
  {
    MultiplyUndone(XorLow(h, b));
    XorLowInvolution(h, b);
  }

  lemma StepInjective(h: Hash, g: Hash, b: Byte)
    ensures Mix(h, b) == Mix(g, b) <==> h == g
  {
    StepInvertible(h, b);
    StepInvertible(g, b);
  }

  lemma {:induction false} WriteInjective(h: Hash, g: Hash, bytes: seq<Byte>)
    ensures Write(h, bytes) == Write(g, bytes) <==> h == g
    decreases |bytes|
  {
    if bytes != [] {
      var init, last := bytes[..|bytes| - 1], bytes[|bytes| - 1];
      WriteInjective(h, g, init);
      StepInjective(Write(h, init), Write(g, init), last);
    }
  }

  lemma Xor8Injective(a: Byte, b: Byte, c: Byte)
    ensures Xor8(a, b) == Xor8(a, c) ==> b == c
  {
    assert Power2(8) == 256;
    XorCommutes(a, b, 8);
    XorCommutes(a, c, 8);
    XorTwice(b, a, 8);
    XorTwice(c, a, 8);
  }

  lemma {:induction false} XorCommutes(a: nat, b: nat, k: nat)
    ensures XorBits(a, b, k) == XorBits(b, a, k)
    decreases k
  {
    if k > 0 {
      XorCommutes(a / 2, b / 2, k - 1);
    }
  }

  /** From one state, two different bytes lead to two different states. */
  lemma ByteMatters(h: Hash, b: Byte, c: Byte)
    requires b != c
    ensures Mix(h, b) != Mix(h, c)
  {
    Xor8Injective(h % 256, b, c);
    MultiplyUndone(XorLow(h, b));
    MultiplyUndone(XorLow(h, c));
  }

  // ---------- The properties of fingerprints ----------

  lemma {:induction false} EncodingConcat(a: seq<int>, b: seq<int>)
    ensures Encoding(a + b) == Encoding(a) + Encoding(b)
    decreases |b|
  {
    if b == [] {
      assert a + b == a;
    } else {
      assert (a + b)[..|a + b| - 1] == a + b[..|b| - 1];
      EncodingConcat(a, b[..|b| - 1]);
    }
  }

  /** A common suffix neither creates nor hides a collision. */
  lemma SuffixCancels(a: seq<int>, b: seq<int>, suffix: seq<int>)
    requires a != [] && b != []
    ensures FingerprintOf(a) == FingerprintOf(b) <==> FingerprintOf(a + suffix) == FingerprintOf(b + suffix)
  {
    EncodingConcat(a, suffix);
    EncodingConcat(b, suffix);
    WriteConcat(OFFSET, Encoding(a), Encoding(suffix));
    WriteConcat(OFFSET, Encoding(b), Encoding(suffix));
    WriteInjective(Write(OFFSET, Encoding(a)), Write(OFFSET, Encoding(b)), Encoding(suffix));
  }

  lemma OneByteSplit(x: seq<Byte>, i: nat)
    requires i < |x|
    ensures Write(OFFSET, x) == Write(Mix(Write(OFFSET, x[..i]), x[i]), x[i + 1..])
  {
    assert x == x[..i + 1] + x[i + 1..];
    WriteConcat(OFFSET, x[..i + 1], x[i + 1..]);
    WriteOne(OFFSET, x, i);
  }

  lemma WriteOne(h: Hash, x: seq<Byte>, i: nat)
    requires i < |x|
    ensures Write(h, x[..i + 1]) == Mix(Write(h, x[..i]), x[i])
  {
    assert x[..i + 1][..i] == x[..i];
  }

  /** Two token lists of one length whose encodings differ in exactly one byte never collide. */
  lemma OneByteNeverCollides(a: seq<int>, b: seq<int>, i: nat)
    requires |a| == |b| && i < 4 * |a| && Encoding(a)[i] != Encoding(b)[i]
    requires forall j :: 0 <= j < 4 * |a| && j != i ==> Encoding(a)[j] == Encoding(b)[j]
    ensures FingerprintOf(a) != FingerprintOf(b)
  {
    var x, y := Encoding(a), Encoding(b);
    assert x[..i] == y[..i] && x[i + 1..] == y[i + 1..];
    var h := Write(OFFSET, x[..i]);
    OneByteSplit(x, i);
    OneByteSplit(y, i);
    ByteMatters(h, x[i], y[i]);
    WriteInjective(Mix(h, x[i]), Mix(h, y[i]), x[i + 1..]);
  }

  lemma LowByteOfSum(q: int, k: int)
    ensures (q + k * 256) % 256 == q % 256
  {
  }

  lemma TokenBytesPeriodic(t: int, k: int)
    ensures TokenBytes(t + k * 0x1_0000_0000) == TokenBytes(t)
  {
    var u := t + k * 0x1_0000_0000;
    assert u / 0x100_0000 == t / 0x100_0000 + k * 256;
    LowByteOfSum(t / 0x100_0000, k);
    assert u / 0x1_0000 == t / 0x1_0000 + k * 0x100 * 256;
    LowByteOfSum(t / 0x1_0000, k * 0x100);
    assert u / 0x100 == t / 0x100 + k * 0x1_0000 * 256;
    LowByteOfSum(t / 0x100, k * 0x1_0000);
    LowByteOfSum(t, k * 0x100_0000);
  }

  lemma {:induction false} EncodingOfLowBits(a: seq<int>, b: seq<int>)
    requires |a| == |b| && forall i :: 0 <= i < |a| ==> a[i] % 0x1_0000_0000 == b[i] % 0x1_0000_0000
    ensures Encoding(a) == Encoding(b)
    decreases |a|
  {
    if a != [] {
      var last := |a| - 1;
      EncodingOfLowBits(a[..last], b[..last]);
      var k := b[last] / 0x1_0000_0000 - a[last] / 0x1_0000_0000;
      assert b[last] == a[last] + k * 0x1_0000_0000;
      TokenBytesPeriodic(a[last], k);
    }
  }

  /** Only the tokens' low 32 bits are hashed: lists whose tokens are multiples of 2^32 apart collide. */
  lemma HighBitsIgnored(a: seq<int>, b: seq<int>)
    requires |a| == |b| && forall i :: 0 <= i < |a| ==> a[i] % 0x1_0000_0000 == b[i] % 0x1_0000_0000
    ensures FingerprintOf(a) == FingerprintOf(b)
  {
    EncodingOfLowBits(a, b);
  }

  lemma QuotientStep(t: int, power: int, next: int)
    requires power in {1, 0x100, 0x1_0000, 0x100_0000} && next == 256 * power
    ensures t / power == t / next * 256 + t / power % 256
  {
  }

  lemma BytesOfToken(t: int)
    ensures var b := TokenBytes(t);
            b[0] as int * 0x100_0000 + b[1] as int * 0x1_0000 + b[2] as int * 0x100 + b[3] as int == t % 0x1_0000_0000
  {
    QuotientStep(t, 1, 0x100);
    QuotientStep(t, 0x100, 0x1_0000);
    QuotientStep(t, 0x1_0000, 0x100_0000);
    QuotientStep(t, 0x100_0000, 0x1_0000_0000);
    assert t / 1 == t && t == t / 0x1_0000_0000 * 0x1_0000_0000 + t % 0x1_0000_0000;
  }

  /** A token's bytes are its low 32 bits, most significant byte first. */
  lemma {:induction false} BytesAreBigEndian(tokens: seq<int>, i: nat)
    requires i < |tokens|
    ensures var b := Encoding(tokens);
            b[4 * i] as int * 0x100_0000 + b[4 * i + 1] as int * 0x1_0000 + b[4 * i + 2] as int * 0x100 + b[4 * i + 3] as int
            == tokens[i] % 0x1_0000_0000
    decreases |tokens|
  {
    if i < |tokens| - 1 {
      BytesAreBigEndian(tokens[..|tokens| - 1], i);
    } else {
      BytesOfToken(tokens[i]);
    }
  }

  lemma {:induction false} XorWithNone(a: nat, k: nat)
    requires a < Power2(k)
    ensures XorBits(a, 0, k) == a
    decreases k
  {
    if k > 0 {
      XorWithNone(a / 2, k - 1);
    }
  }

  function BitAt(n: nat, i: nat): nat {
    if i == 0 then n % 2 else BitAt(n / 2, i - 1)
  }

  /** Every bit below k is set if and only if it differs in the two numbers. */
  lemma {:induction false} XorComparesBits(a: nat, b: nat, k: nat, i: nat)
    requires i < k
    ensures BitAt(XorBits(a, b, k), i) == if BitAt(a, i) != BitAt(b, i) then 1 else 0
    decreases i
  {
    var rest := XorBits(a / 2, b / 2, k - 1);
    assert XorBits(a, b, k) / 2 == rest && XorBits(a, b, k) % 2 == (a % 2 + b % 2) % 2;
    if i > 0 {
      XorComparesBits(a / 2, b / 2, k - 1, i - 1);
    }
  }

  lemma XorLowOfZero(h: Hash, b: Byte)
    requires b == 0
    ensures XorLow(h, b) == h
  {
    assert Power2(8) == 256;
    XorWithNone(h % 256, 8);
  }

  /** Folding in a zero byte only multiplies. */
  lemma MixOfZero(h: Hash, b: Byte, q: nat, y: Hash)
    requires b == 0 && h * 1099511628211 == y + q * 0x1_0000_0000_0000_0000
    ensures Mix(h, b) == y
  {
    XorLowOfZero(h, b);
    RemainderOfSum(y, q);
  }

  lemma HashOfOne(t: int, b: seq<Byte>)
    requires b == TokenBytes(t)
    ensures FingerprintOf([t]) == Fingerprint(Mix(Mix(Mix(Mix(OFFSET, b[0]), b[1]), b[2]), b[3]))
  {
    assert [t][..0] == [] && Encoding([t]) == [] + b == b;
    WriteOne(OFFSET, b, 0);
    WriteOne(OFFSET, b, 1);
    WriteOne(OFFSET, b, 2);
    WriteOne(OFFSET, b, 3);
    assert b[..0] == [] && b[..4] == b;
  }

  lemma KnownBytes(t: int)
    requires t == 0
    ensures TokenBytes(t) == [0, 0, 0, 0]
  {
  }

  /** The 64-bit FNV-1a hash of four zero bytes, from the offset basis on. */
  lemma KnownFingerprint(t: int)
    requires t == 0
    ensures FingerprintOf([t]) == Fingerprint(5558979605539197941)
  {
    var b := TokenBytes(t);
    KnownBytes(t);
    HashOfOne(t, b);
    MixOfZero(14695981039346656037, b[0], 875948729822, 12638153115695167455);
    MixOfZero(12638153115695167455, b[1], 753292627376, 590684067820433389);
    MixOfZero(590684067820433389, b[2], 35207514050, 15658191375538532279);
    MixOfZero(15658191375538532279, b[3], 933300935133, 5558979605539197941);
  }
}
