/**
 The `auto_size_type` integers: one length byte whose top bit is the sign, then the magnitude in as few
 little-endian bytes as it needs. The integer is 64 bits wide, signed or unsigned.
 */
module AutoSize {
  import opened Bytes

  const SIGN_BIT := 0x80
  const WIDTH := 8
  const SIGN_WEIGHT := 0x8000_0000_0000_0000

  /** What the 64-bit object can hold. */
  predicate InRange(signed: bool, v: int) {
    if signed then -SIGN_WEIGHT <= v < SIGN_WEIGHT else 0 <= v < WORD64
  }

  function Magnitude(v: int): nat {
    if v < 0 then -v else v
  }

  /** The two's complement bit pattern of an object, and the value a pattern denotes. */
  function Pattern(v: int): (p: nat)
    requires -SIGN_WEIGHT <= v < WORD64
    ensures p < WORD64
  {
    if v < 0 then v + WORD64 else v
  }

  function FromPattern(signed: bool, p: nat): (v: int)
    requires p < WORD64
    ensures InRange(signed, v)
  {
    if signed && p >= SIGN_WEIGHT then p - WORD64 else p
  }

  /** `~v + 1` on the 64-bit pattern. */
  function Negate(p: nat): (q: nat)
    requires p < WORD64
    ensures q < WORD64
  {
    (WORD64 - p) % WORD64
  }

  function ByteLength(m: nat): nat {
    if m == 0 then 0 else 1 + ByteLength(m / 256)
  }

  function Encode(v: int): (s: bytes)
    requires Magnitude(v) < WORD64
    ensures 1 <= |s| <= 1 + WIDTH
  {
    ByteLengthIsLeast(Magnitude(v));
    ByteLengthAtMost(Magnitude(v), WIDTH);
    [ByteLength(Magnitude(v)) + (if v < 0 then SIGN_BIT else 0)] + LittleEndian(Magnitude(v), ByteLength(Magnitude(v)))
  }

  /** The number of payload bytes and the sign announced by a length byte. */
  function PayloadLength(b: byte): nat {
    b % SIGN_BIT
  }

  predicate IsNegative(b: byte) {
    b >= SIGN_BIT
  }

  /** Reading `s` into an object is defined when the announced bytes exist and fit into the object. */
  predicate Readable(s: bytes) {
    s != [] && PayloadLength(s[0]) <= WIDTH && 1 + PayloadLength(s[0]) <= |s|
  }

  /** The object after reading `s` over its previous value: the copy replaces only its low bytes. */
  function DecodeOver(signed: bool, previous: int, s: bytes): (v: int)
    requires InRange(signed, previous)
    requires Readable(s)
    ensures InRange(signed, v)
  {
    var k := PayloadLength(s[0]);
    var memory := s[1..1 + k] + LittleEndian(Pattern(previous), WIDTH)[k..];
    FromLittleEndianBound(memory);
    Pow256Values();
    var p := FromLittleEndian(memory);
    FromPattern(signed, if IsNegative(s[0]) then Negate(p) else p)
  }

  /** Reading into a fresh, zeroed object: the value and the number of bytes consumed. */
  function Decode(signed: bool, s: bytes): (r: Option<(int, nat)>)
    ensures r.Some? ==> InRange(signed, r.value.0) && 1 <= r.value.1 <= |s|
  {
    if Readable(s) then Some((DecodeOver(signed, 0, s), 1 + PayloadLength(s[0]))) else None
  }

  // ---- The length is the least that holds the magnitude ----

  lemma {:induction false} ByteLengthIsLeast(m: nat)
    ensures m < Pow256(ByteLength(m))
    ensures m > 0 ==> Pow256(ByteLength(m) - 1) <= m
  {
    if m > 0 {
      ByteLengthIsLeast(m / 256);
    }
  }

  lemma ByteLengthAtMost(m: nat, k: nat)
    ensures ByteLength(m) <= k <==> m < Pow256(k) || (m == 0)
  {
    ByteLengthIsLeast(m);
    if ByteLength(m) <= k {
      Pow256Monotone(ByteLength(m), k);
    } else {
      Pow256Monotone(k, ByteLength(m) - 1);
    }
  }

  /** The length law: one byte more than the least `k` whose `256^k` exceeds the magnitude. */
  lemma EncodedLength(v: int)
    requires Magnitude(v) < WORD64
    ensures Magnitude(v) < Pow256(|Encode(v)| - 1)
    ensures forall k: nat :: Magnitude(v) < Pow256(k) ==> |Encode(v)| <= 1 + k
  {
    ByteLengthIsLeast(Magnitude(v));
    forall k: nat | Magnitude(v) < Pow256(k)
      ensures |Encode(v)| <= 1 + k
    {
      ByteLengthAtMost(Magnitude(v), k);
    }
  }

  // ---- The bytes, in numbers ----

  /**
   The form of a value: the number of magnitude bytes, plus 128 for a negative value, then the magnitude, the most
   significant byte last and not zero.
   */
  ghost predicate WrittenAs(v: int, s: bytes) {
    && 1 <= |s| <= 9
    && s[0] == |s| - 1 + (if v < 0 then 128 else 0)
    && FromLittleEndian(s[1..]) == (if v < 0 then -v else v)
    && (|s| > 1 ==> s[|s| - 1] != 0)
  }

  lemma EncodedForm(v: int)
    requires Magnitude(v) < WORD64
    ensures WrittenAs(v, Encode(v))
  {
    var m := Magnitude(v);
    var k, s := ByteLength(m), Encode(v);
    Pow256Values();
    ByteLengthIsLeast(m);
    ByteLengthAtMost(m, WIDTH);
    WordRoundTrip(m, k);
    assert s[1..] == LittleEndian(m, k);
    if k > 0 {
      LittleEndianDigit(m, k, k - 1);
      TopByte(m, k - 1);
    }
  }

  /**
   Reading a first byte `k` or `128 + k` into a zeroed object: `k` bytes of magnitude, negative in the second case.
   */
  lemma ReadsFirstByte(k: nat, rest: bytes)
    requires k <= 8 && k <= |rest|
    ensures var n: int := FromLittleEndian(rest[..k]);
            && Decode(false, [k] + rest) == Some((n, 1 + k))
            && (n < 0x8000_0000_0000_0000 ==> Decode(true, [k] + rest) == Some((n, 1 + k)))
            && (n <= 0x8000_0000_0000_0000 ==> Decode(true, [128 + k] + rest) == Some((-n, 1 + k)))
  {
    var n := FromLittleEndian(rest[..k]);
    hide Pow256, LittleEndian, FromLittleEndian;
    OverZero(rest[..k]);
    assert Pattern(0) == 0;
    var plain, signed := [k] + rest, [128 + k] + rest;
    assert plain[1..1 + k] == rest[..k] && signed[1..1 + k] == rest[..k];
  }

  /** Bytes copied over a zeroed word. */
  lemma OverZero(s: bytes)
    requires |s| <= WIDTH
    ensures FromLittleEndian(s + LittleEndian(0, WIDTH)[|s|..]) == FromLittleEndian(s) < WORD64
  {
    FromLittleEndianBound(s);
    Pow256Values();
    Pow256Monotone(|s|, WIDTH);
    ZeroTail(WIDTH, |s|);
    ZeroPadding(s, WIDTH - |s|);
  }

  // ---- Reading inverts writing ----

  /** Every value of the object survives, whatever bytes follow its encoding. */
  lemma RoundTrip(signed: bool, v: int, rest: bytes)
    requires InRange(signed, v)
    ensures Decode(signed, Encode(v) + rest) == Some((v, |Encode(v)|))
  {
    hide Pow256, ByteLength, LittleEndian, FromLittleEndian, Negate, FromPattern;
    var m := Magnitude(v);
    var k := ByteLength(m);
    var s := Encode(v) + rest;
    Pow256Values();
    ByteLengthAtMost(m, WIDTH);
    assert Readable(s) && PayloadLength(s[0]) == k && IsNegative(s[0]) == (v < 0);
    assert s[1..1 + k] == LittleEndian(m, k);
    ReadBack(m, k);
    assert Pattern(0) == 0;
    SignBack(signed, v);
  }

  /** The magnitude's bytes over a zeroed object give the magnitude. */
  lemma ReadBack(m: nat, k: nat)
    requires k == ByteLength(m) <= WIDTH
    ensures FromLittleEndian(LittleEndian(m, k) + LittleEndian(0, WIDTH)[k..]) == m
  {
    ByteLengthIsLeast(m);
    WordRoundTrip(m, k);
    ZeroTail(WIDTH, k);
    ZeroPadding(LittleEndian(m, k), WIDTH - k);
  }

  lemma SignBack(signed: bool, v: int)
    requires InRange(signed, v)
    ensures FromPattern(signed, if v < 0 then Negate(Magnitude(v)) else Magnitude(v)) == v
  {
  }

  lemma {:induction false} ZeroTail(n: nat, k: nat)
    requires k <= n
    ensures LittleEndian(0, n)[k..] == LittleEndian(0, n - k)
  {
    if k > 0 {
      ZeroTail(n - 1, k - 1);
      assert LittleEndian(0, n)[k..] == LittleEndian(0, n - 1)[k - 1..];
    }
  }

  /** What reading accepts, it consumes within the input, whatever follows. */
  lemma DecodeExtends(signed: bool, s: bytes, rest: bytes)
    requires Decode(signed, s).Some?
    ensures Decode(signed, s + rest) == Decode(signed, s)
  {
    var k := PayloadLength(s[0]);
    assert (s + rest)[0] == s[0];
    assert (s + rest)[1..1 + k] == s[1..1 + k];
  }

  // ---- The object ----

  /** The byte of `m` at place `i`, when nothing lies above it, is zero exactly when `m` needs only `i` bytes. */
  lemma TopByte(m: nat, i: nat)
    requires m < Pow256(i + 1)
    ensures (m / Pow256(i)) % 256 == 0 <==> m < Pow256(i)
  {
    hide Pow256;
    TopQuotient(m, Pow256(i), i);
  }

  lemma TopQuotient(m: nat, p: nat, i: nat)
    requires p == Pow256(i) && m < Pow256(i + 1)
    ensures m / p < 256 && (m / p == 0 <==> m < p)
  {
    assert m < 256 * p;
    hide Pow256;
    var q := m / p;
    assert m == p * q + m % p;
    MulAtLeast(p, q - 255);
    assert p * (q - 255) == p * q - 255 * p;
    MulAtLeast(p, q);
    if m < p {
      QuotientUnique(m, p, 0, m);
    }
  }

  lemma NothingToWrite()
    ensures ByteLength(0) == 0 && LittleEndian(0, 0) == []
  {
  }

  class AutoSizeType {
    const signed: bool
    var value: int

    ghost predicate Valid()
      reads this
    {
      InRange(signed, value)
    }

    constructor (signed: bool, value: int := 0)
      requires InRange(signed, value)
      ensures Valid() && this.signed == signed && this.value == value
    {
      this.signed := signed;
      this.value := value;
    }

    method Serialize() returns (ret: bytes)
      requires Valid()
      ensures ret == Encode(value) && WrittenAs(value, ret)
    {
      hide WrittenAs, Pow256, ByteLength, LittleEndian;
      EncodedForm(value);
      Pow256Values();
      if value == 0 {
        NothingToWrite();
        return [0];
      }
      var valueTmp := Pattern(value);
      if value < 0 {
        valueTmp := Negate(valueTmp);
      }
      assert valueTmp == Magnitude(value);
      var effectiveBytes := EffectiveBytes(valueTmp);
      ret := [effectiveBytes] + LittleEndian(valueTmp, effectiveBytes);
      if value < 0 {
        ret := ret[0 := ret[0] + SIGN_BIT];
      }
    }

    /** The loop over the bytes from the most significant one down. */
    static method EffectiveBytes(valueTmp: nat) returns (effectiveBytes: nat)
      requires 0 < valueTmp < WORD64
      ensures effectiveBytes == ByteLength(valueTmp) <= WIDTH
    {
      hide Pow256, ByteLength;
      effectiveBytes := WIDTH;
      Pow256Values();
      var i := WIDTH - 1;
      while i >= 0
        invariant -1 <= i < WIDTH && effectiveBytes == i + 1
        invariant valueTmp < Pow256(i + 1)
      {
        TopByte(valueTmp, i);
        if (valueTmp / Pow256(i)) % 256 != 0 {
          break;
        } else {
          effectiveBytes := effectiveBytes - 1;
        }
        i := i - 1;
      }
      ByteLengthAtMost(valueTmp, effectiveBytes);
      ByteLengthAtMost(valueTmp, if effectiveBytes > 0 then effectiveBytes - 1 else 0);
    }

    method Deserialize(data: bytes) returns (cost: nat)
      requires Valid()
      requires Readable(data)
      modifies this
      ensures Valid() && value == DecodeOver(signed, old(value), data)
      ensures cost == 1 + data[0] % 128
    {
      var sizeBytes: nat := data[0];
      var negative := false;
      if sizeBytes >= SIGN_BIT {
        negative := true;
        sizeBytes := sizeBytes % SIGN_BIT;
      }
      var memory := data[1..1 + sizeBytes] + LittleEndian(Pattern(value), WIDTH)[sizeBytes..];
      FromLittleEndianBound(memory);
      Pow256Values();
      var p := FromLittleEndian(memory);
      if negative {
        p := Negate(p);
      }
      value := FromPattern(signed, p);
      cost := sizeBytes + 1;
    }
  }
}
