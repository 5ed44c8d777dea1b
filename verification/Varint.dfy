/**
 The variable-length integers of `varint.hpp`. The intended format is unsigned LEB128 (section 7.6 of DWARF Version 5),
 but the encoder's loop tests only bit 7 of what is left, so it stops early on some values.
 */
module Varint {
  import opened Bytes

  const MSB := 0x80
  const MAX_BYTES32 := 5

  function Pow128(k: nat): (p: nat)
    ensures p > 0
  {
    if k == 0 then 1 else 128 * Pow128(k - 1)
  }

  /** The mask of the encoder's loop is the 8-bit constant 0x80: only bit 7 decides whether to go on. */
  predicate Continues(n: nat) {
    (n / MSB) % 2 == 1
  }

  function Encode(n: nat): (s: bytes)
    ensures s != []
  {
    if Continues(n) then [n % 128 + MSB] + Encode(n / 128) else [n % 256]
  }

  /** Unsigned LEB128. */
  function Leb128(n: nat): (s: bytes)
    ensures s != []
  {
    if n >= 128 then [n % 128 + MSB] + Leb128(n / 128) else [n]
  }

  /** The value read and the bytes consumed; `None` when the continuation runs off the memory given. */
  function Decode(s: bytes): Option<(nat, nat)> {
    if s == [] then None
    else if s[0] < MSB then Some((s[0] % 128, 1))
    else
      match Decode(s[1..])
      case None => None
      case Some((n, used)) => Some((s[0] % 128 + 128 * n, used + 1))
  }

  /** The number of bytes the encoder writes: the least `k >= 1` such that bit `7k` of `n` is clear. */
  function Groups(n: nat): (k: nat)
    ensures k >= 1
  {
    if Continues(n) then 1 + Groups(n / 128) else 1
  }

  predicate BitClear(n: nat, i: nat) {
    (n / Pow128(i)) % 2 == 0
  }

  lemma {:induction false} GroupsIsLeastClearBit(n: nat)
    ensures BitClear(n, Groups(n))
    ensures forall i: nat :: 1 <= i < Groups(n) ==> !BitClear(n, i)
  {
    assert Pow128(1) == 128;
    if Continues(n) {
      var m := n / 128;
      GroupsIsLeastClearBit(m);
      ShiftedBit(n, Groups(m));
      forall i: nat | 1 <= i < Groups(n)
        ensures !BitClear(n, i)
      {
        if i > 1 {
          ShiftedBit(n, i - 1);
        }
      }
    }
  }

  lemma ShiftedBit(n: nat, i: nat)
    ensures BitClear(n, i + 1) == BitClear(n / 128, i)
  {
    GroupSplit(n, Pow128(i));
  }

  /** Dividing by `128 * p` one group at a time. */
  lemma GroupSplit(n: nat, p: nat)
    requires p > 0
    ensures n / (128 * p) == (n / 128) / p
    ensures n % (128 * p) == n % 128 + 128 * ((n / 128) % p)
  {
    var m := n / 128;
    var a, b := m / p, m % p;
    assert m == p * a + b;
    assert 128 * (p * a) == (128 * p) * a;
    QuotientUnique(n, 128 * p, a, 128 * b + n % 128);
  }

  lemma SmallRemainder(n: nat, p: nat)
    requires p > 0
    ensures n % p == n <==> n < p
  {
    if n < p {
      QuotientUnique(n, p, 0, n);
    }
  }

  /** What is left of `n` after writing and reading it. */
  function Survivor(n: nat): (r: nat)
    ensures r <= n
  {
    if Continues(n) then n % 128 + 128 * Survivor(n / 128) else n % 128
  }

  /** Only the low `7k` bits survive, `k` the number of bytes written. */
  lemma {:induction false} SurvivorIsLowBits(n: nat)
    ensures Survivor(n) == n % Pow128(Groups(n))
  {
    if Continues(n) {
      SurvivorIsLowBits(n / 128);
      GroupSplit(n, Pow128(Groups(n / 128)));
    } else {
      assert Pow128(1) == 128;
    }
  }

  lemma {:induction false} DecodeEncode(n: nat, rest: bytes)
    ensures |Encode(n)| == Groups(n)
    ensures Decode(Encode(n) + rest) == Some((Survivor(n), Groups(n)))
  {
    if Continues(n) {
      DecodeEncode(n / 128, rest);
      DecodeFirst(n, rest);
    } else {
      assert (Encode(n) + rest)[0] == n % 256 == n % 128;
    }
  }

  lemma DecodeFirst(n: nat, rest: bytes)
    requires Continues(n)
    requires Decode(Encode(n / 128) + rest).Some?
    ensures var (m, used) := Decode(Encode(n / 128) + rest).value;
            Decode(Encode(n) + rest) == Some((n % 128 + 128 * m, used + 1))
  {
    hide Continues;
    var s := Encode(n) + rest;
    assert s[1..] == Encode(n / 128) + rest;
    assert s[0] == n % 128 + MSB;
  }

  /** The values that survive. */
  predicate Safe(n: nat) {
    n < Pow128(Groups(n))
  }

  lemma SurvivorExactly(n: nat)
    ensures Survivor(n) == n <==> Safe(n)
  {
    SurvivorIsLowBits(n);
    SmallRemainder(n, Pow128(Groups(n)));
  }

  /** The round trip holds exactly on the safe values. */
  lemma RoundTripExactly(n: nat, rest: bytes)
    ensures Decode(Encode(n) + rest) == Some((n, |Encode(n)|)) <==> Safe(n)
  {
    DecodeEncode(n, rest);
    SurvivorExactly(n);
  }

  /** The encoder writes LEB128 exactly on the safe values. */
  lemma {:induction false} WritesLeb128Exactly(n: nat)
    ensures Encode(n) == Leb128(n) <==> Safe(n)
  {
    assert Pow128(1) == 128;
    if Continues(n) {
      WritesLeb128Exactly(n / 128);
      assert Encode(n)[1..] == Encode(n / 128) && Leb128(n)[1..] == Leb128(n / 128);
      assert Safe(n) <==> Safe(n / 128);
    } else if n >= 128 {
      assert |Leb128(n)| > 1;
    }
  }

  /** The decoder, in contrast, is right on every LEB128 number. */
  lemma {:induction false} DecodesEveryLeb128(n: nat, rest: bytes)
    ensures Decode(Leb128(n) + rest) == Some((n, |Leb128(n)|))
  {
    if n >= 128 {
      DecodesEveryLeb128(n / 128, rest);
      assert (Leb128(n) + rest)[1..] == Leb128(n / 128) + rest;
    }
  }

  /** The digits of LEB128: seven bits a byte, least significant first, and 128 more in every byte but the last. */
  lemma {:induction false} LebDigit(n: nat, i: nat)
    requires i < |Leb128(n)|
    ensures Leb128(n)[i] == (n / Pow128(i)) % 128 + (if i < |Leb128(n)| - 1 then 128 else 0)
  {
    if i > 0 {
      LebDigit(n / 128, i - 1);
      GroupSplit(n, Pow128(i - 1));
      assert Leb128(n)[i] == Leb128(n / 128)[i - 1];
    }
  }

  lemma {:induction false} LebLength(n: nat, k: nat)
    requires k >= 1 && n < Pow128(k)
    ensures |Leb128(n)| <= k
  {
    if n >= 128 {
      assert k > 1 by {
        assert Pow128(1) == 128;
      }
      LebLength(n / 128, k - 1);
    }
  }

  /** 256 is the least value that does not survive: it comes back as 0. */
  lemma TwoHundredFiftySixIsLost(rest: bytes)
    ensures Decode(Encode(256) + rest) == Some((0, 1))
    ensures forall n: nat :: n < 256 ==> Safe(n)
  {
    DecodeEncode(256, rest);
    assert Groups(256) == 1 && Pow128(1) == 128 && Pow128(2) == 16384;
    forall n: nat | n < 256
      ensures Safe(n)
    {
      if Continues(n) {
        assert Groups(n / 128) == 1;
      }
    }
  }

  /** A 32-bit value never needs more than five bytes, so the encoder's buffer is never overrun. */
  lemma Encode32Length(n: nat)
    requires n < WORD32
    ensures |Encode(n)| <= MAX_BYTES32
  {
    DecodeEncode(n, []);
    GroupsIsLeastClearBit(n);
    assert Pow128(4) == 0x1000_0000;
    assert Pow128(5) == 0x8_0000_0000;
    assert n / Pow128(5) == 0;
    assert BitClear(n, 5);
  }

  // ---- The loops ----

  /** `to_varint`: encodes into a five-byte buffer. */
  method ToVarint(n: nat) returns (s: bytes)
    requires n < WORD32
    ensures s == Encode(n)
  {
    hide Continues;
    Encode32Length(n);
    var buf := new byte[MAX_BYTES32];
    var ptr: nat := 0;
    var left: nat := n;
    while Continues(left)
      invariant ptr + |Encode(left)| <= MAX_BYTES32
      invariant buf[..ptr] + Encode(left) == Encode(n)
      decreases left
    {
      buf[ptr] := left % 128 + MSB;
      assert buf[..ptr + 1] + Encode(left / 128) == buf[..ptr] + Encode(left);
      ptr := ptr + 1;
      left := left / 128;
    }
    buf[ptr] := left % 256;
    assert buf[..ptr + 1] == buf[..ptr] + Encode(left);
    s := buf[..ptr + 1];
  }

  /**
   `varint_decode`: walks the memory until a byte without the continuation bit, in 64-bit arithmetic.
   C++ defines its shifts for at most ten bytes.
   */
  method VarintDecode(memory: bytes) returns (result: nat, used: nat)
    requires Decode(memory).Some? && Decode(memory).value.1 <= 10
    ensures Decode(memory).value == (Decode(memory).value.0, used) && result == Decode(memory).value.0 % WORD64
  {
    result := 0;
    ghost var exact: nat := 0;
    var groups: nat := 0;
    var ptr: nat := 0;
    while memory[ptr] >= MSB
      invariant ptr < |memory| && groups == ptr && Decode(memory[ptr..]).Some?
      invariant result == exact % WORD64
      invariant Split(memory, ptr, exact)
      decreases |memory| - ptr
    {
      Advance(memory, ptr, exact);
      AddWrapped(exact, Low(memory, ptr));
      exact := exact + Low(memory, ptr);
      result := (result + Low(memory, ptr) % WORD64) % WORD64;
      ptr := ptr + 1;
      groups := groups + 1;
    }
    assert Decode(memory[ptr..]).value == (memory[ptr] % 128, 1);
    AddWrapped(exact, Low(memory, ptr));
    result := (result + Low(memory, ptr) % WORD64) % WORD64;
    used := ptr + 1;
  }

  /** The seven bits of byte `ptr` at their place. */
  function Low(memory: bytes, ptr: nat): nat
    requires ptr < |memory|
  {
    Pow128(ptr) * (memory[ptr] % 128)
  }

  /** The number is what the first `ptr` bytes add up to plus the shifted rest. */
  ghost predicate Split(memory: bytes, ptr: nat, exact: nat)
    requires ptr <= |memory| && Decode(memory).Some? && Decode(memory[ptr..]).Some?
  {
    Decode(memory).value == (exact + Pow128(ptr) * Decode(memory[ptr..]).value.0, ptr + Decode(memory[ptr..]).value.1)
  }

  lemma AddWrapped(a: nat, b: nat)
    ensures (a % WORD64 + b % WORD64) % WORD64 == (a + b) % WORD64
  {
  }

  /** One step of the decoding loop: the low group moves from the tail into the sum. */
  lemma Advance(memory: bytes, ptr: nat, exact: nat)
    requires ptr < |memory| && memory[ptr] >= MSB && Decode(memory).Some? && Decode(memory[ptr..]).Some?
    requires Split(memory, ptr, exact)
    ensures ptr + 1 < |memory| && Decode(memory[ptr + 1..]).Some?
    ensures Split(memory, ptr + 1, exact + Low(memory, ptr))
  {
    assert memory[ptr..][1..] == memory[ptr + 1..];
    Distribute(Pow128(ptr), memory[ptr] % 128, Decode(memory[ptr + 1..]).value.0);
  }

  lemma Distribute(p: nat, d: nat, n: nat)
    ensures p * (d + 128 * n) == p * d + 128 * p * n
  {
    assert p * (128 * n) == 128 * p * n;
  }
}
