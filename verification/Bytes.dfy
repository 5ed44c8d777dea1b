/** Bytes, optional results, and the little-endian words every codec of the library is built on. */
module Bytes {

  type byte = b: int | 0 <= b < 256
  type bytes = seq<byte>

  datatype Option<+T> = None | Some(value: T)

  const WORD16 := 0x1_0000
  const WORD32 := 0x1_0000_0000
  const WORD64 := 0x1_0000_0000_0000_0000

  function Pow256(k: nat): (p: nat)
    ensures p > 0
  {
    if k == 0 then 1 else 256 * Pow256(k - 1)
  }

  /** The low `k` bytes of `n`, least significant first: what copying `k` bytes out of a word yields. */
  function LittleEndian(n: nat, k: nat): (s: bytes)
    ensures |s| == k
  {
    if k == 0 then [] else [n % 256] + LittleEndian(n / 256, k - 1)
  }

  function FromLittleEndian(s: bytes): nat {
    if s == [] then 0 else s[0] + 256 * FromLittleEndian(s[1..])
  }

  /** Two and four bytes as a number, least significant first. */
  function Number2(a: int, b: int): int {
    a + 256 * b
  }

  function Number4(a: int, b: int, c: int, d: int): int {
    a + 256 * b + 65536 * c + 16777216 * d
  }

  lemma TwoBytes(s: bytes)
    requires |s| == 2
    ensures FromLittleEndian(s) == Number2(s[0], s[1])
  {
    assert s[1..][1..] == [];
    assert FromLittleEndian(s[1..]) == s[1];
  }

  lemma FourBytes(s: bytes)
    requires |s| == 4
    ensures FromLittleEndian(s) == Number4(s[0], s[1], s[2], s[3])
  {
    TwoBytes(s[2..]);
    assert s[1..][1..] == s[2..];
  }

  lemma Pow256Values()
    ensures Pow256(1) == 256 && Pow256(2) == WORD16 && Pow256(4) == WORD32 && Pow256(8) == WORD64
  {
    assert Pow256(3) == 0x100_0000;
    assert Pow256(4) == WORD32;
    assert Pow256(6) == 0x1_0000_0000_0000;
  }

  lemma {:induction false} Pow256Monotone(i: nat, j: nat)
    requires i <= j
    ensures Pow256(i) <= Pow256(j)
    decreases j
  {
    if i < j {
      Pow256Monotone(i, j - 1);
    }
  }

  lemma {:induction false} FromLittleEndianBound(s: bytes)
    ensures FromLittleEndian(s) < Pow256(|s|)
  {
    if s != [] {
      FromLittleEndianBound(s[1..]);
    }
  }

  lemma {:induction false} WordRoundTrip(n: nat, k: nat)
    requires n < Pow256(k)
    ensures FromLittleEndian(LittleEndian(n, k)) == n
  {
    if k > 0 {
      WordRoundTrip(n / 256, k - 1);
      assert LittleEndian(n, k)[1..] == LittleEndian(n / 256, k - 1);
    }
  }

  lemma {:induction false} BytesRoundTrip(s: bytes)
    ensures LittleEndian(FromLittleEndian(s), |s|) == s
  {
    if s != [] {
      BytesRoundTrip(s[1..]);
      var n := FromLittleEndian(s);
      assert n % 256 == s[0] && n / 256 == FromLittleEndian(s[1..]);
      assert s == [s[0]] + s[1..];
    }
  }

  /** Byte `i` of a word has the weight `256^i`, for the writer and for the reader. */
  lemma {:induction false} LittleEndianDigit(n: nat, k: nat, i: nat)
    requires i < k
    ensures LittleEndian(n, k)[i] == (n / Pow256(i)) % 256
  {
    if i > 0 {
      LittleEndianDigit(n / 256, k - 1, i - 1);
      DivideTwice(n, Pow256(i - 1));
    }
  }

  lemma MulAtLeast(d: nat, k: int)
    ensures k >= 1 ==> d * k >= d
  {
    assert d * k == d + d * (k - 1);
  }

  lemma QuotientUnique(n: nat, d: nat, q: nat, r: nat)
    requires d > 0 && n == d * q + r && r < d
    ensures n / d == q && n % d == r
  {
    var q', r' := n / d, n % d;
    assert n == d * q' + r';
    MulAtLeast(d, q' - q);
    MulAtLeast(d, q - q');
    assert d * (q' - q) == d * q' - d * q;
    assert d * (q - q') == d * q - d * q';
  }

  lemma DivideTwice(n: nat, p: nat)
    requires p > 0
    ensures n / 256 / p == n / (256 * p)
  {
    var m := n / 256;
    assert m == p * (m / p) + m % p;
    assert 256 * (p * (m / p)) == (256 * p) * (m / p);
    QuotientUnique(n, 256 * p, m / p, 256 * (m % p) + n % 256);
  }

  lemma {:induction false} FromLittleEndianDigit(s: bytes, b: byte)
    ensures FromLittleEndian(s + [b]) == FromLittleEndian(s) + b * Pow256(|s|)
  {
    if s != [] {
      FromLittleEndianDigit(s[1..], b);
      assert (s + [b])[1..] == s[1..] + [b];
      assert 256 * (b * Pow256(|s| - 1)) == b * Pow256(|s|);
    } else {
      assert ([b])[1..] == [] && s + [b] == [b];
    }
  }

  /** Padding with zero bytes on the significant end does not change a word. */
  lemma {:induction false} ZeroPadding(s: bytes, k: nat)
    ensures FromLittleEndian(s + LittleEndian(0, k)) == FromLittleEndian(s)
  {
    if s == [] {
      assert s + LittleEndian(0, k) == LittleEndian(0, k);
      WordRoundTrip(0, k);
    } else {
      ZeroPadding(s[1..], k);
      assert (s + LittleEndian(0, k))[1..] == s[1..] + LittleEndian(0, k);
    }
  }

  function Init<T>(s: seq<T>): (r: seq<T>)
    requires s != []
  {
    s[..|s| - 1]
  }

  function Last<T>(s: seq<T>): T
    requires s != []
  {
    s[|s| - 1]
  }

  lemma Concat3<T>(a: seq<T>, b: seq<T>, c: seq<T>)
    ensures a + b + c == a + (b + c)
  {
  }
}
