/** Machine integers, optional values and little-endian byte strings. */
module Bytes {

  datatype Option<+T> = None | Some(value: T)

  type byte = x: int | 0 <= x < 0x100
  type u16 = x: int | 0 <= x < 0x1_0000
  type u32 = x: int | 0 <= x < 0x1_0000_0000

  /** The n low-order bytes of v, least significant first. */
  function LittleEndian(v: nat, n: nat): (s: seq<byte>)
    ensures |s| == n
  {
    if n == 0 then [] else [v % 256] + LittleEndian(v / 256, n - 1)
  }

  /** The number whose little-endian bytes are s. */
  function Value(s: seq<byte>): nat {
    if s == [] then 0 else s[0] + 256 * Value(s[1..])
  }

  function Pow256(n: nat): (r: nat)
    ensures r > 0
  {
    if n == 0 then 1 else 256 * Pow256(n - 1)
  }

  lemma {:induction false} ValueOfLittleEndian(v: nat, n: nat)
    ensures Value(LittleEndian(v, n)) == v % Pow256(n)
  {
    if n != 0 {
      ValueOfLittleEndian(v / 256, n - 1);
      assert LittleEndian(v, n)[1..] == LittleEndian(v / 256, n - 1);
      ModSplit(v, Pow256(n - 1));
    }
  }

  lemma ModSplit(v: nat, m: nat)
    requires m > 0
    ensures v % 256 + 256 * (v / 256 % m) == v % (256 * m)
  {
    var q := v / 256 / m;
    var r := v % 256 + 256 * (v / 256 % m);
    assert v / 256 == q * m + v / 256 % m;
    assert v == q * (256 * m) + r;
    assert 0 <= r < 256 * m;
    DivModUnique(v, 256 * m, q, r);
  }

  lemma MulStep(a: nat, b: nat, d: nat)
    requires a < b
    ensures a * d + d <= b * d
  {
    var k := b - a - 1;
    assert b * d == (a + 1 + k) * d == a * d + d + k * d;
    assert k * d >= 0;
  }

  lemma DivModUnique(v: nat, d: nat, q: nat, r: nat)
    requires d > 0 && r < d && v == q * d + r
    ensures v % d == r && v / d == q
  {
    var q', r' := v / d, v % d;
    assert q' * d + r' == v;
    if q < q' {
      MulStep(q, q', d);
    } else if q > q' {
      MulStep(q', q, d);
    }
  }

  lemma LowByteFirst(low: byte, high: nat)
    ensures (low + 256 * high) % 256 == low && (low + 256 * high) / 256 == high
  {
  }

  lemma {:induction false} LittleEndianOfValue(s: seq<byte>)
    ensures LittleEndian(Value(s), |s|) == s
  {
    if s != [] {
      var more := s[1..];
      LittleEndianOfValue(more);
      LowByteFirst(s[0], Value(more));
      assert s == [s[0]] + more;
    }
  }

  /** Fewer bytes of the same number are a prefix. */
  lemma {:induction false} LittleEndianPrefix(v: nat, n: nat, m: nat)
    requires n <= m
    ensures LittleEndian(v, m)[..n] == LittleEndian(v, n)
  {
    if n != 0 {
      LittleEndianPrefix(v / 256, n - 1, m - 1);
      assert LittleEndian(v, m)[..n] == [v % 256] + LittleEndian(v / 256, m - 1)[..n - 1];
    }
  }

  /** Two numbers side by side: the low one first. */
  lemma {:induction false} LittleEndianHalves(high: nat, low: nat, n: nat, m: nat)
    requires low < Pow256(n)
    ensures LittleEndian(high * Pow256(n) + low, n + m) == LittleEndian(low, n) + LittleEndian(high, m)
  {
    if n == 0 {
      assert high * Pow256(0) + low == high;
      assert LittleEndian(low, 0) == [];
    } else {
      var p := Pow256(n - 1);
      var k := high * p;
      TimesPower(high, p);
      assert high * Pow256(n) + low == 256 * k + low;
      assert (256 * k + low) / 256 == k + low / 256;
      LittleEndianHalves(high, low / 256, n - 1, m);
      assert n + m - 1 == (n - 1) + m;
      assert [low % 256] + (LittleEndian(low / 256, n - 1) + LittleEndian(high, m))
          == LittleEndian(low, n) + LittleEndian(high, m);
    }
  }

  lemma TimesPower(x: nat, p: nat)
    ensures x * (256 * p) == 256 * (x * p)
  {
  }

  lemma Pow256Four()
    ensures Pow256(4) == 0x1_0000_0000
  {
    assert Pow256(2) == 0x1_0000;
  }

  /** A buffer with bytes stored from place at on. */
  function Overwrite(buffer: seq<byte>, at: nat, bytes: seq<byte>): (r: seq<byte>)
    requires at + |bytes| <= |buffer|
    ensures |r| == |buffer|
  {
    buffer[..at] + bytes + buffer[at + |bytes|..]
  }

  /** An optional part of a sequence. */
  function When<T>(b: bool, s: seq<T>): seq<T> {
    if b then s else []
  }

  lemma Associative<T>(a: seq<T>, b: seq<T>, c: seq<T>)
    ensures a + b + c == a + (b + c)
  {
  }

  lemma FourParts<T>(a: seq<T>, b: seq<T>, c: seq<T>, d: seq<T>)
    ensures a + b + c + d == a + (b + c + d)
  {
  }

  lemma FiveParts<T>(a: seq<T>, b: seq<T>, c: seq<T>, d: seq<T>, e: seq<T>)
    ensures a + b + c + d + e == a + (b + c + d + e)
  {
  }

  function Concat(parts: seq<seq<byte>>): seq<byte> {
    if parts == [] then [] else parts[0] + Concat(parts[1..])
  }

  lemma {:induction false} ConcatAppend(a: seq<seq<byte>>, b: seq<seq<byte>>)
    ensures Concat(a + b) == Concat(a) + Concat(b)
  {
    if a == [] {
      assert a + b == b;
    } else {
      ConcatAppend(a[1..], b);
      assert (a + b)[0] == a[0] && (a + b)[1..] == a[1..] + b;
      Associative(a[0], Concat(a[1..]), Concat(b));
    }
  }

  /** The byte number i of a number. */
  lemma {:induction false} LittleEndianAt(v: nat, n: nat, i: nat)
    requires i < n
    ensures LittleEndian(v, n)[i] == v / Pow256(i) % 256
  {
    if i > 0 {
      LittleEndianAt(v / 256, n - 1, i - 1);
      DivTwice(v, Pow256(i - 1));
    }
  }

  lemma DivTwice(v: nat, m: nat)
    requires m > 0
    ensures v / 256 / m == v / (256 * m)
  {
    var q, r := v / 256 / m, v / 256 % m;
    assert v / 256 == q * m + r;
    assert v == 256 * (q * m + r) + v % 256 == q * (256 * m) + (256 * r + v % 256);
    assert 256 * r + v % 256 < 256 * m;
    DivModUnique(v, 256 * m, q, 256 * r + v % 256);
  }

  lemma FourBytes()
    ensures LittleEndian(0x1234_5678, 4) == [0x78, 0x56, 0x34, 0x12]
    ensures Value([0x78, 0x56, 0x34, 0x12]) == 0x1234_5678
  {
    assert LittleEndian(0x1234, 2) == [0x34, 0x12];
    LittleEndianOfValue([0x78, 0x56, 0x34, 0x12]);
    assert [0x34, 0x12][1..] == [0x12] && Value([0x12]) == 0x12;
    assert [0x56, 0x34, 0x12][1..] == [0x34, 0x12];
    assert [0x78, 0x56, 0x34, 0x12][1..] == [0x56, 0x34, 0x12];
  }
}
