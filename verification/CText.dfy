/** The character classes and number scanners of the C library, over
    NUL-free strings. A place in a string is the suffix that starts there, and
    the empty suffix is the place of the terminator. */
module CText {
  import opened Bytes

  predicate IsSpace(c: char) {
    c == ' ' || '\t' <= c <= '\r'
  }

  predicate IsDigit(c: char) {
    '0' <= c <= '9'
  }

  predicate IsHex(c: char) {
    IsDigit(c) || 'a' <= c <= 'f' || 'A' <= c <= 'F'
  }

  predicate IsAlnum(c: char) {
    IsDigit(c) || 'a' <= c <= 'z' || 'A' <= c <= 'Z'
  }

  function HexDigit(c: char): (v: nat)
    requires IsHex(c)
    ensures v < 16
  {
    if IsDigit(c) then c as int - '0' as int
    else if c >= 'a' then c as int - 'a' as int + 10
    else c as int - 'A' as int + 10
  }

  predicate AllHex(d: string) {
    forall i | 0 <= i < |d| :: IsHex(d[i])
  }

  predicate AllSpace(d: string) {
    forall i | 0 <= i < |d| :: IsSpace(d[i])
  }

  predicate NoSpace(d: string) {
    forall i | 0 <= i < |d| :: !IsSpace(d[i])
  }

  /** The number written by hexadecimal digits, most significant first. */
  function HexNumber(d: string): nat
    requires AllHex(d)
  {
    if d == "" then 0 else 16 * HexNumber(d[..|d| - 1]) + HexDigit(d[|d| - 1])
  }

  /** The suffix at the first character that is not white space. */
  function SkipSpace(t: string): (r: string)
    ensures |r| <= |t| && (r != "" ==> !IsSpace(r[0]))
  {
    if t != "" && IsSpace(t[0]) then SkipSpace(t[1..]) else t
  }

  /** The suffix at the first white-space character. */
  function SkipWord(t: string): (r: string)
    ensures |r| <= |t| && (r != "" ==> IsSpace(r[0]))
  {
    if t != "" && !IsSpace(t[0]) then SkipWord(t[1..]) else t
  }

  /** The longest prefix of at most w hexadecimal digits. */
  function HexPrefix(t: string, w: nat): (d: string)
    ensures |d| <= |t| && |d| <= w && AllHex(d)
  {
    if t != "" && w > 0 && IsHex(t[0]) then [t[0]] + HexPrefix(t[1..], w - 1) else ""
  }

  /** Digits followed by something that is not a digit, or by the width limit. */
  lemma {:induction false} HexPrefixOf(d: string, r: string, w: nat)
    requires AllHex(d) && |d| <= w
    requires |d| == w || r == "" || !IsHex(r[0])
    ensures HexPrefix(d + r, w) == d
  {
    if d == "" {
      assert d + r == r;
    } else {
      assert (d + r)[1..] == d[1..] + r;
      HexPrefixOf(d[1..], r, w - 1);
    }
  }

  function Pow16(n: nat): nat {
    if n == 0 then 1 else 16 * Pow16(n - 1)
  }

  lemma {:induction false} HexNumberBound(d: string)
    requires AllHex(d)
    ensures HexNumber(d) < Pow16(|d|)
  {
    if d != "" {
      HexNumberBound(d[..|d| - 1]);
    }
  }

  lemma {:induction false} Pow16Monotone(n: nat, m: nat)
    requires n <= m
    ensures Pow16(n) <= Pow16(m)
  {
    if n < m {
      Pow16Monotone(n, m - 1);
    }
  }

  /** At most eight digits fit in an unsigned int. */
  lemma HexNumberFits(d: string)
    requires AllHex(d) && |d| <= 8
    ensures HexNumber(d) < 0x1_0000_0000
  {
    HexNumberBound(d);
    Pow16Monotone(|d|, 8);
    Pow16Eight();
  }

  lemma Pow16Eight()
    ensures Pow16(8) == 0x1_0000_0000
  {
    assert Pow16(2) == 256;
    assert Pow16(4) == 0x1_0000;
    assert Pow16(6) == 0x100_0000;
  }

  /** Appending digits shifts the number left. */
  lemma {:induction false} HexNumberAppend(a: string, b: string)
    requires AllHex(a) && AllHex(b)
    ensures HexNumber(a + b) == HexNumber(a) * Pow16(|b|) + HexNumber(b)
  {
    if b == "" {
      assert a + b == a;
    } else {
      var n := |b| - 1;
      HexNumberAppend(a, b[..n]);
      assert (a + b)[..|a + b| - 1] == a + b[..n];
      MulShift(HexNumber(a), Pow16(n), HexNumber(b[..n]));
    }
  }

  lemma MulShift(x: nat, p: nat, y: nat)
    ensures 16 * (x * p + y) == x * (16 * p) + 16 * y
  {
  }

  lemma HexNumberTwo(h: char, l: char)
    requires IsHex(h) && IsHex(l)
    ensures HexNumber([h, l]) == 16 * HexDigit(h) + HexDigit(l)
  {
    assert [h, l][..1] == [h];
    assert [h][..0] == "";
    assert HexNumber([h]) == 16 * HexNumber("") + HexDigit(h);
  }

  datatype Scan = NoMatch | Match(value: u32, rest: string)

  predicate SignedAt(t: string) {
    t != "" && (t[0] == '-' || t[0] == '+')
  }

  predicate PrefixedAt(t: string) {
    |t| >= 2 && t[0] == '0' && (t[1] == 'x' || t[1] == 'X')
  }

  /** The part of a %x conversion after the sign: a 0x prefix counts towards
      the width k, and a prefix without a digit is a matching failure. */
  function ScanUnsigned(v: string, k: nat, negative: bool): Scan {
    var prefixed := k >= 2 && PrefixedAt(v);
    var body := if prefixed then v[2..] else v;
    var d := HexPrefix(body, if prefixed then k - 2 else k);
    if d == "" then NoMatch
    else Match(Wrap32(if negative then 0 - HexNumber(d) else HexNumber(d)), body[|d|..])
  }

  function Wrap32(n: int): u32 {
    n % 0x1_0000_0000
  }

  /** One %x conversion of sscanf with field width w (section 7.19.6.2 of
      ISO C99): leading white space is skipped outside the width and a sign
      counts towards it. The value is what the unsigned int receives. */
  function ScanHex(t: string, w: nat): Scan {
    var u := SkipSpace(t);
    if w > 0 && SignedAt(u) then ScanUnsigned(u[1..], w - 1, u[0] == '-')
    else ScanUnsigned(u, w, false)
  }

  lemma DigitsNotPrefixed(d: string, r: string, w: nat)
    requires AllHex(d) && 0 < |d| <= w
    requires |d| == w || r == "" || (r[0] != 'x' && r[0] != 'X')
    ensures w >= 2 ==> !PrefixedAt(d + r)
  {
    if |d + r| >= 2 {
      assert (d + r)[1] == if |d| >= 2 then d[1] else r[0];
    }
  }

  /** The integer that strtol and strtoul find in base 16 (section 7.20.1.4 of
      ISO C99), and the suffix that *endptr is set to. */
  datatype Number = Number(negative: bool, magnitude: nat, rest: string)

  function ParseNumber(t: string): Number {
    var u := SkipSpace(t);
    if SignedAt(u) then ParseUnsigned(t, u[1..], u[0] == '-') else ParseUnsigned(t, u, false)
  }

  /** The part after the sign; a number that is not there leaves *endptr at the
      start of the string. */
  function ParseUnsigned(t: string, v: string, negative: bool): Number {
    var body := if PrefixedAt(v) && |v| >= 3 && IsHex(v[2]) then v[2..] else v;
    var d := HexPrefix(body, |body|);
    if d == "" then Number(false, 0, t) else Number(negative, HexNumber(d), body[|d|..])
  }

  /** The C type long, 32 or 64 bits wide. */
  datatype LongWidth = Long32 | Long64

  /** How many values unsigned long has. */
  function UlongRange(w: LongWidth): nat {
    match w
    case Long32 => 0x1_0000_0000
    case Long64 => 0x1_0000_0000_0000_0000
  }

  /** LONG_MAX + 1. */
  function LongLimit(w: LongWidth): nat {
    match w
    case Long32 => 0x8000_0000
    case Long64 => 0x8000_0000_0000_0000
  }

  /** Out of range, strtoul yields ULONG_MAX whatever the sign; in range, a
      minus sign negates in the unsigned type. */
  function Strtoul(f: Number, w: LongWidth): nat {
    if f.magnitude >= UlongRange(w) then UlongRange(w) - 1
    else if f.negative && f.magnitude != 0 then UlongRange(w) - f.magnitude
    else f.magnitude
  }

  /** Out of range, strtol yields LONG_MIN or LONG_MAX. */
  function Strtol(f: Number, w: LongWidth): int {
    if f.negative then (if f.magnitude > LongLimit(w) then 0 - LongLimit(w) else 0 - f.magnitude)
    else (if f.magnitude >= LongLimit(w) then LongLimit(w) - 1 else f.magnitude)
  }

  // ---------- the characters, listed ----------

  const LOWER_DIGITS := "0123456789abcdef"
  const UPPER_DIGITS := "0123456789ABCDEF"

  lemma SpaceChars(c: char)
    ensures IsSpace(c) <==> c in " \t\n\U{0b}\U{0c}\r"
  {
    assert forall x | x in " \t\n\U{0b}\U{0c}\r" :: x == ' ' || '\t' <= x <= '\r';
    var s := " \t\n\U{0b}\U{0c}\r";
    assert s[0] == ' ' && s[1] == '\t' && s[2] == '\n' && s[3] as int == 11 && s[4] as int == 12 && s[5] == '\r';
  }

  lemma HexChars(c: char)
    ensures IsHex(c) <==> c in LOWER_DIGITS || c in UPPER_DIGITS
    ensures IsHex(c) ==> LOWER_DIGITS[HexDigit(c)] == c || UPPER_DIGITS[HexDigit(c)] == c
  {
    if IsHex(c) {
      var v := HexDigit(c);
      assert v == 0 || v == 1 || v == 2 || v == 3 || v == 4 || v == 5 || v == 6 || v == 7
          || v == 8 || v == 9 || v == 10 || v == 11 || v == 12 || v == 13 || v == 14 || v == 15;
    }
  }

  const LETTERS := "abcdefghijklmnopqrstuvwxyz"

  lemma Letters(i: nat)
    requires i < |LETTERS|
    ensures LETTERS[i] == 'a' + i as char
  {
  }

  lemma AlnumChars(c: char)
    ensures c in LETTERS ==> IsAlnum(c) && IsAlnum(c - 'a' + 'A')
    ensures IsAlnum(c) <==> IsDigit(c) || c in LETTERS || ('A' <= c <= 'Z' && c - 'A' + 'a' in LETTERS)
    ensures IsDigit(c) <==> c in LOWER_DIGITS[..10]
  {
    if c in LETTERS {
      var i: nat :| i < |LETTERS| && LETTERS[i] == c;
      Letters(i);
    }
    if 'a' <= c <= 'z' {
      Letters(c as int - 97);
    }
    if 'A' <= c <= 'Z' {
      Letters(c as int - 65);
    }
    if IsDigit(c) {
      assert LOWER_DIGITS[..10][c as int - 48] == c;
    }
  }

  // ---------- every form of a number ----------

  lemma {:induction false} SkipSpaceOver(g: string, r: string)
    requires AllSpace(g) && (r == "" || !IsSpace(r[0]))
    ensures SkipSpace(g + r) == r
  {
    if g == "" {
      assert g + r == r;
    } else {
      assert (g + r)[1..] == g[1..] + r;
      SkipSpaceOver(g[1..], r);
    }
  }

  /** The front of a number: white space, a sign, and the base. */
  predicate IsFront(g: string, sign: string, base: string) {
    AllSpace(g) && (sign == "" || sign == "+" || sign == "-") && (base == "" || base == "0x" || base == "0X")
  }

  /** What is behind the digits does not go on with them, and does not make a base of
      them. */
  predicate Stops(base: string, d: string, r: string) {
    (r == "" || !IsHex(r[0])) && (base == "" ==> r == "" || (r[0] != 'x' && r[0] != 'X'))
  }

  lemma FrontSkipped(g: string, sign: string, base: string, d: string, r: string)
    requires IsFront(g, sign, base) && AllHex(d) && d != ""
    ensures var v := base + (d + r);
            && SkipSpace(g + (sign + v)) == sign + v && v != "" && !SignedAt(v)
            && (sign != "" ==> SignedAt(sign + v) && (sign + v)[0] == sign[0] && (sign + v)[1..] == v)
            && (sign == "" ==> sign + v == v)
  {
    var v := base + (d + r);
    assert base == "" ==> v[0] == d[0];
    assert base != "" ==> v[0] == '0';
    assert sign != "" ==> (sign + v)[0] == sign[0];
    SkipSpaceOver(g, sign + v);
  }

  lemma BaseTaken(base: string, d: string, r: string)
    requires IsFront("", "", base) && AllHex(d) && d != ""
    requires base == "" ==> |d| >= 2 || r == "" || (r[0] != 'x' && r[0] != 'X')
    ensures var v := base + (d + r);
            && (base != "" ==> PrefixedAt(v) && v[2..] == d + r && |v| >= 3 && v[2] == d[0])
            && (base == "" ==> v == d + r && !PrefixedAt(v))
  {
    var v := base + (d + r);
    if base != "" {
      assert v[0] == base[0] && v[1] == base[1] && v[2] == d[0];
    } else if |v| >= 2 {
      assert v == d + r && v[1] == if |d| >= 2 then d[1] else r[0];
    }
  }

  /** strtol and strtoul: any white space, a sign, 0x or 0X, and digits. */
  lemma {:induction false} ParseForms(g: string, sign: string, base: string, d: string, r: string)
    requires IsFront(g, sign, base) && AllHex(d) && d != "" && Stops(base, d, r)
    ensures ParseNumber(g + (sign + (base + (d + r)))) == Number(sign == "-", HexNumber(d), r)
  {
    hide HexPrefix, SkipSpace, HexNumber;
    var t, v := g + (sign + (base + (d + r))), base + (d + r);
    FrontSkipped(g, sign, base, d, r);
    BaseTaken(base, d, r);
    HexPrefixOf(d, r, |d + r|);
    assert (d + r)[|d|..] == r;
    assert ParseUnsigned(t, v, sign == "-") == Number(sign == "-", HexNumber(d), r);
  }

  /** sscanf, when these and the digits are within the width behind the white
      space. */
  lemma {:induction false} ScanForms(g: string, sign: string, base: string, d: string, r: string, w: nat)
    requires IsFront(g, sign, base) && AllHex(d) && d != "" && w <= 8
    requires |sign| + |base| + |d| <= w
    requires |sign| + |base| + |d| == w || Stops(base, d, r)
    ensures HexNumber(d) < 0x1_0000_0000
    ensures ScanHex(g + (sign + (base + (d + r))), w) ==
            Match(if sign == "-" && HexNumber(d) > 0 then 0x1_0000_0000 - HexNumber(d) else HexNumber(d), r)
  {
    hide HexPrefix, SkipSpace, HexNumber, ScanUnsigned, ScanHex;
    var v := base + (d + r);
    HexNumberFits(d);
    FrontSkipped(g, sign, base, d, r);
    ScanHexSign(g + (sign + v), sign, v, w);
    if base == "" {
      assert v == d + r;
      UnsignedPlain(d, r, w - |sign|, sign == "-");
    } else {
      BaseTaken(base, d, r);
      UnsignedBased(v, d, r, w - |sign|, sign == "-");
    }
  }

  lemma ScanHexSign(t: string, sign: string, v: string, w: nat)
    requires SkipSpace(t) == sign + v && |sign| <= w && v != "" && !SignedAt(v)
    requires sign == "" || sign == "+" || sign == "-"
    ensures ScanHex(t, w) == ScanUnsigned(v, w - |sign|, sign == "-")
  {
    hide SkipSpace, ScanUnsigned;
    if sign == "" {
      assert sign + v == v;
    } else {
      assert (sign + v)[0] == sign[0] && (sign + v)[1..] == v;
    }
  }

  lemma ScanBody(v: string, k: nat, negative: bool, prefixed: bool, body: string, d: string, r: string)
    requires prefixed == (k >= 2 && PrefixedAt(v)) && body == if prefixed then v[2..] else v
    requires HexPrefix(body, if prefixed then k - 2 else k) == d && d != "" && AllHex(d) && |d| <= |body|
    requires body[|d|..] == r
    ensures ScanUnsigned(v, k, negative) == Match(Wrap32(if negative then 0 - HexNumber(d) else HexNumber(d)), r)
  {
    hide HexPrefix, HexNumber, Wrap32, PrefixedAt, AllHex;
  }

  lemma UnsignedPlain(d: string, r: string, k: nat, negative: bool)
    requires AllHex(d) && 0 < |d| <= k && (|d| == k || Stops("", d, r))
    ensures ScanUnsigned(d + r, k, negative) == Match(Wrap32(if negative then 0 - HexNumber(d) else HexNumber(d)), r)
  {
    hide HexPrefix, HexNumber, Wrap32, ScanUnsigned;
    HexPrefixOf(d, r, k);
    assert (d + r)[|d|..] == r;
    DigitsNotPrefixed(d, r, k);
    hide PrefixedAt;
    ScanBody(d + r, k, negative, false, d + r, d, r);
  }

  lemma UnsignedBased(v: string, d: string, r: string, k: nat, negative: bool)
    requires AllHex(d) && d != "" && 2 + |d| <= k && (2 + |d| == k || r == "" || !IsHex(r[0]))
    requires PrefixedAt(v) && v[2..] == d + r
    ensures ScanUnsigned(v, k, negative) == Match(Wrap32(if negative then 0 - HexNumber(d) else HexNumber(d)), r)
  {
    hide HexPrefix, HexNumber, Wrap32, ScanUnsigned;
    HexPrefixOf(d, r, k - 2);
    assert (d + r)[|d|..] == r;
    hide PrefixedAt;
    ScanBody(v, k, negative, true, d + r, d, r);
  }

  /** Digits that fill the width, or stop at a non-digit, are read as written. */
  lemma ScanHexDigits(d: string, r: string, w: nat)
    requires AllHex(d) && 0 < |d| <= w <= 8
    requires |d| == w || r == "" || (!IsHex(r[0]) && r[0] != 'x' && r[0] != 'X')
    ensures HexNumber(d) < 0x1_0000_0000
    ensures ScanHex(d + r, w) == Match(HexNumber(d), r)
  {
    assert "" + ("" + ("" + (d + r))) == d + r;
    ScanForms("", "", "", d, r, w);
  }

  /** A character that cannot start a number. */
  predicate NoNumberAt(t: string) {
    t == "" || !(IsSpace(t[0]) || IsHex(t[0]) || t[0] == '+' || t[0] == '-')
  }

  lemma NothingThere(g: string, t: string, w: nat)
    requires AllSpace(g) && NoNumberAt(t)
    ensures ScanHex(g + t, w) == NoMatch
    ensures ParseNumber(g + t) == Number(false, 0, g + t)
  {
    SkipSpaceOver(g, t);
  }

  /** 0x without a digit: a matching failure of sscanf, and the number 0, in front of
      the x, for strtol and strtoul. */
  lemma BareBase(r: string)
    requires r == "" || !IsHex(r[0])
    ensures ParseNumber("0x" + r) == Number(false, 0, "x" + r)
    ensures forall w | w >= 2 :: ScanHex("0x" + r, w) == NoMatch
  {
    hide HexNumber;
    var t := "0x" + r;
    assert t[0] == '0' && t[1] == 'x' && t[2..] == r && t[1..] == "x" + r;
    assert HexPrefix(t, |t|) == "0" by {
      assert HexPrefix(t[1..], |t| - 1) == "";
    }
    assert HexNumber("0") == 0 by {
      ZeroDigit();
    }
  }

  lemma ZeroDigit()
    ensures HexNumber("0") == 0
  {
    assert "0"[..0] == "";
  }

  // ---------- the ends of the range of long ----------

  /** Where strtol and strtoul clamp. */
  lemma Clamps(w: LongWidth, m: nat, r: string)
    ensures w.Long32? ==>
              && Strtol(Number(false, m, r), w) == (if m > 2147483647 then 2147483647 else m)
              && Strtol(Number(true, m, r), w) == (if m > 2147483648 then -2147483648 else 0 - m)
              && Strtoul(Number(false, m, r), w) == (if m > 4294967295 then 4294967295 else m)
    ensures w.Long64? ==>
              && Strtol(Number(false, m, r), w) == (if m > 9223372036854775807 then 9223372036854775807 else m)
              && Strtol(Number(true, m, r), w) == (if m > 9223372036854775808 then -9223372036854775808 else 0 - m)
              && Strtoul(Number(false, m, r), w) == (if m > 18446744073709551615 then 18446744073709551615 else m)
    ensures w.Long32? && 0 < m <= 4294967295 ==> Strtoul(Number(true, m, r), w) == 4294967296 - m
    ensures w.Long64? && 0 < m <= 18446744073709551615 ==> Strtoul(Number(true, m, r), w) == 18446744073709551616 - m
  {
  }
}
