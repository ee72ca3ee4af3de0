/** The printer and the three parsers of Bluetooth device addresses. The
    parsers are stated for any number n of octets; the programs use six. */
module Address {
  import opened Bytes
  import opened CText

  /** A bdaddr_t: b[5] is the octet written first. */
  type Address = b: seq<byte> | |b| == 6 witness [0, 0, 0, 0, 0, 0]

  function Reverse(s: seq<byte>): (r: seq<byte>)
    ensures |r| == |s|
  {
    if s == [] then [] else Reverse(s[1..]) + [s[0]]
  }

  lemma {:induction false} ReverseAppend(s: seq<byte>, x: byte)
    ensures Reverse(s + [x]) == [x] + Reverse(s)
  {
    if s != [] {
      assert (s + [x])[1..] == s[1..] + [x];
      ReverseAppend(s[1..], x);
    }
  }

  lemma {:induction false} ReverseTwice(s: seq<byte>)
    ensures Reverse(Reverse(s)) == s
  {
    if s != [] {
      ReverseTwice(s[1..]);
      ReverseAppend(Reverse(s[1..]), s[0]);
    }
  }

  function LowByte(v: int): byte {
    v % 256
  }

  // ---------- printing ----------

  function UpperDigit(v: nat): (c: char)
    requires v < 16
    ensures IsHex(c) && HexDigit(c) == v
  {
    if v < 10 then '0' + v as char else 'A' + (v - 10) as char
  }

  function OctetText(v: byte): string {
    [UpperDigit(v / 16), UpperDigit(v % 16)]
  }

  /** ba2str. */
  function Ba2Str(b: Address): string {
    OctetText(b[5]) + ":" + OctetText(b[4]) + ":" + OctetText(b[3]) + ":"
    + OctetText(b[2]) + ":" + OctetText(b[1]) + ":" + OctetText(b[0])
  }

  function Upper(c: char): char {
    if 'a' <= c <= 'z' then c - 'a' + 'A' else c
  }

  function UpperCase(s: string): (r: string)
    ensures |r| == |s|
  {
    if s == "" then "" else [Upper(s[0])] + UpperCase(s[1..])
  }

  // ---------- str2ba and get_bdaddr ----------

  /** The integers str2ba reads: after each one it steps over one character
      without looking at it. None when that step passes the terminator and
      another integer is to be read. */
  function Unchecked(t: string, n: nat): Option<seq<Number>>
    decreases n
  {
    if n == 0 then Some([])
    else
      var f := ParseNumber(t);
      if n == 1 then Some([f])
      else if f.rest == "" then None
      else Before(f, Unchecked(f.rest[1..], n - 1))
  }

  /** The integers get_bdaddr reads: all but the last must stop at a colon. */
  function Checked(t: string, n: nat): Option<seq<Number>>
    decreases n
  {
    if n == 0 then Some([])
    else
      var f := ParseNumber(t);
      if n == 1 then Some([f])
      else if f.rest == "" || f.rest[0] != ':' then None
      else Before(f, Checked(f.rest[1..], n - 1))
  }

  function Before(f: Number, more: Option<seq<Number>>): Option<seq<Number>> {
    if more.None? then None else Some([f] + more.value)
  }

  /** What has been read, followed by what is still to be read. */
  function After(done: seq<Number>, more: Option<seq<Number>>): Option<seq<Number>> {
    if more.None? then None else Some(done + more.value)
  }

  lemma AfterNothing(more: Option<seq<Number>>)
    ensures After([], more) == more
  {
    if more.Some? {
      assert [] + more.value == more.value;
    }
  }

  lemma AfterBefore(done: seq<Number>, f: Number, more: Option<seq<Number>>)
    ensures After(done, Before(f, more)) == After(done + [f], more)
    ensures After(done, Some([f])) == Some(done + [f])
  {
    if more.Some? {
      assert done + ([f] + more.value) == done + [f] + more.value;
    }
  }

  /** One more integer read by str2ba. */
  lemma UncheckedStep(done: seq<Number>, t: string, n: nat)
    requires n > 0
    ensures var f := ParseNumber(t);
            After(done, Unchecked(t, n)) ==
            if n == 1 then Some(done + [f])
            else if f.rest == "" then None
            else After(done + [f], Unchecked(f.rest[1..], n - 1))
  {
    hide ParseNumber;
    var f := ParseNumber(t);
    AfterBefore(done, f, if f.rest == "" || n == 1 then None else Unchecked(f.rest[1..], n - 1));
  }

  /** One more integer read by get_bdaddr. */
  lemma CheckedStep(done: seq<Number>, t: string, n: nat)
    requires n > 0
    ensures var f := ParseNumber(t);
            After(done, Checked(t, n)) ==
            if n == 1 then Some(done + [f])
            else if f.rest == "" || f.rest[0] != ':' then None
            else After(done + [f], Checked(f.rest[1..], n - 1))
  {
    hide ParseNumber;
    var f := ParseNumber(t);
    AfterBefore(done, f, if f.rest == "" || n == 1 then None else Checked(f.rest[1..], n - 1));
  }

  /** The low bytes of what strtoul returns for the integers. */
  function UnsignedOctets(fs: seq<Number>, w: LongWidth): (vs: seq<byte>)
    ensures |vs| == |fs|
  {
    if fs == [] then [] else [LowByte(Strtoul(fs[0], w))] + UnsignedOctets(fs[1..], w)
  }

  /** The low bytes of what strtol returns for the integers. */
  function SignedOctets(fs: seq<Number>, w: LongWidth): (vs: seq<byte>)
    ensures |vs| == |fs|
  {
    if fs == [] then [] else [LowByte(Strtol(fs[0], w))] + SignedOctets(fs[1..], w)
  }

  lemma {:induction false} OctetsAppend(fs: seq<Number>, f: Number, w: LongWidth)
    ensures UnsignedOctets(fs + [f], w) == UnsignedOctets(fs, w) + [LowByte(Strtoul(f, w))]
    ensures SignedOctets(fs + [f], w) == SignedOctets(fs, w) + [LowByte(Strtol(f, w))]
  {
    if fs != [] {
      assert (fs + [f])[1..] == fs[1..] + [f];
      OctetsAppend(fs[1..], f, w);
    }
  }

  lemma NothingRead(t: string, w: LongWidth)
    ensures Unchecked(t, 0) == Some([]) && Checked(t, 0) == Some([])
    ensures Reverse(UnsignedOctets([], w)) == [] && Reverse(SignedOctets([], w)) == []
  {
  }

  /** Stores an octet in front of those stored before. */
  method StoreOctet(ba: array<byte>, i: nat, value: byte, ghost octets: seq<byte>)
    requires i < ba.Length && ba[..][i + 1..] == Reverse(octets)
    modifies ba
    ensures ba[..][i..] == Reverse(octets + [value])
  {
    ghost var before := ba[..];
    ba[i] := value;
    ReverseAppend(octets, value);
    assert ba[..][i..] == [value] + before[i + 1..];
  }

  /** memset. */
  method Clear(ba: array<byte>)
    modifies ba
    ensures forall k | 0 <= k < ba.Length :: ba[k] == 0
  {
    forall k | 0 <= k < ba.Length {
      ba[k] := 0;
    }
  }

  /** str2ba, filling ba from its last byte to its first. Not finished means
      that the C code would read beyond the end of the string. */
  method Str2Ba(str: string, ba: array<byte>, w: LongWidth) returns (finished: bool)
    modifies ba
    ensures finished <==> Unchecked(str, ba.Length).Some?
    ensures finished ==> ba[..] == Reverse(UnsignedOctets(Unchecked(str, ba.Length).value, w))
  {
    hide ParseNumber, Unchecked, After, Reverse, Strtoul, LowByte, UnsignedOctets;
    var cursor := str;
    ghost var whole, done := Unchecked(str, ba.Length), [];
    NothingRead(str, w);
    var i := ba.Length - 1;
    AfterNothing(whole);
    while i >= 0
      invariant -1 <= i < ba.Length
      invariant i >= 0 ==> whole == After(done, Unchecked(cursor, i + 1))
      invariant i < 0 ==> whole == Some(done)
      invariant ba[..][i + 1..] == Reverse(UnsignedOctets(done, w))
    {
      var field := ParseNumber(cursor);
      StoreOctet(ba, i, LowByte(Strtoul(field, w)), UnsignedOctets(done, w));
      UncheckedStep(done, cursor, i + 1);
      OctetsAppend(done, field, w);
      if field.rest != "" {
        cursor := field.rest[1..];
      } else if i > 0 {
        return false;
      }
      done := done + [field];
      i := i - 1;
    }
    finished := true;
  }

  /** get_bdaddr, storing from the last byte down to the first, and clearing the
      address when a colon is missing. */
  method GetBdaddr(str: string, ba: array<byte>, w: LongWidth) returns (ret: int)
    modifies ba
    ensures ret == if Checked(str, ba.Length).Some? then 0 else -1
    ensures ret == 0 ==> ba[..] == Reverse(SignedOctets(Checked(str, ba.Length).value, w))
    ensures ret == -1 ==> forall k | 0 <= k < ba.Length :: ba[k] == 0
  {
    hide ParseNumber, Checked, After, Reverse, Strtol, LowByte, SignedOctets;
    var cursor := str;
    ghost var whole, done := Checked(str, ba.Length), [];
    NothingRead(str, w);
    var d := ba.Length - 1;
    AfterNothing(whole);
    for i := 0 to ba.Length
      invariant d == ba.Length - 1 - i
      invariant d >= 0 ==> whole == After(done, Checked(cursor, d + 1))
      invariant d < 0 ==> whole == Some(done)
      invariant ba[..][d + 1..] == Reverse(SignedOctets(done, w))
    {
      var field := ParseNumber(cursor);
      StoreOctet(ba, d, LowByte(Strtol(field, w)), SignedOctets(done, w));
      CheckedStep(done, cursor, d + 1);
      OctetsAppend(done, field, w);
      if (field.rest == "" || field.rest[0] != ':') && i != ba.Length - 1 {
        Clear(ba);
        return -1;
      }
      if field.rest != "" {
        cursor := field.rest[1..];
      }
      d := d - 1;
      done := done + [field];
    }
    ret := 0;
  }

  /** When the checked parser accepts, the unchecked one reads the same
      integers at the same places, and so never leaves the string. */
  lemma {:induction false} CheckedReadsSamePositions(t: string, n: nat)
    requires Checked(t, n).Some?
    ensures Unchecked(t, n) == Checked(t, n) && |Checked(t, n).value| == n
    decreases n
  {
    if n > 1 {
      CheckedReadsSamePositions(ParseNumber(t).rest[1..], n - 1);
    }
  }

  /** The integers whose low byte does not depend on whether strtol or strtoul
      read them: those that fit a long, and those whose low byte happens to be
      the one that clamping yields. */
  predicate SignAgnostic(f: Number, w: LongWidth) {
    if f.negative then
      f.magnitude <= LongLimit(w) || (f.magnitude < UlongRange(w) && f.magnitude % 256 == 0)
    else
      f.magnitude < LongLimit(w) || f.magnitude >= UlongRange(w) || f.magnitude % 256 == 255
  }

  lemma ComplementLow(x: nat, k: nat)
    requires x <= 256 * k
    ensures (256 * k - x) % 256 == (0 - x) % 256
    ensures (0 - x) % 256 == 0 <==> x % 256 == 0
  {
  }

  lemma SameLowByte(f: Number, w: LongWidth)
    ensures LowByte(Strtol(f, w)) == LowByte(Strtoul(f, w)) <==> SignAgnostic(f, w)
  {
    var range := UlongRange(w);
    if f.negative && f.magnitude < range {
      ComplementLow(f.magnitude, if w.Long32? then 0x100_0000 else 0x100_0000_0000_0000);
    }
    match w {
      case Long32 =>
      case Long64 =>
    }
  }

  lemma {:induction false} SameOctets(fs: seq<Number>, w: LongWidth)
    ensures SignedOctets(fs, w) == UnsignedOctets(fs, w) <==> forall f | f in fs :: SignAgnostic(f, w)
  {
    if fs != [] {
      SameLowByte(fs[0], w);
      SameOctets(fs[1..], w);
      var a, b := SignedOctets(fs, w), UnsignedOctets(fs, w);
      assert a == b <==> a[0] == b[0] && a[1..] == b[1..] by {
        assert a == [a[0]] + a[1..] && b == [b[0]] + b[1..];
      }
      assert fs == [fs[0]] + fs[1..];
    }
  }

  /** Exactly when an accepted string denotes the same address for get_bdaddr
      and for str2ba, which then reads the same integers. */
  lemma CheckedRefinesUnchecked(s: string, n: nat, w: LongWidth)
    requires Checked(s, n).Some?
    ensures Unchecked(s, n) == Checked(s, n)
    ensures var fs := Checked(s, n).value;
            Reverse(SignedOctets(fs, w)) == Reverse(UnsignedOctets(fs, w))
            <==> forall f | f in fs :: SignAgnostic(f, w)
  {
    CheckedReadsSamePositions(s, n);
    var fs := Checked(s, n).value;
    SameOctets(fs, w);
    ReverseTwice(SignedOctets(fs, w));
    ReverseTwice(UnsignedOctets(fs, w));
  }

  // ---------- parse_bdaddr ----------

  /** The octets parse_bdaddr converts, in the order it does so: two-digit
      conversions separated by literal colons, up to the first mismatch. */
  function ScanOctets(t: string, n: nat): (vs: seq<u32>)
    ensures |vs| <= n
    decreases n
  {
    if n == 0 then []
    else match ScanHex(t, 2)
      case NoMatch => []
      case Match(v, rest) =>
        if n > 1 && rest != "" && rest[0] == ':' then [v] + ScanOctets(rest[1..], n - 1) else [v]
  }

  function LowBytes(vs: seq<int>): (r: seq<byte>)
    ensures |r| == |vs|
  {
    if vs == [] then [] else [LowByte(vs[0])] + LowBytes(vs[1..])
  }

  /** The address parse_bdaddr stores when the int of the i-th conversion held
      stale[i] before: octets that are not converted keep what was there. */
  function ScannedAddress(t: string, stale: seq<int>): (b: seq<byte>)
    ensures |b| == |stale|
  {
    var vs := ScanOctets(t, |stale|);
    Reverse(LowBytes(vs + stale[|vs|..]))
  }

  lemma {:induction false} LowBytesOfBytes(vs: seq<int>, bs: seq<byte>)
    requires vs == bs
    ensures LowBytes(vs) == bs
  {
    if vs != [] {
      LowBytesOfBytes(vs[1..], bs[1..]);
      assert bs == [bs[0]] + bs[1..];
    }
  }

  // ---------- well-formed texts ----------

  /** n two-digit groups separated by colons. */
  predicate GroupsText(t: string, n: nat)
    decreases n
  {
    && n > 0
    && |t| >= 2 && IsHex(t[0]) && IsHex(t[1])
    && (if n == 1 then |t| == 2 else |t| > 2 && t[2] == ':' && GroupsText(t[3..], n - 1))
  }

  /** The octets such a text denotes, in textual order. */
  function GroupValues(t: string, n: nat): (vs: seq<byte>)
    requires GroupsText(t, n)
    ensures |vs| == n
    decreases n
  {
    [16 * HexDigit(t[0]) + HexDigit(t[1])] + if n == 1 then [] else GroupValues(t[3..], n - 1)
  }

  /** Digits that stop at a colon, or at the end, are read as written. */
  lemma NumberAtColon(d: string, r: string)
    requires AllHex(d) && d != "" && (r == "" || r[0] == ':')
    ensures ParseNumber(d + r) == Number(false, HexNumber(d), r)
  {
    assert "" + ("" + ("" + (d + r))) == d + r;
    ParseForms("", "", "", d, r);
  }

  lemma NumberAtGroup(h: char, l: char, r: string)
    requires IsHex(h) && IsHex(l) && (r == "" || r[0] == ':')
    ensures ParseNumber([h, l] + r) == Number(false, 16 * HexDigit(h) + HexDigit(l), r)
    ensures ScanHex([h, l] + r, 2) == Match(16 * HexDigit(h) + HexDigit(l), r)
  {
    hide ParseNumber, ScanHex, HexNumber;
    HexNumberTwo(h, l);
    ScanHexDigits([h, l], r, 2);
    NumberAtColon([h, l], r);
  }

  /** The integers of a well-formed text are its octets. */
  predicate AreOctets(fs: seq<Number>, vs: seq<byte>) {
    |fs| == |vs| && forall i | 0 <= i < |fs| :: !fs[i].negative && fs[i].magnitude == vs[i]
  }

  lemma GroupStep(t: string, n: nat)
    requires GroupsText(t, n)
    ensures ParseNumber(t) == Number(false, 16 * HexDigit(t[0]) + HexDigit(t[1]), t[2..])
    ensures ScanHex(t, 2) == Match(16 * HexDigit(t[0]) + HexDigit(t[1]), t[2..])
    ensures n > 1 ==> t[2..] != "" && t[2..][0] == ':' && t[2..][1..] == t[3..] && GroupsText(t[3..], n - 1)
  {
    hide ParseNumber, ScanHex, HexDigit;
    assert t == [t[0], t[1]] + t[2..];
    NumberAtGroup(t[0], t[1], t[2..]);
  }

  lemma AreOctetsCons(f: Number, fs: seq<Number>, v: byte, vs: seq<byte>)
    requires !f.negative && f.magnitude == v && AreOctets(fs, vs)
    ensures AreOctets([f] + fs, [v] + vs)
  {
  }

  lemma CheckedGroup(t: string, n: nat)
    requires GroupsText(t, n)
    ensures var f := Number(false, 16 * HexDigit(t[0]) + HexDigit(t[1]), t[2..]);
            Checked(t, n) == if n == 1 then Some([f]) else Before(f, Checked(t[3..], n - 1))
  {
    hide ParseNumber, ScanHex, HexDigit;
    GroupStep(t, n);
  }

  lemma {:induction false} GroupsChecked(t: string, n: nat)
    requires GroupsText(t, n)
    ensures Checked(t, n).Some? && AreOctets(Checked(t, n).value, GroupValues(t, n))
    decreases n
  {
    hide HexDigit, Checked;
    CheckedGroup(t, n);
    if n > 1 {
      GroupsChecked(t[3..], n - 1);
      var v := GroupValues(t, n)[0];
      AreOctetsCons(Number(false, v, t[2..]), Checked(t[3..], n - 1).value, v, GroupValues(t[3..], n - 1));
    }
  }

  lemma ScanOctetsStep(t: string, v: u32, r: string, n: nat)
    requires n > 0 && ScanHex(t, 2) == Match(v, r)
    ensures ScanOctets(t, n) ==
            if n > 1 && r != "" && r[0] == ':' then [v] + ScanOctets(r[1..], n - 1) else [v]
  {
  }

  lemma {:induction false} GroupsScanned(t: string, n: nat)
    requires GroupsText(t, n)
    ensures ScanOctets(t, n) == GroupValues(t, n)
    decreases n
  {
    hide ParseNumber, ScanHex, HexDigit, ScanOctets;
    GroupStep(t, n);
    ScanOctetsStep(t, GroupValues(t, n)[0], t[2..], n);
    if n > 1 {
      GroupsScanned(t[3..], n - 1);
    }
  }

  lemma {:induction false} OctetsOf(fs: seq<Number>, vs: seq<byte>, w: LongWidth)
    requires AreOctets(fs, vs)
    ensures SignedOctets(fs, w) == vs && UnsignedOctets(fs, w) == vs
  {
    if fs != [] {
      assert LowByte(Strtol(fs[0], w)) == vs[0] == LowByte(Strtoul(fs[0], w));
      assert AreOctets(fs[1..], vs[1..]);
      OctetsOf(fs[1..], vs[1..], w);
      assert vs == [vs[0]] + vs[1..];
    }
  }

  /** The three parsers yield the address a well-formed text denotes. */
  lemma ParsersAgree(s: string, n: nat, w: LongWidth, stale: seq<int>)
    requires GroupsText(s, n) && |stale| == n
    ensures Checked(s, n).Some? && Unchecked(s, n) == Checked(s, n) && |Checked(s, n).value| == n
    ensures Reverse(SignedOctets(Checked(s, n).value, w)) == Reverse(GroupValues(s, n))
    ensures Reverse(UnsignedOctets(Checked(s, n).value, w)) == Reverse(GroupValues(s, n))
    ensures ScannedAddress(s, stale) == Reverse(GroupValues(s, n))
  {
    GroupsChecked(s, n);
    GroupsScanned(s, n);
    CheckedReadsSamePositions(s, n);
    OctetsOf(Checked(s, n).value, GroupValues(s, n), w);
    assert ScanOctets(s, n) + stale[n..] == ScanOctets(s, n);
    LowBytesOfBytes(ScanOctets(s, n), GroupValues(s, n));
  }

  /** Octets printed in order, separated by colons. */
  function Join(vs: seq<byte>): string {
    if vs == [] then ""
    else OctetText(vs[0]) + if |vs| == 1 then "" else ":" + Join(vs[1..])
  }

  lemma JoinCons(x: byte, vs: seq<byte>)
    requires vs != []
    ensures Join([x] + vs) == OctetText(x) + ":" + Join(vs)
  {
    assert ([x] + vs)[1..] == vs;
  }

  lemma GroupOne(x: byte)
    ensures Join([x]) == OctetText(x) && GroupsText(OctetText(x), 1) && GroupValues(OctetText(x), 1) == [x]
  {
  }

  lemma GroupCons(x: byte, t: string, n: nat)
    requires GroupsText(t, n)
    ensures var u := OctetText(x) + ":" + t;
            |u| == |t| + 3 && GroupsText(u, n + 1) && GroupValues(u, n + 1) == [x] + GroupValues(t, n)
  {
    hide GroupValues;
    var u := OctetText(x) + ":" + t;
    assert u[3..] == t;
    GroupFirst(u, x, n + 1);
  }

  lemma GroupFirst(u: string, x: byte, n: nat)
    requires n > 1 && GroupsText(u, n) && u[..2] == OctetText(x)
    ensures GroupValues(u, n) == [x] + GroupValues(u[3..], n - 1)
  {
    hide UpperDigit, HexDigit, IsHex;
    assert u[0] == u[..2][0] && u[1] == u[..2][1];
    assert 16 * (x / 16) + x % 16 == x;
  }

  lemma {:induction false} JoinIsText(vs: seq<byte>)
    requires vs != []
    ensures |Join(vs)| == 3 * |vs| - 1
    ensures GroupsText(Join(vs), |vs|) && GroupValues(Join(vs), |vs|) == vs
  {
    hide Join, GroupsText, GroupValues;
    var x, more := vs[0], vs[1..];
    assert vs == [x] + more;
    if more == [] {
      assert vs == [x];
      GroupOne(x);
    } else {
      JoinIsText(more);
      JoinCons(x, more);
      GroupCons(x, Join(more), |more|);
    }
  }

  lemma UpperDigitOf(c: char)
    requires IsHex(c)
    ensures UpperDigit(HexDigit(c)) == Upper(c)
  {
  }

  lemma UpperCaseThree(t: string)
    requires |t| >= 2
    ensures UpperCase(t) == [Upper(t[0]), Upper(t[1])] + UpperCase(t[2..])
    ensures |t| > 2 ==> UpperCase(t[2..]) == [Upper(t[2])] + UpperCase(t[3..])
  {
    assert t[1..][0] == t[1] && t[1..][1..] == t[2..];
    if |t| > 2 {
      assert t[2..][0] == t[2] && t[2..][1..] == t[3..];
    }
  }

  lemma UpperCaseGroup(t: string, n: nat)
    requires GroupsText(t, n)
    ensures var first := OctetText(GroupValues(t, n)[0]);
            UpperCase(t) == if n == 1 then first else first + ":" + UpperCase(t[3..])
  {
    hide Upper, UpperDigit, HexDigit;
    UpperDigitOf(t[0]);
    UpperDigitOf(t[1]);
    UpperCaseThree(t);
    UpperColon();
  }

  lemma UpperColon()
    ensures Upper(':') == ':'
  {
  }

  lemma {:induction false} TextIsJoin(t: string, n: nat)
    requires GroupsText(t, n)
    ensures Join(GroupValues(t, n)) == UpperCase(t)
    decreases n
  {
    hide HexDigit, OctetText, UpperCase;
    UpperCaseGroup(t, n);
    if n > 1 {
      TextIsJoin(t[3..], n - 1);
      JoinCons(GroupValues(t, n)[0], GroupValues(t[3..], n - 1));
    }
  }

  lemma ReverseSix(b: Address)
    ensures Reverse(b) == [b[5], b[4], b[3], b[2], b[1], b[0]]
  {
    var b1 := b[1..];
    var b2 := b1[1..];
    var b3 := b2[1..];
    var b4 := b3[1..];
    var b5 := b4[1..];
    assert Reverse(b5) == [b[5]];
    assert Reverse(b4) == [b[5], b[4]];
    assert Reverse(b3) == [b[5], b[4], b[3]];
    assert Reverse(b2) == [b[5], b[4], b[3], b[2]];
    assert Reverse(b1) == [b[5], b[4], b[3], b[2], b[1]];
  }

  lemma Ba2StrIsJoin(b: Address)
    ensures Ba2Str(b) == Join(Reverse(b))
  {
    hide UpperDigit;
    ReverseSix(b);
    assert Join([b[0]]) == OctetText(b[0]);
    JoinCons(b[1], [b[0]]);
    JoinCons(b[2], [b[1], b[0]]);
    JoinCons(b[3], [b[2], b[1], b[0]]);
    JoinCons(b[4], [b[3], b[2], b[1], b[0]]);
    JoinCons(b[5], [b[4], b[3], b[2], b[1], b[0]]);
    assert [b[1]] + [b[0]] == [b[1], b[0]];
    assert [b[2]] + [b[1], b[0]] == [b[2], b[1], b[0]];
    assert [b[3]] + [b[2], b[1], b[0]] == [b[3], b[2], b[1], b[0]];
    assert [b[4]] + [b[3], b[2], b[1], b[0]] == [b[4], b[3], b[2], b[1], b[0]];
    assert [b[5]] + [b[4], b[3], b[2], b[1], b[0]] == Reverse(b);
  }

  /** Printing an address yields 17 characters that every parser reads back. */
  lemma {:induction false} PrintThenParse(b: Address, w: LongWidth, stale: seq<int>)
    requires |stale| == |b|
    ensures |Ba2Str(b)| == 17
    ensures Unchecked(Ba2Str(b), |b|).Some?
    ensures Reverse(UnsignedOctets(Unchecked(Ba2Str(b), |b|).value, w)) == b
    ensures Checked(Ba2Str(b), |b|) == Unchecked(Ba2Str(b), |b|)
    ensures Reverse(SignedOctets(Checked(Ba2Str(b), |b|).value, w)) == b
    ensures ScannedAddress(Ba2Str(b), stale) == b
  {
    Ba2StrIsJoin(b);
    JoinIsText(Reverse(b));
    ReverseTwice(b);
    ParsersAgree(Ba2Str(b), |b|, w, stale);
  }

  /** Parsing a well-formed text, with any of the parsers, and printing the result
      upper-cases it. */
  lemma {:induction false} ParseThenPrint(s: string, w: LongWidth, stale: seq<int>)
    requires GroupsText(s, 6) && |stale| == 6
    ensures Unchecked(s, 6).Some? && Checked(s, 6).Some?
    ensures |Unchecked(s, 6).value| == |Checked(s, 6).value| == 6
    ensures Ba2Str(Reverse(UnsignedOctets(Unchecked(s, 6).value, w))) == UpperCase(s)
    ensures Ba2Str(Reverse(SignedOctets(Checked(s, 6).value, w))) == UpperCase(s)
    ensures Ba2Str(ScannedAddress(s, stale)) == UpperCase(s)
  {
    hide GroupsText, GroupValues, Unchecked, Checked, ScannedAddress, Ba2Str, Reverse, UpperCase;
    hide SignedOctets, UnsignedOctets;
    var b := Reverse(GroupValues(s, 6));
    ParsersAgree(s, 6, w, stale);
    ReverseTwice(GroupValues(s, 6));
    Ba2StrIsJoin(b);
    TextIsJoin(s, 6);
  }

  // ---------- a text on which the parsers differ ----------

  /** The digits of a number that does not fit a long: an 8 and zeros. */
  function TooLong(w: LongWidth): (d: string)
    ensures AllHex(d) && d != ""
  {
    match w
    case Long32 => "80000000"
    case Long64 => "8000000000000000"
  }

  lemma EightDigits()
    ensures HexNumber("80000000") == 0x8000_0000 && HexNumber("00000000") == 0
  {
    var d, z := "80000000", "00000000";
    assert d == "8000" + "0000" && z == "0000" + "0000";
    assert "8000" == "80" + "00" && "0000" == "00" + "00";
    HexNumberAppend("8000", "0000");
    HexNumberAppend("0000", "0000");
    HexNumberAppend("80", "00");
    HexNumberAppend("00", "00");
    HexNumberTwo('8', '0');
    HexNumberTwo('0', '0');
    assert Pow16(2) == 256;
    assert Pow16(4) == 0x1_0000;
  }

  lemma TooLongIs(w: LongWidth)
    ensures HexNumber(TooLong(w)) == LongLimit(w)
  {
    EightDigits();
    Pow16Eight();
    assert "8000000000000000" == "80000000" + "00000000";
    HexNumberAppend("80000000", "00000000");
  }

  lemma NotAgnostic(r: string, w: LongWidth)
    ensures !SignAgnostic(Number(false, LongLimit(w), r), w)
  {
  }

  /** A text whose first number is too long: get_bdaddr accepts it, and the number
      is taken in full. */
  lemma LongFirst(w: LongWidth) returns (s: string, r: string)
    ensures Checked(s, 6).Some? && |Checked(s, 6).value| == 6
    ensures Checked(s, 6).value[0] == Number(false, LongLimit(w), r)
  {
    var zeros := [0, 0, 0, 0, 0];
    var d := TooLong(w);
    r := ":" + Join(zeros);
    s := d + r;
    JoinIsText(zeros);
    GroupsChecked(Join(zeros), 5);
    hide Checked, ParseNumber, Join, TooLong;
    TooLongIs(w);
    NumberAtColon(d, r);
    assert r[1..] == Join(zeros);
    AfterNothing(Checked(s, 6));
    CheckedStep([], s, 6);
  }

  /** get_bdaddr accepts a text of which str2ba makes another address. */
  lemma ParsersDiffer(w: LongWidth)
    ensures exists s: string ::
      && Checked(s, 6).Some? && Unchecked(s, 6) == Checked(s, 6)
      && Reverse(SignedOctets(Checked(s, 6).value, w)) != Reverse(UnsignedOctets(Unchecked(s, 6).value, w))
  {
    hide Checked, Unchecked, Reverse, SignedOctets, UnsignedOctets, SignAgnostic;
    var s, r := LongFirst(w);
    NotAgnostic(r, w);
    CheckedRefinesUnchecked(s, 6, w);
  }

  // ---------- places ----------

  lemma {:induction false} ReverseAt(s: seq<byte>, k: nat)
    requires k < |s|
    ensures Reverse(s)[k] == s[|s| - 1 - k]
  {
    if k < |s| - 1 {
      ReverseAt(s[1..], k);
    }
  }

  lemma UpperDigitIs(v: nat)
    requires v < 16
    ensures UpperDigit(v) == UPPER_DIGITS[v]
  {
    assert v == 0 || v == 1 || v == 2 || v == 3 || v == 4 || v == 5 || v == 6 || v == 7
        || v == 8 || v == 9 || v == 10 || v == 11 || v == 12 || v == 13 || v == 14 || v == 15;
  }

  /** Where ba2str puts the digits of each byte, the last byte first. */
  lemma PrintedAt(b: Address, i: nat)
    requires i < 6
    ensures |Ba2Str(b)| == 17
    ensures Ba2Str(b)[3 * i] == UPPER_DIGITS[b[5 - i] / 16] && Ba2Str(b)[3 * i + 1] == UPPER_DIGITS[b[5 - i] % 16]
    ensures i < 5 ==> Ba2Str(b)[3 * i + 2] == ':'
  {
    hide UpperDigit, Ba2Str;
    UpperDigitIs(b[5 - i] / 16);
    UpperDigitIs(b[5 - i] % 16);
    PrintedPlaces(b, i);
  }

  lemma PrintedPlaces(b: Address, i: nat)
    requires i < 6
    ensures |Ba2Str(b)| == 17
    ensures Ba2Str(b)[3 * i] == UpperDigit(b[5 - i] / 16) && Ba2Str(b)[3 * i + 1] == UpperDigit(b[5 - i] % 16)
    ensures i < 5 ==> Ba2Str(b)[3 * i + 2] == ':'
  {
    hide UpperDigit, Ba2Str;
    PrintedList(b);
    assert i == 0 || i == 1 || i == 2 || i == 3 || i == 4 || i == 5;
  }

  lemma PrintedList(b: Address)
    ensures Ba2Str(b) == [UpperDigit(b[5] / 16), UpperDigit(b[5] % 16), ':',
                          UpperDigit(b[4] / 16), UpperDigit(b[4] % 16), ':',
                          UpperDigit(b[3] / 16), UpperDigit(b[3] % 16), ':',
                          UpperDigit(b[2] / 16), UpperDigit(b[2] % 16), ':',
                          UpperDigit(b[1] / 16), UpperDigit(b[1] % 16), ':',
                          UpperDigit(b[0] / 16), UpperDigit(b[0] % 16)]
  {
    hide UpperDigit;
  }

  lemma DropThree(t: string, k: nat)
    requires k + 3 < |t|
    ensures t[3..][k] == t[k + 3]
  {
  }

  lemma {:induction false} GroupAt(t: string, n: nat, i: nat)
    requires GroupsText(t, n) && i < n
    ensures 3 * i + 1 < |t| && IsHex(t[3 * i]) && IsHex(t[3 * i + 1])
    ensures GroupValues(t, n)[i] == 16 * HexDigit(t[3 * i]) + HexDigit(t[3 * i + 1])
    decreases n
  {
    hide IsHex, HexDigit;
    if i > 0 {
      var k := 3 * (i - 1);
      GroupAt(t[3..], n - 1, i - 1);
      DropThree(t, k);
      DropThree(t, k + 1);
      assert 3 * i == k + 3;
    }
  }

  /** Where each parser puts the octets of a well-formed text: the first one last. */
  lemma ParsedAt(s: string, n: nat, i: nat, w: LongWidth, stale: seq<int>)
    requires GroupsText(s, n) && |stale| == n && i < n
    ensures 3 * i + 1 < |s| && IsHex(s[3 * i]) && IsHex(s[3 * i + 1])
    ensures Checked(s, n).Some? && Unchecked(s, n).Some?
    ensures |Checked(s, n).value| == |Unchecked(s, n).value| == n
    ensures var octet := 16 * HexDigit(s[3 * i]) + HexDigit(s[3 * i + 1]);
            && Reverse(UnsignedOctets(Unchecked(s, n).value, w))[n - 1 - i] == octet
            && Reverse(SignedOctets(Checked(s, n).value, w))[n - 1 - i] == octet
            && ScannedAddress(s, stale)[n - 1 - i] == octet
  {
    hide GroupsText, GroupValues, Unchecked, Checked, ScannedAddress, Reverse, IsHex, HexDigit;
    hide SignedOctets, UnsignedOctets;
    ParsersAgree(s, n, w, stale);
    GroupAt(s, n, i);
    ReverseAt(GroupValues(s, n), n - 1 - i);
  }

  // ---------- texts that are not well-formed ----------

  /** A number, in any form, in front of a character c: get_bdaddr goes on exactly
      when c is a colon, and str2ba whatever it is. */
  lemma NumberThen(g: string, sign: string, base: string, d: string, c: char, r: string, n: nat)
    requires IsFront(g, sign, base) && AllHex(d) && d != "" && Stops(base, d, [c] + r) && n > 1
    ensures var t, f := g + (sign + (base + (d + ([c] + r)))), Number(sign == "-", HexNumber(d), [c] + r);
            && Checked(t, n) == (if c == ':' then Before(f, Checked(r, n - 1)) else None)
            && Unchecked(t, n) == Before(f, Unchecked(r, n - 1))
  {
    hide ParseNumber, HexNumber;
    ParseForms(g, sign, base, d, [c] + r);
    assert ([c] + r)[1..] == r;
  }

  /** A number at the end of the string with others to be read. */
  lemma NumberLast(g: string, sign: string, base: string, d: string, n: nat)
    requires IsFront(g, sign, base) && AllHex(d) && d != "" && n > 1
    ensures var t := g + (sign + (base + (d + "")));
            Checked(t, n) == None && Unchecked(t, n) == None
  {
    hide ParseNumber, HexNumber;
    ParseForms(g, sign, base, d, "");
  }

  /** Of a number that fits a long the last two digits count. */
  lemma LastTwoDigits(d: string, h: char, l: char, r: string, w: LongWidth)
    requires AllHex(d) && |d| <= 5 && IsHex(h) && IsHex(l)
    ensures var f := Number(false, HexNumber(d + [h, l]), r);
            LowByte(Strtoul(f, w)) == LowByte(Strtol(f, w)) == 16 * HexDigit(h) + HexDigit(l)
  {
    hide HexNumber, Pow16, Strtol, Strtoul, LowByte, IsHex;
    HexNumberTwo(h, l);
    HexNumberAppend(d, [h, l]);
    SevenDigits(d + [h, l]);
    Pow16Two();
    FitsLong(HexNumber(d + [h, l]), r, w);
    LowOfSum(HexNumber(d), HexNumber([h, l]));
  }

  lemma Pow16Two()
    ensures Pow16(2) == 256
  {
  }

  lemma SevenDigits(d: string)
    requires AllHex(d) && |d| <= 7
    ensures HexNumber(d) < 0x1000_0000
  {
    HexNumberBound(d);
    Pow16Monotone(|d|, 7);
    assert Pow16(3) == 4096 && Pow16(5) == 0x10_0000;
  }

  lemma FitsLong(m: nat, r: string, w: LongWidth)
    requires m < 0x1000_0000
    ensures Strtoul(Number(false, m, r), w) == m == Strtol(Number(false, m, r), w)
  {
  }

  lemma LowOfSum(x: nat, y: nat)
    requires y < 256
    ensures LowByte(x * 256 + y) == y
  {
  }

  /** parse_bdaddr stops behind the first group that no colon follows, and keeps what
      was there for the others. */
  lemma {:induction false} PartialScan(g: string, k: nat, r: string, n: nat)
    requires GroupsText(g, k) && k <= n && (r == "" || r[0] != ':')
    ensures ScanOctets(g + r, n) == GroupValues(g, k)
    decreases k
  {
    hide ScanHex, HexDigit, IsHex, ScanOctets;
    var v := 16 * HexDigit(g[0]) + HexDigit(g[1]);
    assert g + r == [g[0], g[1]] + (g[2..] + r);
    ScanHexTwo(g[0], g[1], g[2..] + r);
    ScanOctetsStep(g + r, v, g[2..] + r, n);
    if k > 1 {
      assert (g[2..] + r)[0] == ':' && (g[2..] + r)[1..] == g[3..] + r;
      PartialScan(g[3..], k - 1, r, n - 1);
    } else {
      assert g[2..] + r == r;
    }
  }

  lemma ScanHexTwo(h: char, l: char, r: string)
    requires IsHex(h) && IsHex(l)
    ensures ScanHex([h, l] + r, 2) == Match(16 * HexDigit(h) + HexDigit(l), r)
  {
    hide ScanHex, HexNumber;
    HexNumberTwo(h, l);
    ScanHexDigits([h, l], r, 2);
  }

  lemma PartialAddress(g: string, k: nat, r: string, stale: seq<int>, i: nat)
    requires GroupsText(g, k) && k <= |stale| && (r == "" || r[0] != ':') && i < |stale|
    ensures ScannedAddress(g + r, stale)[|stale| - 1 - i] ==
            if i < k then GroupValues(g, k)[i] else LowByte(stale[i])
  {
    hide GroupsText, GroupValues, Reverse, LowByte;
    PartialScan(g, k, r, |stale|);
    var vs := ScanOctets(g + r, |stale|);
    var all := vs + stale[|vs|..];
    hide ScanOctets;
    LowBytesAt(all, i);
    ReverseAt(LowBytes(all), |stale| - 1 - i);
    if i < k {
      SmallLowByte(all[i]);
    }
  }

  lemma SmallLowByte(v: int)
    ensures 0 <= v < 256 ==> LowByte(v) == v
  {
  }

  lemma {:induction false} LowBytesAt(vs: seq<int>, i: nat)
    requires i < |vs|
    ensures LowBytes(vs)[i] == LowByte(vs[i])
  {
    if i > 0 {
      LowBytesAt(vs[1..], i - 1);
    }
  }
}
