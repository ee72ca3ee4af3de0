/** What a command line configures, and which options end the program. */
module PatchramSettings {
  import opened Bytes
  import opened PatchramConfig
  import Address

  // ---------- the line speeds ----------

  /** The rates that --baudrate takes. */
  lemma Rates()
    ensures SpeedFor(115200) == B115200 && SpeedFor(230400) == B230400 && SpeedFor(460800) == B460800
    ensures SpeedFor(500000) == B500000 && SpeedFor(576000) == B576000 && SpeedFor(921600) == B921600
    ensures SpeedFor(1000000) == B1000000 && SpeedFor(1152000) == B1152000 && SpeedFor(1500000) == B1500000
    ensures SpeedFor(2000000) == B2000000 && SpeedFor(2500000) == B2500000 && SpeedFor(3000000) == B3000000
    ensures SpeedFor(3500000) == B3500000 && SpeedFor(4000000) == B4000000
  {
    hide SpeedFor;
    forall s: Speed
      ensures SpeedFor(Rate(s)) == s
    {
      SpeedForRate(s);
    }
    assert Rate(B115200) == 115200 && Rate(B230400) == 230400 && Rate(B460800) == 460800;
    assert Rate(B500000) == 500000 && Rate(B576000) == 576000 && Rate(B921600) == 921600;
    assert Rate(B1000000) == 1000000 && Rate(B1152000) == 1152000 && Rate(B1500000) == 1500000;
    assert Rate(B2000000) == 2000000 && Rate(B2500000) == 2500000 && Rate(B3000000) == 3000000;
    assert Rate(B3500000) == 3500000 && Rate(B4000000) == 4000000;
  }

  /** No other number is one. */
  lemma NoOtherRate(rate: int)
    requires rate !in {115200, 230400, 460800, 500000, 576000, 921600, 1000000, 1152000, 1500000,
                       2000000, 2500000, 3000000, 3500000, 4000000}
    ensures SpeedFor(rate) == B0
  {
    var s := SpeedFor(rate);
    assert s != B0 ==> Rate(s) == rate;
  }

  // ---------- the name of the patch file ----------

  lemma {:induction false} ExtensionIs(front: string, e: string)
    requires '.' !in e
    ensures Extension(front + "." + e) == Some(e)
    decreases |e|
  {
    var name := front + "." + e;
    if e != "" {
      var n := |e| - 1;
      assert name[..|name| - 1] == front + "." + e[..n];
      ExtensionIs(front, e[..n]);
      assert e == e[..n] + [e[n]];
    }
  }

  lemma {:induction false} NoExtension(name: string)
    ensures Extension(name).None? <==> '.' !in name
  {
    if name != "" {
      var n := |name| - 1;
      NoExtension(name[..n]);
      assert name == name[..n] + [name[n]];
    }
  }

  /** The three letters of an HCD file, large or small. */
  predicate IsHcd(e: string) {
    |e| == 3 && (e[0] == 'h' || e[0] == 'H') && (e[1] == 'c' || e[1] == 'C') && (e[2] == 'd' || e[2] == 'D')
  }

  lemma HcdLetters(e: string)
    ensures Address.UpperCase(e) == "HCD" <==> IsHcd(e)
  {
    if |e| == 3 {
      var u := Address.UpperCase(e);
      UpperAt(e, 0);
      UpperAt(e, 1);
      UpperAt(e, 2);
      hide Address.UpperCase;
      assert u == [u[0], u[1], u[2]];
    }
  }

  lemma {:induction false} UpperAt(s: string, i: nat)
    requires i < |s|
    ensures Address.UpperCase(s)[i] == Address.Upper(s[i])
  {
    if i > 0 {
      UpperAt(s[1..], i - 1);
    }
  }

  /** A name without a dot ends the program with 3, and no other does. */
  lemma NameWithoutDot(c: Config, name: string, fd: int, file: seq<byte>)
    requires Shaped(c)
    ensures Apply(c, Patchram(name, fd, file)).1 == Exit(3) <==> '.' !in name
    ensures '.' !in name ==> Apply(c, Patchram(name, fd, file)).0 == c
  {
    NoExtension(name);
  }

  /** Behind the last dot of the name must be hcd, in any case, and then the file
      must open. */
  lemma NameWithDot(c: Config, front: string, e: string, fd: int, file: seq<byte>)
    requires Shaped(c) && '.' !in e
    ensures var r := Apply(c, Patchram(front + "." + e, fd, file));
            && r.1 == (if !IsHcd(e) then Exit(4) else if fd == -1 then Exit(5) else Continue)
            && (r.1 == Continue ==> r.0.hcdFd == fd && r.0.hcd == file)
  {
    ExtensionIs(front, e);
    HcdLetters(e);
  }

  // ---------- options that end the program ----------

  /** How an option ends the program, if it does: with the status of main. */
  function Fault(o: Opt): Option<int> {
    match o
    case Patchram(name, fd, _) =>
      if '.' !in name then Some(3)
      else if |name| < 4 || name[|name| - 4] != '.' || !IsHcd(name[|name| - 3..]) then Some(4)
      else if fd == -1 then Some(5)
      else None
    case Scopcm(params) => if |params| == 10 then None else Some(1)
    case I2s(params) => if |params| == 4 then None else Some(1)
    case ToSleep(usec) => if usec > 0 then None else Some(1)
    case _ => None
  }

  /** The status of main for an option that does not go on: usage gives 1. */
  function Code(parse: Parse): Option<int> {
    match parse
    case Continue => None
    case Usage => Some(1)
    case Exit(code) => Some(code)
  }

  lemma {:induction false} LastDot(name: string) returns (front: string, e: string)
    requires '.' in name
    ensures name == front + "." + e && '.' !in e
  {
    var n := |name| - 1;
    if name[n] == '.' {
      front, e := name[..n], "";
    } else {
      assert name == name[..n] + [name[n]];
      front, e := LastDot(name[..n]);
      e := e + [name[n]];
    }
  }

  lemma NoDotInHcd(e: string)
    requires IsHcd(e)
    ensures '.' !in e
  {
  }

  lemma FaultOfName(name: string, front: string, e: string)
    requires name == front + "." + e && '.' !in e
    ensures IsHcd(e) <==> |name| >= 4 && name[|name| - 4] == '.' && IsHcd(name[|name| - 3..])
  {
    var dot := |front|;
    assert forall i | dot < i < |name| :: name[i] == e[i - dot - 1];
    if IsHcd(e) {
      assert name[|name| - 3..] == e;
    }
    if |name| >= 4 && name[|name| - 4] == '.' && IsHcd(name[|name| - 3..]) {
      assert |name| - 4 <= dot;
      NoDotInHcd(name[|name| - 3..]);
      assert forall i | |name| - 4 < i < |name| :: name[i] == name[|name| - 3..][i - |name| + 3];
      assert dot == |name| - 4;
      assert e == name[|name| - 3..];
    }
  }

  /** Which options end the program, and how. */
  lemma FaultIs(c: Config, o: Opt)
    requires Shaped(c)
    ensures Code(Apply(c, o).1) == Fault(o)
  {
    match o {
      case Patchram(name, fd, file) =>
        if '.' in name {
          var front, e := LastDot(name);
          FaultOfName(name, front, e);
          NameWithDot(c, front, e, fd, file);
        } else {
          NameWithoutDot(c, name, fd, file);
        }
      case _ =>
    }
  }

  /** Some option ends the program, and the first that does, does it with this
      status. */
  predicate EndsWith(os: seq<Opt>, code: int) {
    exists k | 0 <= k < |os| :: Fault(os[k]) == Some(code) && Harmless(os[..k])
  }

  /** No option ends the program. */
  predicate Harmless(os: seq<Opt>) {
    forall o | o in os :: Fault(o).None?
  }

  lemma {:induction false} HarmlessGoesOn(c: Config, os: seq<Opt>)
    requires Shaped(c)
    ensures Harmless(os) <==> ApplyAll(c, os).1 == Continue
    decreases |os|
  {
    if os != [] {
      var next := Apply(c, os[0]);
      assert os == [os[0]] + os[1..];
      hide Apply, ApplyAll, Fault;
      FaultIs(c, os[0]);
      ApplyAllStep(c, os, next.0, next.1);
      if next.1 == Continue {
        HarmlessGoesOn(next.0, os[1..]);
      }
    }
  }

  /** The first option that does not go on says how the options end. */
  lemma {:induction false} FirstFault(c: Config, os: seq<Opt>, k: nat)
    requires Shaped(c) && k < |os| && Fault(os[k]).Some? && Harmless(os[..k])
    ensures Code(ApplyAll(c, os).1) == Fault(os[k])
    decreases |os|
  {
    var next := Apply(c, os[0]);
    hide Apply, ApplyAll, Fault;
    FaultIs(c, os[0]);
    ApplyAllStep(c, os, next.0, next.1);
    if k > 0 {
      assert os[0] == os[..k][0];
      assert os[1..][..k - 1] == os[..k][1..];
      FirstFault(next.0, os[1..], k - 1);
    }
  }

  /** The options end the program with a status exactly when the first that
      does not go on does it with that. */
  lemma {:induction false} OptionsEnd(c: Config, os: seq<Opt>, code: int)
    requires Shaped(c)
    ensures EndsWith(os, code) <==> Code(ApplyAll(c, os).1) == Some(code)
  {
    hide Apply, ApplyAll, Fault;
    HarmlessGoesOn(c, os);
    if Harmless(os) {
      assert forall k | 0 <= k < |os| :: os[k] in os;
    } else {
      var k := FirstHarm(os);
      FirstFault(c, os, k);
      if EndsWith(os, code) {
        var n :| 0 <= n < |os| && Fault(os[n]) == Some(code) && Harmless(os[..n]);
        FirstFault(c, os, n);
      }
    }
  }

  lemma {:induction false} FirstHarm(os: seq<Opt>) returns (k: nat)
    requires !Harmless(os)
    ensures k < |os| && Fault(os[k]).Some? && Harmless(os[..k])
  {
    hide Fault;
    var n := |os| - 1;
    assert os == os[..n] + [os[n]];
    if Harmless(os[..n]) {
      k := n;
    } else {
      k := FirstHarm(os[..n]);
      assert os[..n][..k] == os[..k];
    }
  }

  // ---------- flags and parameters ----------

  predicate SameKind(o: Opt, p: Opt) {
    match p
    case Patchram(_, _, _) => o.Patchram?
    case Baudrate(_) => o.Baudrate?
    case BdAddr(_, _) => o.BdAddr?
    case Scopcm(_) => o.Scopcm?
    case I2s(_) => o.I2s?
    case ToSleep(_) => o.ToSleep?
    case _ => o == p
  }

  /** The flag that an option raises, if there is one. */
  predicate Raised(o: Opt, c: Config) {
    match o
    case BdAddr(_, _) => c.bdaddrFlag
    case Scopcm(_) => c.scopcm
    case I2s(_) => c.i2s
    case EnableLpm => c.enableLpm
    case EnableHci => c.enableHci
    case UseBaudrateForDownload => c.useBaudrate
    case No2Bytes => c.no2bytes
    case Debug => c.debug
    case _ => false
  }

  predicate IsFlag(o: Opt) {
    o.EnableLpm? || o.EnableHci? || o.UseBaudrateForDownload? || o.No2Bytes? || o.Debug?
  }

  /** c and d agree on what options of that kind set. */
  predicate SamePart(o: Opt, c: Config, d: Config) {
    match o
    case Patchram(_, _, _) => d.hcdFd == c.hcdFd && d.hcd == c.hcd
    case BdAddr(_, _) => d.bdaddrFlag == c.bdaddrFlag && d.writeBdAddr == c.writeBdAddr
    case Scopcm(_) => d.scopcm == c.scopcm && d.scoPcmInt == c.scoPcmInt && d.pcmDataFormat == c.pcmDataFormat
    case I2s(_) => d.i2s == c.i2s && d.i2sParam == c.i2sParam
    case ToSleep(_) => d.tosleep == c.tosleep
    case Baudrate(_) => d.speed == c.speed && d.updateBaudRate == c.updateBaudRate
    case _ => Raised(o, d) == Raised(o, c)
  }

  lemma FlagKeeps(c: Config, o: Opt, p: Opt)
    requires Shaped(c) && IsFlag(o) && !SameKind(o, p)
    ensures SamePart(p, c, Apply(c, o).0)
  {
    hide SpeedFor, LittleEndian, Address.ScannedAddress, Address.LowBytes, Overwrite, Opened;
  }

  lemma PatchramKeeps(c: Config, o: Opt, p: Opt)
    requires Shaped(c) && o.Patchram? && !SameKind(o, p)
    ensures SamePart(p, c, Apply(c, o).0)
  {
    hide SpeedFor, LittleEndian, Address.ScannedAddress, Address.LowBytes, Overwrite, Opened;
    if Opened(o.name, o.fd) == Exit(3) || Opened(o.name, o.fd) == Exit(4) {
      assert Apply(c, o).0 == c;
    }
  }

  lemma BaudrateKeeps(c: Config, o: Opt, p: Opt)
    requires Shaped(c) && o.Baudrate? && !SameKind(o, p)
    ensures SamePart(p, c, Apply(c, o).0)
  {
    hide SpeedFor, LittleEndian, Address.ScannedAddress, Address.LowBytes, Overwrite, Opened;
    if SpeedFor(o.rate) == B0 {
      assert Apply(c, o).0 == c;
    }
  }

  lemma BdAddrKeeps(c: Config, o: Opt, p: Opt)
    requires Shaped(c) && o.BdAddr? && !SameKind(o, p)
    ensures SamePart(p, c, Apply(c, o).0)
  {
    hide SpeedFor, LittleEndian, Address.ScannedAddress, Address.LowBytes, Overwrite, Opened;
  }

  lemma ScopcmKeeps(c: Config, o: Opt, p: Opt)
    requires Shaped(c) && o.Scopcm? && !SameKind(o, p)
    ensures SamePart(p, c, Apply(c, o).0)
  {
    hide SpeedFor, LittleEndian, Address.ScannedAddress, Address.LowBytes, Overwrite, Opened;
  }

  lemma I2sKeeps(c: Config, o: Opt, p: Opt)
    requires Shaped(c) && o.I2s? && !SameKind(o, p)
    ensures SamePart(p, c, Apply(c, o).0)
  {
    hide SpeedFor, LittleEndian, Address.ScannedAddress, Address.LowBytes, Overwrite, Opened;
  }

  lemma ToSleepKeeps(c: Config, o: Opt, p: Opt)
    requires Shaped(c) && o.ToSleep? && !SameKind(o, p)
    ensures SamePart(p, c, Apply(c, o).0)
  {
    hide SpeedFor, LittleEndian, Address.ScannedAddress, Address.LowBytes, Overwrite, Opened;
  }

  /** An option changes nothing that belongs to another. */
  lemma OtherKind(c: Config, o: Opt, p: Opt)
    requires Shaped(c) && !SameKind(o, p)
    ensures SamePart(p, c, Apply(c, o).0)
  {
    hide Apply, Shaped, SameKind, SamePart;
    match o {
      case Patchram(_, _, _) => PatchramKeeps(c, o, p);
      case Baudrate(_) => BaudrateKeeps(c, o, p);
      case BdAddr(_, _) => BdAddrKeeps(c, o, p);
      case Scopcm(_) => ScopcmKeeps(c, o, p);
      case I2s(_) => I2sKeeps(c, o, p);
      case ToSleep(_) => ToSleepKeeps(c, o, p);
      case _ => FlagKeeps(c, o, p);
    }
  }

  lemma RaisesOwn(c: Config, o: Opt)
    requires Shaped(c) && Apply(c, o).1 == Continue && (IsFlag(o) || o.BdAddr? || o.Scopcm? || o.I2s?)
    ensures Raised(o, Apply(c, o).0)
  {
    hide SpeedFor, LittleEndian, Address.ScannedAddress, Address.LowBytes, Overwrite, Opened;
  }

  lemma RaisedByKind(o: Opt, p: Opt, d: Config)
    requires SameKind(o, p)
    ensures Raised(o, d) == Raised(p, d)
  {
  }

  lemma SameRaised(p: Opt, c: Config, d: Config)
    requires SamePart(p, c, d)
    ensures Raised(p, d) == Raised(p, c)
  {
  }

  lemma RaisedStep(c: Config, o: Opt, p: Opt)
    requires Shaped(c) && Apply(c, o).1 == Continue && (IsFlag(p) || p.BdAddr? || p.Scopcm? || p.I2s?)
    ensures Raised(p, Apply(c, o).0) <==> Raised(p, c) || SameKind(o, p)
  {
    hide Apply, Raised, SamePart;
    if SameKind(o, p) {
      RaisesOwn(c, o);
      RaisedByKind(o, p, Apply(c, o).0);
    } else {
      OtherKind(c, o, p);
      SameRaised(p, c, Apply(c, o).0);
    }
  }

  /** Each flag is raised exactly by its option, wherever it is. */
  lemma {:induction false} Flags(c: Config, os: seq<Opt>, p: Opt)
    requires Shaped(c) && ApplyAll(c, os).1 == Continue
    requires IsFlag(p) || p.BdAddr? || p.Scopcm? || p.I2s?
    ensures Raised(p, ApplyAll(c, os).0) <==> Raised(p, c) || exists o :: o in os && SameKind(o, p)
    decreases |os|
  {
    if os != [] {
      var next := Apply(c, os[0]);
      assert os == [os[0]] + os[1..];
      ApplyAllStep(c, os, next.0, next.1);
      RaisedStep(c, os[0], p);
      hide Apply, ApplyAll, Raised, SameKind;
      Flags(next.0, os[1..], p);
    }
  }

  /** d holds what the option asks for; a rate is dealt with in LastSpeedWins, and
      a flag in Flags. */
  predicate Holds(o: Opt, d: Config)
    requires Shaped(d)
  {
    match o
    case Patchram(_, fd, file) => d.hcdFd == fd && d.hcd == file
    case BdAddr(text, stale) => d.bdaddrFlag && d.writeBdAddr[4..] == Address.ScannedAddress(text, stale)
    case Scopcm(p) =>
      && d.scopcm && |p| == 10
      && d.scoPcmInt[4..] == [p[0] % 256, p[1] % 256, p[2] % 256, p[3] % 256, p[4] % 256]
      && d.pcmDataFormat[4..] == [p[5] % 256, p[6] % 256, p[7] % 256, p[8] % 256, p[9] % 256]
    case I2s(p) =>
      d.i2s && |p| == 4 && d.i2sParam[4..] == [p[0] % 256, p[1] % 256, p[2] % 256, p[3] % 256]
    case ToSleep(usec) => d.tosleep == usec
    case _ => true
  }

  /** Without an option of a kind, its part stays as it was. */
  lemma {:induction false} NoneOfKind(c: Config, os: seq<Opt>, p: Opt)
    requires Shaped(c) && ApplyAll(c, os).1 == Continue
    requires forall o | o in os :: !SameKind(o, p)
    ensures SamePart(p, c, ApplyAll(c, os).0)
    decreases |os|
  {
    if os != [] {
      var next := Apply(c, os[0]);
      ApplyAllStep(c, os, next.0, next.1);
      OtherKind(c, os[0], p);
      hide Apply, ApplyAll, SameKind;
      NoneOfKind(next.0, os[1..], p);
    }
  }

  lemma FiveLowBytes(vs: seq<int>)
    requires |vs| == 5
    ensures Address.LowBytes(vs) == [vs[0] % 256, vs[1] % 256, vs[2] % 256, vs[3] % 256, vs[4] % 256]
  {
    var b := Address.LowBytes(vs);
    forall i | 0 <= i < 5
      ensures b[i] == vs[i] % 256
    {
      Address.LowBytesAt(vs, i);
    }
  }

  lemma FourLowBytes(vs: seq<int>)
    requires |vs| == 4
    ensures Address.LowBytes(vs) == [vs[0] % 256, vs[1] % 256, vs[2] % 256, vs[3] % 256]
  {
    var b := Address.LowBytes(vs);
    forall i | 0 <= i < 4
      ensures b[i] == vs[i] % 256
    {
      Address.LowBytesAt(vs, i);
    }
  }

  lemma ScopcmHolds(c: Config, p: seq<int>)
    requires Shaped(c) && Apply(c, Scopcm(p)).1 == Continue
    ensures Holds(Scopcm(p), Apply(c, Scopcm(p)).0)
  {
    hide Address.LowBytes;
    FiveLowBytes(p[..5]);
    FiveLowBytes(p[5..]);
    var d := Apply(c, Scopcm(p)).0;
    assert d.scoPcmInt[4..] == Address.LowBytes(p[..5]);
    assert d.pcmDataFormat[4..] == Address.LowBytes(p[5..]);
  }

  lemma I2sHolds(c: Config, p: seq<int>)
    requires Shaped(c) && Apply(c, I2s(p)).1 == Continue
    ensures Holds(I2s(p), Apply(c, I2s(p)).0)
  {
    hide Address.LowBytes;
    FourLowBytes(p);
    assert Apply(c, I2s(p)).0.i2sParam[4..] == Address.LowBytes(p);
  }

  lemma BdAddrHolds(c: Config, text: string, stale: Stale)
    requires Shaped(c)
    ensures Holds(BdAddr(text, stale), Apply(c, BdAddr(text, stale)).0)
  {
    hide Address.ScannedAddress;
  }

  /** What an option that goes on sets. */
  lemma HoldsNow(c: Config, o: Opt)
    requires Shaped(c) && Apply(c, o).1 == Continue
    ensures Shaped(Apply(c, o).0) && Holds(o, Apply(c, o).0)
  {
    ApplyShaped(c, o);
    match o {
      case Scopcm(p) => ScopcmHolds(c, p);
      case I2s(p) => I2sHolds(c, p);
      case BdAddr(text, stale) => BdAddrHolds(c, text, stale);
      case Patchram(_, _, _) => hide Opened;
      case ToSleep(_) =>
      case _ => hide Apply;
    }
  }

  lemma {:induction false} Through(c: Config, os: seq<Opt>, k: nat)
    requires Shaped(c) && k <= |os| && ApplyAll(c, os).1 == Continue
    ensures var d := ApplyAll(c, os[..k]);
            d.1 == Continue && Shaped(d.0) && ApplyAll(d.0, os[k..]) == ApplyAll(c, os)
    decreases |os|
  {
    if k == 0 {
      assert os[k..] == os;
    } else {
      var next := Apply(c, os[0]);
      ApplyAllStep(c, os, next.0, next.1);
      ApplyAllStep(c, os[..k], next.0, next.1);
      hide Apply, ApplyAll;
      assert os[..k][1..] == os[1..][..k - 1] && os[1..][k - 1..] == os[k..];
      Through(next.0, os[1..], k - 1);
    }
  }

  /** When the options parse, the last of each kind holds. */
  lemma LastHolds(c: Config, os: seq<Opt>, k: nat)
    requires Shaped(c) && k < |os| && ApplyAll(c, os).1 == Continue
    requires forall o | o in os[k + 1..] :: !SameKind(o, os[k])
    ensures Shaped(ApplyAll(c, os).0) && Holds(os[k], ApplyAll(c, os).0)
  {
    Through(c, os, k);
    var d := ApplyAll(c, os[..k]).0;
    var next := Apply(d, os[k]);
    ApplyAllStep(d, os[k..], next.0, next.1);
    HoldsNow(d, os[k]);
    assert os[k..][1..] == os[k + 1..];
    NoneOfKind(next.0, os[k + 1..], os[k]);
    Through(c, os, |os|);
    assert os[..|os|] == os;
    hide Apply, ApplyAll;
  }
}
