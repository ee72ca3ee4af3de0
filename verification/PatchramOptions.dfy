/** The option parsers as they work: on the global flags and templates, in
    place. */
module PatchramOptions {
  import opened Bytes
  import opened PatchramConfig
  import Address

  lemma LittleEndianFour(v: nat)
    ensures LittleEndian(v, 4) == [v % 256, v / 256 % 256, v / 256 / 256 % 256, v / 256 / 256 / 256 % 256]
  {
    assert LittleEndian(v / 256 / 256, 2) == [v / 256 / 256 % 256, v / 256 / 256 / 256 % 256];
  }

  /** BRCM_encode_baud_rate. */
  method EncodeBaudRate(rate: nat, template: array<byte>, at: nat)
    requires at + 4 <= template.Length
    modifies template
    ensures template[..] == if rate == 0 then old(template[..])
                            else Overwrite(old(template[..]), at, LittleEndian(rate, 4))
  {
    if rate == 0 {
      return;
    }
    StoreFour(template, at, rate / 0x100_0000 % 256, rate / 0x1_0000 % 256, rate / 0x100 % 256, rate % 256);
    LittleEndianFour(rate);
    assert rate / 0x1_0000 == rate / 256 / 256 && rate / 0x100_0000 == rate / 256 / 256 / 256;
  }

  /** The four stores of BRCM_encode_baud_rate. */
  method StoreFour(template: array<byte>, at: nat, b3: byte, b2: byte, b1: byte, b0: byte)
    requires at + 4 <= template.Length
    modifies template
    ensures template[..] == Overwrite(old(template[..]), at, [b0, b1, b2, b3])
  {
    template[at + 3] := b3;
    template[at + 2] := b2;
    template[at + 1] := b1;
    template[at] := b0;
  }

  lemma OverwriteMore(t: seq<byte>, at: nat, bytes: seq<byte>, b: byte)
    requires at + |bytes| < |t|
    ensures Overwrite(t, at, bytes + [b]) == Overwrite(t, at, bytes)[at + |bytes| := b]
  {
  }

  /** Copies the low bytes of ints into a template, one at a time. */
  method CopyParams(params: seq<int>, template: array<byte>, at: nat)
    requires at + |params| <= template.Length
    modifies template
    ensures template[..] == Overwrite(old(template[..]), at, Address.LowBytes(params))
  {
    ghost var before := template[..];
    for i := 0 to |params|
      invariant template[..] == Overwrite(before, at, Address.LowBytes(params[..i]))
    {
      template[at + i] := params[i] % 256;
      LowBytesAppend(params[..i], params[i]);
      assert params[..i + 1] == params[..i] + [params[i]];
      OverwriteMore(before, at, Address.LowBytes(params[..i]), params[i] % 256);
    }
    assert params[..|params|] == params;
  }

  /** Copies bytes into a template, one at a time. */
  method CopyBytes(bytes: seq<byte>, template: array<byte>, at: nat)
    requires at + |bytes| <= template.Length
    modifies template
    ensures template[..] == Overwrite(old(template[..]), at, bytes)
  {
    ghost var before := template[..];
    for i := 0 to |bytes|
      invariant template[..] == Overwrite(before, at, bytes[..i])
    {
      template[at + i] := bytes[i];
      assert bytes[..i + 1] == bytes[..i] + [bytes[i]];
      OverwriteMore(before, at, bytes[..i], bytes[i]);
    }
    assert bytes[..|bytes|] == bytes;
  }

  lemma {:induction false} LowBytesAppend(vs: seq<int>, v: int)
    ensures Address.LowBytes(vs + [v]) == Address.LowBytes(vs) + [v % 256]
  {
    if vs != [] {
      assert (vs + [v])[1..] == vs[1..] + [v];
      LowBytesAppend(vs[1..], v);
    }
  }

  /** A static array. */
  method NewTemplate(bytes: seq<byte>) returns (template: array<byte>)
    ensures fresh(template) && template[..] == bytes
  {
    template := new byte[|bytes|](i requires 0 <= i < |bytes| => bytes[i]);
  }

  class Globals {
    const updateBaudRate: array<byte>
    const writeBdAddr: array<byte>
    const scoPcmInt: array<byte>
    const pcmDataFormat: array<byte>
    const i2sParam: array<byte>
    var termiosBaudrate: Speed
    var bdaddrFlag: bool
    var enableLpm: bool
    var enableHci: bool
    var useBaudrateForDownload: bool
    var scopcm: bool
    var i2s: bool
    var no2bytes: bool
    var debug: bool
    var tosleep: int
    var hcdFd: int
    var hcd: seq<byte>

    ghost predicate Valid()
      reads this
    {
      && updateBaudRate.Length == 10 && writeBdAddr.Length == 10 && updateBaudRate != writeBdAddr
      && scoPcmInt.Length == 9 && pcmDataFormat.Length == 9 && scoPcmInt != pcmDataFormat
      && i2sParam.Length == 8
    }

    ghost function Cfg(): (c: Config)
      requires Valid()
      reads this, updateBaudRate, writeBdAddr, scoPcmInt, pcmDataFormat, i2sParam
      ensures Shaped(c)
    {
      Config(updateBaudRate[..], writeBdAddr[..], scoPcmInt[..], pcmDataFormat[..], i2sParam[..],
             termiosBaudrate, bdaddrFlag, enableLpm, enableHci, useBaudrateForDownload,
             scopcm, i2s, no2bytes, debug, tosleep, hcdFd, hcd)
    }

    /** The static initial values. */
    constructor ()
      ensures Valid() && Cfg() == INITIAL
      ensures fresh(updateBaudRate) && fresh(writeBdAddr) && fresh(scoPcmInt) && fresh(pcmDataFormat)
              && fresh(i2sParam)
    {
      var baud := NewTemplate(INITIAL.updateBaudRate);
      var addr := NewTemplate(INITIAL.writeBdAddr);
      var sco := NewTemplate(INITIAL.scoPcmInt);
      var pcm := NewTemplate(INITIAL.pcmDataFormat);
      var param := NewTemplate(INITIAL.i2sParam);
      updateBaudRate, writeBdAddr, scoPcmInt, pcmDataFormat, i2sParam := baud, addr, sco, pcm, param;
      termiosBaudrate, tosleep, hcdFd, hcd := B0, 0, -1, [];
      bdaddrFlag, enableLpm, enableHci, useBaudrateForDownload := false, false, false, false;
      scopcm, i2s, no2bytes, debug := false, false, false, false;
    }

    /** The values the protocol engine will use. */
    method Snapshot() returns (c: Config)
      requires Valid()
      ensures c == Cfg()
    {
      c := Config(updateBaudRate[..], writeBdAddr[..], scoPcmInt[..], pcmDataFormat[..], i2sParam[..],
                  termiosBaudrate, bdaddrFlag, enableLpm, enableHci, useBaudrateForDownload,
                  scopcm, i2s, no2bytes, debug, tosleep, hcdFd, hcd);
    }

    /** parse_baudrate. */
    method ParseBaudrate(rate: int)
      requires Valid()
      modifies this, updateBaudRate
      ensures (Cfg(), Continue) == Apply(old(Cfg()), Baudrate(rate))
    {
      var found, value := ValidateBaudrate(rate, termiosBaudrate);
      termiosBaudrate := value;
      if found {
        EncodeBaudRate(rate, updateBaudRate, 6);
      }
    }

    /** parse_bdaddr: what sscanf converts goes to six ints, which may keep what
        they held, and from there to the template. */
    method ParseBdaddr(text: string, stale: Stale)
      requires Valid()
      modifies this, writeBdAddr
      ensures (Cfg(), Continue) == Apply(old(Cfg()), BdAddr(text, stale))
    {
      CopyBytes(Address.ScannedAddress(text, stale), writeBdAddr, 4);
      bdaddrFlag := true;
    }

    /** parse_scopcm, given what sscanf converted. */
    method ParseScopcm(params: seq<int>) returns (ret: int)
      requires Valid()
      modifies this, scoPcmInt, pcmDataFormat
      ensures (Cfg(), if ret == 0 then Continue else Usage) == Apply(old(Cfg()), Scopcm(params))
    {
      if |params| != 10 {
        return 1;
      }
      scopcm := true;
      CopyParams(params[..5], scoPcmInt, 4);
      CopyParams(params[5..], pcmDataFormat, 4);
      ret := 0;
    }

    /** parse_i2s, given what sscanf converted. */
    method ParseI2s(params: seq<int>) returns (ret: int)
      requires Valid()
      modifies this, i2sParam
      ensures (Cfg(), if ret == 0 then Continue else Usage) == Apply(old(Cfg()), I2s(params))
    {
      if |params| != 4 {
        return 1;
      }
      i2s := true;
      CopyParams(params, i2sParam, 4);
      ret := 0;
    }

    /** parse_patchram, given what open returned and the file it opened. */
    method ParsePatchram(name: string, fd: int, file: seq<byte>) returns (parse: Parse)
      requires Valid()
      modifies this
      ensures (Cfg(), parse) == Apply(old(Cfg()), Patchram(name, fd, file))
    {
      var e := Extension(name);
      if e.None? {
        return Exit(3);
      }
      if Address.UpperCase(e.value) != "HCD" {
        return Exit(4);
      }
      hcdFd, hcd := fd, file;
      parse := if fd == -1 then Exit(5) else Continue;
    }

    /** parse_tosleep. */
    method ParseToSleep(usec: int) returns (parse: Parse)
      requires Valid()
      modifies this
      ensures (Cfg(), parse) == Apply(old(Cfg()), ToSleep(usec))
    {
      tosleep := usec;
      parse := if usec <= 0 then Usage else Continue;
    }

    /** parse_enable_lpm. */
    method ParseEnableLpm()
      requires Valid()
      modifies this
      ensures (Cfg(), Continue) == Apply(old(Cfg()), EnableLpm)
    {
      enableLpm := true;
    }

    /** parse_enable_hci. */
    method ParseEnableHci()
      requires Valid()
      modifies this
      ensures (Cfg(), Continue) == Apply(old(Cfg()), EnableHci)
    {
      enableHci := true;
    }

    /** parse_use_baudrate_for_download. */
    method ParseUseBaudrateForDownload()
      requires Valid()
      modifies this
      ensures (Cfg(), Continue) == Apply(old(Cfg()), UseBaudrateForDownload)
    {
      useBaudrateForDownload := true;
    }

    /** parse_no2bytes. */
    method ParseNo2Bytes()
      requires Valid()
      modifies this
      ensures (Cfg(), Continue) == Apply(old(Cfg()), No2Bytes)
    {
      no2bytes := true;
    }

    /** The d option. */
    method ParseDebug()
      requires Valid()
      modifies this
      ensures (Cfg(), Continue) == Apply(old(Cfg()), Debug)
    {
      debug := true;
    }

    /** One round of the option loop. */
    method ParseOption(o: Opt) returns (parse: Parse)
      requires Valid()
      modifies this, updateBaudRate, writeBdAddr, scoPcmInt, pcmDataFormat, i2sParam
      ensures (Cfg(), parse) == Apply(old(Cfg()), o)
    {
      hide SpeedFor, Apply;
      parse := Continue;
      match o {
        case Patchram(name, fd, file) =>
          parse := ParsePatchram(name, fd, file);
        case Baudrate(rate) =>
          ParseBaudrate(rate);
        case BdAddr(text, stale) =>
          ParseBdaddr(text, stale);
        case Scopcm(params) =>
          var ret := ParseScopcm(params);
          parse := if ret == 0 then Continue else Usage;
        case I2s(params) =>
          var ret := ParseI2s(params);
          parse := if ret == 0 then Continue else Usage;
        case ToSleep(usec) =>
          parse := ParseToSleep(usec);
        case EnableLpm =>
          ParseEnableLpm();
        case EnableHci =>
          ParseEnableHci();
        case UseBaudrateForDownload =>
          ParseUseBaudrateForDownload();
        case No2Bytes =>
          ParseNo2Bytes();
        case Debug =>
          ParseDebug();
      }
    }

    /** parse_cmd_line: the options in order, up to one that does not go on. */
    method ParseCmdLine(os: seq<Opt>) returns (parse: Parse)
      requires Valid()
      modifies this, updateBaudRate, writeBdAddr, scoPcmInt, pcmDataFormat, i2sParam
      ensures (Cfg(), parse) == ApplyAll(old(Cfg()), os)
    {
      var i := 0;
      ghost var whole := ApplyAll(Cfg(), os);
      assert os[0..] == os;
      while i < |os|
        invariant i <= |os|
        invariant whole == ApplyAll(Cfg(), os[i..])
      {
        ghost var before := Cfg();
        parse := ParseOption(os[i]);
        ApplyAllStep(before, os[i..], Cfg(), parse);
        if parse != Continue {
          return;
        }
        assert os[i..][1..] == os[i + 1..];
        i := i + 1;
      }
      parse := Continue;
    }
  }
}
