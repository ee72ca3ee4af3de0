/** The command line of brcm_patchram_plus: option parsers that patch command
    templates and set flags, in place. */
module PatchramConfig {
  import opened Bytes
  import Address

  /** The line speeds of termios; B0 is the value 0 of termios_baudrate. */
  datatype Speed =
    | B0 | B115200 | B230400 | B460800 | B500000 | B576000 | B921600 | B1000000 | B1152000
    | B1500000 | B2000000 | B2500000 | B3000000 | B3500000 | B4000000

  /** Bits per second. */
  function Rate(s: Speed): nat {
    match s
    case B0 => 0
    case B115200 => 115200
    case B230400 => 230400
    case B460800 => 460800
    case B500000 => 500000
    case B576000 => 576000
    case B921600 => 921600
    case B1000000 => 1000000
    case B1152000 => 1152000
    case B1500000 => 1500000
    case B2000000 => 2000000
    case B2500000 => 2500000
    case B3000000 => 3000000
    case B3500000 => 3500000
    case B4000000 => 4000000
  }

  const BAUD_RATES: seq<Speed> :=
    [B115200, B230400, B460800, B500000, B576000, B921600, B1000000, B1152000,
     B1500000, B2000000, B2500000, B3000000, B3500000, B4000000]

  /** The speed of the first row with that rate, and B0 if there is none. */
  function SpeedIn(table: seq<Speed>, rate: int): (s: Speed)
    ensures s != B0 ==> s in table && Rate(s) == rate
    ensures s == B0 ==> forall t | t in table && t != B0 :: Rate(t) != rate
  {
    if table == [] then B0
    else if Rate(table[0]) == rate then table[0]
    else SpeedIn(table[1..], rate)
  }

  /** The speed of a rate in the table, and B0 for any other rate. */
  function SpeedFor(rate: int): (s: Speed)
    ensures s != B0 ==> Rate(s) == rate
  {
    SpeedIn(BAUD_RATES, rate)
  }

  lemma SameRateSame(s: Speed, t: Speed)
    requires Rate(s) == Rate(t)
    ensures s == t
  {
  }

  lemma SpeedForRate(s: Speed)
    ensures SpeedFor(Rate(s)) == s
  {
    var t := SpeedIn(BAUD_RATES, Rate(s));
    hide SpeedIn;
    if t != B0 {
      SameRateSame(s, t);
    } else if s != B0 {
      InTable(s);
    }
  }

  /** A rate has the speed of a row exactly when it is the row's rate, and no speed
      exactly when it is in no row. */
  lemma SpeedForIsTable(rate: int)
    ensures forall s | s in BAUD_RATES :: SpeedFor(rate) == s <==> Rate(s) == rate
    ensures SpeedFor(rate) == B0 <==> forall s | s in BAUD_RATES :: Rate(s) != rate
  {
    hide SpeedIn;
    forall s | s in BAUD_RATES
      ensures s != B0 && SpeedFor(Rate(s)) == s
    {
      SpeedForRate(s);
    }
  }

  /** The search of validate_baudrate through the rows of a table. */
  method Search(table: seq<Speed>, rate: int, value: Speed) returns (found: bool, newValue: Speed)
    requires B0 !in table
    ensures found == (SpeedIn(table, rate) != B0)
    ensures newValue == if found then SpeedIn(table, rate) else value
  {
    assert table[0..] == table;
    for i := 0 to |table|
      invariant SpeedIn(table, rate) == SpeedIn(table[i..], rate)
    {
      if Rate(table[i]) == rate {
        return true, table[i];
      }
      assert table[i..][1..] == table[i + 1..];
    }
    return false, value;
  }

  /** validate_baudrate: searches the table; leaves value alone when it fails. */
  method ValidateBaudrate(rate: int, value: Speed) returns (found: bool, newValue: Speed)
    ensures found == (SpeedFor(rate) != B0)
    ensures newValue == if found then SpeedFor(rate) else value
  {
    hide SpeedIn;
    assert forall i | 0 <= i < |BAUD_RATES| :: BAUD_RATES[i] != B0;
    found, newValue := Search(BAUD_RATES, rate, value);
  }

  lemma InTable(s: Speed)
    requires s != B0
    ensures s in BAUD_RATES
  {
    assert BAUD_RATES[0] == B115200 && BAUD_RATES[1] == B230400 && BAUD_RATES[2] == B460800
        && BAUD_RATES[3] == B500000 && BAUD_RATES[4] == B576000 && BAUD_RATES[5] == B921600
        && BAUD_RATES[6] == B1000000 && BAUD_RATES[7] == B1152000 && BAUD_RATES[8] == B1500000
        && BAUD_RATES[9] == B2000000 && BAUD_RATES[10] == B2500000 && BAUD_RATES[11] == B3000000
        && BAUD_RATES[12] == B3500000 && BAUD_RATES[13] == B4000000;
  }

  // ---------- the options as values ----------

  type Stale = s: seq<int> | |s| == 6 witness [0, 0, 0, 0, 0, 0]

  /** One command-line option. Conversions of the C library that succeed are
      given by their results: the int of atoi, the ints a %d list yields, the
      descriptor and contents of an opened file; stale is what the ints of
      parse_bdaddr held before, in the order they are converted to. */
  datatype Opt =
    | Patchram(name: string, fd: int, file: seq<byte>)
    | Baudrate(rate: int)
    | BdAddr(text: string, stale: Stale)
    | EnableLpm
    | EnableHci
    | UseBaudrateForDownload
    | Scopcm(params: seq<int>)
    | I2s(params: seq<int>)
    | No2Bytes
    | ToSleep(usec: int)
    | Debug

  /** The globals that options change. */
  datatype Config = Config(
    updateBaudRate: seq<byte>, writeBdAddr: seq<byte>, scoPcmInt: seq<byte>,
    pcmDataFormat: seq<byte>, i2sParam: seq<byte>,
    speed: Speed, bdaddrFlag: bool, enableLpm: bool, enableHci: bool, useBaudrate: bool,
    scopcm: bool, i2s: bool, no2bytes: bool, debug: bool, tosleep: int,
    hcdFd: int, hcd: seq<byte>)

  const INITIAL: Config := Config(
    [0x01, 0x18, 0xfc, 0x06, 0, 0, 0, 0, 0, 0], [0x01, 0x01, 0xfc, 0x06, 0, 0, 0, 0, 0, 0],
    [0x01, 0x1c, 0xfc, 0x05, 0, 0, 0, 0, 0], [0x01, 0x1e, 0xfc, 0x05, 0, 0, 0, 0, 0],
    [0x01, 0x6d, 0xfc, 0x04, 0, 0, 0, 0],
    B0, false, false, false, false, false, false, false, false, 0, -1, [])

  /** The templates that no option changes. */
  const HCI_RESET: seq<byte> := [0x01, 0x03, 0x0c, 0x00]
  const HCI_DOWNLOAD_MINIDRIVER: seq<byte> := [0x01, 0x2e, 0xfc, 0x00]
  const HCI_WRITE_SLEEP_MODE: seq<byte> :=
    [0x01, 0x27, 0xfc, 0x0c, 0x01, 0x01, 0x01, 0x01, 0x01, 0x01, 0x01, 0x00, 0x00, 0x00, 0x00, 0x00]

  /** Parsing goes on, is ended by the usage text, or ends the program. */
  datatype Parse = Continue | Usage | Exit(code: int)

  /** The part of a name behind its last dot. */
  function Extension(name: string): Option<string> {
    if name == "" then None
    else if name[|name| - 1] == '.' then Some("")
    else
      var e := Extension(name[..|name| - 1]);
      if e.None? then None else Some(e.value + [name[|name| - 1]])
  }

  /** The checks of parse_patchram, given the descriptor that open returns. */
  function Opened(name: string, fd: int): Parse {
    var e := Extension(name);
    if e.None? then Exit(3)
    else if Address.UpperCase(e.value) != "HCD" then Exit(4)
    else if fd == -1 then Exit(5)
    else Continue
  }

  /** What one option does. */
  function Apply(c: Config, o: Opt): (Config, Parse)
    requires Shaped(c)
  {
    match o
    case Patchram(name, fd, file) =>
      var parse := Opened(name, fd);
      (if parse == Exit(3) || parse == Exit(4) then c else c.(hcdFd := fd, hcd := file), parse)
    case Baudrate(rate) =>
      if SpeedFor(rate) == B0 then (c, Continue)
      else
        (c.(speed := SpeedFor(rate), updateBaudRate := Overwrite(c.updateBaudRate, 6, LittleEndian(rate, 4))), Continue)
    case BdAddr(text, stale) =>
      var template := Overwrite(c.writeBdAddr, 4, Address.ScannedAddress(text, stale));
      (c.(writeBdAddr := template, bdaddrFlag := true), Continue)
    case EnableLpm => (c.(enableLpm := true), Continue)
    case EnableHci => (c.(enableHci := true), Continue)
    case UseBaudrateForDownload => (c.(useBaudrate := true), Continue)
    case Scopcm(params) =>
      if |params| != 10 then (c, Usage)
      else
        (c.(scopcm := true,
            scoPcmInt := Overwrite(c.scoPcmInt, 4, Address.LowBytes(params[..5])),
            pcmDataFormat := Overwrite(c.pcmDataFormat, 4, Address.LowBytes(params[5..]))), Continue)
    case I2s(params) =>
      if |params| != 4 then (c, Usage)
      else (c.(i2s := true, i2sParam := Overwrite(c.i2sParam, 4, Address.LowBytes(params))), Continue)
    case No2Bytes => (c.(no2bytes := true), Continue)
    case ToSleep(usec) => (c.(tosleep := usec), if usec <= 0 then Usage else Continue)
    case Debug => (c.(debug := true), Continue)
  }

  /** The sizes of the templates. */
  predicate Shaped(c: Config) {
    && |c.updateBaudRate| == 10 && |c.writeBdAddr| == 10
    && |c.scoPcmInt| == 9 && |c.pcmDataFormat| == 9 && |c.i2sParam| == 8
  }

  lemma ApplyShaped(c: Config, o: Opt)
    requires Shaped(c)
    ensures Shaped(Apply(c, o).0)
  {
  }

  /** The options in order, up to one that does not go on. */
  function ApplyAll(c: Config, os: seq<Opt>): (Config, Parse)
    requires Shaped(c)
    decreases |os|
  {
    if os == [] then (c, Continue)
    else
      var (d, parse) := Apply(c, os[0]);
      ApplyShaped(c, os[0]);
      if parse == Continue then ApplyAll(d, os[1..]) else (d, parse)
  }

  // ---------- what every option keeps ----------

  /** A command template: indicator, opcode and a length byte that tells its
      size. */
  predicate IsTemplate(t: seq<byte>, opcodeLow: byte, opcodeHigh: byte, size: nat) {
    |t| == 4 + size && size < 256 && t[0] == 1 && t[1] == opcodeLow && t[2] == opcodeHigh && t[3] == size
  }

  predicate WellFormed(c: Config) {
    && IsTemplate(c.updateBaudRate, 0x18, 0xfc, 6)
    && c.updateBaudRate[4] == c.updateBaudRate[5] == 0
    && IsTemplate(c.writeBdAddr, 0x01, 0xfc, 6)
    && IsTemplate(c.scoPcmInt, 0x1c, 0xfc, 5)
    && IsTemplate(c.pcmDataFormat, 0x1e, 0xfc, 5)
    && IsTemplate(c.i2sParam, 0x6d, 0xfc, 4)
    && (c.speed != B0 ==> Value(c.updateBaudRate[6..]) == Rate(c.speed))
  }

  lemma RateEncoded(t: seq<byte>, rate: nat)
    requires |t| == 10 && rate < 0x1_0000_0000
    ensures Value(Overwrite(t, 6, LittleEndian(rate, 4))[6..]) == rate
  {
    assert Overwrite(t, 6, LittleEndian(rate, 4))[6..] == LittleEndian(rate, 4);
    ValueOfLittleEndian(rate, 4);
    Pow256Four();
  }

  /** Each option keeps the templates well-formed, and keeps the rate in the
      template paired with the line speed. */
  lemma ApplyKeepsWellFormed(c: Config, o: Opt)
    requires WellFormed(c)
    ensures WellFormed(Apply(c, o).0)
  {
    hide SpeedFor, LittleEndian, Value, Address.ScannedAddress, Address.LowBytes, Opened;
    if o.Baudrate? && SpeedFor(o.rate) != B0 {
      RateEncoded(c.updateBaudRate, o.rate);
    }
  }

  /** The line speed after one more option. */
  function NextSpeed(before: Speed, o: Opt): Speed {
    if o.Baudrate? && SpeedFor(o.rate) != B0 then SpeedFor(o.rate) else before
  }

  /** The last rate of the table that was asked for. */
  function LastSpeed(os: seq<Opt>, before: Speed): Speed {
    if os == [] then before else LastSpeed(os[1..], NextSpeed(before, os[0]))
  }

  lemma ApplySpeed(c: Config, o: Opt)
    requires Shaped(c)
    ensures Apply(c, o).0.speed == NextSpeed(c.speed, o)
  {
    match o {
      case Baudrate(_) =>
      case _ =>
    }
  }

  lemma ApplyAllStep(c: Config, os: seq<Opt>, d: Config, parse: Parse)
    requires Shaped(c) && os != [] && Apply(c, os[0]) == (d, parse)
    ensures Shaped(d)
    ensures ApplyAll(c, os) == if parse == Continue then ApplyAll(d, os[1..]) else (d, parse)
  {
    ApplyShaped(c, os[0]);
  }

  /** After any options: the templates are well-formed and the template carries
      the rate of the line speed. */
  lemma {:induction false} ConfigInvariant(c: Config, os: seq<Opt>)
    requires WellFormed(c)
    ensures WellFormed(ApplyAll(c, os).0)
    decreases |os|
  {
    if os != [] {
      var next := Apply(c, os[0]);
      ApplyKeepsWellFormed(c, os[0]);
      ApplyAllStep(c, os, next.0, next.1);
      if next.1 == Continue {
        ConfigInvariant(next.0, os[1..]);
      }
    }
  }

  /** Unless the options end in an error, the line speed is the last acceptable
      one they ask for. */
  lemma {:induction false} LastSpeedWins(c: Config, os: seq<Opt>)
    requires Shaped(c) && ApplyAll(c, os).1 == Continue
    ensures ApplyAll(c, os).0.speed == LastSpeed(os, c.speed)
    decreases |os|
  {
    if os != [] {
      var next := Apply(c, os[0]);
      ApplySpeed(c, os[0]);
      ApplyAllStep(c, os, next.0, next.1);
      LastSpeedWins(next.0, os[1..]);
    }
  }

  /** The address after one more option. */
  function NextAddress(before: Option<seq<byte>>, o: Opt): Option<seq<byte>> {
    if o.BdAddr? then Some(Address.ScannedAddress(o.text, o.stale)) else before
  }

  function LastAddress(os: seq<Opt>, before: Option<seq<byte>>): Option<seq<byte>> {
    if os == [] then before else LastAddress(os[1..], NextAddress(before, os[0]))
  }

  /** The address that will be written, if any. */
  function ConfiguredAddress(c: Config): Option<seq<byte>>
    requires Shaped(c)
  {
    if c.bdaddrFlag then Some(c.writeBdAddr[4..]) else None
  }

  lemma ApplyAddress(c: Config, o: Opt)
    requires Shaped(c)
    ensures ConfiguredAddress(Apply(c, o).0) == NextAddress(ConfiguredAddress(c), o)
  {
    hide Address.ScannedAddress, Address.LowBytes, LittleEndian, SpeedFor, Opened;
    match o {
      case BdAddr(text, stale) =>
        var b := Address.ScannedAddress(text, stale);
        assert Overwrite(c.writeBdAddr, 4, b)[4..] == b;
      case _ =>
    }
  }

  /** Unless the options end in an error, the address that will be written is the
      last one given: a later one overrides an earlier one, and so the one that
      comes before all options. */
  lemma {:induction false} LastAddressWins(c: Config, os: seq<Opt>)
    requires Shaped(c) && ApplyAll(c, os).1 == Continue
    ensures Shaped(ApplyAll(c, os).0)
    ensures ConfiguredAddress(ApplyAll(c, os).0) == LastAddress(os, ConfiguredAddress(c))
    decreases |os|
  {
    if os != [] {
      var next := Apply(c, os[0]);
      ApplyShaped(c, os[0]);
      ApplyAddress(c, os[0]);
      ApplyAllStep(c, os, next.0, next.1);
      LastAddressWins(next.0, os[1..]);
    }
  }
}
