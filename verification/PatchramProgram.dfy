/** brcm_patchram_plus as a whole. */
module PatchramProgram {
  import opened Bytes
  import Address
  import opened PatchramConfig
  import opened PatchramSettings
  import opened PatchramOptions
  import opened PatchramTrace
  import opened PatchramSession
  import opened PatchramRuns
  import Frames = PatchramFrames
  import Baud = PatchramBaud
  import Reads = PatchramStream
  import H4

  /** The globals behind read_default_bdaddr, with the address it found, if it
      found one. */
  function Start(found: Option<(string, Stale)>): (c: Config)
    ensures Shaped(c)
  {
    if found.None? then INITIAL else Apply(INITIAL, BdAddr(found.value.0, found.value.1)).0
  }

  /** The globals once the options are parsed. */
  function Parsed(found: Option<(string, Stale)>, os: seq<Opt>): (Config, Parse) {
    ApplyAll(Start(found), os)
  }

  lemma StartFlags(found: Option<(string, Stale)>)
    ensures var c := Start(found);
            && !c.useBaudrate && !c.no2bytes && !c.enableLpm && !c.enableHci && !c.scopcm && !c.i2s
            && c.bdaddrFlag == found.Some?
  {
  }

  lemma ParsedWellFormed(found: Option<(string, Stale)>, os: seq<Opt>)
    ensures WellFormed(Parsed(found, os).0)
  {
    hide Apply, ApplyAll;
    if found.Some? {
      ApplyKeepsWellFormed(INITIAL, BdAddr(found.value.0, found.value.1));
      ConfigInvariant(Apply(INITIAL, BdAddr(found.value.0, found.value.1)).0, os);
    } else {
      ConfigInvariant(INITIAL, os);
    }
  }

  /** The address found before the options were parsed. */
  function FoundAddress(found: Option<(string, Stale)>): Option<seq<byte>> {
    if found.None? then None else Some(Address.ScannedAddress(found.value.0, found.value.1))
  }

  lemma ParsedLast(found: Option<(string, Stale)>, os: seq<Opt>)
    requires Parsed(found, os).1 == Continue
    ensures Shaped(Parsed(found, os).0)
    ensures Parsed(found, os).0.speed == LastSpeed(os, B0)
    ensures ConfiguredAddress(Parsed(found, os).0) == LastAddress(os, FoundAddress(found))
  {
    hide Apply, ApplyAll, ConfiguredAddress;
    if found.Some? {
      var o := BdAddr(found.value.0, found.value.1);
      ApplyShaped(INITIAL, o);
      ApplySpeed(INITIAL, o);
      ApplyAddress(INITIAL, o);
      LastSpeedWins(Apply(INITIAL, o).0, os);
      LastAddressWins(Apply(INITIAL, o).0, os);
    } else {
      LastSpeedWins(INITIAL, os);
      LastAddressWins(INITIAL, os);
    }
    NothingConfigured();
  }

  lemma NothingConfigured()
    ensures ConfiguredAddress(INITIAL) == None
  {
  }

  /** From the command line to the UART: for all options that parse, every file
      and every timing, what the program writes is the word of the grammar, and all
      bytes parse only as the commands written; the line ends at the last acceptable
      rate asked for; and an address is written exactly when one was found or given,
      namely the last. */
  lemma {:induction false} FromOptionsToUart(found: Option<(string, Stale)>, os: seq<Opt>, c: Config, w: Answers,
                                             t: seq<Io>)
    requires Parsed(found, os) == (c, Continue) && Possible(c, w) && IsRun(t, c, w)
    ensures Commands(Erase(t)) == Word(c, w.downloads, 1, 1)
    ensures t == ExpandAll(Plan(c, w)) ==>
              Commands(t) == Word(c, w.downloads, 1 + w.early1 + w.late1, 1 + w.early2 + w.late2)
    ensures H4.AreFrames(Commands(t)) && H4.DecodeAll(Concat(Commands(t))) == Some(H4.DecodeFrames(Commands(t)))
    ensures LineOf(Plan(c, w)) == if LastSpeed(os, B0) == B0 then B115200 else LastSpeed(os, B0)
    ensures Shaped(c) && ConfiguredAddress(c) == LastAddress(os, FoundAddress(found))
  {
    hide Parsed, Plan, ExpandAll, Commands, Word, LineOf, ConfiguredAddress, LastSpeed, LastAddress, Erase, IsRun;
    RunIsPaired(c, w, t);
    ParsedWellFormed(found, os);
    ParsedLast(found, os);
    Grammar(c, w);
    OwnGrammar(c, w, t);
    Frames.UniquelyDecodable(c, w, t);
    Baud.FinalSpeed(c, w);
  }

  lemma RunIsPaired(c: Config, w: Answers, t: seq<Io>)
    requires IsRun(t, c, w)
    ensures |w.downloads| == |w.replies|
  {
    hide Plan, ExpandAll, Erase;
  }

  lemma ParsedFlags(found: Option<(string, Stale)>, os: seq<Opt>)
    requires Parsed(found, os).1 == Continue
    ensures var c := Parsed(found, os).0;
            && (c.useBaudrate <==> UseBaudrateForDownload in os)
            && (c.no2bytes <==> No2Bytes in os)
            && (c.bdaddrFlag <==> found.Some? || exists o :: o in os && o.BdAddr?)
            && (c.enableLpm <==> EnableLpm in os)
            && (c.scopcm <==> exists o :: o in os && o.Scopcm?)
            && (c.i2s <==> exists o :: o in os && o.I2s?)
  {
    var start := Start(found);
    StartFlags(found);
    hide Apply, ApplyAll, Start;
    Flags(start, os, UseBaudrateForDownload);
    Flags(start, os, No2Bytes);
    Flags(start, os, BdAddr("", [0, 0, 0, 0, 0, 0]));
    Flags(start, os, EnableLpm);
    Flags(start, os, Scopcm([]));
    Flags(start, os, I2s([]));
  }

  /** From the command line to what a reader of the UART decodes: the commands, in
      order, of the options that were given. */
  lemma OptionsOnTheWire(found: Option<(string, Stale)>, os: seq<Opt>, c: Config, w: Answers, t: seq<Io>,
                         ds: seq<H4.Command>)
    requires Parsed(found, os) == (c, Continue) && IsRun(t, c, w) && Frames.Carry(w.downloads, ds)
    ensures WellFormed(c) && H4.DecodeAll(Concat(Commands(Erase(t)))) == Some(Frames.Ordered(c, ds, 1, 1))
    ensures c.speed == LastSpeed(os, B0) && (c.useBaudrate <==> UseBaudrateForDownload in os)
    ensures c.bdaddrFlag <==> found.Some? || exists o :: o in os && o.BdAddr?
    ensures c.enableLpm <==> EnableLpm in os
    ensures c.scopcm <==> exists o :: o in os && o.Scopcm?
    ensures c.i2s <==> exists o :: o in os && o.I2s?
  {
    hide *;
    ParsedWellFormed(found, os);
    ParsedLast(found, os);
    ParsedFlags(found, os);
    Frames.OnTheWire(c, w, t, ds);
  }

  /** A patch file whose descriptor is 0 is not downloaded. */
  lemma DescriptorZeroIgnored(c: Config, name: string, file: seq<byte>, w: Answers, t: seq<Io>)
    requires WellFormed(c) && Apply(c, Patchram(name, 0, file)).1 == Continue
    requires IsRun(t, Apply(c, Patchram(name, 0, file)).0, w)
    ensures Apply(c, Patchram(name, 0, file)).0.hcd == file
    ensures HCI_DOWNLOAD_MINIDRIVER !in Commands(Erase(t))
  {
    var d := Apply(c, Patchram(name, 0, file)).0;
    ApplyKeepsWellFormed(c, Patchram(name, 0, file));
    assert d.hcdFd == 0;
    hide *;
    OwnGrammar(d, w, t);
    Reads.NoFilePlain(d, w.downloads, 1, 1);
  }

  /** How the options end, and whether they have raised --enable_hci. */
  lemma ParsedEnds(found: Option<(string, Stale)>, os: seq<Opt>)
    ensures Harmless(os) <==> Parsed(found, os).1 == Continue
    ensures Harmless(os) ==> (Parsed(found, os).0.enableHci <==> EnableHci in os)
    ensures forall code :: EndsWith(os, code) <==> Code(Parsed(found, os).1) == Some(code)
  {
    var start := Start(found);
    StartFlags(found);
    hide Harmless, EndsWith, Code, Start;
    HarmlessGoesOn(start, os);
    if Harmless(os) {
      Flags(start, os, EnableHci);
    }
    forall code
      ensures EndsWith(os, code) <==> Code(Parsed(found, os).1) == Some(code)
    {
      OptionsEnd(start, os, code);
    }
  }

  /** main: given the address found by read_default_bdaddr, the options, what
      open returned for the UART and the bytes that arrive on it. Nothing is
      written before the options are parsed and the UART is open; then the run
      is that of the plan of the options, for some answers of the outside, and
      exactly the plan unless the alarm handler runs behind an alarm(0). The
      status is None where the program does not exit, but sleeps forever behind
      proc_enable_hci. */
  method Program(found: Option<(string, Stale)>, os: seq<Opt>, uartFd: int, rx: nat -> byte)
    returns (status: Option<int>, ghost trace: seq<Io>, ghost w: Option<Answers>, ghost rearmed: bool)
    ensures Harmless(os) && uartFd < 0 ==> status == Some(2)
    ensures Harmless(os) && uartFd >= 0 ==> status == if EnableHci in os then None else Some(0)
    ensures forall code | code in {1, 3, 4, 5} :: status == Some(code) <==> EndsWith(os, code)
    ensures w.None? <==> Parsed(found, os).1 != Continue || uartFd < 0
    ensures w.None? ==> trace == []
    ensures w.Some? ==> Possible(Parsed(found, os).0, w.value) && IsRun(trace, Parsed(found, os).0, w.value)
    ensures w.Some? && !rearmed ==> trace == ExpandAll(Plan(Parsed(found, os).0, w.value))
    ensures exists n: nat :: Received(trace) == Stream(rx, 0, n)
  {
    hide ExpandAll, Plan, Erase, AlarmsAreResets, Apply, ApplyAll, Feeds, IsRun, Possible, Harmless, EndsWith;
    trace, w, rearmed := [], None, false;
    assert Received(trace) == Stream(rx, 0, 0);
    var globals := new Globals();
    if found.Some? {
      globals.ParseBdaddr(found.value.0, found.value.1);
    }
    var parse := globals.ParseCmdLine(os);
    ParsedEnds(found, os);
    if parse.Exit? {
      return Some(parse.code), trace, w, rearmed;
    }
    if parse.Usage? {
      return Some(1), trace, w, rearmed;
    }
    if uartFd < 0 {
      return Some(2), trace, w, rearmed;
    }
    var config := globals.Snapshot();
    var session := new Session(config, rx);
    ghost var answers := session.Run();
    assert Received(session.trace) == Stream(rx, 0, session.rxPos);
    if config.enableHci {
      return None, session.trace, Some(answers), session.rearmed;
    }
    return Some(0), session.trace, Some(answers), session.rearmed;
  }
}
