# Verified models of brcm_patchram_plus, brfpatch and bluedroid

This project models, in Dafny, the three programs of the repository that speak
or start the HCI UART transport, and proves what they promise:

* **brfpatch** compiles ASCII scripts of `Send_` lines to binary command
  records. `Script.dfy` says what it computes, `ScriptCompiler.dfy` is the
  program as it works (cursors into a line, four-byte stores into a data array,
  appends to an output file) proved against that. `ScriptSyntax.dfy` is the
  script language as syntax trees with the compiler correctness theorem, and
  `ScriptErrors.dfy` the lines that end the program.
* **brcm_patchram_plus** downloads firmware over a UART: it patches command
  templates from options, exchanges commands and events through one shared
  buffer, repeats the reset from an alarm handler, streams a file and changes
  the line speed. `PatchramConfig.dfy` and `PatchramOptions.dfy` are the command
  line, `PatchramSettings.dfy` says what it configures, `PatchramSession.dfy` is the protocol engine, `PatchramTrace.dfy` the
  plan of a run, and `PatchramRuns.dfy`, `PatchramFrames.dfy` and
  `PatchramStream.dfy` what holds of every run. `PatchramBaud.dfy` is a controller
  at the other end of the line, and `PatchramAgreement.dfy` says when both are at
  the same speed. `PatchramProgram.dfy` puts them together.
* **bluedroid/bluetooth.c** powers the adapter up and down. `AdapterSpec.dfy`
  gives the effect of each call for every answer of the system, `Adapter.dfy`
  is the code as it works proved against that, and `AdapterRuns.dfy` states what
  holds of each call and of every sequence of calls.

`H4.dfy` is the command framing they share (section 2 of Vol 4 Part A and
section 5.4.1 of Vol 2 Part E of the Bluetooth Core Specification 4.0).
`Address.dfy` relates the printer and the three parsers of Bluetooth addresses.
`CText.dfy` states the conversions of `sscanf`, `strtol` and `strtoul` as ISO C99
defines them (sections 7.19.6.2 and 7.20.1.4), `Bytes.dfy` little-endian numbers.

`dafny verify dfyconfig.toml` checks the whole project.

## How the outside is modelled

Methods that change state are proved against a function of the old state: a
run of the downloader leaves the trace `ExpandAll(Plan(config, w))` with alarms
wherever they expire, a call of
the adapter has the effect `Enable`, `Disable` or `IsEnabled`, the compiler
writes `DumpAll(Compile(text).sources)`. The main results are lemmas about these
functions, for all of their arguments.

What the system decides is either chosen without constraint or an argument over
which the results range: how many bytes each UART read returns (at least one),
how often the alarm expires while it is armed, the incoming bytes, the HCD file,
the answers of `open`, `read`, `write`, `socket`, `ioctl` and `property_set`, and
the descriptors they return. Incoming bytes are an infinite stream, because a
blocking read has no end of file.

A cursor that the C code moves beyond the terminator of its string is an outcome
of its own (`PastEnd`, `Undefined`, `None`), since C defines nothing there.

## Results that differ from what one would expect

The conditions are exact, proved in both directions; a lemma in brackets shows the
case, most of them by an input.

* The script compiler is lossless exactly for lines of at most 255 bytes of data;
  longer lines still give one whole record, with the first n mod 256 bytes
  (`LossyScript`).
* `bt_enable` keeps the contract of its header, 0 exactly on success, except when
  HCIDEVUP returned 0 and bluetoothd then does not start (`ZeroWithoutDaemon`), and
  when all goes well but power was off and the write that was to set it took no
  byte, which the code takes for success (`ZeroWithPowerOff`).
* `bt_enable` closes its socket a second time exactly when it runs out of attempts
  (`ClosedTwice`), and it leaves the power on when it cannot get a socket
  (`FailedWithPowerOn`).
* `bt_disable` keeps the contract of its header except that it returns 0 when the
  interface did not go down (`ZeroThoughUp`), or when power was on and the
  power-off write took no byte (`ZeroWithPowerOn`), and -1 when the power step fails
  although power was off before and the rest is done (`FailedThoughDown`).
* `bt_is_enabled` keeps the contract of its header, negative exactly on an error,
  except when HCIGETDEVINFO fails (`ZeroOnError`).
* The alarm expires only between a reset and the next command, except when its
  handler runs behind an alarm(0) and arms it again (`AlarmOutsideReset`). Commands
  against events, the program's own commands, what is read and how the bytes parse
  do not depend on that.
* Against a controller that answers in order, each time the host reads an event:
  for a file that leaves the rate alone, host and controller agree on the line speed
  exactly when no alarm expired before an early change of it, and none at all before
  the last change if commands follow, or the speed is the same all along
  (`PlainFileAgreement`, `AgreementLost`), because the host takes the answer to a
  repeated reset for the answer to its update. In general (`BaudAgreement`), with n
  expiries before the download, the answers to the last n commands before the end of
  the file come behind it: agreement is lost exactly when an alarm expired before an
  early change, or a record answered before the last exchange of the download
  changes the rate, or one answered behind the end of the file brings a wrong rate
  while something is still transferred (`LateAnswerLoses`).
* Every read_event of a run starts and ends on an event boundary exactly when the
  read of two extra bytes, if there is one, is full (`AlignmentLost`), no alarm
  expired before it, and the file does not repeat the minidriver command.
* `get_bdaddr` and `str2ba` agree on an accepted string exactly when each integer
  has the same low byte when clamped as signed and as unsigned (`ParsersDiffer`).
* A patch file whose descriptor is 0 is not downloaded (`DescriptorZeroIgnored`).
* A truncated HCD file makes the downloader send one more whole frame, filled up
  with what the shared buffer held (`TruncatedSendsMore`).

Where the documentation and the code differ, the code is followed: the comment at
the start of brcm_patchram_plus.c names the property `ro.bt.bcm_bdaddr_path`, the
code reads `ro.bt.bdaddr_path`; the header of bluedroid promises what the three
results above about its calls take exception to; the usage text of brfpatch lists
numbers of 2, 4 and 8 digits, and the code also takes 6 and 16, takes letters behind
the first digits of a number for the end of it, and skips what stands between a word
and the next white space.

## Model

| member | source | states |
|---|---|---|
| H4.DecodeEncodeAll | brfpatch/brfpatch.c:54-62 | decoding a stream of encoded commands gives back the commands, for every list |
| H4.EncodeDecodeAll | brfpatch/brfpatch.c:54-62 | only an encoding decodes, and it decodes to what was encoded |
| H4.UniquelyDecodable | brcm_patchram_plus/brcm_patchram_plus.c:172-193 | a byte stream is the encoding of at most one list of commands |
| H4.FramesDecode | brcm_patchram_plus/brcm_patchram_plus.c:596-605 | frames written back to back parse as the commands they carry |
| H4.Layout | brfpatch/brfpatch.c:54-62 | indicator, little-endian opcode, length, parameters: each byte of a frame by its place |
| H4.ResetExample | brcm_patchram_plus/brcm_patchram_plus.c:172 | HCI_Reset is the bytes 01 03 0c 00, and these decode to it |
| CText.ParseForms | tools/socktest.c:241 | strtol and strtoul take white space, a sign, 0x and digits, up to the first other character |
| CText.ScanForms | brfpatch/brfpatch.c:84 | sscanf takes the same within its width |
| CText.NothingThere | brfpatch/brfpatch.c:84 | where no number starts sscanf fails, and strtol gives 0 and stays at the start |
| CText.BareBase | tools/socktest.c:241 | 0x without a digit: 0 in front of the x for strtol, a failure for sscanf |
| CText.Clamps | bluedroid/bluetooth.c:310-311 | where strtol and strtoul clamp for both widths of long |
| ScriptCompiler.Advance | brfpatch/brfpatch.c:65-75 | the cursor loops stop at the next word, and report the end of the string |
| ScriptCompiler.StoreWord | brfpatch/brfpatch.c:98-99 | a conversion stores four little-endian bytes and changes nothing else |
| ScriptCompiler.KeepSome | brfpatch/brfpatch.c:118-141 | of four bytes stored, the first n that are kept are the little-endian bytes of the number |
| ScriptCompiler.TwoStores | brfpatch/brfpatch.c:142-152 | the two stores of a 16-digit number leave its eight bytes little-endian, though the high half goes first and behind |
| ScriptCompiler.ReadOctet | brfpatch/brfpatch.c:95-104 | one quoted byte is appended to the bytes before it, and a colon behind it is skipped |
| ScriptCompiler.ReadQuoted | brfpatch/brfpatch.c:93-105 | after quoted data the array holds all earlier bytes and then the quoted ones; every store is inside the array |
| ScriptCompiler.AlnumEnd | brfpatch/brfpatch.c:111-114 | the end of a run of letters and digits |
| ScriptCompiler.ReadShort | brfpatch/brfpatch.c:118-141 | after a number of 2, 4, 6 or 8 digits the array holds all earlier bytes and then the number's |
| ScriptCompiler.ReadLong | brfpatch/brfpatch.c:142-152 | after a number of 16 digits the array holds all earlier bytes and then the number's eight |
| ScriptCompiler.ReadDigits | brfpatch/brfpatch.c:111-155 | the count of letters and digits selects the conversion; any other count ends the program |
| ScriptCompiler.ReadField | brfpatch/brfpatch.c:92-159 | after every word the array up to dp is all words' bytes so far, and dp is at most half the cursor |
| ScriptCompiler.ReadFields | brfpatch/brfpatch.c:88-160 | the loop over words ends at the end of the line with exactly the line's bytes in the array, or in an error |
| ScriptCompiler.ReadOpcode | brfpatch/brfpatch.c:78-85 | the opcode is read, and the cursor is at it, exactly when the line starts with Send_ and a second word with 0x and a number |
| ScriptCompiler.DumpRecord | brfpatch/brfpatch.c:54-62 | four writes append the packet indicator, the opcode, the length byte and that many data bytes |
| ScriptCompiler.ProcessLine | brfpatch/brfpatch.c:77-163 | a line that reads appends exactly its record to the output; any other line ends the program and appends nothing |
| ScriptCompiler.NextLine | brfpatch/brfpatch.c:180-183 | fgets takes a line, or 1023 characters of it, and the cursor skips white space |
| ScriptCompiler.CompileScript | brfpatch/brfpatch.c:166-200 | the output file holds the records of the lines up to the first that ends the program |
| Script.Quoted | brfpatch/brfpatch.c:93-105 | quoted data takes at least two characters for each byte, whatever the characters are |
| Script.Fields | brfpatch/brfpatch.c:88-160 | the data of any line is at most half its characters, so the array never overflows |
| Script.OutputDecodes | brfpatch/brfpatch.c:54-62 | whatever the lines, the output parses as one command per record, with the first n mod 256 of its n bytes |
| Script.CarriesWhenShort | brfpatch/brfpatch.c:162 | one record carries all of its line's data exactly when that is at most 255 bytes |
| Script.CarryAllWhenShort | brfpatch/brfpatch.c:162 | the decoded commands carry all opcodes and data exactly when each line has at most 255 bytes |
| Script.LosslessExactlyWhenShort | brfpatch/brfpatch.c:180-195 | decoding the output gives back opcodes and data of all lines exactly when each line has at most 255 bytes |
| ScriptSyntax.QuotedPairs | brfpatch/brfpatch.c:93-105 | quoted digit pairs, each with or without a colon, read as their bytes in textual order, and what is behind them is read next |
| ScriptSyntax.LongDigits | brfpatch/brfpatch.c:142-152 | sixteen letters and digits read as the bytes of their low half and then of their high half, as far as each has digits |
| ScriptSyntax.SixteenDigits | brfpatch/brfpatch.c:142-152 | for sixteen digits these are the little-endian bytes of the number they write |
| ScriptSyntax.WordRead | brfpatch/brfpatch.c:92-159 | every word of the script language reads as its bytes, whatever stands behind it |
| ScriptSyntax.FieldsRead | brfpatch/brfpatch.c:91-160 | any words, with any white space before and behind them, read as their bytes in order |
| ScriptSyntax.SendRead | brfpatch/brfpatch.c:77-163 | a Send_ line reads as its opcode and data, with or without its newline |
| ScriptSyntax.EntryLine | brfpatch/brfpatch.c:180-183 | each line of a script of at most 1023 characters is taken as a whole, without its indentation; one of 1023 leaves its newline behind |
| ScriptSyntax.CompileFirst | brfpatch/brfpatch.c:180-195 | the records of a script come first in the output for it and any text behind it |
| ScriptSyntax.CompilerCorrect | brfpatch/brfpatch.c:180-195 | compiling the text of any script, of lines of at most 1023 characters, yields its meaning: the Send_ lines in order, blank, # and W lines skipped |
| ScriptSyntax.NulEndsLine | brfpatch/brfpatch.c:180-191 | what is behind a NUL on a line does not matter |
| ScriptSyntax.LongComment | brfpatch/brfpatch.c:180-191 | of a comment longer than 1023 characters the rest is read as a line of its own |
| ScriptSyntax.RoundTrip | brfpatch/brfpatch.c:49-50 | decoding the output for a script gives back its commands exactly when each has at most 255 bytes of data |
| ScriptSyntax.LossyScript | brfpatch/brfpatch.c:162 | a line with n > 255 quoted bytes of which the data does not come back |
| ScriptErrors.BadLineExits | brfpatch/brfpatch.c:77-159 | the first bad line (an unknown letter, S but not Send_, no opcode, a word that is neither quoted nor 0x, a count of letters and digits other than 2, 4, 6, 8 and 16, no digit where one is due) ends the program: the output holds the records before it, whatever follows |
| ScriptErrors.CutPairUndefined | brfpatch/brfpatch.c:95-104 | a line that ends in the middle of a quoted pair moves the cursor over the terminator |
| Address.Str2Ba | bluedroid/bluetooth.c:308-315 | the address holds the low bytes of the integers read, last one first; it leaves the string exactly when the unchecked parse does |
| Address.GetBdaddr | tools/socktest.c:237-249 | 0 and the integers' low bytes when all but the last stop at a colon, -1 and a zero address otherwise |
| Address.CheckedReadsSamePositions | tools/socktest.c:240-247 | when get_bdaddr accepts a string, str2ba reads the same integers at the same places |
| Address.SameLowByte | tools/socktest.c:241 | strtol and strtoul give the same low byte exactly for integers that fit a long or happen to clamp alike |
| Address.CheckedRefinesUnchecked | tools/socktest.c:237-249 | on an accepted string both parsers yield the same address exactly when every integer is of that kind |
| Address.ParsersAgree | brcm_patchram_plus/brcm_patchram_plus.c:285-302 | on a well-formed text parse_bdaddr, str2ba and get_bdaddr all yield the octets it writes, last one first |
| Address.JoinIsText | bluedroid/bluetooth.c:303-306 | printed octets are a well-formed text of three characters each, less one, that denotes them |
| Address.TextIsJoin | bluedroid/bluetooth.c:303-306 | printing the octets of a well-formed text gives the text in upper case |
| Address.PrintThenParse | bluedroid/bluetooth.c:303-315 | ba2str writes 17 characters from which each of the three parsers gets the address back |
| Address.ParseThenPrint | bluedroid/bluetooth.c:303-315 | parsing a well-formed text with str2ba, get_bdaddr or parse_bdaddr and printing the result upper-cases it |
| Address.ParsersDiffer | tools/socktest.c:237-249 | for either width of long there is a text that get_bdaddr accepts and of which str2ba makes another address |
| Address.PrintedAt | bluedroid/bluetooth.c:303-306 | at which of the 17 places each half of each byte is printed, and where the colons are |
| Address.ParsedAt | bluedroid/bluetooth.c:308-315 | each parser stores the octet written at place 3i of a well-formed text as byte n - 1 - i |
| Address.NumberThen | tools/socktest.c:240-247 | behind a number in any form get_bdaddr goes on exactly at a colon, and str2ba at any character |
| Address.NumberLast | tools/socktest.c:240-247 | at a string that ends too early get_bdaddr fails, and str2ba leaves it |
| Address.LastTwoDigits | bluedroid/bluetooth.c:310-312 | of a longer number the last two digits are stored |
| Address.PartialAddress | brcm_patchram_plus/brcm_patchram_plus.c:285-302 | parse_bdaddr stops behind the first group without a colon, and the other bytes keep what was in the ints |
| PatchramConfig.SpeedForIsTable | brcm_patchram_plus/brcm_patchram_plus.c:239-271 | a rate has the speed of a row exactly when it is the row's rate, and none exactly when it is in no row |
| PatchramConfig.ValidateBaudrate | brcm_patchram_plus/brcm_patchram_plus.c:258-271 | the search finds the rate's row exactly when there is one, and leaves the value alone otherwise |
| PatchramSettings.Rates | brcm_patchram_plus/brcm_patchram_plus.c:239-256 | the fourteen rates, each with its line speed |
| PatchramSettings.NoOtherRate | brcm_patchram_plus/brcm_patchram_plus.c:258-271 | any other rate is rejected |
| PatchramConfig.ApplyKeepsWellFormed | brcm_patchram_plus/brcm_patchram_plus.c:273-392 | each option keeps indicator, opcode and length byte of all templates, and the rate in the template paired with the line speed |
| PatchramConfig.ConfigInvariant | brcm_patchram_plus/brcm_patchram_plus.c:440-510 | the same after any sequence of options |
| PatchramConfig.LastSpeedWins | brcm_patchram_plus/brcm_patchram_plus.c:273-283 | the line speed is that of the last acceptable rate; a rejected rate changes nothing |
| PatchramConfig.LastAddressWins | brcm_patchram_plus/brcm_patchram_plus.c:99-101 | the address written is the last one given, which overrides the one found before the options |
| PatchramSettings.NameWithoutDot | brcm_patchram_plus/brcm_patchram_plus.c:200-203 | status 3 exactly for a patch file name without a dot |
| PatchramSettings.NameWithDot | brcm_patchram_plus/brcm_patchram_plus.c:200-217 | behind the last dot: status 4 exactly unless it is hcd in any case, then 5 exactly when the file does not open, and otherwise that file is the one downloaded |
| PatchramSettings.FaultIs | brcm_patchram_plus/brcm_patchram_plus.c:195-393 | for every option, whether it ends the program, and with which status |
| PatchramSettings.HarmlessGoesOn | brcm_patchram_plus/brcm_patchram_plus.c:478-505 | the options parse exactly when none of them ends the program |
| PatchramSettings.OptionsEnd | brcm_patchram_plus/brcm_patchram_plus.c:478-505 | they end it with a status exactly when the first one that ends it has that status |
| PatchramSettings.OtherKind | brcm_patchram_plus/brcm_patchram_plus.c:195-393 | no option changes what belongs to another |
| PatchramSettings.Flags | brcm_patchram_plus/brcm_patchram_plus.c:304-393 | each flag is raised exactly by its own option, wherever that is |
| PatchramSettings.NoneOfKind | brcm_patchram_plus/brcm_patchram_plus.c:440-510 | without an option of a kind, its part stays as it was |
| PatchramSettings.LastHolds | brcm_patchram_plus/brcm_patchram_plus.c:325-393 | the last option of each kind holds: its file, address, number of microseconds, and its five and five or four numbers at their places in the templates |
| PatchramOptions.EncodeBaudRate | brcm_patchram_plus/brcm_patchram_plus.c:220-232 | the four stores write the rate little-endian and nothing else; a rate of 0 writes nothing |
| PatchramOptions.CopyParams | brcm_patchram_plus/brcm_patchram_plus.c:342-348 | the loop writes the low bytes of the numbers into the template and nothing else |
| PatchramOptions.Globals.constructor | brcm_patchram_plus/brcm_patchram_plus.c:156-193 | the initial flags and templates |
| PatchramOptions.Globals.ParseBaudrate | brcm_patchram_plus/brcm_patchram_plus.c:273-283 | line speed and template change together, or not at all |
| PatchramOptions.Globals.ParseBdaddr | brcm_patchram_plus/brcm_patchram_plus.c:285-302 | the converted octets go to the template; those not converted are what the ints held before |
| PatchramOptions.Globals.ParseScopcm | brcm_patchram_plus/brcm_patchram_plus.c:325-351 | both PCM templates and the flag change when there are ten numbers, and nothing does otherwise |
| PatchramOptions.Globals.ParseI2s | brcm_patchram_plus/brcm_patchram_plus.c:353-374 | template and flag change when there are four numbers, and nothing does otherwise |
| PatchramOptions.Globals.ParsePatchram | brcm_patchram_plus/brcm_patchram_plus.c:195-218 | the exit status by extension and by open, and the file that is opened |
| PatchramOptions.Globals.ParseToSleep | brcm_patchram_plus/brcm_patchram_plus.c:383-393 | the number is kept even when it is rejected |
| PatchramOptions.Globals.ParseEnableLpm | brcm_patchram_plus/brcm_patchram_plus.c:304-309 | raises its flag and changes nothing else |
| PatchramOptions.Globals.ParseEnableHci | brcm_patchram_plus/brcm_patchram_plus.c:318-323 | raises its flag and changes nothing else |
| PatchramOptions.Globals.ParseUseBaudrateForDownload | brcm_patchram_plus/brcm_patchram_plus.c:311-316 | raises its flag and changes nothing else |
| PatchramOptions.Globals.ParseNo2Bytes | brcm_patchram_plus/brcm_patchram_plus.c:376-381 | raises its flag and changes nothing else |
| PatchramOptions.Globals.ParseDebug | brcm_patchram_plus/brcm_patchram_plus.c:491-493 | raises its flag and changes nothing else |
| PatchramOptions.Globals.ParseOption | brcm_patchram_plus/brcm_patchram_plus.c:478-505 | one round of the option loop has the effect of its option |
| PatchramOptions.Globals.ParseCmdLine | brcm_patchram_plus/brcm_patchram_plus.c:440-510 | the options have their effects in order, up to the first that does not go on |
| PatchramSession.Session.HciSendCmd | brcm_patchram_plus/brcm_patchram_plus.c:596-605 | one command goes to the UART |
| PatchramSession.Session.Expired | brcm_patchram_plus/brcm_patchram_plus.c:607-612 | the handler sends a reset and leaves the alarm armed |
| PatchramSession.Session.ReadAll | brcm_patchram_plus/brcm_patchram_plus.c:575-586 | however the reads split the stream, exactly the bytes asked for are taken and stored, in order |
| PatchramSession.Session.ReadEvent | brcm_patchram_plus/brcm_patchram_plus.c:568-594 | for any fragmentation the buffer starts with the next 3 + plen <= 258 bytes, exactly these are taken, and the debug count is their number |
| PatchramSession.Session.ProcReset | brcm_patchram_plus/brcm_patchram_plus.c:614-627 | a reset, any number of repetitions, its event, and possibly more repetitions; the alarm is off afterwards unless its handler ran behind an alarm(0) |
| PatchramSession.Session.CancelAlarm | brcm_patchram_plus/brcm_patchram_plus.c:626 | expiries before alarm(0), and a signal delivered on return from it, whose handler arms the alarm again |
| PatchramSession.Session.LoadRecord | brcm_patchram_plus/brcm_patchram_plus.c:646-653 | whatever the buffer held, the frame is the next record behind 0x01; what the file lacks of a truncated record is what the buffer held |
| PatchramSession.RecordSent | brcm_patchram_plus/brcm_patchram_plus.c:646-653 | the frame that two reads of the file leave in the buffer, for whole and for truncated records |
| PatchramSession.Session.DownloadRecord | brcm_patchram_plus/brcm_patchram_plus.c:646-655 | one record goes out and its event comes back, until the file is at its end |
| PatchramSession.Session.Download | brcm_patchram_plus/brcm_patchram_plus.c:646-656 | the loop terminates at the end of the file, having exchanged one frame for each record, in order |
| PatchramSession.Session.ProcPatchram | brcm_patchram_plus/brcm_patchram_plus.c:629-664 | minidriver command, two bytes unless no2bytes, the file, line speed back when it was raised, reset |
| PatchramSession.Session.ProcBaudrate | brcm_patchram_plus/brcm_patchram_plus.c:666-680 | the update and its event, and only then the line speed |
| PatchramSession.Session.ProcScopcm | brcm_patchram_plus/brcm_patchram_plus.c:698-710 | the two PCM commands, one after the other |
| PatchramSession.Session.SendIf | brcm_patchram_plus/brcm_patchram_plus.c:817-831 | a command and its event when the flag is set, nothing otherwise |
| PatchramSession.Session.Begin | brcm_patchram_plus/brcm_patchram_plus.c:799-807 | line speed 115200, the first reset, and the early change of speed when it is asked for |
| PatchramSession.Session.Finish | brcm_patchram_plus/brcm_patchram_plus.c:817-831 | the commands behind the last change of speed, each behind its flag |
| PatchramSession.Session.Run | brcm_patchram_plus/brcm_patchram_plus.c:799-831 | whatever the outside does, the run is the plan of its configuration for some possible answers, with alarms elsewhere only if the handler ran behind an alarm(0) |
| PatchramTrace.EventPackets | brcm_patchram_plus/brcm_patchram_plus.c:568-594 | what read_event takes for an event is an HCI event packet: a code, a length and that many bytes |
| PatchramRuns.Conservation | brcm_patchram_plus/brcm_patchram_plus.c:568-719 | at every step of every run, wherever the alarm expires, commands written less events read is the expiries so far, plus one exactly while a command of the program waits |
| PatchramRuns.AlarmsOnlyInReset | brcm_patchram_plus/brcm_patchram_plus.c:607-627 | unless the handler runs behind an alarm(0), it only writes resets, and only between a reset of the program and its next command |
| PatchramRuns.AlarmOutsideReset | brcm_patchram_plus/brcm_patchram_plus.c:607-627 | a run in which it has run behind the alarm(0), and the alarm expires behind the next command |
| PatchramRuns.Grammar | brcm_patchram_plus/brcm_patchram_plus.c:799-831 | every run, unless the handler runs behind an alarm(0), writes reset+ [baud] [minidriver record* reset+] [baud] [bdaddr] [sleep] [pcm, format] [i2s], each part exactly when its options say so |
| PatchramRuns.OwnGrammar | brcm_patchram_plus/brcm_patchram_plus.c:799-831 | in every run, wherever the alarm expires, the commands that are not the handler's are that word with each reset once |
| PatchramFrames.DownloadsAreFrames | brcm_patchram_plus/brcm_patchram_plus.c:646-653 | for every file, each download is a whole command frame |
| PatchramFrames.UniquelyDecodable | brcm_patchram_plus/brcm_patchram_plus.c:596-719 | for all options and files, and wherever the alarm expires, the bytes on the UART parse in exactly one way, as the commands written |
| PatchramFrames.WordCarries | brcm_patchram_plus/brcm_patchram_plus.c:172-193 | every word of the grammar parses as commands with the opcodes 0c03, fc18, fc2e, fc01, fc27, fc1c, fc1e, fc6d and their parameters, each exactly when its options say so |
| PatchramFrames.DownloadsCarry | brcm_patchram_plus/brcm_patchram_plus.c:646-653 | whatever the file, the downloads decode to commands |
| PatchramFrames.OnTheWire | brcm_patchram_plus/brcm_patchram_plus.c:799-831 | of every run, wherever the alarm expires, what the program itself writes decodes to exactly these commands, with HCI_Reset once each time |
| PatchramFrames.AllOnTheWire | brcm_patchram_plus/brcm_patchram_plus.c:607-627 | all bytes of a planned run decode to them, with HCI_Reset repeated once for each expiry |
| PatchramFrames.AlarmOnTheWire | brcm_patchram_plus/brcm_patchram_plus.c:607-612 | whatever the handler writes in any run decodes to HCI_Reset |
| PatchramFrames.FirstBytes | brcm_patchram_plus/brcm_patchram_plus.c:799-801 | every run writes 01 03 0c 00 first |
| PatchramFrames.FileIsRecords | brcm_patchram_plus/brcm_patchram_plus.c:646-651 | every file is its whole records and what is left behind them |
| PatchramFrames.DownloadsAreRecords | brcm_patchram_plus/brcm_patchram_plus.c:646-656 | the downloads are the records of the file in order, each behind 0x01, and one longer frame when bytes are left over |
| PatchramFrames.BytesSent | brcm_patchram_plus/brcm_patchram_plus.c:646-656 | the bytes sent are file size plus number of frames exactly when the file is whole records, and more otherwise |
| PatchramFrames.TruncatedSendsMore | brcm_patchram_plus/brcm_patchram_plus.c:646-656 | a truncated file for which more is sent |
| PatchramFrames.CommandsFromFile | brcm_patchram_plus/brcm_patchram_plus.c:646-656 | a file made of commands is sent as exactly these commands |
| PatchramBaud.AgreedMeans | brcm_patchram_plus/brcm_patchram_plus.c:658-680 | the recorded agreement is equality of both speeds at every command written and event read |
| PatchramBaud.ExchangesRun | brcm_patchram_plus/brcm_patchram_plus.c:646-656 | over any commands and events the ends agree exactly when no answer but the last changes the rate, and which commands are still to be answered |
| PatchramBaud.FinalSpeed | brcm_patchram_plus/brcm_patchram_plus.c:799-815 | the line ends at the rate asked for, or at 115200 when none was accepted, however often the alarm expires |
| PatchramAgreement.PendingPhases | brcm_patchram_plus/brcm_patchram_plus.c:568-719 | each event read answers the command that has waited longest: which commands are still to be answered |
| PatchramAgreement.TailRun | brcm_patchram_plus/brcm_patchram_plus.c:658-664 | behind the end of the file, with any commands still to be answered: agreement exactly when the first answers bring no wrong rate |
| PatchramAgreement.BaudAgreement | brcm_patchram_plus/brcm_patchram_plus.c:658-680 | for all options, files and timings, exactly when host and controller have equal speeds at every command and event of a run |
| PatchramAgreement.PlainFileAgreement | brcm_patchram_plus/brcm_patchram_plus.c:799-831 | for files that leave the rate alone: exactly when no alarm expired too early, or the rate never changes |
| PatchramAgreement.AgreementWithoutExpiry | brcm_patchram_plus/brcm_patchram_plus.c:799-831 | with no timer expiry, for every option set and file: equal speeds throughout exactly when no record of the file but the last changes the rate |
| PatchramAgreement.EarlyExpiryLoses | brcm_patchram_plus/brcm_patchram_plus.c:801-807 | an expiry before the early change of speed always loses the agreement |
| PatchramAgreement.AgreementLost | brcm_patchram_plus/brcm_patchram_plus.c:801-807 | a possible run in which it is lost that way |
| PatchramAgreement.LateAnswerLoses | brcm_patchram_plus/brcm_patchram_plus.c:646-664 | a possible run in which it is lost by a record answered behind the end of the file |
| PatchramStream.ReceivedItems | brcm_patchram_plus/brcm_patchram_plus.c:568-594 | the bytes taken during a run are those of its events and of the two extra bytes, in order |
| PatchramStream.RunReads | brcm_patchram_plus/brcm_patchram_plus.c:799-831 | what a run reads, event by event, from its options and answers, wherever the alarm expires |
| PatchramStream.ReadsAreSent | brcm_patchram_plus/brcm_patchram_plus.c:568-594 | with full two-byte reads in the right places, what is read is a prefix of what was sent |
| PatchramStream.ShortReadMisaligns | brcm_patchram_plus/brcm_patchram_plus.c:638-640 | a two-byte read that takes less than what is sent at its place puts the next event between two boundaries |
| PatchramStream.AlignedExactly | brcm_patchram_plus/brcm_patchram_plus.c:568-594 | for any reads and any stream: every event read is an event sent, from its start, exactly when all reads are of the kind sent at their place, and full |
| PatchramStream.Alignment | brcm_patchram_plus/brcm_patchram_plus.c:629-664 | over a whole run, against any stream of events and byte pairs, every read_event starts and ends on an event boundary exactly when the pair is where the run reads it and the two-byte read is full |
| PatchramStream.AnswersInPlace | brcm_patchram_plus/brcm_patchram_plus.c:634-640 | a controller that answers each command sends the two bytes where the run reads them, and nowhere else, exactly when no alarm expired before and the file does not repeat the minidriver command |
| PatchramStream.RunAlignment | brcm_patchram_plus/brcm_patchram_plus.c:629-664 | a whole run against such a controller: every read_event is on event boundaries exactly when, if two bytes are read, the read is full, no alarm expired before, and the file does not repeat the minidriver command |
| PatchramStream.AlignmentLost | brcm_patchram_plus/brcm_patchram_plus.c:638-640 | a possible run in which the two-byte read takes one byte and the next event is not read from its start |
| PatchramProgram.ParsedWellFormed | brcm_patchram_plus/brcm_patchram_plus.c:787-793 | after any address file and options the templates are well-formed and paired with the line speed |
| PatchramProgram.FromOptionsToUart | brcm_patchram_plus/brcm_patchram_plus.c:785-841 | from the options to the bytes, wherever the alarm expires: the word of the grammar, the unique parse, the final line speed and the address written |
| PatchramProgram.OptionsOnTheWire | brcm_patchram_plus/brcm_patchram_plus.c:785-831 | from the options to what a reader of the UART decodes: which commands are there by which options were given |
| PatchramProgram.DescriptorZeroIgnored | brcm_patchram_plus/brcm_patchram_plus.c:809-811 | a patch file opened with descriptor 0 is not downloaded |
| PatchramProgram.Program | brcm_patchram_plus/brcm_patchram_plus.c:785-841 | the exit status: 1, 3, 4 or 5 exactly by the first option that ends the program, 2 without a UART, none exactly when --enable_hci was given, and 0 otherwise; nothing is written before the options are parsed and the UART is open; then the run is its plan, with alarms elsewhere only if the handler ran behind an alarm(0) |
| AdapterSpec.Least | bluedroid/bluetooth.c:55-68 | the least number whose type starts with "bluetooth", if there is one |
| AdapterSpec.Decisive | bluedroid/bluetooth.c:178-196 | the first attempt that ends the loop, if one does within the limit |
| Adapter.Adapter.constructor | bluedroid/bluetooth.c:45-46 | nothing is cached at first |
| Adapter.Adapter.InitRfkill | bluedroid/bluetooth.c:49-72 | the loop caches the least matching number, or fails and caches nothing |
| Adapter.Adapter.SetBluetoothPower | bluedroid/bluetooth.c:111-138 | state, result and system calls for every answer, including a write that takes no byte |
| Adapter.Adapter.CheckBluetoothPower | bluedroid/bluetooth.c:74-109 | 1 and 0 by the character in the state file, and -1 in all other cases |
| Adapter.Adapter.Attempt | bluedroid/bluetooth.c:179-194 | one attempt: the socket is closed exactly when the device did not come up |
| Adapter.Adapter.BringUp | bluedroid/bluetooth.c:178-196 | the loop makes the attempts up to the decisive one, and leaves that one's socket and result |
| Adapter.Adapter.BtEnable | bluedroid/bluetooth.c:150-223 | state, result and system calls of every path |
| Adapter.Adapter.BtDisable | bluedroid/bluetooth.c:225-264 | state, result and system calls of every path |
| Adapter.Adapter.BtIsEnabled | bluedroid/bluetooth.c:266-301 | state, result and system calls of every path |
| AdapterRuns.EnableReturns | bluedroid/bluetooth.c:157-222 | 0 exactly when power and hciattach succeed and the first of 100 attempts that does not fail gives 0, or EALREADY and bluetoothd starts; otherwise -1 |
| AdapterRuns.EnableDone | bluedroid/bluetooth.c:157-218 | power on, hciattach started, interface up and bluetoothd started, as state and system calls show it, exactly for which answers |
| AdapterRuns.EnableInOrder | bluedroid/bluetooth.c:150-223 | on each path of bt_enable: which powers, daemons and the interface go up or down, in order |
| AdapterRuns.EnableProperties | bluedroid/bluetooth.c:161-202 | ctl.start hciattach or bluetooth.hciattach true by the build, once power is on; ctl.stop hciattach exactly on timeout |
| AdapterRuns.TimeoutMeans | bluedroid/bluetooth.c:178-197 | the timeout is 100 failed attempts |
| AdapterRuns.BluetoothTypes | bluedroid/bluetooth.c:63-68 | the first nine characters of the type file decide, whatever is behind them |
| AdapterRuns.HeaderContract | bluedroid/include/bluedroid/bluetooth.h:24-31 | 0 exactly on success holds except when HCIDEVUP returned 0 and bluetoothd does not start, and when the power-on write took no byte and power was off |
| AdapterRuns.ZeroWithPowerOff | bluedroid/bluetooth.c:127-133 | the second exception happens |
| AdapterRuns.FailedWithPowerOn | bluedroid/bluetooth.c:179-180 | bt_enable fails for want of a socket and the power stays on |
| AdapterRuns.ClosedTwice | bluedroid/bluetooth.c:197-222 | bt_enable runs out of attempts and closes its socket twice |
| AdapterRuns.ZeroWithoutDaemon | bluedroid/bluetooth.c:182-216 | the first exception happens |
| AdapterRuns.PowerOffRequested | bluedroid/bluetooth.c:157-216 | power off is asked for exactly after failure of hciattach, timeout, or failure of bluetoothd, once power on succeeded |
| AdapterRuns.EnableSockets | bluedroid/bluetooth.c:178-222 | one socket at a time, none left open, one close too many exactly on the timeout path |
| AdapterRuns.DisableSockets | bluedroid/bluetooth.c:238-263 | the socket opened is the one used and closed, once |
| AdapterRuns.QuerySockets | bluedroid/bluetooth.c:283-300 | the socket opened is the one used and closed, once |
| AdapterRuns.RunSockets | bluedroid/bluetooth.c:150-301 | over any sequence of calls: at most one socket open, none between calls, one stale close for each timeout |
| AdapterRuns.RunKeepsId | bluedroid/bluetooth.c:45-72 | over any sequence of calls rfkill_id, once set, stays and is the least matching number of the files it was found in |
| AdapterRuns.DisableReturns | bluedroid/bluetooth.c:231-263 | 0 exactly when bluetoothd and hciattach stop, there is a socket and the power step succeeds; otherwise -1 |
| AdapterRuns.DisableInOrder | bluedroid/bluetooth.c:225-259 | on each path of bt_disable: bluetoothd, interface, hciattach and power go down, in order |
| AdapterRuns.PowerOffExactly | bluedroid/bluetooth.c:111-138 | the power step leaves the power off exactly when its write took the byte or power was off before |
| AdapterRuns.DisableContract | bluedroid/include/bluedroid/bluetooth.h:33-40 | 0 exactly on success holds except when the interface did not go down, or the power was on and the write took no byte, or the power step failed with the power off before |
| AdapterRuns.ZeroWithPowerOn | bluedroid/bluetooth.c:127-133 | bt_disable returns 0 with the power on |
| AdapterRuns.ZeroThoughUp | bluedroid/bluetooth.c:240 | bt_disable returns 0 although HCIDEVDOWN failed |
| AdapterRuns.FailedThoughDown | bluedroid/bluetooth.c:254-259 | bt_disable returns -1 although all is down |
| AdapterRuns.DisablePowersOff | bluedroid/bluetooth.c:254-259 | a bt_disable that returns 0 leaves the power off exactly when its write took the byte or power was off |
| AdapterRuns.DisabledStaysDisabled | bluedroid/bluetooth.c:225-301 | after any calls, a bt_disable that left the power off, and any calls that do not set power, nothing has changed and bt_is_enabled returns 0 whenever the power state can be read |
| AdapterRuns.QueriesTellPower | bluedroid/bluetooth.c:274-278 | bt_is_enabled returns 0 on every readable power state exactly when the power is off |
| AdapterRuns.PowerFoundMeans | bluedroid/bluetooth.c:74-109 | which power state check_bluetooth_power tells, by the state file |
| AdapterRuns.QueryReturns | bluedroid/bluetooth.c:274-296 | 1, 0 and -1, each exactly for which answers |
| AdapterRuns.QueryContract | bluedroid/include/bluedroid/bluetooth.h:42-43 | a negative result exactly on an error holds except when HCIGETDEVINFO fails |
| AdapterRuns.ZeroOnError | bluedroid/bluetooth.c:287-290 | the exception happens |

## Left out

- PatchramAgreement.BaudAgreement: the controller is a model: it answers in order, each time the host reads an event, switches when it has answered an update, keeps its rate across resets, and is at 115200 when the file is complete. It is about runs in which no alarm handler runs behind an alarm(0).
- PatchramStream.RunAlignment: the controller is a model: it answers each command with one event, and the minidriver command with two more bytes unless no2bytes is given. It is about runs in which no alarm handler runs behind an alarm(0); PatchramStream.Alignment is not restricted to these.
- PatchramProgram.Program: an alarm that is armed when `--enable_hci` makes the program sleep forever expires forever; the run ends before that.
- PatchramOptions.Globals.ParseScopcm: the `%d` conversions and `atoi` are given by their results.
- PatchramOptions.Globals.ParseBdaddr: what the six local ints held before is an argument, since C leaves it undefined.
- ScriptSyntax.CompilerCorrect: the language is the lines that brfpatch takes, except those in which a conversion of sscanf takes white space, a sign or 0x of its own or stops at an x, a quoted byte is one digit and another character, or a quote is left open at the end of the file; these are covered by ScriptCompiler.CompileScript.
- CText: a `0x` without a digit behind it is a matching failure of `sscanf`, as ISO C99 says; some C libraries read it as 0.
- CText: texts contain no NUL, which ends a C string; only script files may contain them, and there a line ends for the parser at its first NUL.
- Lines of a script longer than 1023 characters other than comments are cut by fgets as in the code, and the rest is taken for another line; ScriptSyntax has no such lines.
- Negative results of read on the UART and on the HCD file: the code does not look for them.
- Signals are those of BSD: an interrupted read is resumed, and the handler stays installed.
- Raw mode, flow control and flushing of the UART; only the line speed is kept. `getopt_long_only` is left out: options arrive parsed, an unknown one would only print the usage text.
- `proc_enable_hci` and the endless sleep behind it: ioctls with no state to reason about. The program is modelled up to them.
- Delays (`usleep`, the retry delay), logging, debug dumps and usage texts.
- The file descriptors of rfkill files, which every path closes, and the memory of `rfkill_state_path`.
- Big-endian hosts: brfpatch writes opcodes and numbers in the order of its host.
- The rest of tools/, the BlueZ headers and the configuration files.
