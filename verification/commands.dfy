/** The tool's commands, each run against the global session: the device
    choice the command group makes first, then `info`, `write`, `read`,
    `erase`, `unlock`, `fill` or `reset`. Each command is a method that
    issues its requests on the session; its trace and its outcome are
    functions of its inputs and of whether a session was open, and the
    lemmas below state what those functions promise. */
module Commands {
  import opened Format
  import opened HexDump
  import opened Image
  import opened Device

  /** The Python exceptions a command can end in. */
  datatype Error = NameError | ValueError | IndexError | OSError

  datatype Result<T> = Ok(value: T) | Err(error: Error)

  /** A file `read` writes. */
  datatype SavedFile =
    | RawFile(bytes: seq<Byte>)
    | HexFile(memory: map<nat, Byte>, startAddr: nat)
    | SRecFile(header: string, startAddr: nat, bytes: seq<Byte>)

  /** How a command ends, as the user sees it. */
  datatype Outcome =
    | Skipped                     // no session: the command does nothing
    | NoDevice                    // no device was found by the scan
    | Selected(device: nat)       // the command group connected this device
    | Raised(error: Error)        // an exception the command does not catch
    | Unsupported                 // "Not supported file type"
    | Reported(status: Status)    // "<command> Command Status: <name>"
    | Unread                      // the read was refused: nothing is printed
    | Dumped(text: string)        // the hexdump of the memory read
    | Saved(file: SavedFile)      // "Successfully saved into file"
    | SaveFailed(file: SavedFile) // "Could not write to file"
    | Shown(lines: seq<string>)   // the MCU info table

  /** How many times a stretch of requests closes the session. */
  function Disconnects(events: seq<Event>): nat {
    if events == [] then 0
    else Disconnects(events[..|events| - 1]) + (if events[|events| - 1].Disconnect? then 1 else 0)
  }

  lemma {:induction false} DisconnectsAppend(a: seq<Event>, b: seq<Event>)
    ensures Disconnects(a + b) == Disconnects(a) + Disconnects(b)
    decreases |b|
  {
    if b == [] {
      assert a + b == a;
    } else {
      var last := |b| - 1;
      assert (a + b)[..|a + b| - 1] == a + b[..last];
      DisconnectsAppend(a, b[..last]);
    }
  }

  // ---------------------------------------------------------------------
  // Device choice

  /** `int(c, 10)` on the one character `getchar` returns: a decimal digit,
      or a `ValueError`. */
  function DigitValueOf(c: char): (r: Result<nat>)
    ensures r.Ok? <==> '0' <= c <= '9'
    ensures r.Ok? ==> r.value < 10 && c == ('0' as int + r.value) as char
    ensures r.Err? ==> r.error == ValueError
  {
    if '0' <= c <= '9' then Ok(c as int - '0' as int) else Err(ValueError)
  }

  /** The device the command group connects: the only one, or the one whose
      number the user types; `devs[index]` raises `IndexError` past the end
      of the list. */
  function DeviceIndex(count: nat, choice: char): (r: Result<nat>)
    requires count > 0
    ensures r.Ok? ==> r.value < count
    ensures count == 1 ==> r == Ok(0)
    ensures count > 1 && r.Ok? ==> DigitValueOf(choice) == Ok(r.value)
    ensures count > 1 && r.Err? ==>
      (r.error == ValueError && DigitValueOf(choice).Err?) ||
      (r.error == IndexError && DigitValueOf(choice).Ok? && DigitValueOf(choice).value >= count)
  {
    if count == 1 then Ok(0)
    else
      match DigitValueOf(choice)
      case Err(e) => Err(e)
      case Ok(index) => if index < count then Ok(index) else Err(IndexError)
  }

  /** The command group's callback: scan, choose, connect. */
  method Cli(kb: KBoot, devices: seq<nat>, choice: char) returns (outcome: Outcome)
    requires kb.Valid()
    modifies kb
    ensures kb.Valid()
    ensures devices == [] ==> outcome == NoDevice && kb.trace == old(kb.trace) && kb.connected == old(kb.connected)
    ensures devices != [] ==>
      match DeviceIndex(|devices|, choice)
      case Ok(index) =>
        && outcome == Selected(devices[index]) && kb.connected
        && kb.trace == old(kb.trace) + [Event.Connect(devices[index])]
      case Err(e) =>
        outcome == Raised(e) && kb.trace == old(kb.trace) && kb.connected == old(kb.connected)
  {
    if devices == [] {
      return NoDevice;
    }
    var index := 0;
    if |devices| > 1 {
      var parsed := DigitValueOf(choice);
      if parsed.Err? {
        return Raised(parsed.error);
      }
      index := parsed.value;
      if index >= |devices| {
        return Raised(IndexError);
      }
    }
    kb.Connect(devices[index]);
    return Selected(devices[index]);
  }

  // ---------------------------------------------------------------------
  // info

  /** One entry of the property table `get_mcu_info` returns. */
  datatype Property = Property(name: string, raw: nat, text: string)

  /** `' %-20s = 0x%08X (%s)' % (key, raw_value, string)`. */
  function InfoLine(p: Property): string {
    " " + PadRight(p.name, 20) + " = 0x" + HexZ(p.raw, 8) + " (" + p.text + ")"
  }

  /** The table: a rule, the title, a rule, one line per property, a rule. */
  function InfoLines(properties: seq<Property>): (lines: seq<string>)
    ensures |lines| == |properties| + 4
  {
    [Repeat('-', 40), " Connected MCU KBoot Info", Repeat('-', 40)]
      + seq(|properties|, i requires 0 <= i < |properties| => InfoLine(properties[i]))
      + [Repeat('-', 40)]
  }

  /** A property line shows the name left-justified in 20 columns and the
      raw value as eight or more hex digits that read back as that value. */
  lemma InfoLineLayout(p: Property)
    requires |p.name| <= 20
    ensures var line := InfoLine(p);
      && line[1..21] == PadRight(p.name, 20)
      && line[21..26] == " = 0x"
      && (p.raw < 0x1_0000_0000 ==>
            AllHexDigits(line[26..34]) && HexValue(line[26..34]) == p.raw && line[34..36] == " (")
  {
    var padded := PadRight(p.name, 20);
    var digits := HexZ(p.raw, 8);
    ConcatParts(" ", padded, " = 0x");
    HexZRoundTrip(p.raw, 8);
    var front := " " + padded + " = 0x";
    assert |front| == 26;
    var rest := " (" + p.text + ")";
    assert InfoLine(p) == front + digits + rest;
    ConcatParts(front, digits, rest);
    SliceOfSlice(InfoLine(p), 0, 26, 1, 21);
    SliceOfSlice(InfoLine(p), 0, 26, 21, 26);
    if p.raw < 0x1_0000_0000 {
      HexWidth8(p.raw);
      assert |digits| == 8;
      SliceOfSlice(InfoLine(p), 34, |InfoLine(p)|, 0, 2);
      assert rest[..2] == " (";
    }
  }

  /** A value below 2^32 has at most eight hex digits. */
  lemma {:induction false} HexWidth8(n: nat)
    requires n < 0x1_0000_0000
    ensures |HexDigits(n)| <= 8
  {
    HexDigitsLength(n, 8);
  }

  /** A value below 16^k has at most k hex digits. */
  lemma {:induction false} HexDigitsLength(n: nat, k: nat)
    requires k > 0 && n < Power16(k)
    ensures |HexDigits(n)| <= k
    decreases k
  {
    if n >= 16 {
      assert Power16(k) == 16 * Power16(k - 1);
      assert k > 1;
      assert n / 16 < Power16(k - 1);
      HexDigitsLength(n / 16, k - 1);
    }
  }

  function Power16(k: nat): (p: nat)
    ensures p > 0
  {
    if k == 0 then 1 else 16 * Power16(k - 1)
  }

  /** `info`: ask for the properties, print the table, close the session. */
  method Info(kb: KBoot, properties: seq<Property>) returns (outcome: Outcome)
    requires kb.Valid()
    modifies kb
    ensures kb.Valid()
    ensures !old(kb.connected) ==> outcome == Skipped && kb.trace == old(kb.trace) && !kb.connected
    ensures old(kb.connected) ==>
      && outcome == Shown(InfoLines(properties))
      && kb.trace == old(kb.trace) + [Event.GetMcuInfo, Event.Disconnect]
      && !kb.connected
  {
    if !kb.connected {
      return Skipped;
    }
    kb.GetMcuInfo();
    var lines := [Repeat('-', 40), " Connected MCU KBoot Info", Repeat('-', 40)];
    var i := 0;
    while i < |properties|
      invariant 0 <= i <= |properties|
      invariant lines == [Repeat('-', 40), " Connected MCU KBoot Info", Repeat('-', 40)]
        + seq(i, j requires 0 <= j < i => InfoLine(properties[j]))
    {
      lines := lines + [InfoLine(properties[i])];
      i := i + 1;
    }
    lines := lines + [Repeat('-', 40)];
    kb.Disconnect();
    return Shown(lines);
  }

  // ---------------------------------------------------------------------
  // write

  /** What the file system and the image libraries give `write` for its
      input file: whether the path exists, its bytes (`None` when `open`
      raised, as it does for a directory or an unreadable file), the address map
      `IntelHex.todict` returns (`None` when `loadfile` raised) and what
      `SRecFile.open` reads (`None` when it raised). */
  datatype InputFile = InputFile(
    present: bool,
    raw: Option<seq<Byte>>,
    hex: Option<map<nat, Byte>>,
    srec: Option<SRecImage>)

  /** The result of loading the input file. */
  datatype Load =
    | Loaded(data: seq<Byte>, saddr: nat) // the image and the address to write it at
    | LoadFailed                          // the library raised: the session is closed, `data` stays empty
    | NotSupported                        // no known suffix
    | Crashed(error: Error)               // an uncaught exception

  /** The image `write` loads, and the address it will write it at. */
  ghost function LoadImage(format: Option<FileFormat>, input: InputFile, saddr: nat): Load {
    if !input.present then Crashed(NameError)
    else
      match format
      case None => NotSupported
      case Some(RawBinary) =>
        (match input.raw
         case None => Crashed(OSError)
         case Some(bytes) => Loaded(bytes, saddr))
      case Some(IntelHex) =>
        (match input.hex
         case None => LoadFailed
         case Some(dhex) => if dhex == map[] then Crashed(ValueError) else Loaded(HexBuffer(dhex), saddr))
      case Some(SRecord) =>
        (match input.srec
         case None => LoadFailed
         case Some(image) => Loaded(image.data, if saddr == 0 then image.startAddr else saddr))
  }

  /** Erase everything, write only when the erase succeeded, close. */
  function Programming(data: seq<Byte>, saddr: nat, erase: Status, written: Status): seq<Event> {
    [FlashEraseAllUnsecure(erase)]
      + (if erase == Success then [WriteMemory(saddr, data, written)] else [])
      + [Event.Disconnect]
  }

  ghost function WriteTrace(connected: bool, format: Option<FileFormat>, input: InputFile, saddr: nat, foffset: nat,
                            erase: Status, written: Status): seq<Event>
  {
    if !connected then []
    else
      match LoadImage(format, input, saddr)
      case Crashed(_) => []
      case NotSupported => [Event.Disconnect]
      case LoadFailed => [Event.Disconnect] + Programming([], saddr, erase, written)
      case Loaded(data, address) => Programming(Shifted(data, foffset), address, erase, written)
  }

  ghost function WriteOutcome(connected: bool, format: Option<FileFormat>, input: InputFile, saddr: nat,
                              erase: Status, written: Status): Outcome
  {
    if !connected then Skipped
    else
      match LoadImage(format, input, saddr)
      case Crashed(e) => Raised(e)
      case NotSupported => Unsupported
      case _ => Reported(if erase == Success then written else erase)
  }

  /** The loading half of `write`: the branch on the suffix, which fills
      `data` and may replace the address, and closes the session when the
      suffix is unknown or the library raised. */
  method LoadInput(kb: KBoot, format: Option<FileFormat>, input: InputFile, saddr: nat) returns (load: Load)
    requires kb.Valid() && input.present
    modifies kb
    ensures kb.Valid()
    ensures load == LoadImage(format, input, saddr)
    ensures kb.trace == old(kb.trace) + (if load.LoadFailed? || load.NotSupported? then [Event.Disconnect] else [])
  {
    var address := saddr;
    var data: seq<Byte> := [];
    if format == Some(RawBinary) {
      if input.raw.None? {
        return Crashed(OSError);
      }
      data := data + input.raw.value;
    } else if format == Some(IntelHex) {
      if input.hex.None? {
        kb.Disconnect();
        return LoadFailed;
      }
      var filled := GapFill(input.hex.value);
      if filled.None? {
        return Crashed(ValueError);
      }
      data := filled.value;
    } else if format == Some(SRecord) {
      if input.srec.None? {
        kb.Disconnect();
        return LoadFailed;
      }
      data := input.srec.value.data;
      if address == 0 {
        address := input.srec.value.startAddr;
      }
    } else {
      kb.Disconnect();
      return NotSupported;
    }
    return Loaded(data, address);
  }

  /** `write`: load the image, drop the first `foffset` bytes when there are
      more than that, erase the whole flash, write the image if the erase
      succeeded, close the session. `erase` and `written` are the device's
      answers to the two requests. */
  method Write(kb: KBoot, saddr: nat, foffset: nat, file: string, input: InputFile,
               erase: Status, written: Status)
    returns (outcome: Outcome)
    requires kb.Valid()
    modifies kb
    ensures kb.Valid()
    ensures kb.trace == old(kb.trace) + WriteTrace(old(kb.connected), WriteFormat(file), input, saddr, foffset, erase, written)
    ensures outcome == WriteOutcome(old(kb.connected), WriteFormat(file), input, saddr, erase, written)
  {
    outcome := WriteImage(kb, saddr, foffset, WriteFormat(file), input, erase, written);
  }

  /** `write` once the file name's suffix has chosen the format. */
  method WriteImage(kb: KBoot, saddr: nat, foffset: nat, format: Option<FileFormat>, input: InputFile,
                    erase: Status, written: Status)
    returns (outcome: Outcome)
    requires kb.Valid()
    modifies kb
    ensures kb.Valid()
    ensures kb.trace == old(kb.trace) + WriteTrace(old(kb.connected), format, input, saddr, foffset, erase, written)
    ensures outcome == WriteOutcome(old(kb.connected), format, input, saddr, erase, written)
  {
    if !kb.connected {
      return Skipped;
    }
    if !input.present {
      // `data` is never bound, so the offset test raises
      return Raised(NameError);
    }
    var load := LoadInput(kb, format, input, saddr);
    if load.Crashed? {
      return Raised(load.error);
    } else if load.NotSupported? {
      return Unsupported;
    } else if load.Loaded? {
      var status := Program(kb, load.data, load.saddr, foffset, erase, written);
      return Reported(status);
    } else {
      var status := Program(kb, [], saddr, foffset, erase, written);
      return Reported(status);
    }
  }

  /** The programming half of `write`: the offset slice, the erase, the
      write when the erase succeeded, and closing the session. */
  method Program(kb: KBoot, data: seq<Byte>, saddr: nat, foffset: nat, erase: Status, written: Status)
    returns (status: Status)
    requires kb.Valid()
    modifies kb
    ensures kb.Valid()
    ensures kb.trace == old(kb.trace) + Programming(Shifted(data, foffset), saddr, erase, written)
    ensures status == if erase == Success then written else erase
  {
    var image := data;
    if foffset < |image| {
      image := image[foffset..];
    }
    status := kb.Request(FlashEraseAllUnsecure(erase));
    if status == Success {
      status := kb.Request(WriteMemory(saddr, image, written));
    }
    kb.Disconnect();
  }

  /** The erase always comes first, and the write comes right after it and
      only when it answered `Success`; the session is closed last. */
  lemma ProgrammingOrder(data: seq<Byte>, saddr: nat, erase: Status, written: Status)
    ensures var events := Programming(data, saddr, erase, written);
      && events[0] == FlashEraseAllUnsecure(erase)
      && events[|events| - 1] == Event.Disconnect
      && (WriteMemory(saddr, data, written) in events <==> erase == Success)
      && (forall i :: 0 <= i < |events| && events[i].WriteMemory? ==>
            i == 1 && events[i - 1] == FlashEraseAllUnsecure(Success))
      && Disconnects(events) == 1
      && !SessionOpen(true, events)
  {
    var events := Programming(data, saddr, erase, written);
    var middle := if erase == Success then [WriteMemory(saddr, data, written)] else [];
    assert events == [FlashEraseAllUnsecure(erase)] + middle + [Event.Disconnect];
    DisconnectsAppend([FlashEraseAllUnsecure(erase)] + middle, [Event.Disconnect]);
    DisconnectsAppend([FlashEraseAllUnsecure(erase)], middle);
  }

  /** With a session open and the image loaded, the flash is always erased,
      even for an empty image, and the image is written iff the erase
      succeeded, at the address `LoadImage` chose and without its first
      `foffset` bytes. */
  lemma WriteAfterErase(format: Option<FileFormat>, input: InputFile, saddr: nat, foffset: nat,
                        erase: Status, written: Status)
    requires LoadImage(format, input, saddr).Loaded?
    ensures var load := LoadImage(format, input, saddr);
      var events := WriteTrace(true, format, input, saddr, foffset, erase, written);
      && events[0] == FlashEraseAllUnsecure(erase)
      && (WriteMemory(load.saddr, Shifted(load.data, foffset), written) in events <==> erase == Success)
      && (forall i :: 0 <= i < |events| && events[i].WriteMemory? ==>
            i == 1 && events[i - 1] == FlashEraseAllUnsecure(Success))
      && Disconnects(events) == 1
  {
    var load := LoadImage(format, input, saddr);
    ProgrammingOrder(Shifted(load.data, foffset), load.saddr, erase, written);
  }

  /** No write request is ever made unless a session was open, the file
      existed with a supported suffix, nothing raised, and the erase answered
      `Success`. */
  lemma WriteOnlyAfterSuccess(connected: bool, format: Option<FileFormat>, input: InputFile, saddr: nat, foffset: nat,
                              erase: Status, written: Status)
    ensures var events := WriteTrace(connected, format, input, saddr, foffset, erase, written);
      var load := LoadImage(format, input, saddr);
      (exists i :: 0 <= i < |events| && events[i].WriteMemory?) <==>
        connected && (load.Loaded? || load.LoadFailed?) && erase == Success
  {
    var events := WriteTrace(connected, format, input, saddr, foffset, erase, written);
    var load := LoadImage(format, input, saddr);
    if connected && load.Loaded? {
      var data := Shifted(load.data, foffset);
      ProgrammingOrder(data, load.saddr, erase, written);
      if erase == Success {
        assert events[1] == WriteMemory(load.saddr, data, written);
      }
    } else if connected && load.LoadFailed? {
      ProgrammingOrder([], saddr, erase, written);
      if erase == Success {
        assert events[2] == WriteMemory(saddr, [], written);
      }
    }
  }

  /** An unsupported suffix closes the session and requests nothing else. */
  lemma UnsupportedSuffix(file: string, input: InputFile, saddr: nat, foffset: nat,
                          erase: Status, written: Status)
    requires input.present && WriteFormat(file) == None
    ensures WriteTrace(true, WriteFormat(file), input, saddr, foffset, erase, written) == [Event.Disconnect]
    ensures WriteOutcome(true, WriteFormat(file), input, saddr, erase, written) == Unsupported
  {
  }

  /** A `.bin` path that exists but cannot be opened raises `OSError`: no
      request is made and the session stays open. */
  lemma UnreadableBinary(file: string, input: InputFile, saddr: nat, foffset: nat,
                         erase: Status, written: Status)
    requires input.present && HasSuffix(file, ".bin") && input.raw.None?
    ensures WriteTrace(true, WriteFormat(file), input, saddr, foffset, erase, written) == []
    ensures WriteOutcome(true, WriteFormat(file), input, saddr, erase, written) == Raised(OSError)
  {
  }

  /** A file the library failed to read closes the session, and the command
      still issues the erase request, the write request of an empty image
      when the erase is answered `Success`, and a second disconnect, all on
      the closed session. */
  lemma FailedLoadFallsThrough(format: Option<FileFormat>, input: InputFile, saddr: nat, foffset: nat,
                               erase: Status, written: Status)
    requires LoadImage(format, input, saddr) == LoadFailed
    ensures var events := WriteTrace(true, format, input, saddr, foffset, erase, written);
      && events[0] == Event.Disconnect
      && events[1] == FlashEraseAllUnsecure(erase)
      && (erase == Success ==> events[2] == WriteMemory(saddr, [], written))
      && Disconnects(events) == 2
  {
    var rest := Programming([], saddr, erase, written);
    ProgrammingOrder([], saddr, erase, written);
    DisconnectsAppend([Event.Disconnect], rest);
  }

  /** An S-record image is written at the file's own start address when the
      address option is 0, and at the option's address otherwise. */
  lemma SRecordAddress(file: string, input: InputFile, saddr: nat, foffset: nat, written: Status)
    requires input.present && SRecordName(file) && input.srec.Some?
    ensures var image := input.srec.value;
      var address := if saddr == 0 then image.startAddr else saddr;
      WriteTrace(true, WriteFormat(file), input, saddr, foffset, Success, written)
        == [FlashEraseAllUnsecure(Success), WriteMemory(address, Shifted(image.data, foffset), written),
            Event.Disconnect]
  {
  }

  /** An Intel HEX image is sent as one buffer from address 0 up to its
      highest address, the gaps filled with 0xFF, and the offset then cuts
      from address 0, not from the lowest address in the file. */
  lemma HexImageSent(file: string, input: InputFile, saddr: nat, foffset: nat, written: Status)
    requires input.present && HasSuffix(file, ".hex")
    requires input.hex.Some? && input.hex.value != map[]
    ensures var buffer := HexBuffer(input.hex.value);
      && GapFilled(input.hex.value, buffer)
      && WriteTrace(true, WriteFormat(file), input, saddr, foffset, Success, written)
           == [FlashEraseAllUnsecure(Success), WriteMemory(saddr, Shifted(buffer, foffset), written),
               Event.Disconnect]
  {
  }

  /** What `read` saves in Intel HEX format, `write` loads back as the same
      bytes. */
  lemma SavedHexReloads(file: string, memory: seq<Byte>, saddr: nat)
    requires SaveFormat(file) == Some(IntelHex) && memory != []
    ensures LoadImage(WriteFormat(file), InputFile(true, None, Some(FromBytes(memory, 0)), None), saddr) == Loaded(memory, saddr)
  {
    SaveThenWrite(file);
    var dhex := FromBytes(memory, 0);
    FromBytesRoundTrip(memory);
    assert 0 in dhex;
    GapFilledUnique(dhex, HexBuffer(dhex), memory);
  }

  // ---------------------------------------------------------------------
  // read

  /** The row width `read` dumps with: `hexdump`'s default. */
  const DumpWidth: nat := 16

  /** What `read` does with the memory it got back: print a dump, or save a
      file in the format the suffix names. `saved` says whether writing the
      file succeeded; a failed `.bin` write is not caught. */
  function ReadResult(file: Option<string>, memory: seq<Byte>, saddr: nat, saved: bool): Outcome {
    match file
    case None => Dumped(Join(DumpLines(memory, saddr, DumpWidth, '.')))
    case Some(name) =>
      match SaveFormat(name)
      case None => Unsupported
      case Some(RawBinary) => if saved then Saved(RawFile(memory)) else Raised(OSError)
      case Some(IntelHex) =>
        var hex := HexFile(FromBytes(memory, 0), saddr);
        if saved then Saved(hex) else SaveFailed(hex)
      case Some(SRecord) =>
        var srec := SRecFile("KBOOT", saddr, memory);
        if saved then Saved(srec) else SaveFailed(srec)
  }

  function ReadOutcome(connected: bool, saddr: nat, file: Option<string>, answer: Status,
                       memory: seq<Byte>, saved: bool): Outcome
  {
    if !connected then Skipped
    else if answer != Success then Unread
    else ReadResult(file, memory, saddr, saved)
  }

  /** Saving a `.bin` file is the one step of `read` that can raise. */
  predicate ReadRaises(file: Option<string>, answer: Status, saved: bool) {
    answer == Success && file.Some? && SaveFormat(file.value) == Some(RawBinary) && !saved
  }

  /** The requests of `read`: the read itself, then closing the session
      unless the command raised. */
  function ReadTrace(connected: bool, saddr: nat, dlen: nat, answer: Status, raised: bool): seq<Event>
  {
    if !connected then []
    else [ReadMemory(saddr, dlen, answer)] + (if raised then [] else [Event.Disconnect])
  }

  /** The half of `read` that runs after a `Success`: print the hexdump
      when no file is named, else save in the format the suffix names. */
  method Deliver(file: Option<string>, memory: seq<Byte>, saddr: nat, saved: bool) returns (outcome: Outcome)
    ensures outcome == ReadResult(file, memory, saddr, saved)
    ensures outcome.Raised? <==> ReadRaises(file, Success, saved)
  {
    if file.None? {
      var text := Render(memory, saddr, DumpWidth, '.');
      return Dumped(text);
    }
    var format := SaveFormat(file.value);
    if format == Some(RawBinary) {
      if !saved {
        return Raised(OSError);
      }
      outcome := Saved(RawFile(memory));
    } else if format == Some(IntelHex) {
      var hex := HexFile(FromBytes(memory, 0), saddr);
      outcome := if saved then Saved(hex) else SaveFailed(hex);
    } else if format == Some(SRecord) {
      var srec := SRecFile("KBOOT", saddr, memory);
      outcome := if saved then Saved(srec) else SaveFailed(srec);
    } else {
      outcome := Unsupported;
    }
  }

  /** `read`: ask for `dlen` bytes at `saddr`; on `Success`, print them as a
      hexdump or save them; close the session. `answer` and `memory` are the
      device's reply, `saved` whether the file system accepted the file. */
  method Read(kb: KBoot, saddr: nat, dlen: nat, file: Option<string>, answer: Status,
              memory: seq<Byte>, saved: bool)
    returns (outcome: Outcome)
    requires kb.Valid()
    modifies kb
    ensures kb.Valid()
    ensures outcome == ReadOutcome(old(kb.connected), saddr, file, answer, memory, saved)
    ensures kb.trace == old(kb.trace) + ReadTrace(old(kb.connected), saddr, dlen, answer, outcome.Raised?)
  {
    if !kb.connected {
      return Skipped;
    }
    var status := kb.Request(ReadMemory(saddr, dlen, answer));
    outcome := Unread;
    if status == Success {
      outcome := Deliver(file, memory, saddr, saved);
      if outcome.Raised? {
        return;
      }
    }
    kb.Disconnect();
    AppendAssoc(old(kb.trace), [ReadMemory(saddr, dlen, answer)], [Event.Disconnect]);
  }

  /** `read` saves only under `.bin`, `.hex`, `.s19` and `.srec`: a name
      ending in `.s`, which `write` accepts, gets no file. */
  lemma ReadSuffixes(saddr: nat, memory: seq<Byte>, saved: bool, name: string)
    ensures var outcome := ReadResult(Some(name), memory, saddr, saved);
      (outcome.Saved? || outcome.SaveFailed? || outcome.Raised?) <==> SaveFormat(name).Some?
    ensures ReadResult(Some("image.s"), memory, saddr, saved) == Unsupported
  {
    ShortSRecordSuffix();
  }

  /** A read with a session open closes it exactly once, whatever the
      device answered, unless saving a `.bin` file raised; that is the only
      exception `read` lets through. */
  lemma ReadCloses(saddr: nat, dlen: nat, file: Option<string>, answer: Status, saved: bool)
    ensures var events := ReadTrace(true, saddr, dlen, answer, ReadRaises(file, answer, saved));
      && events[0] == ReadMemory(saddr, dlen, answer)
      && Disconnects(events) == (if ReadRaises(file, answer, saved) then 0 else 1)
      && SessionOpen(true, events) == ReadRaises(file, answer, saved)
  {
    var request := ReadMemory(saddr, dlen, answer);
    CommandCloses(request, !ReadRaises(file, answer, saved));
    assert ReadTrace(true, saddr, dlen, answer, ReadRaises(file, answer, saved))
        == CommandTrace(true, request, !ReadRaises(file, answer, saved));
  }

  /** The only exception `read` lets through is a failed `.bin` save after
      a successful read. */
  lemma ReadRaisesOnlyOnBin(saddr: nat, file: Option<string>, answer: Status, memory: seq<Byte>, saved: bool)
    ensures ReadOutcome(true, saddr, file, answer, memory, saved).Raised? <==> ReadRaises(file, answer, saved)
  {
  }

  // ---------------------------------------------------------------------
  // erase, unlock, fill, reset

  /** The erase request: the whole flash when `mass` is set or no length is
      given (absent or empty), else the region `[addr, addr + length)`. */
  function EraseRequest(addr: nat, length: Option<nat>, mass: bool, answer: Status): (e: Event)
    ensures e.FlashEraseAll? <==> mass || length.None?
    ensures e.FlashEraseRegion? <==> !mass && length.Some?
    ensures e.FlashEraseRegion? ==> e.address == addr && e.length == length.value
    ensures e.status == answer
  {
    if mass || length.None? then FlashEraseAll(answer) else FlashEraseRegion(addr, length.value, answer)
  }

  method Erase(kb: KBoot, addr: nat, length: Option<nat>, mass: bool, answer: Status)
    returns (outcome: Outcome)
    requires kb.Valid()
    modifies kb
    ensures kb.Valid()
    ensures kb.trace == old(kb.trace) + CommandTrace(old(kb.connected), EraseRequest(addr, length, mass, answer), true)
    ensures outcome == (if old(kb.connected) then Reported(answer) else Skipped)
  {
    if !kb.connected {
      return Skipped;
    }
    var status: Status;
    if mass || length.None? {
      status := kb.Request(FlashEraseAll(answer));
    } else {
      status := kb.Request(FlashEraseRegion(addr, length.value, answer));
    }
    kb.Disconnect();
    return Reported(status);
  }

  /** One request, followed by closing the session when `closes`; nothing
      at all without a session. */
  function CommandTrace(connected: bool, request: Event, closes: bool): seq<Event> {
    if !connected then [] else [request] + (if closes then [Event.Disconnect] else [])
  }

  /** `key[2:]` of a key starting with `S` as a list of characters, an
      empty list for any other key; an empty key raises at `key[0]`. */
  function BackdoorKey(key: string): (r: Option<seq<char>>)
    ensures r.None? <==> key == []
    ensures r.Some? && key[0] == 'S' && |key| >= 2 ==> key == key[..2] + r.value
    ensures r.Some? && (key[0] != 'S' || |key| < 2) ==> r.value == []
  {
    if key == [] then None
    else if key[0] == 'S' then Some(if |key| >= 2 then key[2..] else [])
    else Some([])
  }

  /** An illustration on four keys of what `BackdoorKey` states for all:
      the hex key form is not decoded, and the string form's length is not
      checked. */
  lemma BackdoorKeyForms()
    ensures BackdoorKey("X:0102030405060708") == Some([])
    ensures BackdoorKey("S:ABCDEFGH") == Some("ABCDEFGH")
    ensures BackdoorKey("S:A") == Some("A")
    ensures BackdoorKey("S") == Some([])
  {
    assert "S:ABCDEFGH"[2..] == "ABCDEFGH";
    assert "S:A"[2..] == "A";
  }

  /** The unlock request: erase-all-and-unsecure without a key, else a
      security-disable with the backdoor key. */
  function UnlockRequest(key: Option<string>, answer: Status): Option<Event> {
    match key
    case None => Some(FlashEraseAllUnsecure(answer))
    case Some(k) =>
      match BackdoorKey(k)
      case None => None
      case Some(bytes) => Some(FlashSecurityDisable(bytes, answer))
  }

  method Unlock(kb: KBoot, key: Option<string>, answer: Status) returns (outcome: Outcome)
    requires kb.Valid()
    modifies kb
    ensures kb.Valid()
    ensures !old(kb.connected) ==> kb.trace == old(kb.trace) && outcome == Skipped
    ensures old(kb.connected) ==>
      match UnlockRequest(key, answer)
      case None => kb.trace == old(kb.trace) && outcome == Raised(IndexError)
      case Some(request) =>
        kb.trace == old(kb.trace) + CommandTrace(true, request, true) && outcome == Reported(answer)
  {
    if !kb.connected {
      return Skipped;
    }
    var status: Status;
    if key.None? {
      status := kb.Request(FlashEraseAllUnsecure(answer));
    } else {
      var bdoor := BackdoorKey(key.value);
      if bdoor.None? {
        return Raised(IndexError);
      }
      status := kb.Request(FlashSecurityDisable(bdoor.value, answer));
    }
    kb.Disconnect();
    return Reported(status);
  }

  /** Without a key the flash is erased and unsecured; with one, the device
      is asked to disable security with the characters after `S:`, or with
      an empty key for every other form. */
  lemma UnlockBranches(key: Option<string>, answer: Status)
    ensures key.None? ==> UnlockRequest(key, answer) == Some(FlashEraseAllUnsecure(answer))
    ensures key.Some? && key.value != [] && key.value[0] != 'S' ==>
      UnlockRequest(key, answer) == Some(FlashSecurityDisable([], answer))
    ensures key.Some? && |key.value| >= 2 && key.value[0] == 'S' ==>
      UnlockRequest(key, answer) == Some(FlashSecurityDisable(key.value[2..], answer))
    ensures UnlockRequest(key, answer).None? <==> key == Some([])
  {
    if key.Some? && |key.value| >= 2 && key.value[0] == 'S' {
      var k := key.value;
      assert k == k[..2] + BackdoorKey(k).value;
      assert k[2..] == BackdoorKey(k).value;
    }
  }

  method Fill(kb: KBoot, addr: nat, length: nat, pattern: nat, answer: Status) returns (outcome: Outcome)
    requires kb.Valid()
    modifies kb
    ensures kb.Valid()
    ensures kb.trace == old(kb.trace) + CommandTrace(old(kb.connected), FillMemory(addr, length, pattern, answer), true)
    ensures outcome == (if old(kb.connected) then Reported(answer) else Skipped)
  {
    if !kb.connected {
      return Skipped;
    }
    var status := kb.Request(FillMemory(addr, length, pattern, answer));
    kb.Disconnect();
    return Reported(status);
  }

  /** `reset` leaves the session open. */
  method ResetMcu(kb: KBoot, answer: Status) returns (outcome: Outcome)
    requires kb.Valid()
    modifies kb
    ensures kb.Valid()
    ensures kb.trace == old(kb.trace) + CommandTrace(old(kb.connected), Reset(answer), false)
    ensures kb.connected == old(kb.connected)
    ensures outcome == (if old(kb.connected) then Reported(answer) else Skipped)
  {
    if !kb.connected {
      return Skipped;
    }
    var status := kb.Request(Reset(answer));
    return Reported(status);
  }

  /** A command with an open session issues its request first, closes the
      session exactly once when it closes at all, and leaves it closed; one
      that does not close leaves it open. */
  lemma CommandCloses(request: Event, closes: bool)
    requires !request.Connect? && !request.Disconnect?
    ensures var events := CommandTrace(true, request, closes);
      && events[0] == request
      && Disconnects(events) == (if closes then 1 else 0)
      && SessionOpen(true, events) == !closes
  {
    var tail: seq<Event> := if closes then [Event.Disconnect] else [];
    DisconnectsAppend([request], tail);
    SessionOpenAppend(true, [request], tail);
    assert Disconnects([request]) == 0 by {
      assert [request][..0] == [];
    }
    if closes {
      assert Disconnects(tail) == 1 by {
        assert tail[..0] == [];
      }
    }
  }

  /** Every command does nothing without a session. */
  lemma NothingWithoutSession(format: Option<FileFormat>, input: InputFile, saddr: nat, foffset: nat, dlen: nat,
                              target: Option<string>, request: Event, closes: bool,
                              answer: Status, written: Status, memory: seq<Byte>, saved: bool)
    ensures WriteTrace(false, format, input, saddr, foffset, answer, written) == []
    ensures WriteOutcome(false, format, input, saddr, answer, written) == Skipped
    ensures ReadTrace(false, saddr, dlen, answer, ReadRaises(target, answer, saved)) == []
    ensures ReadOutcome(false, saddr, target, answer, memory, saved) == Skipped
    ensures CommandTrace(false, request, closes) == []
  {
  }

  /** Of the commands, `erase`, `unlock`, `fill` close the session once and
      `reset` never does. */
  lemma DisconnectCounts(addr: nat, length: Option<nat>, mass: bool, key: string, count: nat, pattern: nat,
                          answer: Status)
    requires key != []
    ensures Disconnects(CommandTrace(true, EraseRequest(addr, length, mass, answer), true)) == 1
    ensures Disconnects(CommandTrace(true, UnlockRequest(Some(key), answer).value, true)) == 1
    ensures Disconnects(CommandTrace(true, UnlockRequest(None, answer).value, true)) == 1
    ensures Disconnects(CommandTrace(true, FillMemory(addr, count, pattern, answer), true)) == 1
    ensures Disconnects(CommandTrace(true, Reset(answer), false)) == 0
  {
    CommandCloses(EraseRequest(addr, length, mass, answer), true);
    CommandCloses(UnlockRequest(Some(key), answer).value, true);
    CommandCloses(UnlockRequest(None, answer).value, true);
    CommandCloses(FillMemory(addr, count, pattern, answer), true);
    CommandCloses(Reset(answer), false);
  }
}
