# kboot_cli command core in Dafny

A verified model of the command-line front end of pyKBoot (`kboot_cli/main.py`),
the operator tool that writes, reads, erases, unlocks, fills and resets the
memory of a microcontroller running the Kinetis ROM bootloader (KBoot). It covers
three parts:

- **The `hexdump` renderer** (`hexdump.dfy`, module `HexDump`). A byte list, a
  start address, a row width and a placeholder character become a text grid.
  The grid has a header with two-digit and one-digit column labels, then a rule.
  Next comes one line per row of bytes: an eight-digit address, the hex cells and
  the printable text. A closing rule ends it. Rows are aligned to multiples of
  the width. The first row of an unaligned dump starts with blank cells.
  `Render` and its helper methods are the source's loops. The functions
  `DumpLines`, `Rows`, `RowLine`, `RowBytes` and `RowAddress` are the
  specification they are proved against. The lemmas state:
  - the row count;
  - the row addresses and their alignment;
  - that every byte appears exactly once, in order;
  - the per-byte cells;
  - the header;
  - the padding.
- **Write-image preparation** (`image.dfy`, module `Image`):
  - the choice of format from the lower-cased suffix of the file name, with
    `write`'s and `read`'s slightly different suffix lists;
  - the Intel HEX gap-fill, from address 0 to the highest key, with 0xFF in the
    gaps (`GapFill`, a loop over an array, proved equal to the specification
    `HexBuffer`);
  - `IntelHex.frombytes`;
  - the offset slice.
- **Command sequencing** (`device.dfy` and `commands.dfy`, modules `Device` and
  `Commands`):
  - The global `kboot` object is a class `KBoot`. It holds a `connected` flag
    and a trace of the requests made so far; its invariant is that the flag is
    what the trace says.
  - Each command (`Cli`, `Info`, `Write`, `Read`, `Erase`, `Unlock`, `Fill`,
    `ResetMcu`) is a method on that object.
  - The device's answers (statuses, the memory read back, the property table)
    and what the file system and the image libraries return are parameters.
  - Each method is proved to append exactly the requests a specification
    function gives, and to end in the outcome another gives.
  - Lemmas about those functions state the ordering guarantees: erase before
    write, write only after a successful erase, and which paths close the
    session how many times.

`format.dfy` (module `Format`) holds the pieces of Python string formatting the
tool uses. These are `{0:X}`, `{0:02X}`, `%08X`, `%-Ns`, `' ' * n`,
`str.lower`, `str.endswith` and `'\n'.join`. The two hex renderings come with
round trips: reading the digits back gives the number.

Exceptions that a command does not catch become the outcome `Raised(e)`. The
printed messages become the other `Outcome` values.

### Where the code and its natural reading differ

The model follows the code in every case below:

- An offset at or past the end of the image leaves the image whole, so the whole
  buffer is written, not nothing (`Image.ShiftedPastEnd`).
- The Intel HEX buffer always starts at address 0, whatever the lowest address in
  the file (`Image.GapFillFromZero`, `Image.GapFillSparse`). The offset then cuts
  from address 0.
- When the HEX or S-record library fails to read the file, the command closes the
  session but carries on. It issues the erase request, the write request of an
  empty image when the erase is answered `Success`, and a second disconnect, all
  on the closed session (`Commands.FailedLoadFallsThrough`).
- `unlock` decodes only the `S:` key form. Any other key, including the `X:` hex
  form, is sent as an empty key, and no key length is checked. An empty key
  raises `IndexError` before any request (`Commands.UnlockBranches`).
- `reset` never closes the session (`Commands.DisconnectCounts`).
- Several paths do not close the session:
  - a `write` whose input file does not exist raises `NameError`, because
    `data` was never bound;
  - a `.bin` input path that exists but cannot be opened (a directory, a
    broken link, an unreadable file) raises `OSError` from `open`
    (`Commands.UnreadableBinary`);
  - an Intel HEX file with no data raises `ValueError` from `max`;
  - a `.bin` save that fails raises from `open`;
  - an empty unlock key raises `IndexError`;
  - `reset` never closes it.
- `write` loads S-records from `.s19`, `.srec` and `.s`, while `read` saves them
  only under `.s19` and `.srec` (`Image.ShortSRecordSuffix`).
- The short last row's hex field is still padded with spaces to the full width
  (`HexDump.RowLayout`).

## Model

| member | source | states |
|---|---|---|
| Format.HexDigitsRoundTrip | kboot_cli/main.py:58 | `{0:X}` writes only hex digits, and reading them back gives the number |
| Format.HexDigitsShortest | kboot_cli/main.py:58 | `{0:X}` writes no leading zero for a positive number |
| Format.HexZRoundTrip | kboot_cli/main.py:83 | `{0:0WX}` / `%0WX` zero-pads on the left, and the result still reads back as the number |
| Format.ByteHex | kboot_cli/main.py:83 | a byte renders under `{0:02X}` as exactly its high and low nibble digits |
| Format.PadRight | kboot_cli/main.py:97 | `%-Ns` keeps the string and pads it on the right with spaces to at least N characters |
| Format.Lower | kboot_cli/main.py:170 | lower-casing keeps the length, leaves no upper-case ASCII letter, and changes only upper-case letters, each into its lower-case form |
| Format.LowerIdempotent | kboot_cli/main.py:170 | lower-casing twice is lower-casing once |
| Image.SuffixLast | kboot_cli/main.py:170-187 | the five suffixes end in five different characters, so a name has at most one of them |
| Image.WriteFormat | kboot_cli/main.py:170-201 | `write` loads raw binary iff the lower-cased name ends in `.bin`, Intel HEX iff `.hex`, S-records iff `.s19`, `.srec` or `.s`, and rejects every other name |
| Image.SaveFormat | kboot_cli/main.py:233-260 | `read` saves raw binary iff `.bin`, Intel HEX iff `.hex`, S-records iff `.s19` or `.srec` |
| Image.SaveThenWrite | kboot_cli/main.py:248 | every name `read` saves to, `write` loads in the same format |
| Image.ShortSRecordSuffix | kboot_cli/main.py:187 | a `.s` name is loaded as S-records by `write` but refused by `read` |
| Image.FormatIgnoresCase | kboot_cli/main.py:170 | the format chosen does not depend on the case of the name |
| Image.Shifted | kboot_cli/main.py:203-204 | an offset inside the data drops exactly that many leading bytes; any other offset leaves the data whole |
| Image.ShiftedTwice | kboot_cli/main.py:203-204 | two offsets inside the data add up |
| Image.ShiftedPastEnd | kboot_cli/main.py:203-204 | an offset past the end of non-empty data sends all of it |
| Image.MaxKey | kboot_cli/main.py:184 | `max` of a non-empty key set is a key that no key exceeds |
| Image.MaxOf | kboot_cli/main.py:184 | the same maximum, as a specification function |
| Image.GapFill | kboot_cli/main.py:183-186 | an empty map has no image (`max` raises); otherwise the buffer has `max(keys) + 1` entries, each key's byte at its address and 0xFF elsewhere, and it equals `HexBuffer` |
| Image.ScatteredIsGapFilled | kboot_cli/main.py:184-186 | a buffer reaching the highest key, with each key's byte and 0xFF elsewhere, is the flat image |
| Image.HexBuffer | kboot_cli/main.py:183-186 | the flat image of a non-empty address map satisfies the gap-fill property |
| Image.GapFilledUnique | kboot_cli/main.py:183-186 | there is only one flat image per address map |
| Image.GapFillFromZero | kboot_cli/main.py:184 | every address below the lowest key is filled with 0xFF: the image starts at 0 |
| Image.GapFillSparse | kboot_cli/main.py:184-186 | a single byte at 0x8000 becomes a buffer of 0x8001 bytes |
| Image.FromBytes | kboot_cli/main.py:240 | `frombytes(data, base)` holds exactly the addresses `base .. base + len - 1`, byte `i` at `base + i` |
| Image.FromBytesRoundTrip | kboot_cli/main.py:240 | gap-filling the map of bytes saved at address 0 gives the bytes back |
| HexDump.RowWidth | kboot_cli/main.py:49-50 | the row width is the requested one cut to at most 16 |
| HexDump.ColumnLabelsAt | kboot_cli/main.py:54-55 | column `k` of the header's first half reads `0k ` |
| HexDump.DigitLabelsAt | kboot_cli/main.py:57-58 | column `k` of the header's second half is the digit of `k` |
| HexDump.HeaderWidth | kboot_cli/main.py:53-60 | the header is as wide as the rule, `14 + 4 * width`, and starts with the address title |
| HexDump.HeaderColumns | kboot_cli/main.py:53-55 | after the title the header holds `width` two-digit column labels in order |
| HexDump.HeaderDigits | kboot_cli/main.py:56-58 | then `| ` and `width` one-digit labels in order |
| HexDump.Slice | kboot_cli/main.py:72-74 | Python slicing with non-negative bounds: clamped length, and each element taken from its position |
| HexDump.RowCountCounts | kboot_cli/main.py:68 | row `k` exists iff `k * width < len(data) + offset`, so the count is the ceiling of `(len(data) + offset) / width` |
| HexDump.EmptyDump | kboot_cli/main.py:68 | empty data gives no row at an aligned address and one row at an unaligned one |
| HexDump.RowAddressAligned | kboot_cli/main.py:63-97 | row addresses are multiples of the width, one width apart, and the first is the last aligned address not above the start |
| HexDump.RowsBytesPrefix | kboot_cli/main.py:70-74 | the bytes of the first `n` rows are the data up to the end of row `n - 1` |
| HexDump.RowsCoverData | kboot_cli/main.py:68-74 | the rows' bytes, concatenated, are exactly the data |
| HexDump.RowFits | kboot_cli/main.py:68-74 | every row, with its blank cells, fits the width, and every row but the last is full |
| HexDump.ByteLocation | kboot_cli/main.py:68-97 | byte `j` sits in row `(j + offset) / width` at column `(j + offset) % width`, and that row's address plus the column is `saddr + j` |
| HexDump.HexCellsAt | kboot_cli/main.py:79-83 | each byte renders as its two upper-case hex digits and a space |
| HexDump.TextCellsAt | kboot_cli/main.py:89-95 | the text column shows a byte as its character iff it lies in 0x20..0x7E, and as `sep` otherwise |
| HexDump.RowLayout | kboot_cli/main.py:76-97 | the hex field is the blank cells plus three characters per byte, padded to exactly `3 * width`; the text field has one character per cell; the address is aligned |
| HexDump.DumpShape | kboot_cli/main.py:59-100 | the lines are the header, the rule, one line per row and the same rule |
| HexDump.DumpRows | kboot_cli/main.py:68-97 | line `2 + k` of the dump is row `k`'s line |
| HexDump.DumpText | kboot_cli/main.py:59-101 | the joined text starts with the header and the rule, each followed by a newline, and ends with a newline and the rule |
| HexDump.BuildHeader | kboot_cli/main.py:53-58 | the two label loops build the header |
| HexDump.AppendColumnLabels | kboot_cli/main.py:54-55 | the first label loop appends the two-digit labels |
| HexDump.AppendDigitLabels | kboot_cli/main.py:57-58 | the second label loop appends the one-digit labels |
| HexDump.RowSource | kboot_cli/main.py:71-74 | the slice taken for loop value `i == k * width` is row `k`'s bytes, with `offset` blank cells only while the alignment flag is set |
| HexDump.HexColumn | kboot_cli/main.py:76-83 | the hex loop yields the blank cells and then each byte's cell |
| HexDump.TextColumn | kboot_cli/main.py:85-95 | the text loop yields the blanks and then each byte's character or `sep` |
| HexDump.BuildRow | kboot_cli/main.py:70-97 | one pass of the row loop yields row `k`'s line |
| HexDump.Render | kboot_cli/main.py:32-101 | `hexdump` returns the joined lines of the specification grid |
| Device.RequestsKeepSession | kboot_cli/main.py:208-210 | requests other than connect and disconnect leave the session as it was |
| Device.KBoot.constructor | kboot_cli/main.py:105 | a new `KBoot` is not connected and has made no request |
| Device.KBoot.Connect | kboot_cli/main.py:138 | connecting opens the session and records the device |
| Device.KBoot.Disconnect | kboot_cli/main.py:154 | disconnecting closes the session and records it |
| Device.KBoot.Request | kboot_cli/main.py:208-210 | a request is recorded, keeps the session and answers with its status |
| Device.KBoot.GetMcuInfo | kboot_cli/main.py:147 | the property query is recorded and keeps the session |
| Commands.DigitValueOf | kboot_cli/main.py:137 | `int(c, 10)` of one character is its value for a decimal digit and `ValueError` otherwise |
| Commands.DeviceIndex | kboot_cli/main.py:128-138 | one device is taken as is; otherwise the typed digit is the index if it is in range, else `ValueError` or `IndexError` |
| Commands.Cli | kboot_cli/main.py:126-140 | no device: nothing happens; otherwise the chosen device is connected, or the error raised with nothing connected |
| Commands.InfoLines | kboot_cli/main.py:148-153 | the table has the three title lines, one line per property and a closing rule |
| Commands.InfoLineLayout | kboot_cli/main.py:152 | a property line has the name padded to 20 columns, ` = 0x`, and eight hex digits that read back as a 32-bit value |
| Commands.HexWidth8 | kboot_cli/main.py:152 | a 32-bit value needs at most eight hex digits, so `%08X` is exactly eight wide |
| Commands.Info | kboot_cli/main.py:146-154 | with a session: the property query, the table, then closing; without one, nothing |
| Commands.LoadInput | kboot_cli/main.py:168-201 | the suffix branch loads the image `LoadImage` names (`OSError` when a `.bin` file cannot be opened), and closes the session exactly when the suffix is unknown or the library raised |
| Commands.Program | kboot_cli/main.py:203-213 | the offset slice, then erase, then write only on `Success`, then close; the status reported is the write's, or the erase's failure |
| Commands.Write | kboot_cli/main.py:165-213 | `write` makes exactly the requests `WriteTrace` gives and ends as `WriteOutcome` says, with the format chosen by the file name |
| Commands.WriteImage | kboot_cli/main.py:168-213 | the same, for a given format |
| Commands.ProgrammingOrder | kboot_cli/main.py:207-213 | the erase comes first, the write appears iff the erase answered `Success` and only right after it, the session is closed once and last |
| Commands.WriteAfterErase | kboot_cli/main.py:203-213 | with a loaded image the flash is always erased, even for empty data, and the image, minus the offset, is written iff the erase succeeded |
| Commands.WriteOnlyAfterSuccess | kboot_cli/main.py:165-213 | a write request is made iff a session was open, the file loaded or the library raised, and the erase succeeded |
| Commands.UnsupportedSuffix | kboot_cli/main.py:198-201 | an unknown suffix closes the session and requests nothing else |
| Commands.UnreadableBinary | kboot_cli/main.py:170-174 | a `.bin` path that cannot be opened raises `OSError` with no request made and the session left open |
| Commands.FailedLoadFallsThrough | kboot_cli/main.py:179-213 | a file the library cannot read closes the session, then the erase request, the empty write on `Success` and a second disconnect are still issued |
| Commands.SRecordAddress | kboot_cli/main.py:195-210 | S-records are written at the file's start address when the address is 0, otherwise at the given address |
| Commands.HexImageSent | kboot_cli/main.py:183-210 | an Intel HEX image is sent as the gap-filled buffer from address 0, cut by the offset, at the given address |
| Commands.SavedHexReloads | kboot_cli/main.py:238-243 | what `read` saves as Intel HEX, `write` loads back as the same bytes |
| Commands.Deliver | kboot_cli/main.py:229-260 | after `Success`: the hexdump when no file is named, else the save the suffix selects; it raises only for a failed `.bin` save |
| Commands.Read | kboot_cli/main.py:222-261 | `read` ends as `ReadOutcome` says, and requests the read and then closes the session unless it raised |
| Commands.ReadSuffixes | kboot_cli/main.py:233-260 | a file is saved or attempted iff the suffix is `.bin`, `.hex`, `.s19` or `.srec`; a `.s` name gets none |
| Commands.ReadCloses | kboot_cli/main.py:228-261 | a read with a session closes it exactly once, whatever the answer, unless a `.bin` save raised |
| Commands.ReadRaisesOnlyOnBin | kboot_cli/main.py:233-237 | `read` raises iff the read succeeded and saving a `.bin` file failed |
| Commands.EraseRequest | kboot_cli/main.py:271-276 | the whole flash when `mass` is set or no length is given, else the region at the address and length |
| Commands.Erase | kboot_cli/main.py:270-279 | with a session: that erase request, then closing, reporting the status; without one, nothing |
| Commands.BackdoorKey | kboot_cli/main.py:291-294 | an empty key raises; an `S` key gives the characters after the first two; any other key gives an empty list |
| Commands.BackdoorKeyForms | kboot_cli/main.py:291-294 | the `X:` hex form is not decoded, and an `S:` key of any length is passed on |
| Commands.Unlock | kboot_cli/main.py:286-299 | with a session: the request the key selects, then closing; an empty key raises before any request |
| Commands.UnlockBranches | kboot_cli/main.py:287-296 | no key: erase-all-and-unsecure; an `S` key: security-disable with `key[2:]`; any other key: with an empty key |
| Commands.Fill | kboot_cli/main.py:308-313 | with a session: the fill request, then closing; without one, nothing |
| Commands.ResetMcu | kboot_cli/main.py:319-324 | with a session: the reset request, and the session stays open |
| Commands.CommandCloses | kboot_cli/main.py:270-313 | a single request followed by a disconnect closes the session once; without the disconnect it stays open |
| Commands.NothingWithoutSession | kboot_cli/main.py:165-319 | without a session every command makes no request and is skipped |
| Commands.DisconnectCounts | kboot_cli/main.py:270-324 | `erase`, `unlock` and `fill` close the session exactly once; `reset` never does |

## Left out

- The `click` command group, option parsing, help texts and every `echo`/`secho` message. Outcomes stand for the messages.
- Python's `int(s, 0)` on the address, length, offset and pattern options. These arrive as naturals, so a malformed number's `ValueError` is not modelled.
- The `--vid`, `--pid` and `--debug` options and the logging set-up. They do not affect the command logic.
- USB scanning and the KBoot wire protocol. The scan result is a list of device numbers; each request is a trace event, and the device's answer is a parameter.
- The Intel HEX and S-record libraries. `todict` is an abstract address map. `SRecFile.open` is an abstract image, or `None` when it raises. `frombytes` is `Image.FromBytes`. Writing either file format is left out; its success is a parameter.
- File I/O: whether the input file exists, its raw bytes, and whether a save succeeded are parameters.
- The `ord` conversions and the `xrange` shim in `hexdump`. Bytes are the integers 0..255.
- HexDump.Render: requires a positive row width. A width of 0 makes `saddr % length` raise `ZeroDivisionError`; only the default of 16 is ever used.
- Format.Lower: lower-cases ASCII letters only. `str.lower` also folds non-ASCII letters, which no supported suffix contains.
- Commands.DigitValueOf: accepts the ASCII digits only. `int` also accepts other Unicode decimal digits.
- Commands.Erase: an absent and an empty length option are the same `None`, as `not length` treats them.
- `Status(status).name` raising for a status code outside the enumeration is not modelled. Outcomes carry the status itself.
- Device.KBoot.Request: a request made after the session was closed is recorded with a status the caller chooses. What the KBoot library does with a request on a closed session is not modelled.
- What the device does after `reset` is not modelled. The model keeps the session flag set, as the code does.
- Commands.Info: the properties arrive as a sequence, so the iteration order of the dictionary is the caller's. Property decoding belongs to the protocol library.
- Commands.InfoLineLayout: states the column layout only for names of at most 20 characters, and the digit field only for values below 2^32. That is what `get_mcu_info` returns.
- Commands.Write: the load failure is modelled as the library raising (`None`). The message and the exception text it prints are left out.
