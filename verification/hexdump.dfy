/** The `hexdump` renderer of kboot_cli/main.py: a byte list read from the
    device, its start address, a row width and a placeholder character become
    a text grid with a column header, a rule, one line per row of bytes
    (address, hex cells, printable text) and a closing rule. Rows are aligned
    to multiples of the row width; the first row is padded with blank cells
    when the start address is not aligned. */
module HexDump {
  import opened Format

  // ---------------------------------------------------------------------
  // Header and rules

  /** The row width in use: a request for more than 16 bytes per row is cut
      to 16, anything else is kept. */
  function RowWidth(length: nat): (w: nat)
    ensures w <= 16 && w <= length
    ensures w == length || w == 16
    ensures length > 0 ==> w > 0
  {
    if length > 16 then 16 else length
  }

  /** The first half of the header: `"{0:02X} "` for each column index. */
  function ColumnLabels(n: nat): (s: string)
    ensures n <= 16 ==> |s| == 3 * n
  {
    if n == 0 then "" else ColumnLabels(n - 1) + HexZ(n - 1, 2) + " "
  }

  /** The second half of the header: `"{0:X}"` for each column index. */
  function DigitLabels(n: nat): (s: string)
    ensures n <= 16 ==> |s| == n
  {
    if n == 0 then "" else DigitLabels(n - 1) + HexZ(n - 1, 1)
  }

  function Header(width: nat): string {
    "  address | " + ColumnLabels(width) + ("| " + DigitLabels(width))
  }

  /** `' ' + '-' * (13 + 4 * length)`, drawn below the header and at the end. */
  function Rule(width: nat): string {
    " " + Repeat('-', 13 + 4 * width)
  }

  /** Column `k` of the header's first half reads `0k ` (two digits and a space). */
  lemma {:induction false} ColumnLabelsAt(n: nat, k: nat)
    requires k < n <= 16
    ensures ColumnLabels(n)[3 * k..3 * k + 3] == ['0', HexDigit(k), ' ']
  {
    ByteHex(n - 1);
    ConcatParts(ColumnLabels(n - 1), HexZ(n - 1, 2), " ");
    if k < n - 1 {
      ColumnLabelsAt(n - 1, k);
      SliceOfSlice(ColumnLabels(n), 0, 3 * (n - 1), 3 * k, 3 * k + 3);
    }
  }

  /** Column `k` of the header's second half is the single digit of `k`. */
  lemma {:induction false} DigitLabelsAt(n: nat, k: nat)
    requires k < n <= 16
    ensures DigitLabels(n)[k] == HexDigit(k)
  {
    if k < n - 1 {
      DigitLabelsAt(n - 1, k);
    }
  }

  /** The header is exactly as wide as the rule and starts with the
      address column's title. */
  lemma HeaderWidth(width: nat)
    requires width <= 16
    ensures |Header(width)| == |Rule(width)| == 14 + 4 * width
    ensures Header(width)[..12] == "  address | "
  {
    ConcatParts("  address | ", ColumnLabels(width), "| " + DigitLabels(width));
    assert Header(width) == "  address | " + ColumnLabels(width) + ("| " + DigitLabels(width));
  }

  /** The header's first half labels the `width` columns with two digits
      each (`00 01 ... 0F`). */
  lemma HeaderColumns(width: nat)
    requires width <= 16
    ensures forall k :: 0 <= k < width ==>
      Header(width)[12 + 3 * k..15 + 3 * k] == ['0', HexDigit(k), ' ']
  {
    forall k | 0 <= k < width
      ensures ColumnLabels(width)[3 * k..3 * k + 3] == ['0', HexDigit(k), ' ']
    {
      ColumnLabelsAt(width, k);
    }
    CellsInside("  address | ", ColumnLabels(width), "| " + DigitLabels(width), width);
  }

  lemma CellsInside(prefix: string, cells: string, rest: string, width: nat)
    requires width <= 16 && |prefix| == 12 && |cells| == 3 * width
    requires forall k :: 0 <= k < width ==> cells[3 * k..3 * k + 3] == ['0', HexDigit(k), ' ']
    ensures forall k :: 0 <= k < width ==>
      (prefix + cells + rest)[12 + 3 * k..15 + 3 * k] == ['0', HexDigit(k), ' ']
  {
    var whole := prefix + cells + rest;
    ConcatParts(prefix, cells, rest);
    forall k | 0 <= k < width
      ensures whole[12 + 3 * k..15 + 3 * k] == ['0', HexDigit(k), ' ']
    {
      SliceOfSlice(whole, 12, 12 + 3 * width, 3 * k, 3 * k + 3);
    }
  }

  /** After a `| ` separator, the header's second half labels the same
      columns with one digit each (`0123...F`). */
  lemma HeaderDigits(width: nat)
    requires width <= 16
    ensures Header(width)[12 + 3 * width..14 + 3 * width] == "| "
    ensures forall k :: 0 <= k < width ==> Header(width)[14 + 3 * width + k] == HexDigit(k)
  {
    forall k | 0 <= k < width
      ensures DigitLabels(width)[k] == HexDigit(k)
    {
      DigitLabelsAt(width, k);
    }
    DigitsInside("  address | " + ColumnLabels(width), DigitLabels(width), width);
  }

  lemma DigitsInside(front: string, digits: string, width: nat)
    requires width <= 16 && |front| == 12 + 3 * width && |digits| == width
    requires forall k :: 0 <= k < width ==> digits[k] == HexDigit(k)
    ensures (front + ("| " + digits))[12 + 3 * width..14 + 3 * width] == "| "
    ensures forall k :: 0 <= k < width ==> (front + ("| " + digits))[14 + 3 * width + k] == HexDigit(k)
  {
    assert front + ("| " + digits) == front + "| " + digits;
    ConcatParts(front, "| ", digits);
  }

  // ---------------------------------------------------------------------
  // Rows: which bytes, at which address

  /** The number of iterations of `range(0, size + offset, width)`. */
  function RowCount(size: nat, offset: nat, width: nat): nat
    requires width > 0
  {
    (size + offset + width - 1) / width
  }

  /** Row `k` exists exactly when `k * width` is one of the loop's values,
      i.e. when it lies below `size + offset`: the count is the ceiling of
      `(size + offset) / width`. */
  lemma RowCountCounts(size: nat, offset: nat, width: nat, k: nat)
    requires width > 0
    ensures k < RowCount(size, offset, width) <==> k * width < size + offset
  {
    var total := size + offset;
    var n := RowCount(size, offset, width);
    var r := (total + width - 1) % width;
    assert total + width - 1 == n * width + r;
    if k < n {
      assert k + 1 <= n;
      assert (k + 1) * width <= n * width by {
        MulMonotone(k + 1, n, width);
      }
    } else {
      assert n + 1 <= k + 1;
      MulMonotone(n + 1, k + 1, width);
    }
  }

  lemma MulSucc(k: nat, width: nat)
    ensures (k + 1) * width == k * width + width
  {
  }

  lemma MulMonotone(a: nat, b: nat, c: nat)
    requires a <= b
    ensures a * c <= b * c
  {
  }

  /** Python's `s[lo:hi]` for non-negative bounds: clamped to the sequence,
      empty when `lo >= hi`. */
  function Slice(s: seq<Byte>, lo: nat, hi: nat): (r: seq<Byte>)
    ensures |r| == if lo < hi && lo < |s| then (if hi < |s| then hi else |s|) - lo else 0
    ensures forall i :: 0 <= i < |r| ==> r[i] == s[lo + i]
  {
    var a := if lo < |s| then lo else |s|;
    var b := if hi < |s| then hi else |s|;
    if a < b then s[a..b] else []
  }

  /** Blank cells in front of row `k`: `offset` of them in the first row only. */
  function Lead(k: nat, offset: nat): nat {
    if k == 0 then offset else 0
  }

  /** Index in `data` of the first byte of row `k`: `0` for the first row,
      `k * width - offset` for the others. */
  function RowStart(k: nat, offset: nat, width: nat): nat
    requires offset < width
  {
    if k == 0 then 0 else (k - 1) * width + (width - offset)
  }

  /** Index in `data` just past row `k`. */
  function RowEnd(k: nat, offset: nat, width: nat): nat
    requires offset < width
  {
    k * width + (width - offset)
  }

  function RowBytes(data: seq<Byte>, offset: nat, width: nat, k: nat): seq<Byte>
    requires offset < width
  {
    Slice(data, RowStart(k, offset, width), RowEnd(k, offset, width))
  }

  /** The address printed in front of row `k`. */
  function RowAddress(saddr: nat, width: nat, k: nat): nat
    requires width > 0
  {
    saddr - saddr % width + k * width
  }

  /** Row addresses are multiples of the width, one width apart, and the first
      row begins at the last aligned address not above `saddr`. */
  lemma RowAddressAligned(saddr: nat, width: nat, k: nat)
    requires width > 0
    ensures RowAddress(saddr, width, k) % width == 0
    ensures RowAddress(saddr, width, 0) <= saddr < RowAddress(saddr, width, 0) + width
    ensures RowAddress(saddr, width, k + 1) == RowAddress(saddr, width, k) + width
  {
    var q := saddr / width;
    assert saddr - saddr % width == q * width;
    assert (q + k) * width == q * width + k * width;
    DivModUnique((q + k) * width, width, q + k, 0);
    assert (k + 1) * width == k * width + width;
  }

  /** Euclidean division has one quotient and one remainder. */
  lemma DivModUnique(x: nat, width: nat, q: nat, r: nat)
    requires width > 0 && r < width && x == q * width + r
    ensures x / width == q && x % width == r
  {
    var q0 := x / width;
    assert x == q0 * width + x % width;
    var d: int := q as int - q0 as int;
    var w: int := width;
    assert d * w == (q as int) * w - (q0 as int) * w;
    MulBounds(d, width);
  }

  lemma MulBounds(a: int, w: nat)
    ensures a >= 1 ==> a * w >= w
    ensures a <= -1 ==> a * w + w <= 0
  {
  }

  /** The bytes of rows `0 .. n - 1`, in order. */
  function RowsBytes(data: seq<Byte>, offset: nat, width: nat, n: nat): seq<Byte>
    requires offset < width
  {
    if n == 0 then [] else RowsBytes(data, offset, width, n - 1) + RowBytes(data, offset, width, n - 1)
  }

  lemma {:induction false} RowsBytesPrefix(data: seq<Byte>, offset: nat, width: nat, n: nat)
    requires offset < width && n > 0
    ensures RowsBytes(data, offset, width, n) == Slice(data, 0, RowEnd(n - 1, offset, width))
  {
    if n > 1 {
      RowsBytesPrefix(data, offset, width, n - 1);
      var a := RowEnd(n - 2, offset, width);
      assert RowStart(n - 1, offset, width) == a;
      var b := RowEnd(n - 1, offset, width);
      assert Slice(data, 0, a) + Slice(data, a, b) == Slice(data, 0, b);
    }
  }

  /** The rows together show every byte of `data` exactly once, in order. */
  lemma RowsCoverData(data: seq<Byte>, saddr: nat, width: nat)
    requires width > 0
    ensures var offset := saddr % width;
      RowsBytes(data, offset, width, RowCount(|data|, offset, width)) == data
  {
    var offset := saddr % width;
    var n := RowCount(|data|, offset, width);
    if n == 0 {
      RowCountCounts(|data|, offset, width, 0);
    } else {
      RowsBytesPrefix(data, offset, width, n);
      RowCountCounts(|data|, offset, width, n);
      assert RowEnd(n - 1, offset, width) >= |data|;
      assert Slice(data, 0, RowEnd(n - 1, offset, width)) == data;
    }
  }

  /** Every row fits its width together with its blank cells, and every row
      but the last is full. */
  lemma RowFits(data: seq<Byte>, saddr: nat, width: nat, k: nat)
    requires width > 0
    ensures var offset := saddr % width;
      && Lead(k, offset) + |RowBytes(data, offset, width, k)| <= width
      && (k + 1 < RowCount(|data|, offset, width) ==>
            Lead(k, offset) + |RowBytes(data, offset, width, k)| == width)
  {
    var offset := saddr % width;
    if k + 1 < RowCount(|data|, offset, width) {
      RowCountCounts(|data|, offset, width, k + 1);
      assert (k + 1) * width == k * width + width;
    }
  }

  /** Byte `j` of `data` sits in row `(j + offset) / width`, column
      `(j + offset) % width`, and the row's address plus the column is the
      byte's own address `saddr + j`. */
  lemma ByteLocation(data: seq<Byte>, saddr: nat, width: nat, j: nat)
    requires width > 0 && j < |data|
    ensures var offset := saddr % width;
      var k := (j + offset) / width;
      var column := (j + offset) % width;
      && k < RowCount(|data|, offset, width)
      && Lead(k, offset) <= column
      && column - Lead(k, offset) < |RowBytes(data, offset, width, k)|
      && RowBytes(data, offset, width, k)[column - Lead(k, offset)] == data[j]
      && RowAddress(saddr, width, k) + column == saddr + j
  {
    var offset := saddr % width;
    var k := (j + offset) / width;
    var column := (j + offset) % width;
    assert j + offset == k * width + column;
    RowCountCounts(|data|, offset, width, k);
    if k > 0 {
      assert k * width == (k - 1) * width + width;
    }
  }

  // ---------------------------------------------------------------------
  // Cells

  /** `"{0:02X} "` for each byte, in order. */
  function HexCells(bytes: seq<Byte>): (s: string)
    ensures |s| == 3 * |bytes|
  {
    if bytes == [] then ""
    else
      ByteHex(bytes[|bytes| - 1]);
      HexCells(bytes[..|bytes| - 1]) + HexZ(bytes[|bytes| - 1], 2) + " "
  }

  /** The text column shows a byte as its character when it is printable
      ASCII, 0x20 up to and excluding 0x7F, and as `sep` otherwise. */
  function TextChar(b: Byte, sep: char): char {
    if 0x20 <= b < 0x7F then b as char else sep
  }

  function TextCells(bytes: seq<Byte>, sep: char): (s: string)
    ensures |s| == |bytes|
  {
    if bytes == [] then "" else TextCells(bytes[..|bytes| - 1], sep) + [TextChar(bytes[|bytes| - 1], sep)]
  }

  /** Each byte takes three hex characters: high digit, low digit, space. */
  lemma {:induction false} HexCellsAt(bytes: seq<Byte>, j: nat)
    requires j < |bytes|
    ensures HexCells(bytes)[3 * j..3 * j + 3] == [HexDigit(bytes[j] / 16), HexDigit(bytes[j] % 16), ' ']
  {
    var last := |bytes| - 1;
    ByteHex(bytes[last]);
    ConcatParts(HexCells(bytes[..last]), HexZ(bytes[last], 2), " ");
    if j < last {
      HexCellsAt(bytes[..last], j);
      SliceOfSlice(HexCells(bytes), 0, 3 * last, 3 * j, 3 * j + 3);
    }
  }

  /** Each byte takes one text character: itself if printable, else `sep`. */
  lemma {:induction false} TextCellsAt(bytes: seq<Byte>, sep: char, j: nat)
    requires j < |bytes|
    ensures TextCells(bytes, sep)[j] == TextChar(bytes[j], sep)
    ensures (TextCells(bytes, sep)[j] as int == bytes[j]) || TextCells(bytes, sep)[j] == sep
  {
    var last := |bytes| - 1;
    if j < last {
      TextCellsAt(bytes[..last], sep, j);
    }
  }

  // ---------------------------------------------------------------------
  // Lines

  /** `' %08X | %-{3*width}s| %s' % (address, hexa, text)`. */
  function FormatRow(address: nat, hexa: string, width: nat, text: string): string {
    " " + HexZ(address, 8) + " | " + PadRight(hexa, 3 * width) + "| " + text
  }

  function HexField(data: seq<Byte>, saddr: nat, width: nat, k: nat): string
    requires width > 0
  {
    var offset := saddr % width;
    Repeat(' ', 3 * Lead(k, offset)) + HexCells(RowBytes(data, offset, width, k))
  }

  function TextField(data: seq<Byte>, saddr: nat, width: nat, sep: char, k: nat): string
    requires width > 0
  {
    var offset := saddr % width;
    Repeat(' ', Lead(k, offset)) + TextCells(RowBytes(data, offset, width, k), sep)
  }

  function RowLine(data: seq<Byte>, saddr: nat, width: nat, sep: char, k: nat): string
    requires width > 0
  {
    FormatRow(RowAddress(saddr, width, k), HexField(data, saddr, width, k), width,
              TextField(data, saddr, width, sep, k))
  }

  function Rows(data: seq<Byte>, saddr: nat, width: nat, sep: char, n: nat): (rows: seq<string>)
    requires width > 0
    ensures |rows| == n
  {
    seq(n, k requires 0 <= k < n => RowLine(data, saddr, width, sep, k))
  }

  /** The lines `hexdump` joins: header, rule, one line per row, rule. */
  function DumpLines(data: seq<Byte>, saddr: nat, length: nat, sep: char): seq<string>
    requires length > 0
  {
    var width := RowWidth(length);
    [Header(width), Rule(width)]
      + Rows(data, saddr, width, sep, RowCount(|data|, saddr % width, width))
      + [Rule(width)]
  }

  /** The dump is the header, the rule, one line per row and the same rule
      again. */
  lemma DumpShape(data: seq<Byte>, saddr: nat, length: nat, sep: char)
    requires length > 0
    ensures var width := RowWidth(length);
      var lines := DumpLines(data, saddr, length, sep);
      && |lines| == RowCount(|data|, saddr % width, width) + 3
      && lines[0] == Header(width) && lines[1] == Rule(width) && lines[|lines| - 1] == Rule(width)
  {
    var width := RowWidth(length);
    Framed(Header(width), Rule(width), Rows(data, saddr, width, sep, RowCount(|data|, saddr % width, width)));
  }

  lemma Framed(header: string, rule: string, rows: seq<string>)
    ensures var lines := [header, rule] + rows + [rule];
      |lines| == |rows| + 3 && lines[0] == header && lines[1] == rule && lines[|lines| - 1] == rule
  {
  }

  /** Empty data gives no row at all at an aligned address, and a single
      row of blank cells at an unaligned one. */
  lemma EmptyDump(offset: nat, width: nat)
    requires offset < width
    ensures RowCount(0, offset, width) == if offset == 0 then 0 else 1
  {
    RowCountCounts(0, offset, width, 0);
    RowCountCounts(0, offset, width, 1);
  }

  /** Between the two rules, line `2 + k` of the dump is row `k`. */
  lemma DumpRows(data: seq<Byte>, saddr: nat, length: nat, sep: char)
    requires length > 0
    ensures var width := RowWidth(length);
      var lines := DumpLines(data, saddr, length, sep);
      forall k :: 0 <= k < RowCount(|data|, saddr % width, width) ==>
        lines[2 + k] == RowLine(data, saddr, width, sep, k)
  {
    var width := RowWidth(length);
    var n := RowCount(|data|, saddr % width, width);
    forall k | 0 <= k < n
      ensures DumpLines(data, saddr, length, sep)[2 + k] == RowLine(data, saddr, width, sep, k)
    {
      FramedRow(data, saddr, width, sep, n, k, Header(width), Rule(width));
    }
  }

  lemma FramedRow(data: seq<Byte>, saddr: nat, width: nat, sep: char, n: nat, k: nat,
                  header: string, rule: string)
    requires width > 0 && k < n
    ensures ([header, rule] + Rows(data, saddr, width, sep, n) + [rule])[2 + k]
         == RowLine(data, saddr, width, sep, k)
  {
  }

  /** One more row appends that row's line. */
  lemma RowsSnoc(data: seq<Byte>, saddr: nat, width: nat, sep: char, n: nat)
    requires width > 0
    ensures Rows(data, saddr, width, sep, n + 1)
         == Rows(data, saddr, width, sep, n) + [RowLine(data, saddr, width, sep, n)]
  {
    var longer := Rows(data, saddr, width, sep, n + 1);
    var shorter := Rows(data, saddr, width, sep, n);
    assert longer[..n] == shorter;
  }

  /** The joined text starts with the header and the rule, each followed by
      a newline, and ends with a newline and the rule. */
  lemma DumpText(data: seq<Byte>, saddr: nat, length: nat, sep: char)
    requires length > 0
    ensures var width := RowWidth(length);
      var text := Join(DumpLines(data, saddr, length, sep));
      && |text| >= |Header(width)| + 2 * |Rule(width)| + 2
      && text[..|Header(width)| + |Rule(width)| + 2] == Header(width) + "\n" + Rule(width) + "\n"
      && text[|text| - |Rule(width)| - 1..] == "\n" + Rule(width)
  {
    var width := RowWidth(length);
    var rows := Rows(data, saddr, width, sep, RowCount(|data|, saddr % width, width));
    DumpLinesOf(data, saddr, length, sep, width, Header(width), Rule(width));
    JoinFrame(Header(width), Rule(width), rows, Rule(width));
  }

  /** Every row line is laid out as ` AAAAAAAA | <hex field> | <text>`: the
      hex field is exactly `3 * width` characters (blank cells, then three
      characters per byte, then space padding), and the text shows the row's
      bytes after the same number of blank cells. */
  lemma RowLayout(data: seq<Byte>, saddr: nat, width: nat, sep: char, k: nat)
    requires 0 < width <= 16
    ensures var offset := saddr % width;
      var bytes := RowBytes(data, offset, width, k);
      var hexa := HexField(data, saddr, width, k);
      && |hexa| == 3 * (Lead(k, offset) + |bytes|) <= 3 * width
      && |PadRight(hexa, 3 * width)| == 3 * width
      && |TextField(data, saddr, width, sep, k)| == Lead(k, offset) + |bytes|
      && RowAddress(saddr, width, k) % width == 0
  {
    RowFits(data, saddr, width, k);
    RowAddressAligned(saddr, width, k);
  }

  // ---------------------------------------------------------------------
  // The renderer

  /** The header line, built column by column as the source does. */
  method BuildHeader(width: nat) returns (header: string)
    ensures header == Header(width)
  {
    header := "  address | ";
    header := AppendColumnLabels(header, width);
    header := header + "| ";
    header := AppendDigitLabels(header, width);
    AppendAssoc("  address | " + ColumnLabels(width), "| ", DigitLabels(width));
  }

  /** The first header loop: `"{0:02X} "` appended for each column. */
  method AppendColumnLabels(prefix: string, width: nat) returns (s: string)
    ensures s == prefix + ColumnLabels(width)
  {
    s := prefix;
    var i := 0;
    while i < width
      invariant 0 <= i <= width
      invariant s == prefix + ColumnLabels(i)
    {
      AppendAssoc(prefix, ColumnLabels(i), HexZ(i, 2));
      AppendAssoc(prefix, ColumnLabels(i) + HexZ(i, 2), " ");
      s := s + HexZ(i, 2) + " ";
      i := i + 1;
    }
  }

  /** The second header loop: `"{0:X}"` appended for each column. */
  method AppendDigitLabels(prefix: string, width: nat) returns (s: string)
    ensures s == prefix + DigitLabels(width)
  {
    s := prefix;
    var i := 0;
    while i < width
      invariant 0 <= i <= width
      invariant s == prefix + DigitLabels(i)
    {
      assert prefix + DigitLabels(i) + HexZ(i, 1) == prefix + (DigitLabels(i) + HexZ(i, 1));
      s := s + HexZ(i, 1);
      i := i + 1;
    }
  }

  /** The hex column of one row: `lead` blank cells, then one cell per byte. */
  method HexColumn(sub: seq<Byte>, lead: nat) returns (hexa: string)
    ensures hexa == Repeat(' ', 3 * lead) + HexCells(sub)
  {
    hexa := "";
    if lead > 0 {
      hexa := hexa + Repeat(' ', 3 * lead);
    }
    var h := 0;
    while h < |sub|
      invariant 0 <= h <= |sub|
      invariant hexa == Repeat(' ', 3 * lead) + HexCells(sub[..h])
    {
      assert sub[..h + 1][..h] == sub[..h];
      hexa := hexa + HexZ(sub[h], 2) + " ";
      h := h + 1;
    }
    assert sub[..|sub|] == sub;
  }

  /** The text column of one row: `lead` blanks, then one character per byte. */
  method TextColumn(sub: seq<Byte>, lead: nat, sep: char) returns (text: string)
    ensures text == Repeat(' ', lead) + TextCells(sub, sep)
  {
    text := "";
    if lead > 0 {
      text := text + Repeat(' ', lead);
    }
    var h := 0;
    while h < |sub|
      invariant 0 <= h <= |sub|
      invariant text == Repeat(' ', lead) + TextCells(sub[..h], sep)
    {
      assert sub[..h + 1][..h] == sub[..h];
      var c := sub[h];
      if 0x20 <= c < 0x7F {
        text := text + [c as char];
      } else {
        text := text + [sep];
      }
      h := h + 1;
    }
    assert sub[..|sub|] == sub;
  }

  /** The slice one pass of the row loop takes for loop value `i`: from the
      start of `data` while the alignment flag is set, from `i - offset`
      otherwise; `lead` is the number of blank cells put in front of it. */
  method RowSource(data: seq<Byte>, offset: nat, width: nat, i: nat, align: bool, ghost k: nat)
    returns (sub: seq<Byte>, lead: nat)
    requires offset < width && i == k * width
    requires align == (k == 0 && offset > 0)
    ensures sub == RowBytes(data, offset, width, k)
    ensures lead == Lead(k, offset)
  {
    RowBounds(offset, width, k, i);
    if align {
      sub := Slice(data, 0, width - offset);
      lead := offset;
    } else {
      sub := Slice(data, i - offset, i + width - offset);
      lead := 0;
    }
  }

  /** One pass of the row loop: the slice for loop value `i`, its two
      columns and the formatted line. */
  method BuildRow(data: seq<Byte>, saddr: nat, width: nat, sep: char, i: nat, align: bool,
                  ghost k: nat)
    returns (line: string)
    requires 0 < width && i == k * width
    requires align == (k == 0 && saddr % width > 0)
    ensures line == RowLine(data, saddr, width, sep, k)
  {
    var offset := saddr % width;
    var sub, lead := RowSource(data, offset, width, i, align, k);
    var hexa := HexColumn(sub, lead);
    var text := TextColumn(sub, lead, sep);
    RowLineOf(data, saddr, width, sep, k, hexa, text);
    line := FormatRow(saddr - offset + i, hexa, width, text);
  }

  /** The bounds the row loop slices with for loop value `i == k * width` are
      row `k`'s: from the start of `data` while the alignment flag is set,
      from `i - offset` otherwise. */
  lemma RowBounds(offset: nat, width: nat, k: nat, i: nat)
    requires offset < width && i == k * width
    ensures k == 0 && offset > 0 ==> RowStart(k, offset, width) == 0 && RowEnd(k, offset, width) == width - offset
    ensures !(k == 0 && offset > 0) ==>
      && i >= offset
      && RowStart(k, offset, width) == i - offset
      && RowEnd(k, offset, width) == i + width - offset
  {
    if k > 0 {
      assert i == (k - 1) * width + width;
    }
  }

  /** A line formatted from the row's address and its two fields is the row's
      line. */
  lemma RowLineOf(data: seq<Byte>, saddr: nat, width: nat, sep: char, k: nat,
                  hexa: string, text: string)
    requires width > 0
    requires hexa == HexField(data, saddr, width, k)
    requires text == TextField(data, saddr, width, sep, k)
    ensures saddr - saddr % width + k * width == RowAddress(saddr, width, k)
    ensures FormatRow(RowAddress(saddr, width, k), hexa, width, text) == RowLine(data, saddr, width, sep, k)
  {
  }

  /** `hexdump(data, saddr, length, sep)`: the header, the rule, one line per
      value of `range(0, len(data) + offset, width)` with the alignment flag
      cleared after the first, the closing rule, joined with newlines. The
      row width must be positive: 0 divides by zero in `saddr % length`. */
  method Render(data: seq<Byte>, saddr: nat, length: nat, sep: char) returns (dump: string)
    requires length > 0
    ensures dump == Join(DumpLines(data, saddr, length, sep))
  {
    var result: seq<string> := [];
    var width := length;
    if width > 16 {
      width := 16;
    }
    var header := BuildHeader(width);
    result := result + [header];
    var rule := " " + Repeat('-', 13 + 4 * width);
    result := result + [rule];

    var offset := saddr % width;
    var align := offset > 0;
    ghost var k: nat := 0;
    var i := 0;
    while i < |data| + offset
      invariant i == k * width
      invariant k <= RowCount(|data|, offset, width)
      invariant align == (k == 0 && offset > 0)
      invariant result == [header, rule] + Rows(data, saddr, width, sep, k)
    {
      RowCountCounts(|data|, offset, width, k);
      var line := BuildRow(data, saddr, width, sep, i, align, k);
      RowsSnoc(data, saddr, width, sep, k);
      AppendAssoc([header, rule], Rows(data, saddr, width, sep, k), [line]);
      result := result + [line];
      MulSucc(k, width);
      align := false;
      i := i + width;
      k := k + 1;
    }
    RowCountCounts(|data|, offset, width, k);
    DumpLinesOf(data, saddr, length, sep, width, header, rule);
    result := result + [rule];
    dump := Join(result);
  }

  /** The dump's lines, given its width, header and rule. */
  lemma DumpLinesOf(data: seq<Byte>, saddr: nat, length: nat, sep: char,
                    width: nat, header: string, rule: string)
    requires length > 0 && width == RowWidth(length)
    requires header == Header(width) && rule == Rule(width)
    ensures width > 0
    ensures DumpLines(data, saddr, length, sep)
         == [header, rule] + Rows(data, saddr, width, sep, RowCount(|data|, saddr % width, width)) + [rule]
  {
  }
}
