/** The image the `write` command sends and the files `read` saves: the
    file format chosen from the file name's suffix, the Intel HEX address
    map gap-filled into a flat buffer, and the offset slice. */
module Image {
  import opened Format

  datatype FileFormat = RawBinary | IntelHex | SRecord

  /** What `SRecFile.open` yields: the data records' bytes and the start
      address from the termination record. */
  datatype SRecImage = SRecImage(data: seq<Byte>, startAddr: nat)

  // ---------------------------------------------------------------------
  // Suffix dispatch

  /** `file.lower().endswith(suffix)`. */
  predicate HasSuffix(file: string, suffix: string) {
    EndsWith(Lower(file), suffix)
  }

  /** The suffixes `write` takes for S-records: `.s19`, `.srec` and `.s`. */
  predicate SRecordName(file: string) {
    HasSuffix(file, ".s19") || HasSuffix(file, ".srec") || HasSuffix(file, ".s")
  }

  /** The five suffixes end in five different characters, so a file name has
      at most one of them. */
  lemma SuffixLast(file: string)
    ensures HasSuffix(file, ".bin") ==> file != [] && Lower(file)[|file| - 1] == 'n'
    ensures HasSuffix(file, ".hex") ==> file != [] && Lower(file)[|file| - 1] == 'x'
    ensures HasSuffix(file, ".s19") ==> file != [] && Lower(file)[|file| - 1] == '9'
    ensures HasSuffix(file, ".srec") ==> file != [] && Lower(file)[|file| - 1] == 'c'
    ensures HasSuffix(file, ".s") ==> file != [] && Lower(file)[|file| - 1] == 's'
  {
    var name := Lower(file);
    if HasSuffix(file, ".bin") { EndsWithLast(name, ".bin"); }
    if HasSuffix(file, ".hex") { EndsWithLast(name, ".hex"); }
    if HasSuffix(file, ".s19") { EndsWithLast(name, ".s19"); }
    if HasSuffix(file, ".srec") { EndsWithLast(name, ".srec"); }
    if HasSuffix(file, ".s") { EndsWithLast(name, ".s"); }
  }

  /** The format `write` loads: `.bin`, then `.hex`, then an S-record
      suffix, compared case-insensitively; `None` is the "not supported
      file type" branch. Because the suffixes exclude one another, the
      order of the tests does not matter. */
  function WriteFormat(file: string): (f: Option<FileFormat>)
    ensures f == Some(RawBinary) <==> HasSuffix(file, ".bin")
    ensures f == Some(IntelHex) <==> HasSuffix(file, ".hex")
    ensures f == Some(SRecord) <==> SRecordName(file)
  {
    SuffixLast(file);
    if HasSuffix(file, ".bin") then Some(RawBinary)
    else if HasSuffix(file, ".hex") then Some(IntelHex)
    else if SRecordName(file) then Some(SRecord)
    else None
  }

  /** The format `read` saves into: the same tests, but S-records only under
      `.s19` and `.srec`. */
  function SaveFormat(file: string): (f: Option<FileFormat>)
    ensures f == Some(RawBinary) <==> HasSuffix(file, ".bin")
    ensures f == Some(IntelHex) <==> HasSuffix(file, ".hex")
    ensures f == Some(SRecord) <==> HasSuffix(file, ".s19") || HasSuffix(file, ".srec")
  {
    SuffixLast(file);
    if HasSuffix(file, ".bin") then Some(RawBinary)
    else if HasSuffix(file, ".hex") then Some(IntelHex)
    else if HasSuffix(file, ".s19") || HasSuffix(file, ".srec") then Some(SRecord)
    else None
  }

  /** Every name `read` can save to, `write` can load in the same format. */
  lemma SaveThenWrite(file: string)
    requires SaveFormat(file).Some?
    ensures WriteFormat(file) == SaveFormat(file)
  {
  }

  /** An illustration of the one suffix on which the two disagree, which the
      `ensures` of `WriteFormat` and `SaveFormat` state for all names: `.s`
      is loaded by `write` but refused by `read`. */
  lemma ShortSRecordSuffix()
    ensures WriteFormat("image.s") == Some(SRecord)
    ensures SaveFormat("image.s") == None
  {
    var name := Lower("image.s");
    assert name == "image.s";
    assert EndsWith(name, ".s");
    SuffixLast("image.s");
  }

  /** The choice ignores the case of the file name. */
  lemma FormatIgnoresCase(file: string)
    ensures WriteFormat(Lower(file)) == WriteFormat(file)
    ensures SaveFormat(Lower(file)) == SaveFormat(file)
  {
    LowerIdempotent(file);
  }

  // ---------------------------------------------------------------------
  // Offset

  /** `data[foffset:]` when `foffset < len(data)`; otherwise the buffer is
      left whole. */
  function Shifted(data: seq<Byte>, foffset: nat): (r: seq<Byte>)
    ensures foffset < |data| ==> |r| == |data| - foffset && data == data[..foffset] + r
    ensures foffset >= |data| ==> r == data
  {
    if foffset < |data| then data[foffset..] else data
  }

  /** Two offsets that both fall inside the data add up. */
  lemma ShiftedTwice(data: seq<Byte>, a: nat, b: nat)
    requires a + b < |data|
    ensures Shifted(Shifted(data, a), b) == Shifted(data, a + b)
  {
  }

  /** An offset past the end sends the whole buffer, not an empty one. */
  lemma ShiftedPastEnd(data: seq<Byte>, foffset: nat)
    requires data != [] && foffset >= |data|
    ensures |Shifted(data, foffset)| == |data| > 0
  {
  }

  // ---------------------------------------------------------------------
  // Intel HEX gap-fill

  predicate IsMax(s: set<nat>, m: int) {
    m in s && forall x :: x in s ==> x <= m
  }

  /** `buf` is the flat image of the address map `dhex`: one entry for every
      address from 0 up to the highest key, the map's byte where it has one
      and 0xFF everywhere else. */
  predicate GapFilled(dhex: map<nat, Byte>, buf: seq<Byte>) {
    && IsMax(dhex.Keys, |buf| - 1)
    && (forall a :: a in dhex ==> a < |buf| && buf[a] == dhex[a])
    && (forall j :: 0 <= j < |buf| && j !in dhex ==> buf[j] == 0xFF)
  }

  /** `max(keys)`. */
  method MaxKey(keys: set<nat>) returns (top: nat)
    requires keys != {}
    ensures IsMax(keys, top)
  {
    var first :| first in keys;
    top := first;
    var rest := keys - {first};
    while rest != {}
      invariant rest <= keys && top in keys
      invariant forall x :: x in keys && x !in rest ==> x <= top
      decreases |rest|
    {
      var x :| x in rest;
      if x > top {
        top := x;
      }
      rest := rest - {x};
    }
  }

  /** `data = [0xFF] * (max(dhex.keys()) + 1)` and then `data[i] = val` for
      every entry. An empty map has no maximum: `max` raises, which is
      `None` here. */
  method GapFill(dhex: map<nat, Byte>) returns (r: Option<seq<Byte>>)
    ensures r.None? <==> dhex == map[]
    ensures r.Some? ==> GapFilled(dhex, r.value) && r.value == HexBuffer(dhex)
  {
    if dhex == map[] {
      assert dhex.Keys == {};
      return None;
    }
    assert dhex.Keys != {} by {
      var a :| a in dhex;
      assert a in dhex.Keys;
    }
    var top := MaxKey(dhex.Keys);
    var buf := new Byte[top + 1](_ => 0xFF);
    var rest := dhex.Keys;
    while rest != {}
      invariant rest <= dhex.Keys
      invariant forall j :: 0 <= j < buf.Length ==>
        buf[j] == if j in dhex && j !in rest then dhex[j] else 0xFF
      decreases |rest|
    {
      var a :| a in rest;
      buf[a] := dhex[a];
      rest := rest - {a};
    }
    ScatteredIsGapFilled(dhex, buf[..]);
    return Some(buf[..]);
  }

  /** A buffer reaching the highest key, holding each key's byte and 0xFF
      elsewhere, is the flat image. */
  lemma ScatteredIsGapFilled(dhex: map<nat, Byte>, buf: seq<Byte>)
    requires IsMax(dhex.Keys, |buf| - 1)
    requires forall j :: 0 <= j < |buf| ==> buf[j] == if j in dhex then dhex[j] else 0xFF
    ensures dhex != map[] && GapFilled(dhex, buf) && buf == HexBuffer(dhex)
  {
    assert |buf| - 1 in dhex;
    GapFilledUnique(dhex, buf, HexBuffer(dhex));
  }

  /** The largest element of a non-empty set. */
  ghost function MaxOf(s: set<nat>): (m: nat)
    requires s != {}
    ensures IsMax(s, m)
  {
    var x :| x in s;
    if s - {x} == {} then
      assert forall y :: y in s ==> y in s - {x} || y == x;
      x
    else
      var rest := MaxOf(s - {x});
      var m := if x > rest then x else rest;
      assert forall y :: y in s ==> y <= m by {
        forall y | y in s
          ensures y <= m
        {
          if y != x {
            assert y in s - {x};
          }
        }
      }
      m
  }

  /** The flat image of a non-empty address map. */
  ghost function HexBuffer(dhex: map<nat, Byte>): (buf: seq<Byte>)
    requires dhex != map[]
    ensures GapFilled(dhex, buf)
  {
    assert dhex.Keys != {} by {
      var a :| a in dhex;
      assert a in dhex.Keys;
    }
    var top := MaxOf(dhex.Keys);
    seq(top + 1, j requires 0 <= j <= top => if j in dhex then dhex[j] else 0xFF)
  }

  /** There is one flat image per address map. */
  lemma {:induction false} GapFilledUnique(dhex: map<nat, Byte>, buf1: seq<Byte>, buf2: seq<Byte>)
    requires GapFilled(dhex, buf1) && GapFilled(dhex, buf2)
    ensures buf1 == buf2
  {
    assert |buf1| == |buf2|;
    forall j | 0 <= j < |buf1|
      ensures buf1[j] == buf2[j]
    {
      if j in dhex {
        assert buf1[j] == dhex[j];
      }
    }
  }

  /** The flat image always starts at address 0: every address below the
      lowest key is filled with 0xFF. */
  lemma GapFillFromZero(dhex: map<nat, Byte>, buf: seq<Byte>, low: nat)
    requires GapFilled(dhex, buf)
    requires forall a :: a in dhex ==> a >= low
    ensures |buf| > low
    ensures forall j :: 0 <= j < low ==> buf[j] == 0xFF
  {
    var top := |buf| - 1;
    assert top in dhex;
  }

  /** An illustration of `GapFillFromZero` on one input: a single byte at
      0x8000 becomes a buffer of 0x8001 bytes. */
  lemma GapFillSparse(buf: seq<Byte>)
    requires GapFilled(map[0x8000 := 0x55], buf)
    ensures |buf| == 0x8001 && buf[0] == 0xFF && buf[0x8000] == 0x55
  {
    assert 0x8000 in map[0x8000 := 0x55];
  }

  /** `IntelHex.frombytes(data, base)`: byte `i` of `data` at address
      `base + i`. */
  function FromBytes(data: seq<Byte>, base: nat): (m: map<nat, Byte>)
    ensures forall a :: a in m <==> base <= a < base + |data|
    ensures forall a :: a in m ==> m[a] == data[a - base]
  {
    if data == [] then map[]
    else
      var last := |data| - 1;
      var front := FromBytes(data[..last], base);
      front[base + last := data[last]]
  }

  /** Saving bytes into an Intel HEX map at address 0 and gap-filling that
      map gives the bytes back. */
  lemma FromBytesRoundTrip(data: seq<Byte>)
    requires data != []
    ensures GapFilled(FromBytes(data, 0), data)
  {
    var m := FromBytes(data, 0);
    assert |data| - 1 in m;
  }
}
