/** The pieces of Python string formatting the command-line tool relies on:
    hexadecimal rendering (`{0:X}`, `{0:02X}`, `%08X`), left-justified
    padding (`%-Ns`), repetition (`' ' * n`), lower-casing, suffix tests and
    `'\n'.join`. Bytes are the integers 0..255 that the tool's lists hold. */
module Format {

  /** An 8-bit value. */
  type Byte = b: int | 0 <= b < 256

  datatype Option<+T> = None | Some(value: T)

  // ---------------------------------------------------------------------
  // Hexadecimal digits

  /** The digits `str.format` produces for `X`: 0-9 and upper-case A-F. */
  predicate IsHexDigit(c: char) {
    '0' <= c <= '9' || 'A' <= c <= 'F'
  }

  function DigitValue(c: char): (d: nat)
    requires IsHexDigit(c)
    ensures d < 16
  {
    if c <= '9' then c as int - '0' as int else c as int - 'A' as int + 10
  }

  /** The upper-case digit for a value below 16; DigitValue reads it back. */
  function HexDigit(d: nat): (c: char)
    requires d < 16
    ensures IsHexDigit(c) && DigitValue(c) == d
  {
    if d < 10 then ('0' as int + d) as char else ('A' as int + d - 10) as char
  }

  predicate AllHexDigits(s: string) {
    forall i :: 0 <= i < |s| ==> IsHexDigit(s[i])
  }

  /** The value of a string of hex digits, most significant digit first. */
  function HexValue(s: string): nat
    requires AllHexDigits(s)
  {
    if s == [] then 0 else HexValue(s[..|s| - 1]) * 16 + DigitValue(s[|s| - 1])
  }

  /** `'{0:X}'.format(n)`: the shortest upper-case hexadecimal rendering. */
  function HexDigits(n: nat): (s: string)
    ensures 1 <= |s|
  {
    if n < 16 then [HexDigit(n)] else HexDigits(n / 16) + [HexDigit(n % 16)]
  }

  /** What HexDigits writes is hex digits, and reading it back gives the
      number again. */
  lemma {:induction false} HexDigitsRoundTrip(n: nat)
    ensures AllHexDigits(HexDigits(n)) && HexValue(HexDigits(n)) == n
  {
    if n >= 16 {
      var s := HexDigits(n);
      HexDigitsRoundTrip(n / 16);
      assert s[..|s| - 1] == HexDigits(n / 16);
    }
  }

  /** The rendering has no leading zero, except for 0 itself. */
  lemma {:induction false} HexDigitsShortest(n: nat)
    ensures n > 0 ==> HexDigits(n)[0] != '0'
  {
    if n >= 16 {
      HexDigitsShortest(n / 16);
      assert HexDigits(n)[0] == HexDigits(n / 16)[0];
    }
  }

  /** `' ' * n`, `'-' * n` and the like. */
  function Repeat(c: char, n: nat): (s: string)
    ensures |s| == n
  {
    seq(n, _ => c)
  }

  /** `'{0:0WX}'.format(n)` / `'%0WX' % n`: hexadecimal, zero-padded on the
      left to at least `width` characters, never truncated. */
  function HexZ(n: nat, width: nat): (s: string)
    ensures |s| == if width > |HexDigits(n)| then width else |HexDigits(n)|
  {
    var digits := HexDigits(n);
    var pad := if width > |digits| then width - |digits| else 0;
    Repeat('0', pad) + digits
  }

  /** The zero-padded rendering is made of hex digits and reads back as the
      number it renders. */
  lemma HexZRoundTrip(n: nat, width: nat)
    ensures AllHexDigits(HexZ(n, width)) && HexValue(HexZ(n, width)) == n
  {
    var digits := HexDigits(n);
    var pad := if width > |digits| then width - |digits| else 0;
    HexDigitsRoundTrip(n);
    LeadingZeros(pad, digits);
    assert HexZ(n, width) == Repeat('0', pad) + digits;
  }

  /** Leading zeros do not change the value of a hex string. */
  lemma {:induction false} LeadingZeros(k: nat, s: string)
    requires AllHexDigits(s)
    ensures AllHexDigits(Repeat('0', k) + s)
    ensures HexValue(Repeat('0', k) + s) == HexValue(s)
    decreases |s| + k
  {
    var z := Repeat('0', k);
    if s == [] {
      assert z + s == z;
      if k > 0 {
        assert z[..k - 1] == Repeat('0', k - 1);
        LeadingZeros(k - 1, []);
        assert Repeat('0', k - 1) + [] == Repeat('0', k - 1);
      }
    } else {
      var t := z + s;
      assert t[..|t| - 1] == z + s[..|s| - 1];
      LeadingZeros(k, s[..|s| - 1]);
    }
  }

  /** A byte always renders as exactly two digits under `{0:02X}`: the high
      nibble, then the low one. */
  lemma ByteHex(b: Byte)
    ensures HexZ(b, 2) == [HexDigit(b / 16), HexDigit(b % 16)]
  {
    if b >= 16 {
      assert HexDigits(b / 16) == [HexDigit(b / 16)];
    }
  }

  /** `'%-Ns' % s`: left-justified, padded with spaces to at least `width`. */
  function PadRight(s: string, width: nat): (r: string)
    ensures |r| == if |s| < width then width else |s|
    ensures r[..|s|] == s
    ensures forall i :: |s| <= i < |r| ==> r[i] == ' '
  {
    if |s| < width then s + Repeat(' ', width - |s|) else s
  }

  /** The three parts of a concatenation can be sliced back out of it. */
  lemma ConcatParts<T>(a: seq<T>, b: seq<T>, c: seq<T>)
    ensures |a + b + c| == |a| + |b| + |c|
    ensures (a + b + c)[..|a|] == a
    ensures (a + b + c)[|a|..|a| + |b|] == b
    ensures (a + b + c)[|a| + |b|..] == c
  {
  }

  /** Concatenation is associative. */
  lemma AppendAssoc<T>(a: seq<T>, b: seq<T>, c: seq<T>)
    ensures a + b + c == a + (b + c)
  {
  }

  /** A slice of a slice is a slice. */
  lemma SliceOfSlice<T>(s: seq<T>, lo: nat, hi: nat, i: nat, j: nat)
    requires lo <= hi <= |s| && i <= j <= hi - lo
    ensures s[lo..hi][i..j] == s[lo + i..lo + j]
  {
    var outer := s[lo..hi];
    assert |outer| == hi - lo;
    var inner := outer[i..j];
    forall m | 0 <= m < j - i
      ensures inner[m] == s[lo + i + m]
    {
      assert inner[m] == outer[i + m];
    }
  }

  // ---------------------------------------------------------------------
  // Lower-casing and suffixes

  /** `str.lower` on the ASCII letters. */
  function LowerChar(c: char): char {
    if 'A' <= c <= 'Z' then (c as int + 32) as char else c
  }

  /** The result has no upper-case ASCII letter left, and the only
      characters it changes are upper-case letters, each into its lower-case
      counterpart, 32 code points further on. */
  function Lower(s: string): (r: string)
    ensures |r| == |s|
    ensures forall i :: 0 <= i < |s| ==> !('A' <= r[i] <= 'Z')
    ensures forall i :: 0 <= i < |s| && r[i] != s[i] ==> 'A' <= s[i] <= 'Z' && r[i] as int == s[i] as int + 32
  {
    seq(|s|, i requires 0 <= i < |s| => LowerChar(s[i]))
  }

  /** Lower-casing twice is lower-casing once. */
  lemma LowerIdempotent(s: string)
    ensures Lower(Lower(s)) == Lower(s)
  {
  }

  /** `str.endswith` with one suffix. */
  predicate EndsWith(s: string, suffix: string) {
    |suffix| <= |s| && s[|s| - |suffix|..] == suffix
  }

  /** The last character of a string that ends with a non-empty suffix is
      the suffix's last character. */
  lemma EndsWithLast(s: string, suffix: string)
    requires suffix != [] && EndsWith(s, suffix)
    ensures s != [] && s[|s| - 1] == suffix[|suffix| - 1]
  {
    assert s[|s| - |suffix|..][|suffix| - 1] == s[|s| - 1];
  }

  // ---------------------------------------------------------------------
  // Joining lines

  /** `'\n'.join(lines)`. */
  function Join(lines: seq<string>): string {
    if |lines| == 0 then ""
    else if |lines| == 1 then lines[0]
    else lines[0] + "\n" + Join(lines[1..])
  }

  /** Appending a line to a non-empty list appends a newline and that line. */
  lemma {:induction false} JoinSnoc(lines: seq<string>, last: string)
    requires lines != []
    ensures Join(lines + [last]) == Join(lines) + "\n" + last
    decreases |lines|
  {
    if |lines| > 1 {
      assert (lines + [last])[1..] == lines[1..] + [last];
      JoinSnoc(lines[1..], last);
    }
  }

  /** A joined text whose first two lines are `a` and `b` and whose last line
      is `c` starts with `a`, a newline, `b`, a newline, and ends with a
      newline and `c`. */
  lemma JoinFrame(a: string, b: string, middle: seq<string>, c: string)
    ensures var text := Join([a, b] + middle + [c]);
      && |text| >= |a| + |b| + |c| + 2
      && text[..|a| + |b| + 2] == a + "\n" + b + "\n"
      && text[|text| - |c| - 1..] == "\n" + c
  {
    var lines := [a, b] + middle + [c];
    JoinSnoc([a, b] + middle, c);
    assert lines[1..] == [b] + middle + [c];
    assert lines[1..][1..] == middle + [c];
    var rest := Join(middle + [c]);
    assert Join(lines) == a + "\n" + (b + "\n" + rest);
    if middle == [] {
      assert rest == c;
    } else {
      JoinSnoc(middle, c);
    }
    assert |rest| >= |c|;
  }
}
