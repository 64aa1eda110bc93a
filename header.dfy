/** How a response header value becomes bytes. The web framework encodes
    every header value as Latin-1 while it builds the response; a character
    above U+00FF makes that raise Python's `UnicodeEncodeError`, and the
    text of that error is what the handler reports. */
module Header {

  /** The character fits in one Latin-1 byte. */
  predicate IsLatin1Char(c: char)
  {
    c as int < 256
  }

  /** Every character of `s` fits in Latin-1, so `s.encode("latin-1")`
      succeeds. */
  predicate Latin1(s: string)
  {
    forall i :: 0 <= i < |s| ==> IsLatin1Char(s[i])
  }

  /** The first index at or after `i` whose character does not fit in
      Latin-1 (or `|s|`): where the encoder stops. */
  function FirstWide(s: string, i: nat): (k: nat)
    requires i <= |s|
    ensures i <= k <= |s|
    ensures forall m :: i <= m < k ==> IsLatin1Char(s[m])
    ensures k == |s| || !IsLatin1Char(s[k])
    decreases |s| - i
  {
    if i < |s| && IsLatin1Char(s[i]) then FirstWide(s, i + 1) else i
  }

  /** The end of the run of characters that do not fit in Latin-1 starting
      at `i`: the encoder reports the whole run at once. */
  function WideRunEnd(s: string, i: nat): (k: nat)
    requires i <= |s|
    ensures i <= k <= |s|
    ensures forall m :: i <= m < k ==> !IsLatin1Char(s[m])
    ensures k == |s| || IsLatin1Char(s[k])
    decreases |s| - i
  {
    if i < |s| && !IsLatin1Char(s[i]) then WideRunEnd(s, i + 1) else i
  }

  /** The encoder stops somewhere exactly when the text is not Latin-1. */
  lemma FirstWideFound(s: string)
    ensures Latin1(s) <==> FirstWide(s, 0) == |s|
  {
  }

  /** A Latin-1 prefix moves the first offending character along by its
      length. */
  lemma {:induction false} FirstWideAfter(p: string, s: string)
    requires Latin1(p)
    ensures FirstWide(p + s, 0) == |p| + FirstWide(s, 0)
  {
    FirstWideShift(p, s, 0);
    FirstWideFrom(p + s, 0, |p|);
  }

  /** Starting inside `s` after a prefix `p` is starting in `s`. */
  lemma {:induction false} FirstWideShift(p: string, s: string, i: nat)
    requires i <= |s|
    ensures FirstWide(p + s, |p| + i) == |p| + FirstWide(s, i)
    decreases |s| - i
  {
    if i < |s| {
      assert (p + s)[|p| + i] == s[i];
      if IsLatin1Char(s[i]) {
        FirstWideShift(p, s, i + 1);
      }
    }
  }

  /** Over a stretch that fits in Latin-1 the scan just moves on. */
  lemma {:induction false} FirstWideFrom(s: string, i: nat, j: nat)
    requires i <= j <= |s|
    requires forall m :: i <= m < j ==> IsLatin1Char(s[m])
    ensures FirstWide(s, i) == FirstWide(s, j)
    decreases j - i
  {
    if i < j {
      FirstWideFrom(s, i + 1, j);
    }
  }

  /** The value of a digit character: 0-9, then a-f for 10-15; -1 for any
      other character. */
  function DigitValue(c: char): int
  {
    if '0' <= c <= '9' then c as int - '0' as int
    else if 'a' <= c <= 'f' then c as int - 'a' as int + 10
    else -1
  }

  /** The digit character for `d` in lower-case hexadecimal (and decimal). */
  function DigitChar(d: nat): (c: char)
    requires d < 16
    ensures DigitValue(c) == d
  {
    if d < 10 then ('0' as int + d) as char else ('a' as int + d - 10) as char
  }

  /** The number the digits of `s` spell in base `b`, most significant
      first. */
  function ValueOf(s: string, b: nat): int
  {
    if s == [] then 0 else ValueOf(s[..|s| - 1], b) * b + DigitValue(s[|s| - 1])
  }

  function Pow(b: nat, e: nat): nat
  {
    if e == 0 then 1 else b * Pow(b, e - 1)
  }

  /** `%d` of a non-negative number: decimal digits without leading zeros. */
  function Decimal(n: nat): (r: string)
    ensures |r| >= 1
    ensures forall i :: 0 <= i < |r| ==> '0' <= r[i] <= '9'
    ensures |r| > 1 ==> r[0] != '0'
  {
    if n < 10 then [DigitChar(n)] else Decimal(n / 10) + [DigitChar(n % 10)]
  }

  /** `%0<w>x`: lower-case hexadecimal digits, padded with zeros to `w`. */
  function HexPad(n: nat, w: nat): (r: string)
    ensures |r| == w
    ensures forall i :: 0 <= i < |r| ==> 0 <= DigitValue(r[i]) < 16
  {
    if w == 0 then "" else HexPad(n / 16, w - 1) + [DigitChar(n % 16)]
  }

  /** Reading the decimal digits back gives the number. */
  lemma {:induction false} DecimalValue(n: nat)
    ensures ValueOf(Decimal(n), 10) == n
  {
    var r := Decimal(n);
    if n >= 10 {
      DecimalValue(n / 10);
      assert r[..|r| - 1] == Decimal(n / 10);
    }
  }

  /** Reading the padded hexadecimal digits back gives the number, when it
      fits in `w` digits. */
  lemma {:induction false} HexPadValue(n: nat, w: nat)
    requires n < Pow(16, w)
    ensures ValueOf(HexPad(n, w), 16) == n
  {
    if w > 0 {
      HexPadValue(n / 16, w - 1);
      var r := HexPad(n, w);
      assert r[..|r| - 1] == HexPad(n / 16, w - 1);
    }
  }

  /** How CPython writes a character that Latin-1 cannot hold in the error
      text: `\uXXXX` up to U+FFFF, `\UXXXXXXXX` above. */
  function Escape(c: char): (r: string)
    requires !IsLatin1Char(c)
    ensures |r| == (if c as int <= 0xFFFF then 6 else 10)
    ensures r[0] == '\\'
    ensures r[1] == (if c as int <= 0xFFFF then 'u' else 'U')
    ensures forall i :: 2 <= i < |r| ==> 0 <= DigitValue(r[i]) < 16
    ensures ValueOf(r[2..], 16) == c as int
  {
    var r := if c as int <= 0xFFFF then "\\u" + HexPad(c as int, 4) else "\\U" + HexPad(c as int, 8);
    assert r[2..] == HexPad(c as int, |r| - 2);
    HexPadValue(c as int, |r| - 2);
    r
  }

  const Prefix := "'latin-1' codec can't encode character"
  const Reason := "ordinal not in range(256)"

  /** `str()` of the `UnicodeEncodeError` that `s.encode("latin-1")`
      raises. CPython reports the first run of characters that do not fit:
      one character is named with its position, a longer run by its first
      and last position. */
  function EncodeErrorText(s: string): (r: string)
    requires !Latin1(s)
    ensures |Prefix| <= |r| && r[..|Prefix|] == Prefix
    ensures |r| >= |Reason| && r[|r| - |Reason|..] == Reason
  {
    var i := FirstWide(s, 0);
    var j := WideRunEnd(s, i);
    if j == i + 1 then
      "'latin-1' codec can't encode character '" + Escape(s[i]) + "' in position " + Decimal(i) + ": " + Reason
    else
      "'latin-1' codec can't encode characters in position " + Decimal(i) + "-" + Decimal(j - 1) + ": " + Reason
  }
}
