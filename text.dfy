/** The string operations the store relies on: `toLowerCase` (ASCII only),
    `trim`, and the ISO-timestamp recogniser of `dateReviver` (App.tsx:25-31)
    together with the timestamp text that `JSON.stringify` writes for a date. */
module Text {

  // ---------------------------------------------------------------- lower case

  predicate IsAsciiUpper(c: char) {
    'A' <= c <= 'Z'
  }

  /** `toLowerCase` on one character, for the ASCII letters only. */
  function LowerChar(c: char): (r: char)
    ensures !IsAsciiUpper(r)
  {
    if IsAsciiUpper(c) then (c as int + 32) as char else c
  }

  /** `String.prototype.toLowerCase`, restricted to ASCII letters. */
  function Lower(s: string): (r: string)
    ensures |r| == |s|
    ensures forall i :: 0 <= i < |r| ==> !IsAsciiUpper(r[i])
  {
    if s == [] then [] else [LowerChar(s[0])] + Lower(s[1..])
  }

  lemma {:induction false} LowerAt(s: string, i: nat)
    requires i < |s|
    ensures Lower(s)[i] == LowerChar(s[i])
  {
    if i > 0 {
      LowerAt(s[1..], i - 1);
    }
  }

  /** Lower-casing twice is lower-casing once. */
  lemma {:induction false} LowerIdempotent(s: string)
    ensures Lower(Lower(s)) == Lower(s)
  {
    if s != [] {
      LowerIdempotent(s[1..]);
      assert Lower(s)[1..] == Lower(s[1..]);
    }
  }

  // ---------------------------------------------------------------- trim

  /** The characters `String.prototype.trim` removes: the ECMAScript
      WhiteSpace and LineTerminator code points. */
  predicate IsTrimmable(c: char) {
    var n := c as int;
    n == 0x09 || n == 0x0A || n == 0x0B || n == 0x0C || n == 0x0D || n == 0x20 ||
    n == 0xA0 || n == 0x1680 || (0x2000 <= n <= 0x200A) || n == 0x2028 || n == 0x2029 ||
    n == 0x202F || n == 0x205F || n == 0x3000 || n == 0xFEFF
  }

  function TrimStart(s: string): string {
    if s != [] && IsTrimmable(s[0]) then TrimStart(s[1..]) else s
  }

  function TrimEnd(s: string): string {
    if s != [] && IsTrimmable(s[|s| - 1]) then TrimEnd(s[..|s| - 1]) else s
  }

  /** `TrimStart` drops a trimmable prefix and stops at the first character
      that is not trimmable. */
  lemma {:induction false} TrimStartSpec(s: string)
    ensures var r := TrimStart(s);
      (r == [] || !IsTrimmable(r[0])) &&
      |r| <= |s| && r == s[|s| - |r|..] &&
      (forall k :: 0 <= k < |s| - |r| ==> IsTrimmable(s[k]))
  {
    if s != [] && IsTrimmable(s[0]) {
      TrimStartSpec(s[1..]);
      var r := TrimStart(s);
      forall k | 0 <= k < |s| - |r|
        ensures IsTrimmable(s[k])
      {
        if k > 0 {
          assert s[k] == s[1..][k - 1];
        }
      }
    }
  }

  /** `TrimEnd` drops a trimmable suffix and stops at the last character
      that is not trimmable. */
  lemma {:induction false} TrimEndSpec(s: string)
    ensures var r := TrimEnd(s);
      (r == [] || !IsTrimmable(r[|r| - 1])) &&
      |r| <= |s| && r == s[..|r|] &&
      (forall k :: |r| <= k < |s| ==> IsTrimmable(s[k]))
  {
    if s != [] && IsTrimmable(s[|s| - 1]) {
      TrimEndSpec(s[..|s| - 1]);
      var r := TrimEnd(s);
      forall k | |r| <= k < |s|
        ensures IsTrimmable(s[k])
      {
        if k < |s| - 1 {
          assert s[k] == s[..|s| - 1][k];
        }
      }
    }
  }

  /** `String.prototype.trim`. */
  function Trim(s: string): string {
    TrimEnd(TrimStart(s))
  }

  /** Trimming removes only trimmable characters, and only at the two ends,
      and leaves none at either end. */
  lemma TrimSpec(s: string)
    ensures exists i, j ::
      (0 <= i <= j <= |s| && Trim(s) == s[i..j] &&
       (forall k :: 0 <= k < i ==> IsTrimmable(s[k])) &&
       (forall k :: j <= k < |s| ==> IsTrimmable(s[k])))
    ensures Trim(s) == [] || (!IsTrimmable(Trim(s)[0]) && !IsTrimmable(Trim(s)[|Trim(s)| - 1]))
  {
    var t := TrimStart(s);
    TrimStartSpec(s);
    TrimEndSpec(t);
    var i := |s| - |t|;
    var j := i + |Trim(s)|;
    assert Trim(s) == s[i..j];
    forall k | j <= k < |s|
      ensures IsTrimmable(s[k])
    {
      assert s[k] == t[k - i];
    }
  }

  /** Trimming is idempotent. */
  lemma TrimIdempotent(s: string)
    ensures Trim(Trim(s)) == Trim(s)
  {
    TrimSpec(s);
    var t := Trim(s);
    assert TrimStart(t) == t;
    assert TrimEnd(t) == t;
  }

  // ---------------------------------------------------------------- ISO timestamps

  predicate IsDigit(c: char) {
    '0' <= c <= '9'
  }

  /** What `.` in a JavaScript regular expression without the `s` flag matches:
      anything but a line terminator. */
  predicate IsLineTerminator(c: char) {
    var n := c as int;
    n == 0x0A || n == 0x0D || n == 0x2028 || n == 0x2029
  }

  /** One position of an anchored, fixed-length regular expression. */
  datatype PatternItem = Digit | Literal(c: char) | AnyChar

  predicate ItemMatches(item: PatternItem, c: char) {
    match item
    case Digit => IsDigit(c)
    case Literal(l) => c == l
    case AnyChar => !IsLineTerminator(c)
  }

  /** `/^\d{4}-\d{2}-\d{2}T\d{2}:\d{2}:\d{2}.\d{3}Z$/` position by position:
      the item that must match character `k` of a 24-character string. The
      `.` before the milliseconds is not escaped, so position 19 matches any
      character but a line terminator. */
  function IsoItem(k: nat): PatternItem {
    if k == 4 || k == 7 then Literal('-')
    else if k == 10 then Literal('T')
    else if k == 13 || k == 16 then Literal(':')
    else if k == 19 then AnyChar
    else if k == 23 then Literal('Z')
    else Digit
  }

  const IsoLength: nat := 24

  /** `isoDateRegex.test(value)` in `dateReviver`. */
  predicate LooksLikeIsoDate(s: string) {
    |s| == IsoLength &&
    forall k :: 0 <= k < |s| ==> ItemMatches(IsoItem(k), s[k])
  }

  /** The seven digit groups of `toISOString` text, read as numbers. Nothing
      here ties them to a real calendar date; `OnCalendar` does. */
  datatype DateFields = DateFields(
    year: nat, month: nat, day: nat, hour: nat, minute: nat, second: nat, millisecond: nat)

  function Pow10(w: nat): (p: nat)
    ensures p >= 1
  {
    if w == 0 then 1 else 10 * Pow10(w - 1)
  }

  /** Every field fits the number of digits `toISOString` gives it
      (years 0 to 9999; no calendar validity is implied). */
  predicate FitsIsoWidths(f: DateFields) {
    f.year < Pow10(4) && f.month < Pow10(2) && f.day < Pow10(2) && f.hour < Pow10(2) &&
    f.minute < Pow10(2) && f.second < Pow10(2) && f.millisecond < Pow10(3)
  }

  /** The ranges a UTC date's fields take in `toISOString` text: years 0 to
      9999, month 1 to 12, day 1 to 31, hour up to 23, minute and second up
      to 59 (the length of each month is not checked). */
  predicate OnCalendar(f: DateFields) {
    FitsIsoWidths(f) && 1 <= f.month <= 12 && 1 <= f.day <= 31 &&
    f.hour <= 23 && f.minute <= 59 && f.second <= 59
  }

  function DigitChar(d: nat): char
    requires d < 10
  {
    ('0' as int + d) as char
  }

  function DigitValue(c: char): nat {
    if IsDigit(c) then c as int - '0' as int else 0
  }

  /** `n` written in decimal, zero-padded on the left to `width` digits. */
  function Digits(n: nat, width: nat): (r: string)
    ensures |r| == width
    ensures forall k :: 0 <= k < |r| ==> IsDigit(r[k])
  {
    if width == 0 then [] else Digits(n / 10, width - 1) + [DigitChar(n % 10)]
  }

  /** The number a string of decimal digits denotes. */
  function DigitsValue(s: string): nat {
    if s == [] then 0 else 10 * DigitsValue(s[..|s| - 1]) + DigitValue(s[|s| - 1])
  }

  lemma {:induction false} DigitsValueOfDigits(n: nat, width: nat)
    requires n < Pow10(width)
    ensures DigitsValue(Digits(n, width)) == n
  {
    if width > 0 {
      DigitsValueOfDigits(n / 10, width - 1);
      var d := Digits(n, width);
      assert d[..width - 1] == Digits(n / 10, width - 1);
    }
  }

  lemma {:induction false} DigitsOfDigitsValue(s: string)
    requires forall k :: 0 <= k < |s| ==> IsDigit(s[k])
    ensures DigitsValue(s) < Pow10(|s|)
    ensures Digits(DigitsValue(s), |s|) == s
  {
    if s != [] {
      var init := s[..|s| - 1];
      DigitsOfDigitsValue(init);
      var v := DigitsValue(s);
      assert v / 10 == DigitsValue(init) && v % 10 == DigitValue(s[|s| - 1]);
      assert s == init + [s[|s| - 1]];
    }
  }

  /** The text `Date.prototype.toISOString` produces for years 0 to 9999,
      which `JSON.stringify` stores for every date field. */
  function FormatIso(f: DateFields): string {
    Digits(f.year, 4) + "-" + Digits(f.month, 2) + "-" + Digits(f.day, 2) + "T" +
    Digits(f.hour, 2) + ":" + Digits(f.minute, 2) + ":" + Digits(f.second, 2) + "." +
    Digits(f.millisecond, 3) + "Z"
  }

  /** Reads the digit groups of a recognised timestamp back. */
  function ParseIso(s: string): DateFields
    requires LooksLikeIsoDate(s)
  {
    DateFields(DigitsValue(s[0..4]), DigitsValue(s[5..7]), DigitsValue(s[8..10]),
               DigitsValue(s[11..13]), DigitsValue(s[14..16]), DigitsValue(s[17..19]),
               DigitsValue(s[20..23]))
  }

  /** Where each field and separator sits in the written text. */
  lemma FormatIsoLayout(f: DateFields)
    ensures var s := FormatIso(f);
      |s| == 24 &&
      s[0..4] == Digits(f.year, 4) && s[5..7] == Digits(f.month, 2) && s[8..10] == Digits(f.day, 2) &&
      s[11..13] == Digits(f.hour, 2) && s[14..16] == Digits(f.minute, 2) && s[17..19] == Digits(f.second, 2) &&
      s[20..23] == Digits(f.millisecond, 3) &&
      s[4] == '-' && s[7] == '-' && s[10] == 'T' && s[13] == ':' && s[16] == ':' && s[19] == '.' && s[23] == 'Z'
  {
  }

  /** Every written timestamp is recognised. */
  lemma FormatIsoRecognised(f: DateFields)
    ensures LooksLikeIsoDate(FormatIso(f))
  {
    var s := FormatIso(f);
    FormatIsoLayout(f);
    forall k | 0 <= k < IsoLength
      ensures ItemMatches(IsoItem(k), s[k])
    {
      if k < 4 {
        assert s[k] == s[0..4][k];
      } else if 5 <= k < 7 {
        assert s[k] == s[5..7][k - 5];
      } else if 8 <= k < 10 {
        assert s[k] == s[8..10][k - 8];
      } else if 11 <= k < 13 {
        assert s[k] == s[11..13][k - 11];
      } else if 14 <= k < 16 {
        assert s[k] == s[14..16][k - 14];
      } else if 17 <= k < 19 {
        assert s[k] == s[17..19][k - 17];
      } else if 20 <= k < 23 {
        assert s[k] == s[20..23][k - 20];
      }
    }
  }

  /** Every stored timestamp of a year from 0 to 9999 is revived, and
      reviving reads back the very fields that were written. */
  lemma FormatIsoRoundTrip(f: DateFields)
    requires FitsIsoWidths(f)
    ensures LooksLikeIsoDate(FormatIso(f))
    ensures ParseIso(FormatIso(f)) == f
  {
    FormatIsoRecognised(f);
    FormatIsoLayout(f);
    DigitsValueOfDigits(f.year, 4);
    DigitsValueOfDigits(f.month, 2);
    DigitsValueOfDigits(f.day, 2);
    DigitsValueOfDigits(f.hour, 2);
    DigitsValueOfDigits(f.minute, 2);
    DigitsValueOfDigits(f.second, 2);
    DigitsValueOfDigits(f.millisecond, 3);
  }

  lemma IsoDigitPositions(s: string)
    requires LooksLikeIsoDate(s)
    ensures forall k :: 0 <= k < 4 ==> IsDigit(s[k])
    ensures IsDigit(s[5]) && IsDigit(s[6]) && IsDigit(s[8]) && IsDigit(s[9])
    ensures IsDigit(s[11]) && IsDigit(s[12]) && IsDigit(s[14]) && IsDigit(s[15])
    ensures IsDigit(s[17]) && IsDigit(s[18])
    ensures IsDigit(s[20]) && IsDigit(s[21]) && IsDigit(s[22])
    ensures s[4] == '-' && s[7] == '-' && s[10] == 'T' && s[13] == ':' && s[16] == ':' && s[23] == 'Z'
  {
    assert ItemMatches(IsoItem(0), s[0]) && ItemMatches(IsoItem(1), s[1]);
    assert ItemMatches(IsoItem(2), s[2]) && ItemMatches(IsoItem(3), s[3]);
    assert ItemMatches(IsoItem(4), s[4]) && ItemMatches(IsoItem(5), s[5]);
    assert ItemMatches(IsoItem(6), s[6]) && ItemMatches(IsoItem(7), s[7]);
    assert ItemMatches(IsoItem(8), s[8]) && ItemMatches(IsoItem(9), s[9]);
    assert ItemMatches(IsoItem(10), s[10]) && ItemMatches(IsoItem(11), s[11]);
    assert ItemMatches(IsoItem(12), s[12]) && ItemMatches(IsoItem(13), s[13]);
    assert ItemMatches(IsoItem(14), s[14]) && ItemMatches(IsoItem(15), s[15]);
    assert ItemMatches(IsoItem(16), s[16]) && ItemMatches(IsoItem(17), s[17]);
    assert ItemMatches(IsoItem(18), s[18]);
    assert ItemMatches(IsoItem(20), s[20]) && ItemMatches(IsoItem(21), s[21]);
    assert ItemMatches(IsoItem(22), s[22]) && ItemMatches(IsoItem(23), s[23]);
  }

  /** A recognised string whose separator is a real `.` is exactly the text
      written for the fields read from it. */
  lemma ParseIsoRoundTrip(s: string)
    requires LooksLikeIsoDate(s) && s[19] == '.'
    ensures FitsIsoWidths(ParseIso(s))
    ensures FormatIso(ParseIso(s)) == s
  {
    IsoDigitPositions(s);
    DigitsOfDigitsValue(s[0..4]);
    DigitsOfDigitsValue(s[5..7]);
    DigitsOfDigitsValue(s[8..10]);
    DigitsOfDigitsValue(s[11..13]);
    DigitsOfDigitsValue(s[14..16]);
    DigitsOfDigitsValue(s[17..19]);
    DigitsOfDigitsValue(s[20..23]);
    assert s[..5] == s[0..4] + "-";
    assert s[..8] == s[..5] + s[5..7] + "-";
    assert s[..11] == s[..8] + s[8..10] + "T";
    assert s[..14] == s[..11] + s[11..13] + ":";
    assert s[..17] == s[..14] + s[14..16] + ":";
    assert s[..20] == s[..17] + s[17..19] + ".";
    assert s == s[..20] + s[20..23] + "Z";
  }

  /** Because the `.` is unescaped, the recogniser also accepts strings that
      no date serialises to. */
  lemma SeparatorIsUnchecked()
    ensures LooksLikeIsoDate("2024-01-01T00:00:00X000Z")
    ensures forall f :: FormatIso(f) != "2024-01-01T00:00:00X000Z"
  {
    var s := "2024-01-01T00:00:00X000Z";
    forall f
      ensures FormatIso(f) != s
    {
      assert FormatIso(f)[19] == '.';
    }
  }

  /** The recogniser with the separator escaped, `\.`: position 19 must be
      a real dot. */
  predicate LooksLikeIsoTimestamp(s: string) {
    LooksLikeIsoDate(s) && s[19] == '.'
  }

  /** The escaped recogniser accepts exactly the texts `FormatIso` writes for
      digit fields within their widths. */
  lemma IsoTimestampExactlyWritten(s: string)
    ensures LooksLikeIsoTimestamp(s) <==> exists f :: FitsIsoWidths(f) && FormatIso(f) == s
  {
    if LooksLikeIsoTimestamp(s) {
      ParseIsoRoundTrip(s);
    }
    if exists f :: FitsIsoWidths(f) && FormatIso(f) == s {
      var f :| FitsIsoWidths(f) && FormatIso(f) == s;
      FormatIsoRecognised(f);
      FormatIsoLayout(f);
    }
  }

  /** Escaping the dot is not enough to revive only real dates: the escaped
      recogniser still accepts month 13, which no calendar date is written
      with. */
  lemma EscapedPatternAcceptsMonth13()
    ensures LooksLikeIsoTimestamp("2024-13-01T00:00:00.000Z")
    ensures forall f :: OnCalendar(f) ==> FormatIso(f) != "2024-13-01T00:00:00.000Z"
  {
    var s := "2024-13-01T00:00:00.000Z";
    forall f | OnCalendar(f)
      ensures FormatIso(f) != s
    {
      var written := FormatIso(f);
      FormatIsoLayout(f);
      DigitsValueOfDigits(f.month, 2);
      assert DigitsValue(written[5..7]) <= 12;
      assert DigitsValue(s[5..7]) == 13 by {
        assert s[5..7] == "13";
      }
    }
  }
}
