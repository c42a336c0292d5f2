/**
 * `formatTimeTo12h` of src/lib/utils.ts: turns a 24-hour "HH:mm" string into
 * "h:mm AM EST" or "h:mm PM EST", and hands back anything it cannot read
 * unchanged.
 *
 * The JavaScript built-ins the function leans on are written out here:
 * `parseInt(_, 10)` (ParseInt, with None for NaN), `split(':')` (Split),
 * `toLowerCase` and `includes` (ToLower, Contains), `%` on numbers (JsRem12),
 * `toString` on an integer (IntToString) and `padStart` (PadStart).
 */
module TimeFormat {
  import opened Wrappers

  // ---------------------------------------------------------------------
  // Characters
  // ---------------------------------------------------------------------

  predicate IsDigit(c: char) { '0' <= c <= '9' }

  predicate AllDigits(s: string) { forall i :: 0 <= i < |s| ==> IsDigit(s[i]) }

  function DigitValue(c: char): (d: nat)
    requires IsDigit(c)
    ensures d < 10
  {
    c as int - '0' as int
  }

  function DigitChar(d: nat): (c: char)
    requires d < 10
    ensures IsDigit(c) && DigitValue(c) == d
  {
    ('0' as int + d) as char
  }

  /** The white space `parseInt` skips: ECMAScript's WhiteSpace and LineTerminator code points. */
  predicate IsJsWhitespace(c: char) {
    || c == '\t' || c == '\n' || c == '\U{B}' || c == '\U{C}' || c == '\r' || c == ' '
    || c == '\U{A0}' || c == '\U{1680}' || ('\U{2000}' <= c <= '\U{200A}')
    || c == '\U{2028}' || c == '\U{2029}' || c == '\U{202F}' || c == '\U{205F}'
    || c == '\U{3000}' || c == '\U{FEFF}'
  }

  /**
   * Lower-casing of ASCII letters. No other character lower-cases to 'a',
   * 'm' or 'p', so for the "am"/"pm" test this agrees with `toLowerCase`.
   */
  function LowerChar(c: char): char {
    if 'A' <= c <= 'Z' then (c as int + 32) as char else c
  }

  function ToLower(s: string): string {
    seq(|s|, i requires 0 <= i < |s| => LowerChar(s[i]))
  }

  /** `s.includes(pat)` */
  predicate Contains(s: string, pat: string)
    decreases |s|
  {
    pat <= s || (|s| > 0 && Contains(s[1..], pat))
  }

  predicate EndsWith(s: string, suffix: string) {
    |suffix| <= |s| && s[|s| - |suffix|..] == suffix
  }

  /** Line 16: the lower-cased text mentions "am" or "pm". */
  predicate HasMeridiem(s: string) {
    var lower := ToLower(s);
    Contains(lower, "am") || Contains(lower, "pm")
  }

  // ---------------------------------------------------------------------
  // String.prototype.split with a one-character separator
  // ---------------------------------------------------------------------

  function Split(s: string, sep: char): (parts: seq<string>)
    ensures |parts| >= 1
    ensures forall i :: 0 <= i < |parts| ==> sep !in parts[i]
    ensures |parts| >= 2 <==> sep in s
    decreases |s|
  {
    if s == [] then [""]
    else
      var rest := Split(s[1..], sep);
      assert sep in s <==> s[0] == sep || sep in s[1..];
      if s[0] == sep then [""] + rest
      else [[s[0]] + rest[0]] + rest[1..]
  }

  function Join(parts: seq<string>, sep: char): string
    requires |parts| >= 1
  {
    if |parts| == 1 then parts[0] else parts[0] + [sep] + Join(parts[1..], sep)
  }

  /** Splitting loses nothing: joining the parts back gives the input. */
  lemma {:induction false} SplitJoin(s: string, sep: char)
    ensures Join(Split(s, sep), sep) == s
    decreases |s|
  {
    if s != [] {
      var rest := Split(s[1..], sep);
      SplitJoin(s[1..], sep);
      if s[0] != sep && |rest| > 1 {
        var parts := Split(s, sep);
        assert parts[1..] == rest[1..];
        assert Join(rest, sep) == rest[0] + [sep] + Join(rest[1..], sep);
      }
    }
  }

  /** A text without the separator is a single part. */
  lemma SplitNoSeparator(a: string, sep: char)
    requires sep !in a
    ensures Split(a, sep) == [a]
  {
    SplitJoin(a, sep);
  }

  /** The first part is the text before the first separator. */
  lemma {:induction false} SplitFirst(a: string, sep: char, rest: string)
    requires sep !in a
    ensures Split(a + [sep] + rest, sep) == [a] + Split(rest, sep)
    decreases |a|
  {
    var s := a + [sep] + rest;
    if a == [] {
      assert s[1..] == rest;
    } else {
      assert s[1..] == a[1..] + [sep] + rest;
      SplitFirst(a[1..], sep, rest);
      assert [a[0]] + a[1..] == a;
    }
  }

  // ---------------------------------------------------------------------
  // parseInt(_, 10)
  // ---------------------------------------------------------------------

  function TrimStart(s: string): (t: string)
    ensures |t| <= |s| && t == s[|s| - |t|..]
    ensures t == [] || !IsJsWhitespace(t[0])
    ensures forall i :: 0 <= i < |s| - |t| ==> IsJsWhitespace(s[i])
    decreases |s|
  {
    if s != [] && IsJsWhitespace(s[0]) then TrimStart(s[1..]) else s
  }

  /** The longest prefix made of decimal digits. */
  function DigitPrefix(s: string): (p: string)
    ensures p <= s && AllDigits(p)
    ensures p == s || !IsDigit(s[|p|])
    decreases |s|
  {
    if s != [] && IsDigit(s[0]) then [s[0]] + DigitPrefix(s[1..]) else []
  }

  function DigitsValue(d: string): nat
    requires AllDigits(d)
  {
    if d == [] then 0 else DigitsValue(d[..|d| - 1]) * 10 + DigitValue(d[|d| - 1])
  }

  /**
   * `parseInt(s, 10)`, None standing for NaN: skip leading white space, take
   * an optional sign, then the longest run of digits; no digits gives NaN.
   */
  function ParseInt(s: string): (r: Option<int>)
    ensures TrimStart(s) == [] ==> r.None?
    ensures r.Some? && r.value < 0 ==> TrimStart(s)[0] == '-'
  {
    ParseSigned(TrimStart(s))
  }

  /**
   * `parseInt` once the leading white space is gone: a number is read exactly
   * when a digit comes first or right after a single sign, and only a minus
   * makes it negative.
   */
  function ParseSigned(t: string): (r: Option<int>)
    ensures r.Some? <==> (t != [] && IsDigit(t[0])) || (|t| > 1 && (t[0] == '-' || t[0] == '+') && IsDigit(t[1]))
    ensures r.Some? && r.value < 0 ==> t[0] == '-'
  {
    var negative := t != [] && t[0] == '-';
    var body := if t != [] && (t[0] == '-' || t[0] == '+') then t[1..] else t;
    var digits := DigitPrefix(body);
    var value: int := DigitsValue(digits);
    if digits == [] then None
    else if negative then Some(-value)
    else Some(value)
  }

  // ---------------------------------------------------------------------
  // Number.prototype.toString and String.prototype.padStart
  // ---------------------------------------------------------------------

  function NatToString(n: nat): (s: string)
    ensures s != [] && AllDigits(s)
    ensures s[0] == '0' ==> n == 0
    decreases n
  {
    if n < 10 then [DigitChar(n)] else NatToString(n / 10) + [DigitChar(n % 10)]
  }

  /** `n.toString()` for an integral number: an optional minus, then digits. */
  function IntToString(n: int): (s: string)
    ensures s != []
    ensures forall i :: 0 <= i < |s| ==> IsDigit(s[i]) || (i == 0 && s[i] == '-')
    ensures n < 0 <==> s[0] == '-'
  {
    if n < 0 then "-" + NatToString(-n) else NatToString(n)
  }

  function PadStart(s: string, width: nat, fill: char): (r: string)
    ensures |r| == if |s| >= width then |s| else width
    ensures r[|r| - |s|..] == s
    ensures forall i :: 0 <= i < |r| - |s| ==> r[i] == fill
  {
    if |s| >= width then s else seq(width - |s|, _ => fill) + s
  }

  lemma {:induction false} NatToStringValue(n: nat)
    ensures DigitsValue(NatToString(n)) == n
    decreases n
  {
    if n >= 10 {
      NatToStringValue(n / 10);
      var s := NatToString(n);
      assert s[..|s| - 1] == NatToString(n / 10);
    }
  }

  lemma {:induction false} DigitPrefixOf(d: string, rest: string)
    requires AllDigits(d)
    requires rest == [] || !IsDigit(rest[0])
    ensures DigitPrefix(d + rest) == d
    decreases |d|
  {
    if d != [] {
      assert (d + rest)[1..] == d[1..] + rest;
      DigitPrefixOf(d[1..], rest);
    } else {
      assert d + rest == rest;
    }
  }

  /** A run of digits followed by a non-digit parses as that run's value. */
  lemma ParseDigits(d: string, rest: string)
    requires d != [] && AllDigits(d)
    requires rest == [] || !IsDigit(rest[0])
    ensures ParseInt(d + rest) == Some(DigitsValue(d))
  {
    var s := d + rest;
    assert s[0] == d[0];
    assert !IsJsWhitespace(s[0]) && s[0] != '-' && s[0] != '+';
    assert TrimStart(s) == s;
    DigitPrefixOf(d, rest);
    assert ParseSigned(s) == Some(DigitsValue(d));
  }

  /** A minus sign, a run of digits and a non-digit parse as the negated run. */
  lemma ParseNegativeDigits(d: string, rest: string)
    requires d != [] && AllDigits(d)
    requires rest == [] || !IsDigit(rest[0])
    ensures ParseInt(['-'] + d + rest) == Some(-(DigitsValue(d) as int))
  {
    var s := ['-'] + d + rest;
    assert s != [] && s[0] == '-' && TrimStart(s) == s by {
      assert !IsJsWhitespace(s[0]);
    }
    assert DigitPrefix(s[1..]) == d by {
      assert s[1..] == d + rest;
      DigitPrefixOf(d, rest);
    }
    NegatedRead(s, d);
  }

  lemma NegatedRead(s: string, d: string)
    requires s != [] && s[0] == '-' && TrimStart(s) == s
    requires d != [] && DigitPrefix(s[1..]) == d
    ensures ParseInt(s) == Some(-(DigitsValue(d) as int))
  {
  }

  lemma ParseNegative(n: int, rest: string)
    requires n < 0
    requires rest == [] || !IsDigit(rest[0])
    ensures ParseInt(IntToString(n) + rest) == Some(n)
  {
    var k: nat := -n;
    var d := NatToString(k);
    assert IntToString(n) + rest == ['-'] + d + rest by {
      assert IntToString(n) == ['-'] + d;
    }
    assert DigitsValue(d) == k by {
      NatToStringValue(k);
    }
    ParseNegativeDigits(d, rest);
  }

  lemma ParseNatural(n: int, rest: string)
    requires n >= 0
    requires rest == [] || !IsDigit(rest[0])
    ensures ParseInt(IntToString(n) + rest) == Some(n)
  {
    assert IntToString(n) == NatToString(n);
    ParseDigits(NatToString(n), rest);
    NatToStringValue(n);
  }

  /** `parseInt` reads back what `toString` wrote, whatever follows it. */
  lemma ParseIntToString(n: int, rest: string)
    requires rest == [] || !IsDigit(rest[0])
    ensures ParseInt(IntToString(n) + rest) == Some(n)
  {
    if n < 0 {
      ParseNegative(n, rest);
    } else {
      ParseNatural(n, rest);
    }
  }

  /** Leading white space changes nothing for `parseInt`. */
  lemma ParseIntSkipsSpace(ws: string, t: string)
    requires forall i :: 0 <= i < |ws| ==> IsJsWhitespace(ws[i])
    ensures ParseInt(ws + t) == ParseInt(t)
  {
    TrimStartSkips(ws, t);
  }

  lemma {:induction false} TrimStartSkips(ws: string, t: string)
    requires forall i :: 0 <= i < |ws| ==> IsJsWhitespace(ws[i])
    ensures TrimStart(ws + t) == TrimStart(t)
    decreases |ws|
  {
    if ws == [] {
      assert ws + t == t;
    } else {
      assert (ws + t)[0] == ws[0];
      assert (ws + t)[1..] == ws[1..] + t;
      TrimStartSkips(ws[1..], t);
    }
  }

  /**
   * One sign before an unsigned text: a plus changes nothing and a minus
   * negates the number read, NaN staying NaN.
   */
  lemma SignHandling(t: string)
    requires t == [] || (t[0] != '-' && t[0] != '+')
    ensures ParseSigned(['+'] + t) == ParseSigned(t)
    ensures ParseSigned(['-'] + t) == if ParseSigned(t).Some? then Some(-ParseSigned(t).value) else None
  {
  }

  /** A text without any digit is NaN to `parseInt`. */
  lemma NoDigitsIsNaN(s: string)
    requires forall i :: 0 <= i < |s| ==> !IsDigit(s[i])
    ensures ParseInt(s) == None
  {
    var t := TrimStart(s);
    var body := if t != [] && (t[0] == '-' || t[0] == '+') then t[1..] else t;
    if body != [] {
      var k := |s| - |body|;
      assert body[0] == s[k];
    }
  }

  /** A text without any digit has no readable hours, so it comes back unchanged. */
  lemma DigitlessUnchanged(s: string)
    requires forall i :: 0 <= i < |s| ==> !IsDigit(s[i])
    ensures FormatTimeTo12h(Some(s)) == s
  {
    var parts := Split(s, ':');
    if |parts| >= 2 {
      SplitJoin(s, ':');
      assert s == parts[0] + [':'] + Join(parts[1..], ':');
      assert parts[0] <= s;
      NoDigitsIsNaN(parts[0]);
    }
  }

  // ---------------------------------------------------------------------
  // The clock arithmetic of lines 28-30
  // ---------------------------------------------------------------------

  /** JavaScript's `a % 12`: the remainder carries the sign of the dividend. */
  function JsRem12(a: int): (r: int)
    ensures -12 < r < 12
    ensures (a - r) % 12 == 0 && r % 12 == a % 12
    ensures a >= 0 ==> r >= 0
    ensures a <= 0 ==> r <= 0
  {
    if a >= 0 then a % 12
    else
      var q, rest := (-a) / 12, (-a) % 12;
      assert a + rest == 12 * -q;
      -rest
  }

  /**
   * The contract of Hours12 leaves no choice: any value agreeing with the
   * hours modulo 12 and lying in the stated range is the shown hour.
   */
  lemma ShownHourDetermined(h: int, r: int)
    requires r % 12 == h % 12
    requires h >= 0 ==> 1 <= r <= 12
    requires h < 0 ==> r == 12 || -11 <= r <= -1
    ensures r == Hours12(h)
  {
    var shown := Hours12(h);
    assert (r - shown) % 12 == 0;
  }

  /**
   * `hours % 12 || 12`: a zero remainder is falsy and shows as 12. The shown
   * hour always agrees with the hours modulo 12; with the ranges below this
   * fixes it, so negative hours show as the truncated remainder (-5 as -5).
   */
  function Hours12(h: int): (r: int)
    ensures r % 12 == h % 12
    ensures h >= 0 ==> 1 <= r <= 12
    ensures h < 0 ==> r == 12 || -11 <= r <= -1
    ensures r == 12 <==> h % 12 == 0
  {
    var rem := JsRem12(h);
    if rem == 0 then 12 else rem
  }

  function Period(h: int): (p: string)
    ensures p == "PM" <==> h >= 12
    ensures p == "AM" || p == "PM"
  {
    if h >= 12 then "PM" else "AM"
  }

  /** `minutes.toString().padStart(2, '0')` */
  function MinutesText(m: int): (r: string)
    ensures 0 <= m < 10 ==> r == ['0', DigitChar(m)]
    ensures m >= 10 || m < 0 ==> r == IntToString(m)
  {
    PadStart(IntToString(m), 2, '0')
  }

  /** Line 32: the converted text, "<hours12>:<minutes> <period> EST". */
  function Render(h: int, m: int): string {
    IntToString(Hours12(h)) + ":" + MinutesText(m) + Trailer(h)
  }

  function Trailer(h: int): (t: string)
    ensures t == " PM EST" <==> h >= 12
    ensures t == " AM EST" <==> h < 12
  {
    " " + Period(h) + " EST"
  }

  /** Lines 23-26: both parts read as integers, or None when either is NaN. */
  function ReadParts(hoursText: string, minutesText: string): (r: Option<(int, int)>)
    ensures r.Some? <==> ParseInt(hoursText).Some? && ParseInt(minutesText).Some?
    ensures r.Some? ==> r.value == (ParseInt(hoursText).value, ParseInt(minutesText).value)
  {
    match (ParseInt(hoursText), ParseInt(minutesText))
    case (Some(h), Some(m)) => Some((h, m))
    case _ => None
  }

  /**
   * Lines 20-26: hours and minutes read from the first two colon-separated
   * parts; None when there is no colon or either part is NaN.
   */
  function Clock(s: string): (r: Option<(int, int)>)
    ensures r.Some? ==> ':' in s
  {
    var parts := Split(s, ':');
    if |parts| < 2 then None else ReadParts(parts[0], parts[1])
  }

  /** `formatTimeTo12h`; None stands for both `null` and `undefined`. */
  function FormatTimeTo12h(timeStr: Option<string>): (r: string)
    ensures r == "" <==> timeStr.None? || timeStr == Some("")
    ensures timeStr.Some? && HasMeridiem(timeStr.value) ==> r == timeStr.value
    ensures timeStr.Some? && ':' !in timeStr.value ==> r == timeStr.value
    ensures timeStr.Some? && Clock(timeStr.value).None? ==> r == timeStr.value
  {
    match timeStr
    case None => ""
    case Some(s) =>
      if s == "" then ""
      else if HasMeridiem(s) then s
      else match Clock(s)
        case None => s
        case Some((h, m)) => Render(h, m)
  }

  // ---------------------------------------------------------------------
  // Properties
  // ---------------------------------------------------------------------

  /** With exactly one colon, the hours and minutes are the texts on either side. */
  lemma ClockOfTwoParts(a: string, b: string)
    requires ':' !in a && ':' !in b
    ensures Clock(a + ":" + b) == ReadParts(a, b)
  {
    var s := a + ":" + b;
    assert s == a + [':'] + b;
    SplitFirst(a, ':', b);
    SplitNoSeparator(b, ':');
    assert Split(s, ':') == [a, b];
  }

  /**
   * Only the first two parts are read: the hours come from the text before
   * the first colon, the minutes from the text up to the second one.
   */
  lemma LaterPartsIgnored(a: string, b: string, rest: string)
    requires ':' !in a && ':' !in b
    ensures Clock(a + ":" + b + ":" + rest) == Clock(a + ":" + b)
  {
    var s := a + ":" + b + ":" + rest;
    assert s == a + [':'] + (b + [':'] + rest);
    SplitFirst(a, ':', b + [':'] + rest);
    SplitFirst(b, ':', rest);
    assert Split(s, ':')[..2] == [a, b];
    ClockOfTwoParts(a, b);
  }

  /** Minutes are shown with at least two characters and read back as the same number. */
  lemma MinutesReadBack(m: int, rest: string)
    requires rest == [] || !IsDigit(rest[0])
    ensures m >= 0 ==> |MinutesText(m)| >= 2
    ensures ParseInt(MinutesText(m) + rest) == Some(m)
  {
    if 0 <= m < 10 {
      PaddedDigitReadBack(m, rest);
    } else {
      assert MinutesText(m) == IntToString(m);
      ParseIntToString(m, rest);
      if m >= 10 {
        WideNumber(m);
      }
    }
  }

  /** A single digit is shown after a '0' and reads back as itself. */
  lemma PaddedDigitReadBack(m: nat, rest: string)
    requires m < 10
    requires rest == [] || !IsDigit(rest[0])
    ensures ParseInt(['0', DigitChar(m)] + rest) == Some(m as int)
  {
    var d := ['0', DigitChar(m)];
    assert DigitsValue(d) == m by {
      assert d[..1] == ['0'] && ['0'][..0] == [];
      assert DigitsValue(['0']) == 0;
    }
    ParseDigits(d, rest);
  }

  /** A number of 10 or more has at least two digits. */
  lemma WideNumber(m: int)
    requires m >= 10
    ensures |IntToString(m)| >= 2
  {
    assert IntToString(m) == NatToString(m / 10) + [DigitChar(m % 10)];
  }

  /** Both lower-case letters at two neighbouring positions: "am" or "pm". */
  predicate MeridiemPair(c: char, d: char) {
    (LowerChar(c) == 'a' || LowerChar(c) == 'p') && LowerChar(d) == 'm'
  }

  /** `includes` of a two-character text: the two characters occur side by side. */
  lemma {:induction false} ContainsPair(s: string, x: char, y: char)
    ensures Contains(s, [x, y]) <==> exists k :: 0 <= k < |s| - 1 && s[k] == x && s[k + 1] == y
    decreases |s|
  {
    if s != [] {
      var tail := s[1..];
      ContainsPair(tail, x, y);
      if exists k :: 0 <= k < |s| - 1 && s[k] == x && s[k + 1] == y {
        var k :| 0 <= k < |s| - 1 && s[k] == x && s[k + 1] == y;
        if k == 0 {
          assert [x, y] <= s;
        } else {
          assert tail[k - 1] == x && tail[k] == y;
        }
      }
      if exists k :: 0 <= k < |tail| - 1 && tail[k] == x && tail[k + 1] == y {
        var k :| 0 <= k < |tail| - 1 && tail[k] == x && tail[k + 1] == y;
        assert s[k + 1] == x && s[k + 2] == y;
      }
      if [x, y] <= s {
        assert s[0] == x && s[1] == y;
      }
    }
  }

  /**
   * Line 16 without the library calls: a text names a period exactly when
   * some letter 'a' or 'p', in either case, is directly followed by 'm' or 'M'.
   */
  lemma MeridiemAt(s: string)
    ensures HasMeridiem(s) <==> exists k :: 0 <= k < |s| - 1 && MeridiemPair(s[k], s[k + 1])
  {
    var lower := ToLower(s);
    ContainsPair(lower, 'a', 'm');
    ContainsPair(lower, 'p', 'm');
    if HasMeridiem(s) {
      var k :| 0 <= k < |lower| - 1 && (lower[k] == 'a' || lower[k] == 'p') && lower[k + 1] == 'm';
      assert MeridiemPair(s[k], s[k + 1]);
    }
    if exists k :: 0 <= k < |s| - 1 && MeridiemPair(s[k], s[k + 1]) {
      var k :| 0 <= k < |s| - 1 && MeridiemPair(s[k], s[k + 1]);
      assert lower[k] == LowerChar(s[k]) && lower[k + 1] == LowerChar(s[k + 1]);
    }
  }

  lemma {:induction false} ContainsAt(s: string, pat: string, k: nat)
    requires k <= |s| && pat <= s[k..]
    ensures Contains(s, pat)
    decreases k
  {
    if k > 0 {
      assert s[1..][k - 1..] == s[k..];
      ContainsAt(s[1..], pat, k - 1);
    }
  }

  /** Anything followed by the trailer names its period. */
  lemma MeridiemInTrailer(head: string, h: int)
    ensures HasMeridiem(head + Trailer(h))
  {
    var t := Trailer(h);
    var s := head + t;
    var lower := ToLower(s);
    var k := |head| + 1;
    assert s[k] == t[1] && s[k + 1] == t[2];
    assert lower[k + 1] == 'm';
    if h >= 12 {
      assert lower[k..k + 2] == "pm";
      ContainsAt(lower, "pm", k);
    } else {
      assert lower[k..k + 2] == "am";
      ContainsAt(lower, "am", k);
    }
  }

  /** Every converted text names its period, so it is already in 12-hour form. */
  lemma RenderHasMeridiem(h: int, m: int)
    ensures HasMeridiem(Render(h, m))
  {
    var head := IntToString(Hours12(h)) + ":" + MinutesText(m);
    MeridiemInTrailer(head, h);
  }

  /** Formatting is idempotent: a formatted time is handed back unchanged. */
  lemma FormatIdempotent(timeStr: Option<string>)
    ensures FormatTimeTo12h(Some(FormatTimeTo12h(timeStr))) == FormatTimeTo12h(timeStr)
  {
    if timeStr.Some? && timeStr.value != "" && !HasMeridiem(timeStr.value) {
      match Clock(timeStr.value)
      case None =>
      case Some((h, m)) => RenderHasMeridiem(h, m);
    }
  }

  /**
   * When either of the first two colon-separated parts is NaN to `parseInt`,
   * the input comes back unchanged, whatever follows a second colon.
   */
  lemma UnreadableUnchanged(a: string, b: string, rest: string)
    requires ':' !in a && ':' !in b
    requires ParseInt(a).None? || ParseInt(b).None?
    ensures FormatTimeTo12h(Some(a + ":" + b)) == a + ":" + b
    ensures FormatTimeTo12h(Some(a + ":" + b + ":" + rest)) == a + ":" + b + ":" + rest
  {
    ClockOfTwoParts(a, b);
    LaterPartsIgnored(a, b, rest);
  }

  /**
   * Every conversion yields "<h>:<mm> AM EST" or "<h>:<mm> PM EST": the text
   * names PM exactly when the hours read are 12 or more (AM otherwise), its
   * clock part reads as the shown hour and the minutes read, and it carries
   * a period, so it differs from the input it came from.
   */
  lemma ConvertedShape(s: string, h: int, m: int)
    requires s != "" && !HasMeridiem(s) && Clock(s) == Some((h, m))
    ensures EndsWith(FormatTimeTo12h(Some(s)), " PM EST") <==> h >= 12
    ensures EndsWith(FormatTimeTo12h(Some(s)), " AM EST") <==> h < 12
    ensures Clock(FormatTimeTo12h(Some(s))) == Some((Hours12(h), m))
    ensures HasMeridiem(FormatTimeTo12h(Some(s))) && FormatTimeTo12h(Some(s)) != s
    ensures FormatTimeTo12h(Some(s)) == IntToString(Hours12(h)) + ":" + MinutesText(m) + Trailer(h)
  {
    ConvertedText(s, h, m);
    RenderShape(h, m);
  }

  lemma ConvertedText(s: string, h: int, m: int)
    requires s != "" && !HasMeridiem(s) && Clock(s) == Some((h, m))
    ensures FormatTimeTo12h(Some(s)) == Render(h, m)
  {
  }

  lemma RenderShape(h: int, m: int)
    ensures EndsWith(Render(h, m), " PM EST") <==> h >= 12
    ensures EndsWith(Render(h, m), " AM EST") <==> h < 12
    ensures Clock(Render(h, m)) == Some((Hours12(h), m))
    ensures HasMeridiem(Render(h, m))
  {
    TrailerAtEnd(IntToString(Hours12(h)) + ":" + MinutesText(m), h);
    RenderClock(h, m);
    RenderHasMeridiem(h, m);
  }

  /**
   * A reader of the 12-hour form "<h>:<mm> AM EST" / "<h>:<mm> PM EST",
   * giving back the 24-hour hours and the minutes.
   */
  function ReadClock(out: string): Option<(int, int)> {
    ToDayTime(Clock(out), EndsWith(out, " PM EST"), EndsWith(out, " AM EST"))
  }

  /** The 24-hour reading of a 12-hour clock, given which period the text names. */
  function ToDayTime(clock: Option<(int, int)>, pm: bool, am: bool): Option<(int, int)> {
    if clock.None? then None
    else if pm then Some((clock.value.0 % 12 + 12, clock.value.1))
    else if am then Some((clock.value.0 % 12, clock.value.1))
    else None
  }

  lemma ClockOfPieces(hour: int, m: int, suffix: string)
    requires suffix == [] || !IsDigit(suffix[0])
    requires ':' !in suffix
    ensures Clock(IntToString(hour) + ":" + (MinutesText(m) + suffix)) == Some((hour, m))
  {
    var hourText := IntToString(hour);
    var tail := MinutesText(m) + suffix;
    assert ':' !in MinutesText(m) by {
      if m >= 10 || m < 0 { assert MinutesText(m) == IntToString(m); }
    }
    assert ':' !in hourText;
    ClockOfTwoParts(hourText, tail);
    ParseIntToString(hour, []);
    assert hourText + [] == hourText;
    MinutesReadBack(m, suffix);
  }

  /** The converted text reads back as the shown hour and the minutes, for any input. */
  lemma RenderClock(h: int, m: int)
    ensures Clock(Render(h, m)) == Some((Hours12(h), m))
  {
    var hour, minutes, trailer := IntToString(Hours12(h)), MinutesText(m), Trailer(h);
    assert trailer[0] == ' ' && ':' !in trailer by {
      if h >= 12 { assert trailer == " PM EST"; } else { assert trailer == " AM EST"; }
    }
    assert Render(h, m) == hour + ":" + (minutes + trailer);
    ClockOfPieces(Hours12(h), m, trailer);
  }

  /** Within a day, the shown hour and the period give back the 24-hour hours. */
  lemma HoursReadBack(h: int, m: int)
    requires 0 <= h < 24
    ensures ToDayTime(Some((Hours12(h), m)), h >= 12, h < 12) == Some((h, m))
  {
  }

  lemma TrailerAtEnd(head: string, h: int)
    ensures EndsWith(head + Trailer(h), " PM EST") <==> h >= 12
    ensures EndsWith(head + Trailer(h), " AM EST") <==> h < 12
  {
  }

  lemma RenderReadBack(h: int, m: int)
    requires 0 <= h < 24
    ensures ReadClock(Render(h, m)) == Some((h, m))
  {
    var out := Render(h, m);
    TrailerAtEnd(IntToString(Hours12(h)) + ":" + MinutesText(m), h);
    RenderClock(h, m);
    assert ReadClock(out) == ToDayTime(Some((Hours12(h), m)), h >= 12, h < 12);
    HoursReadBack(h, m);
  }

  /**
   * The conversion keeps the time of day: for hours 0..23, reading the
   * 12-hour text back gives the hours and minutes that were read from the
   * input; in particular the period is PM exactly when the hours are 12 or
   * more, and the minutes keep their value.
   */
  lemma FormatReadsBack(s: string)
    requires s != "" && !HasMeridiem(s)
    requires Clock(s).Some? && 0 <= Clock(s).value.0 < 24
    ensures ReadClock(FormatTimeTo12h(Some(s))) == Clock(s)
  {
    var (h, m) := Clock(s).value;
    RenderReadBack(h, m);
  }
}
