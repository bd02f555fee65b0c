/** The text helpers of the two renderers: the stopwatch clock, the
    minute durations (Korean units in the main window, h/m in the sticker),
    the priority label and the attribute escaping. Each printer has a
    reader beside it, and the lemmas show that reading back what was
    printed recovers the value. */
module Format {
  import opened Common

  // ---- JavaScript arithmetic ----

  /** Math.floor(a / b) for a positive divisor: Dafny's division rounds
      down when the divisor is positive. */
  function FloorDiv(a: int, b: int): (q: int)
    requires b > 0
    ensures b * q <= a < b * (q + 1)
  {
    a / b
  }

  /** JavaScript `a % b` for a positive divisor: the remainder takes the
      sign of `a`. */
  function JsRem(a: int, b: int): (r: int)
    requires b > 0
    ensures a >= 0 ==> 0 <= r < b
    ensures a < 0 ==> -b < r <= 0
  {
    if a >= 0 then a % b else -((-a) % b)
  }

  /** Where JavaScript and Dafny differ: -5 % 60 is -5 in JavaScript. */
  lemma JsRemNegative()
    ensures JsRem(-5, 60) == -5 && -5 % 60 == 55
  {
  }

  // ---- formatSec ----

  /** formatSec: `h:MM:SS` from an hour on, `m:SS` below. */
  function FormatSec(s: int): string
  {
    var h := FloorDiv(s, 3600);
    var m := FloorDiv(JsRem(s, 3600), 60);
    var sec := JsRem(s, 60);
    if h > 0 then IntStr(h) + ":" + Pad2(IntStr(m)) + ":" + Pad2(IntStr(sec))
    else IntStr(m) + ":" + Pad2(IntStr(sec))
  }

  /** The fields of a clock text: hours (0 when absent), minutes, seconds,
      and whether the hour field was present. */
  datatype Clock = Clock(h: nat, m: nat, sec: nat, hasHours: bool)

  function ClockSeconds(c: Clock): nat { c.h * 3600 + c.m * 60 + c.sec }

  /** Reads `m:SS` or `h:MM:SS`, the two shapes formatSec prints. */
  function ParseClock(t: string): Option<Clock>
  {
    var (a, r1) := TakeDigits(t);
    if a == [] || r1 == [] || r1[0] != ':' then None
    else
      var (b, r2) := TakeDigits(r1[1..]);
      if |b| != 2 then None
      else if r2 == [] then Some(Clock(0, ParseNat(a), ParseNat(b), false))
      else if r2[0] != ':' then None
      else
        var (c, r3) := TakeDigits(r2[1..]);
        if |c| != 2 || r3 != [] then None
        else Some(Clock(ParseNat(a), ParseNat(b), ParseNat(c), true))
  }

  /** For a non-negative count of seconds, formatSec prints the hour field
      exactly from 3600 on, minutes and seconds below 60, and the fields
      add up to the count. */
  lemma FormatSecRoundTrip(s: int)
    requires s >= 0
    ensures ParseClock(FormatSec(s)).Some?
    ensures var c := ParseClock(FormatSec(s)).value;
      && c.hasHours == (s >= 3600)
      && c.m < 60 && c.sec < 60
      && ClockSeconds(c) == s
  {
    var h, m, sec := ClockFields(s);
    Pad2NatStr(m);
    Pad2NatStr(sec);
    var mm, ss := Pad2(NatStr(m)), Pad2(NatStr(sec));
    if h > 0 {
      ParseNatStr(h);
      assert FormatSec(s) == NatStr(h) + ":" + mm + ":" + ss;
      ParseLongClock(NatStr(h), mm, ss);
    } else {
      ParseNatStr(m);
      assert FormatSec(s) == NatStr(m) + ":" + ss;
      ParseShortClock(NatStr(m), ss);
    }
  }

  lemma ParseLongClock(hh: string, mm: string, ss: string)
    requires hh != [] && IsDigits(hh) && |mm| == 2 && IsDigits(mm) && |ss| == 2 && IsDigits(ss)
    ensures ParseClock(hh + ":" + mm + ":" + ss) == Some(Clock(ParseNat(hh), ParseNat(mm), ParseNat(ss), true))
  {
    var r2 := ":" + ss;
    var r1 := ":" + (mm + r2);
    assert hh + ":" + mm + ":" + ss == hh + r1;
    TakeDigitsSplit(hh, r1);
    assert r1[1..] == mm + r2;
    TakeDigitsSplit(mm, r2);
    assert r2[1..] == ss + [];
    TakeDigitsSplit(ss, []);
    ParseClockFields(hh + r1, hh, r1, mm, r2, ss);
  }

  /** ParseClock on a text whose three digit runs have been found. */
  lemma ParseClockFields(t: string, a: string, r1: string, b: string, r2: string, c: string)
    requires TakeDigits(t) == (a, r1) && a != [] && r1 != [] && r1[0] == ':'
    requires TakeDigits(r1[1..]) == (b, r2) && |b| == 2 && r2 != [] && r2[0] == ':'
    requires TakeDigits(r2[1..]) == (c, []) && |c| == 2
    ensures ParseClock(t) == Some(Clock(ParseNat(a), ParseNat(b), ParseNat(c), true))
  {
  }

  lemma ParseShortClock(mn: string, ss: string)
    requires mn != [] && IsDigits(mn) && |ss| == 2 && IsDigits(ss)
    ensures ParseClock(mn + ":" + ss) == Some(Clock(0, ParseNat(mn), ParseNat(ss), false))
  {
    var r1 := ":" + ss;
    assert mn + ":" + ss == mn + r1;
    TakeDigitsSplit(mn, r1);
    assert r1[1..] == ss + [];
    TakeDigitsSplit(ss, []);
  }

  /** The three numbers formatSec computes, for a non-negative count. */
  lemma ClockFields(s: int) returns (h: nat, m: nat, sec: nat)
    requires s >= 0
    ensures h == FloorDiv(s, 3600) && m == FloorDiv(JsRem(s, 3600), 60) && sec == JsRem(s, 60)
    ensures m < 60 && sec < 60 && h * 3600 + m * 60 + sec == s
    ensures h > 0 <==> s >= 3600
  {
    h := s / 3600;
    var r := s % 3600;
    m := r / 60;
    sec := r % 60;
    assert s == 3600 * h + r && 0 <= r < 3600;
    assert r == 60 * m + sec && 0 <= sec < 60;
    RemOf60(s, 60 * h + m, sec);
  }

  lemma RemOf60(a: int, q: int, r: int)
    requires a == 60 * q + r && 0 <= r < 60
    ensures a % 60 == r
  {
  }

  // ---- formatMinutes / formatMin ----

  /** The units a duration is printed with. */
  datatype Units = Units(hour: string, minute: string, sep: string)

  /** formatMinutes (main window): `{m}분`, `{h}시간`, `{h}시간 {r}분`. */
  const Korean := Units("시간", "분", " ")

  /** formatMin (sticker): `{m}m`, `{h}h`, `{h}h{r}m`. */
  const Compact := Units("h", "m", "")

  /** Whole hours from 60 minutes on, with the remaining minutes only
      when there are some. */
  function FormatDuration(m: int, u: Units): string
  {
    if m >= 60 then
      var h := FloorDiv(m, 60);
      var r := JsRem(m, 60);
      if r > 0 then IntStr(h) + (u.hour + u.sep + (IntStr(r) + u.minute)) else IntStr(h) + u.hour
    else IntStr(m) + u.minute
  }

  function FormatMinutes(m: int): string { FormatDuration(m, Korean) }

  function FormatMin(m: int): string { FormatDuration(m, Compact) }

  predicate StartsWith(t: string, p: string) { |p| <= |t| && t[..|p|] == p }

  /** Units the reader can tell apart: both words present, neither
      starting with a digit, and the minute word not the hour word. */
  predicate ReadableUnits(u: Units)
  {
    && u.hour != [] && u.minute != [] && !IsDigit(u.hour[0]) && !IsDigit(u.minute[0])
    && u.minute != u.hour
  }

  /** Reads a duration printed with the units `u`, in minutes. */
  function ParseDuration(t: string, u: Units): Option<int>
  {
    var (d, rest) := TakeDigits(t);
    if d == [] then None else ParseUnits(ParseNat(d), rest, u)
  }

  /** The units after the leading number `n`. */
  function ParseUnits(n: nat, rest: string, u: Units): Option<int>
  {
    if rest == u.minute then Some(n)
    else if rest == u.hour then Some(60 * n)
    else if StartsWith(rest, u.hour + u.sep) then
      var (d2, rest2) := TakeDigits(rest[|u.hour + u.sep|..]);
      if d2 != [] && rest2 == u.minute then Some(60 * n + ParseNat(d2))
      else None
    else None
  }

  lemma FormatDurationRoundTrip(m: int, u: Units)
    requires m >= 0 && ReadableUnits(u)
    ensures ParseDuration(FormatDuration(m, u), u) == Some(m)
  {
    if m < 60 {
      UnderAnHour(m, u);
    } else if m % 60 == 0 {
      WholeHours(m, u);
    } else {
      HoursAndMinutes(m, u);
    }
  }

  lemma UnderAnHour(m: int, u: Units)
    requires 0 <= m < 60 && ReadableUnits(u)
    ensures ParseDuration(FormatDuration(m, u), u) == Some(m)
  {
    ParseNatStr(m);
    ParseMinutes(NatStr(m), u);
  }

  lemma WholeHours(m: int, u: Units)
    requires m >= 60 && m % 60 == 0 && ReadableUnits(u)
    ensures ParseDuration(FormatDuration(m, u), u) == Some(m)
  {
    var h := m / 60;
    WholeHoursArith(m);
    ParseNatStr(h);
    ParseHours(NatStr(h), u);
  }

  lemma WholeHoursArith(m: int)
    requires m >= 60 && m % 60 == 0
    ensures m / 60 >= 1 && 60 * (m / 60) == m && FloorDiv(m, 60) == m / 60 && JsRem(m, 60) == 0
  {
  }

  lemma HoursMinutesArith(m: int)
    requires m >= 60 && m % 60 != 0
    ensures m / 60 >= 1 && 0 < m % 60 < 60 && 60 * (m / 60) + m % 60 == m
    ensures FloorDiv(m, 60) == m / 60 && JsRem(m, 60) == m % 60
  {
  }

  lemma HoursAndMinutes(m: int, u: Units)
    requires m >= 60 && m % 60 != 0 && ReadableUnits(u)
    ensures ParseDuration(FormatDuration(m, u), u) == Some(m)
  {
    HoursMinutesArith(m);
    HoursMinutesText(m / 60, m % 60, u);
  }

  lemma HoursMinutesText(h: nat, r: nat, u: Units)
    requires r > 0 && ReadableUnits(u)
    ensures ParseDuration(IntStr(h) + (u.hour + u.sep + (IntStr(r) + u.minute)), u) == Some(60 * h + r)
  {
    var dh, dr := NatStr(h), NatStr(r);
    assert IntStr(h) == dh && IntStr(r) == dr;
    ParseNatStr(h);
    ParseNatStr(r);
    ParseHoursMinutes(dh, dr, u);
  }

  lemma ParseMinutes(d: string, u: Units)
    requires d != [] && IsDigits(d) && ReadableUnits(u)
    ensures ParseDuration(d + u.minute, u) == Some(ParseNat(d))
  {
    TakeDigitsSplit(d, u.minute);
    ParseLeadingNumber(d + u.minute, d, u.minute, u);
  }

  lemma ParseHours(d: string, u: Units)
    requires d != [] && IsDigits(d) && ReadableUnits(u)
    ensures ParseDuration(d + u.hour, u) == Some(60 * ParseNat(d))
  {
    TakeDigitsSplit(d, u.hour);
    ParseLeadingNumber(d + u.hour, d, u.hour, u);
  }

  lemma ParseHoursMinutes(d: string, d2: string, u: Units)
    requires d != [] && IsDigits(d) && d2 != [] && IsDigits(d2) && ReadableUnits(u)
    ensures ParseDuration(d + (u.hour + u.sep + (d2 + u.minute)), u) == Some(60 * ParseNat(d) + ParseNat(d2))
  {
    var rest := u.hour + u.sep + (d2 + u.minute);
    MinutesPart(d2, u);
    TakeDigitsSplit(d2, u.minute);
    ParseHoursThenMinutes(d, d2, rest, u);
  }

  lemma ParseHoursThenMinutes(d: string, d2: string, rest: string, u: Units)
    requires d != [] && IsDigits(d) && rest != [] && !IsDigit(rest[0])
    requires rest != u.minute && rest != u.hour && StartsWith(rest, u.hour + u.sep)
    requires d2 != [] && IsDigits(d2) && TakeDigits(rest[|u.hour + u.sep|..]) == (d2, u.minute)
    ensures ParseDuration(d + rest, u) == Some(60 * ParseNat(d) + ParseNat(d2))
  {
    ParseNumberThen(d, rest, u);
    ParseUnitsHoursMinutes(ParseNat(d), rest, d2, u);
  }

  lemma ParseNumberThen(d: string, rest: string, u: Units)
    requires d != [] && IsDigits(d) && rest != [] && !IsDigit(rest[0])
    ensures ParseDuration(d + rest, u) == ParseUnits(ParseNat(d), rest, u)
  {
    TakeDigitsSplit(d, rest);
    ParseLeadingNumber(d + rest, d, rest, u);
  }

  lemma ParseLeadingNumber(t: string, d: string, rest: string, u: Units)
    requires d != [] && TakeDigits(t) == (d, rest)
    ensures ParseDuration(t, u) == ParseUnits(ParseNat(d), rest, u)
  {
  }

  lemma ParseMinutesPart(n: nat, d2: string, u: Units)
    requires d2 != [] && IsDigits(d2) && ReadableUnits(u)
    ensures ParseUnits(n, u.hour + u.sep + (d2 + u.minute), u) == Some(60 * n + ParseNat(d2))
  {
    MinutesPart(d2, u);
    TakeDigitsSplit(d2, u.minute);
    ParseUnitsHoursMinutes(n, u.hour + u.sep + (d2 + u.minute), d2, u);
  }

  lemma ParseUnitsHoursMinutes(n: nat, rest: string, d2: string, u: Units)
    requires rest != u.minute && rest != u.hour && StartsWith(rest, u.hour + u.sep)
    requires d2 != [] && TakeDigits(rest[|u.hour + u.sep|..]) == (d2, u.minute)
    ensures ParseUnits(n, rest, u) == Some(60 * n + ParseNat(d2))
  {
  }

  /** What follows the hours in "<h><hour><sep><m><minute>". */
  lemma MinutesPart(d2: string, u: Units)
    requires d2 != [] && ReadableUnits(u)
    ensures var rest := u.hour + u.sep + (d2 + u.minute);
      && rest != [] && !IsDigit(rest[0])
      && rest != u.minute && rest != u.hour
      && StartsWith(rest, u.hour + u.sep)
      && rest[|u.hour + u.sep|..] == d2 + u.minute
  {
    var prefix := u.hour + u.sep;
    var tail := d2 + u.minute;
    var rest := prefix + tail;
    assert |rest| > |u.minute| && |rest| > |u.hour|;
    assert rest[..|prefix|] == prefix;
    assert rest[|prefix|..] == tail;
    assert rest[0] == u.hour[0];
  }

  /** Both windows' duration texts read back to the minutes they print,
      so they always show the same duration. */
  lemma DurationsAgree(m: int)
    requires m >= 0
    ensures ParseDuration(FormatMinutes(m), Korean) == Some(m)
    ensures ParseDuration(FormatMin(m), Compact) == Some(m)
  {
    assert ReadableUnits(Korean) && ReadableUnits(Compact);
    FormatDurationRoundTrip(m, Korean);
    FormatDurationRoundTrip(m, Compact);
  }

  /** The minute word is printed exactly when the duration is not a whole
      number of hours (or is under an hour). */
  lemma DurationShowsMinutes(m: int, u: Units)
    requires m >= 0 && ReadableUnits(u)
    ensures var t := FormatDuration(m, u);
      (|u.minute| <= |t| && t[|t| - |u.minute|..] == u.minute) <== (m < 60 || m % 60 != 0)
    ensures m >= 60 && m % 60 == 0 ==> FormatDuration(m, u) == NatStr(m / 60) + u.hour
  {
  }

  // ---- priorityLabel ----

  /** priorityLabel: the Korean label of a known priority, otherwise the
      stored value itself. */
  function PriorityLabel(p: Option<string>): Option<string>
  {
    if p == Some("must") then Some("필수")
    else if p == Some("normal") then Some("보통")
    else if p == Some("low") then Some("낮음")
    else p
  }

  function LabelPriority(l: string): Option<string>
  {
    if l == "필수" then Some("must")
    else if l == "보통" then Some("normal")
    else if l == "낮음" then Some("low")
    else None
  }

  /** The three known priorities get distinct labels that read back to
      them; any other value is shown unchanged. */
  lemma PriorityLabelRoundTrip(p: Option<string>)
    ensures p in {Some("must"), Some("normal"), Some("low")} ==>
      PriorityLabel(p).Some? && LabelPriority(PriorityLabel(p).value) == p
    ensures p !in {Some("must"), Some("normal"), Some("low")} ==> PriorityLabel(p) == p
  {
  }

  // ---- escAttr ----

  /** `str.replace(/c/g, rep)` for a single character. */
  function ReplaceAll(s: string, c: char, rep: string): string
  {
    if s == [] then [] else (if s[0] == c then rep else [s[0]]) + ReplaceAll(s[1..], c, rep)
  }

  lemma {:induction false} ReplaceAllAppend(a: string, b: string, c: char, rep: string)
    ensures ReplaceAll(a + b, c, rep) == ReplaceAll(a, c, rep) + ReplaceAll(b, c, rep)
  {
    if a == [] {
      assert a + b == b;
    } else {
      assert (a + b)[1..] == a[1..] + b;
      ReplaceAllAppend(a[1..], b, c, rep);
    }
  }

  /** escAttr: four global replacements, `&` first. */
  function EscAttr(s: string): string
  {
    ReplaceAll(ReplaceAll(ReplaceAll(ReplaceAll(s, '&', "&amp;"), '"', "&quot;"), '<', "&lt;"), '>', "&gt;")
  }

  /** The entity each character becomes. */
  function EscChar(c: char): string
  {
    if c == '&' then "&amp;" else if c == '"' then "&quot;"
    else if c == '<' then "&lt;" else if c == '>' then "&gt;" else [c]
  }

  function EscEach(s: string): string
  {
    if s == [] then [] else EscChar(s[0]) + EscEach(s[1..])
  }

  /** The four passes escape each character on its own: because `&` goes
      first, the entities the later passes insert are never re-escaped. */
  lemma {:induction false} EscAttrEach(s: string)
    ensures EscAttr(s) == EscEach(s)
  {
    if s != [] {
      var c, rest := s[0], s[1..];
      assert s == [c] + rest;
      var a1, a2 := ReplaceAll([c], '&', "&amp;"), ReplaceAll(rest, '&', "&amp;");
      ReplaceAllAppend([c], rest, '&', "&amp;");
      var b1, b2 := ReplaceAll(a1, '"', "&quot;"), ReplaceAll(a2, '"', "&quot;");
      ReplaceAllAppend(a1, a2, '"', "&quot;");
      var c1, c2 := ReplaceAll(b1, '<', "&lt;"), ReplaceAll(b2, '<', "&lt;");
      ReplaceAllAppend(b1, b2, '<', "&lt;");
      ReplaceAllAppend(c1, c2, '>', "&gt;");
      EscAttrEach(rest);
      assert EscAttr([c]) == EscChar(c) by {
        EscAttrChar(c);
      }
    }
  }

  lemma EscAttrChar(c: char)
    ensures EscAttr([c]) == EscChar(c)
  {
    var x := ReplaceAll([c], '&', "&amp;");
    ReplaceSingle(c, '&', "&amp;");
    if c == '&' {
      AmpersandEntityKept(x);
    } else {
      EscAfterAmpersand(c);
    }
  }

  lemma AmpersandEntityKept(x: string)
    requires x == "&amp;"
    ensures ReplaceAll(ReplaceAll(ReplaceAll(x, '"', "&quot;"), '<', "&lt;"), '>', "&gt;") == x
  {
    ReplaceAbsent(x, '"', "&quot;");
    ReplaceAbsent(x, '<', "&lt;");
    ReplaceAbsent(x, '>', "&gt;");
  }

  /** The passes after the first, on a character other than `&`. */
  lemma EscAfterAmpersand(c: char)
    requires c != '&'
    ensures ReplaceAll(ReplaceAll(ReplaceAll([c], '"', "&quot;"), '<', "&lt;"), '>', "&gt;") == EscChar(c)
  {
    var y := ReplaceAll([c], '"', "&quot;");
    ReplaceSingle(c, '"', "&quot;");
    if c == '"' {
      ReplaceAbsent(y, '<', "&lt;");
      ReplaceAbsent(y, '>', "&gt;");
    } else {
      var z := ReplaceAll(y, '<', "&lt;");
      ReplaceSingle(c, '<', "&lt;");
      if c == '<' {
        ReplaceAbsent(z, '>', "&gt;");
      } else {
        ReplaceSingle(c, '>', "&gt;");
      }
    }
  }

  lemma ReplaceSingle(c: char, x: char, rep: string)
    ensures ReplaceAll([c], x, rep) == if c == x then rep else [c]
  {
    assert [c][1..] == [];
  }

  lemma {:induction false} ReplaceAbsent(s: string, c: char, rep: string)
    requires c !in s
    ensures ReplaceAll(s, c, rep) == s
  {
    if s != [] {
      ReplaceAbsent(s[1..], c, rep);
      assert s == [s[0]] + s[1..];
    }
  }

  /** Decodes the four entities escAttr writes, left to right. */
  function Unescape(t: string): string
    decreases |t|
  {
    if t == [] then []
    else if StartsWith(t, "&amp;") then "&" + Unescape(t[5..])
    else if StartsWith(t, "&quot;") then "\"" + Unescape(t[6..])
    else if StartsWith(t, "&lt;") then "<" + Unescape(t[4..])
    else if StartsWith(t, "&gt;") then ">" + Unescape(t[4..])
    else [t[0]] + Unescape(t[1..])
  }

  /** Decoding the four entities recovers escAttr's input. */
  lemma {:induction false} EscAttrRoundTrip(s: string)
    ensures Unescape(EscAttr(s)) == s
  {
    EscAttrEach(s);
    EscEachRoundTrip(s);
  }

  lemma {:induction false} EscEachRoundTrip(s: string)
    ensures Unescape(EscEach(s)) == s
  {
    if s != [] {
      EscEachRoundTrip(s[1..]);
      UnescapeEscChar(s[0], EscEach(s[1..]));
      assert s == [s[0]] + s[1..];
    }
  }

  /** The decoder reads back one escaped character and goes on after it. */
  lemma UnescapeEscChar(c: char, tail: string)
    ensures Unescape(EscChar(c) + tail) == [c] + Unescape(tail)
  {
    if c == '&' || c == '"' {
      UnescapeAmpQuote(c, tail);
    } else if c == '<' || c == '>' {
      UnescapeAngle(c, tail);
    } else {
      UnescapePlain(c, tail);
    }
  }

  lemma UnescapeAmpQuote(c: char, tail: string)
    requires c == '&' || c == '"'
    ensures Unescape(EscChar(c) + tail) == [c] + Unescape(tail)
  {
    var e := EscChar(c);
    var t := e + tail;
    assert t[..|e|] == e && t[|e|..] == tail;
    if c == '"' {
      assert t[4] != "&amp;"[4];
    }
  }

  lemma UnescapeAngle(c: char, tail: string)
    requires c == '<' || c == '>'
    ensures Unescape(EscChar(c) + tail) == [c] + Unescape(tail)
  {
    var e := EscChar(c);
    var t := e + tail;
    assert t[..|e|] == e && t[|e|..] == tail;
    assert t[1] != "&amp;"[1] && t[1] != "&quot;"[1];
    if c == '>' {
      assert t[1] != "&lt;"[1];
    }
  }

  lemma UnescapePlain(c: char, tail: string)
    requires c != '&' && c != '"' && c != '<' && c != '>'
    ensures Unescape(EscChar(c) + tail) == [c] + Unescape(tail)
  {
    var t := [c] + tail;
    assert t[0] == c && t[1..] == tail;
    DiffersAtFirst(t, "&amp;");
    DiffersAtFirst(t, "&quot;");
    DiffersAtFirst(t, "&lt;");
    DiffersAtFirst(t, "&gt;");
  }

  lemma DiffersAtFirst(t: string, p: string)
    requires t != [] && p != [] && t[0] != p[0]
    ensures !StartsWith(t, p)
  {
    if |p| <= |t| {
      assert t[..|p|][0] != p[0];
    }
  }

  /** `t` opens with one of the four entities escAttr writes. */
  predicate StartsWithEntity(t: string)
  {
    StartsWith(t, "&amp;") || StartsWith(t, "&quot;") || StartsWith(t, "&lt;") || StartsWith(t, "&gt;")
  }

  /** Every ampersand in `r` starts an entity. */
  predicate AmpersandsAreEntities(r: string)
  {
    forall i :: 0 <= i < |r| && r[i] == '&' ==> StartsWithEntity(r[i..])
  }

  /** escAttr's output holds no double quote and no angle bracket, and
      every ampersand in it starts one of the four entities. */
  lemma {:induction false} EscAttrSafe(s: string)
    ensures var r := EscAttr(s);
      '"' !in r && '<' !in r && '>' !in r && AmpersandsAreEntities(r)
  {
    EscAttrEach(s);
    EscEachSafe(s);
  }

  lemma {:induction false} EscEachSafe(s: string)
    ensures var r := EscEach(s);
      '"' !in r && '<' !in r && '>' !in r && AmpersandsAreEntities(r)
  {
    if s != [] {
      EscEachSafe(s[1..]);
      EscCharSafe(s[0], EscEach(s[1..]));
    }
  }

  /** One escaped character in front of a safe text keeps it safe. */
  lemma EscCharSafe(c: char, rest: string)
    requires '"' !in rest && '<' !in rest && '>' !in rest && AmpersandsAreEntities(rest)
    ensures var r := EscChar(c) + rest;
      '"' !in r && '<' !in r && '>' !in r && AmpersandsAreEntities(r)
  {
    var e := EscChar(c);
    var r := e + rest;
    forall i | 0 <= i < |r| && r[i] == '&'
      ensures StartsWithEntity(r[i..])
    {
      if i < |e| {
        assert i == 0;
        assert r[..|e|] == e;
      } else {
        assert r[i..] == rest[i - |e|..];
      }
    }
  }

  /** Replacing `&` last instead would re-escape the entities of the
      earlier passes: `<` would come out as `&amp;lt;`. */
  lemma AmpersandLastDoubleEscapes()
    ensures ReplaceAll(ReplaceAll("<", '<', "&lt;"), '&', "&amp;") == "&amp;lt;"
  {
    assert ReplaceAll("<", '<', "&lt;") == "&lt;";
  }
}
