/** The pure parsers and formatters of the YouTube client: ISO 8601 durations
    of the form `PTnHnMnS` (section 4.4.3 of ISO 8601:2004) to seconds,
    seconds to `H:MM:SS` / `M:SS`, and the choice of the short view-count label. */
module YouTubeFormat {
  import opened Wrappers
  import opened Text

  // ---------------------------------------------------------------------
  // parseDuration
  // ---------------------------------------------------------------------

  /** Where the regular expression `/PT(...)?(...)?(...)?/` matches: at the
      first occurrence of the literal `PT` (every group is optional). */
  function FindDesignator(s: string): (r: Option<nat>)
    ensures r.None? <==> !Contains(s, "PT")
    ensures r.Some? ==> r.value + 2 <= |s| && s[r.value] == 'P' && s[r.value + 1] == 'T'
    decreases |s|
  {
    if |s| < 2 then
      assert !IsPrefix("PT", s);
      assert |s| > 0 ==> !IsPrefix("PT", s[1..]) && |s[1..]| == 0;
      None
    else if s[0] == 'P' && s[1] == 'T' then
      assert s[..2] == "PT";
      Some(0)
    else
      assert s[..2] != "PT";
      match FindDesignator(s[1..])
      case None => None
      case Some(i) => Some(i + 1)
  }

  /** One optional group `(?:(\d+)U)?` at the start of `t`: the greedy digit
      run must be followed by the unit letter, otherwise the group is skipped.
      Returns the value (0 when skipped) and the remaining text. */
  function Component(t: string, unit: char): (r: (nat, string))
    ensures |r.1| <= |t|
  {
    var ds := LeadingDigits(t);
    if 0 < |ds| < |t| && t[|ds|] == unit then (DigitsValue(ds), t[|ds| + 1..]) else (0, t)
  }

  /** `parseDuration(iso)`: hours·3600 + minutes·60 + seconds of the first
      `PT` designator; 0 when there is none. It never fails. */
  function ParseDuration(iso: string): (seconds: nat)
    ensures !Contains(iso, "PT") ==> seconds == 0
  {
    match FindDesignator(iso)
    case None => 0
    case Some(i) => ReadGroups(iso[i + 2..])
  }

  /** The three optional groups read in turn after `PT`. */
  function ReadGroups(t: string): nat {
    var (h, afterHours) := Component(t, 'H');
    var (m, afterMinutes) := Component(afterHours, 'M');
    var (s, _) := Component(afterMinutes, 'S');
    h * 3600 + m * 60 + s
  }

  /** The components of a time-only duration, any of them possibly absent. */
  datatype DurationFields = DurationFields(hours: Option<nat>, minutes: Option<nat>, seconds: Option<nat>)

  function Field(v: Option<nat>, unit: char): string {
    match v
    case None => ""
    case Some(n) => NatToString(n) + [unit]
  }

  /** The text `PT{h}H{m}M{s}S` with the absent components left out. */
  function IsoDuration(d: DurationFields): string {
    "PT" + Field(d.hours, 'H') + Field(d.minutes, 'M') + Field(d.seconds, 'S')
  }

  function TotalSeconds(d: DurationFields): nat {
    d.hours.GetOr(0) * 3600 + d.minutes.GetOr(0) * 60 + d.seconds.GetOr(0)
  }

  lemma ComponentPresent(n: nat, unit: char, rest: string)
    requires !IsDigit(unit)
    ensures Component(NatToString(n) + [unit] + rest, unit) == (n, rest)
  {
    var ds := NatToString(n);
    var t := ds + [unit] + rest;
    assert t == ds + ([unit] + rest);
    LeadingDigitsOfDigits(ds, [unit] + rest);
    assert t[|ds|] == unit;
    assert t[|ds| + 1..] == rest;
  }

  /** A group for one unit does not consume a field written with another unit. */
  lemma ComponentSkips(v: Option<nat>, other: char, rest: string, unit: char)
    requires !IsDigit(other) && other != unit
    requires v.Some? || rest == ""
    ensures Component(Field(v, other) + rest, unit) == (0, Field(v, other) + rest)
  {
    if v.Some? {
      var ds := NatToString(v.value);
      var t := Field(v, other) + rest;
      assert t == ds + ([other] + rest);
      LeadingDigitsOfDigits(ds, [other] + rest);
      assert t[|ds|] == other;
    } else {
      assert Field(v, other) + rest == "";
    }
  }

  lemma ComponentOf(v: Option<nat>, unit: char, rest: string)
    requires !IsDigit(unit)
    requires Component(rest, unit) == (0, rest)
    ensures Component(Field(v, unit) + rest, unit) == (v.GetOr(0), rest)
  {
    if v.Some? {
      ComponentPresent(v.value, unit, rest);
    } else {
      assert Field(v, unit) + rest == rest;
    }
  }

  /** The parser reads back every well-formed `PTnHnMnS` text, with any subset
      of the components present, as h·3600 + m·60 + s. */
  lemma ParseIsoDuration(d: DurationFields)
    ensures ParseDuration(IsoDuration(d)) == TotalSeconds(d)
  {
    var hoursPart := Field(d.hours, 'H') + Field(d.minutes, 'M') + Field(d.seconds, 'S');
    assert IsoDuration(d) == "PT" + hoursPart;
    DesignatorAtStart(hoursPart);
    ReadFields(d);
  }

  /** A text starting with `PT` is parsed from its third character on. */
  lemma DesignatorAtStart(t: string)
    ensures ParseDuration("PT" + t) == ReadGroups(t)
  {
    var iso := "PT" + t;
    assert iso[0] == 'P' && iso[1] == 'T';
    assert FindDesignator(iso) == Some(0);
    assert iso[2..] == t;
  }

  /** The groups read back the fields they were written from. */
  lemma ReadFields(d: DurationFields)
    ensures ReadGroups(Field(d.hours, 'H') + Field(d.minutes, 'M') + Field(d.seconds, 'S')) == TotalSeconds(d)
  {
    var secondsPart := Field(d.seconds, 'S');
    var minutesPart := Field(d.minutes, 'M') + secondsPart;
    assert Field(d.hours, 'H') + Field(d.minutes, 'M') + Field(d.seconds, 'S') == Field(d.hours, 'H') + minutesPart;

    // The seconds field is neither an hours nor a minutes field.
    assert secondsPart == secondsPart + "";
    ComponentSkips(d.seconds, 'S', "", 'H');
    ComponentSkips(d.seconds, 'S', "", 'M');
    // The minutes-and-seconds tail is not an hours field.
    if d.minutes.Some? {
      ComponentSkips(d.minutes, 'M', secondsPart, 'H');
    } else {
      assert minutesPart == secondsPart;
    }
    assert secondsPart == Field(d.seconds, 'S') + "";
    ComponentOf(d.hours, 'H', minutesPart);
    ComponentOf(d.minutes, 'M', secondsPart);
    ComponentOf(d.seconds, 'S', "");
  }

  // ---------------------------------------------------------------------
  // formatDuration
  // ---------------------------------------------------------------------

  /** `formatDuration(seconds)`: `H:MM:SS` from one hour on, `M:SS` below. */
  function FormatDuration(seconds: nat): string {
    Clock(seconds / 3600, (seconds % 3600) / 60, seconds % 60)
  }

  /** Two texts joined by a colon. */
  function Colon(a: string, b: string): string {
    a + [':'] + b
  }

  /** The clock text of `h` hours, `m` minutes and `s` seconds. */
  function Clock(h: nat, m: nat, s: nat): string {
    if h > 0 then Colon(NatToString(h), Colon(PadTwo(NatToString(m)), PadTwo(NatToString(s))))
    else Colon(NatToString(m), PadTwo(NatToString(s)))
  }

  predicate IsNumeral(t: string) {
    |t| > 0 && AllDigits(t)
  }

  /** Reads a clock text back: two or three colon-separated non-empty digit
      fields, the last being seconds. */
  function ClockValue(text: string): Option<nat> {
    var f := Split(text, ':');
    if |f| == 3 && IsNumeral(f[0]) && IsNumeral(f[1]) && IsNumeral(f[2]) then
      Some(DigitsValue(f[0]) * 3600 + DigitsValue(f[1]) * 60 + DigitsValue(f[2]))
    else if |f| == 2 && IsNumeral(f[0]) && IsNumeral(f[1]) then
      Some(DigitsValue(f[0]) * 60 + DigitsValue(f[1]))
    else None
  }

  lemma ClockOfThree(hh: string, mm: string, ss: string)
    requires IsNumeral(hh) && IsNumeral(mm) && IsNumeral(ss)
    ensures Split(Colon(hh, Colon(mm, ss)), ':') == [hh, mm, ss]
    ensures ClockValue(Colon(hh, Colon(mm, ss))) == Some(DigitsValue(hh) * 3600 + DigitsValue(mm) * 60 + DigitsValue(ss))
  {
    assert ':' !in hh && ':' !in mm && ':' !in ss;
    SplitAfterField(hh, ':', Colon(mm, ss));
    SplitAfterField(mm, ':', ss);
    SplitWithoutSeparator(ss, ':');
    assert [hh] + ([mm] + [ss]) == [hh, mm, ss];
  }

  lemma ClockOfTwo(mm: string, ss: string)
    requires IsNumeral(mm) && IsNumeral(ss)
    ensures Split(Colon(mm, ss), ':') == [mm, ss]
    ensures ClockValue(Colon(mm, ss)) == Some(DigitsValue(mm) * 60 + DigitsValue(ss))
  {
    assert ':' !in mm && ':' !in ss;
    SplitAfterField(mm, ':', ss);
    SplitWithoutSeparator(ss, ':');
    assert [mm] + [ss] == [mm, ss];
  }

  /** The rendering has three fields exactly from one hour on, its minute and
      second fields below the hour are two digits wide, and reading it back
      gives the number of seconds: h·3600 + m·60 + s = n with m, s < 60. */
  lemma ClockArithmetic(n: nat)
    ensures (n % 3600) / 60 < 60 && n % 60 < 60
    ensures (n / 3600) * 3600 + ((n % 3600) / 60) * 60 + n % 60 == n
    ensures n / 3600 > 0 <==> n >= 3600
  {
  }

  /** The layout of a clock text: three colon-separated fields exactly
      when `withHours`, otherwise two, and every field after the first two
      digits wide. */
  predicate ClockLayout(text: string, withHours: bool) {
    var f := Split(text, ':');
    && (|f| == 3 <==> withHours)
    && |f| >= 2 && |f[|f| - 1]| == 2
    && (|f| == 3 ==> |f[1]| == 2)
  }

  /** `formatDuration` shows hours exactly from one hour on, with two-digit
      minute and second fields after the leading one. */
  lemma FormatDurationLayout(n: nat)
    ensures ClockLayout(FormatDuration(n), n >= 3600)
  {
    var h, m, s := ClockFields(n);
    ClockLayoutOf(h, m, s);
  }

  /** Reading `formatDuration(n)` back as a clock gives `n`. */
  lemma FormatDurationRoundTrip(n: nat)
    ensures ClockValue(FormatDuration(n)) == Some(n)
  {
    var h, m, s := ClockFields(n);
    ClockValueOf(h, m, s, n);
  }

  /** The hours, minutes and seconds `formatDuration` shows. */
  lemma ClockFields(n: nat) returns (h: nat, m: nat, s: nat)
    ensures FormatDuration(n) == Clock(h, m, s)
    ensures m < 60 && s < 60 && h * 3600 + m * 60 + s == n
    ensures h > 0 <==> n >= 3600
  {
    h, m, s := n / 3600, (n % 3600) / 60, n % 60;
    ClockArithmetic(n);
  }

  /** With minutes and seconds below 60, the clock text has three fields
      exactly when there are hours, and two-digit fields after the first. */
  lemma ClockLayoutOf(h: nat, m: nat, s: nat)
    requires m < 60 && s < 60
    ensures ClockLayout(Clock(h, m, s), h > 0)
  {
    var mm, ss := PadTwo(NatToString(m)), PadTwo(NatToString(s));
    PadTwoOfSmall(m);
    PadTwoOfSmall(s);
    if h > 0 {
      ClockOfThree(NatToString(h), mm, ss);
    } else {
      ClockOfTwo(NatToString(m), ss);
    }
  }

  /** With minutes and seconds below 60, the clock text reads back as
      h·3600 + m·60 + s. */
  lemma ClockValueOf(h: nat, m: nat, s: nat, n: nat)
    requires m < 60 && s < 60 && h * 3600 + m * 60 + s == n
    ensures ClockValue(Clock(h, m, s)) == Some(n)
  {
    var hh, mm, ss := NatToString(h), PadTwo(NatToString(m)), PadTwo(NatToString(s));
    PadTwoOfSmall(m);
    PadTwoOfSmall(s);
    assert DigitsValue(hh) == h && DigitsValue(mm) == m && DigitsValue(ss) == s;
    if h > 0 {
      ClockOfThree(hh, mm, ss);
      assert Clock(h, m, s) == Colon(hh, Colon(mm, ss));
    } else {
      ClockOfTwo(NatToString(m), ss);
      assert Clock(h, m, s) == Colon(NatToString(m), ss);
    }
  }

  // ---------------------------------------------------------------------
  // formatViewCount
  // ---------------------------------------------------------------------

  /** Which rendering `formatViewCount` chooses. The two scaled forms show
      `count / 10^6` or `count / 10^3` with one decimal and a suffix. */
  datatype ViewCountLabel = Millions(count: int) | Thousands(count: int) | Plain(text: string)

  /** `String(NaN)`. */
  const NAN_TEXT: string := "NaN"

  /** `parseInt('NaN')` is `NaN`: the text starts with a letter. */
  lemma NaNTextIsNaN()
    ensures ParseInt(NAN_TEXT).None?
  {
    var t := NAN_TEXT;
    assert !IsJsWhitespace(t[0]);
    assert TrimStart(t) == t;
    assert UnsignedPart(t) == t;
  }

  function FormatViewCount(countText: string): (shown: ViewCountLabel)
    ensures shown.Millions? <==> ParseInt(countText).Some? && ParseInt(countText).value >= 1_000_000
    ensures shown.Thousands? <==> ParseInt(countText).Some? && 1_000 <= ParseInt(countText).value < 1_000_000
    ensures shown.Millions? || shown.Thousands? ==> shown.count == ParseInt(countText).value
    ensures shown.Plain? ==> ParseInt(shown.text) == ParseInt(countText)
  {
    match ParseInt(countText)
    case None =>
      NaNTextIsNaN();
      Plain(NAN_TEXT)
    case Some(n) =>
      if n >= 1_000_000 then Millions(n)
      else if n >= 1_000 then Thousands(n)
      else
        ParseIntOfIntToString(n);
        Plain(IntToString(n))
  }
}
