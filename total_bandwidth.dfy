/** The header strip drawn above the traffic tables: a left-aligned
    "Total Up / Down" summary and, when it fits, a right-aligned elapsed-time
    counter, both coloured by the paused flag. Painting into the terminal
    frame is modelled as the list of fragments handed to the painter. */
module TotalBandwidth {
  import opened Fmt

  datatype Option<T> = None | Some(value: T)

  const SECONDS_IN_DAY: nat := 86400

  /** The three fields of the application state the header reads. */
  datatype UIState = UIState(totalBytesUploaded: nat, totalBytesDownloaded: nat, cumulativeMode: bool)

  /** The header component: the state it reads, the elapsed time in whole
      seconds (`Duration::as_secs`) and whether capture is paused. */
  datatype HeaderDetails = HeaderDetails(state: UIState, elapsedSecs: nat, paused: bool)

  /** `DisplayBandwidth { bandwidth, as_rate }` rendered with `{}`: a
      formatter whose internals are outside this model. */
  type BandwidthFormatter = (nat, bool) -> string

  type u16 = x: int | 0 <= x < 0x1_0000

  datatype Color = Yellow | Green
  datatype Alignment = Left | Right

  /** One styled paragraph painted into the header's rectangle. */
  datatype Fragment = Fragment(text: string, alignment: Alignment, bold: bool, color: Color)

  // ---------------------------------------------------------------------------
  // Elapsed time

  /** The number of whole days elapsed. */
  function Days(secs: nat): (r: nat)
    ensures r * SECONDS_IN_DAY <= secs < (r + 1) * SECONDS_IN_DAY
  {
    secs / SECONDS_IN_DAY
  }

  function Hours(secs: nat): (r: nat)
    ensures r < 24
  {
    (secs % SECONDS_IN_DAY) / 3600
  }

  function Minutes(secs: nat): (r: nat)
    ensures r < 60
  {
    (secs % 3600) / 60
  }

  function Seconds(secs: nat): (r: nat)
    ensures r < 60
  {
    secs % 60
  }

  /** The four fields lose nothing: together they give back the seconds. */
  lemma Decomposition(secs: nat)
    ensures Days(secs) * SECONDS_IN_DAY + Hours(secs) * 3600 + Minutes(secs) * 60 + Seconds(secs) == secs
  {
    ModWithinDay(secs);
    ModWithinHour(secs);
    var r1 := secs % 86400;
    assert secs == secs / 86400 * 86400 + r1;
    assert r1 == r1 / 3600 * 3600 + secs % 3600;
    var r2 := secs % 3600;
    assert r2 == r2 / 60 * 60 + secs % 60;
  }

  /** Within a day, the remainder modulo an hour is the same as for the
      whole count. */
  lemma ModWithinDay(secs: nat)
    ensures (secs % 86400) % 3600 == secs % 3600
  {
    var q1, r1 := secs / 86400, secs % 86400;
    var q2, r2 := r1 / 3600, r1 % 3600;
    var q3, r3 := secs / 3600, secs % 3600;
    var k := 24 * q1 + q2 - q3;
    assert 3600 * k == r3 - r2;
    assert k == 0;
  }

  /** Within an hour, the remainder modulo a minute is the same as for the
      whole count. */
  lemma ModWithinHour(secs: nat)
    ensures (secs % 3600) % 60 == secs % 60
  {
    var q1, r1 := secs / 3600, secs % 3600;
    var q2, r2 := r1 / 60, r1 % 60;
    var q3, r3 := secs / 60, secs % 60;
    var k := 60 * q1 + q2 - q3;
    assert 60 * k == r3 - r2;
    assert k == 0;
  }

  /** The days prefix: nothing under one day, "1 day, " for exactly one,
      and "<n> days, " otherwise. */
  function DaysString(h: HeaderDetails): (r: string)
    ensures r == "" <==> h.elapsedSecs < SECONDS_IN_DAY
    ensures r == "1 day, " <==> Days(h.elapsedSecs) == 1
    ensures Days(h.elapsedSecs) >= 2 ==> |r| > 7 && r[|r| - 7..] == " days, "
                                         && r[..|r| - 7] == Decimal(Days(h.elapsedSecs))
  {
    match Days(h.elapsedSecs)
    case 0 => ""
    case 1 => "1 day, "
    case n =>
      var r := Decimal(n) + " days, ";
      assert r[..|r| - 7] == Decimal(n);
      r
  }

  /** The nine characters "HH:MM:SS " that end every elapsed-time string. */
  predicate ClockShape(c: string) {
    |c| == 9
    && IsDigit(c[0]) && IsDigit(c[1]) && c[2] == ':'
    && IsDigit(c[3]) && IsDigit(c[4]) && c[5] == ':'
    && IsDigit(c[6]) && IsDigit(c[7]) && c[8] == ' '
  }

  function CountChar(s: string, x: char): nat
    decreases |s|
  {
    if s == [] then 0 else CountChar(s[1..], x) + (if s[0] == x then 1 else 0)
  }

  /** A clock suffix holds exactly two colons. */
  lemma ClockColons(c: string)
    requires ClockShape(c)
    ensures CountChar(c, ':') == 2
  {
    assert c[0..] == c;
    CountStep(c, 0, ':'); CountStep(c, 1, ':'); CountStep(c, 2, ':');
    CountStep(c, 3, ':'); CountStep(c, 4, ':'); CountStep(c, 5, ':');
    CountStep(c, 6, ':'); CountStep(c, 7, ':'); CountStep(c, 8, ':');
    assert c[9..] == [];
  }

  lemma CountStep(s: string, i: nat, x: char)
    requires i < |s|
    ensures CountChar(s[i..], x) == CountChar(s[i + 1..], x) + (if s[i] == x then 1 else 0)
  {
    assert s[i..][1..] == s[i + 1..];
  }

  /** The `"{h:02}:{m:02}:{s:02} "` part of the counter. */
  function ClockString(secs: nat): (r: string)
    ensures ClockShape(r)
  {
    Pad2Width(Hours(secs));
    Pad2Width(Minutes(secs));
    Pad2Width(Seconds(secs));
    var hh, mm, ss := Pad2(Hours(secs)), Pad2(Minutes(secs)), Pad2(Seconds(secs));
    var r := hh + ":" + mm + ":" + ss + " ";
    assert r[0] == hh[0] && r[1] == hh[1] && r[3] == mm[0] && r[4] == mm[1] && r[6] == ss[0] && r[7] == ss[1];
    r
  }

  /** `"{days}{h:02}:{m:02}:{s:02} "`. */
  function ElapsedTimeString(h: HeaderDetails): (r: string)
    ensures |r| == |DaysString(h)| + 9
    ensures r[..|DaysString(h)|] == DaysString(h)
    ensures r[|DaysString(h)|..] == ClockString(h.elapsedSecs)
    ensures ClockShape(r[|DaysString(h)|..])
    ensures r[|r| - 1] == ' '
  {
    var p, c := DaysString(h), ClockString(h.elapsedSecs);
    assert (p + c)[|p|..] == c;
    p + c
  }

  /** Reads the days prefix back: "", "1 day, " or "<n> days, " with n >= 2. */
  function ParseDays(p: string): (r: Option<nat>)
  {
    if p == "" then Some(0)
    else if p == "1 day, " then Some(1)
    else if |p| > 7 && p[|p| - 7..] == " days, " && AllDigits(p[..|p| - 7])
            && DecimalValue(p[..|p| - 7]) >= 2
    then Some(DecimalValue(p[..|p| - 7]))
    else None
  }

  /** Reads an elapsed-time string back into seconds. */
  function ParseElapsed(t: string): (r: Option<nat>)
  {
    if |t| < 9 then None
    else
      var p, c := t[..|t| - 9], t[|t| - 9..];
      if !ClockShape(c) then None
      else match ParseDays(p)
        case None => None
        case Some(d) =>
          Some(d * SECONDS_IN_DAY + DecimalValue(c[0..2]) * 3600
               + DecimalValue(c[3..5]) * 60 + DecimalValue(c[6..8]))
  }

  /** The elapsed-time string determines the elapsed seconds. */
  lemma ElapsedRoundTrip(h: HeaderDetails)
    ensures ParseElapsed(ElapsedTimeString(h)) == Some(h.elapsedSecs)
  {
    var secs := h.elapsedSecs;
    var t := ElapsedTimeString(h);
    var p := DaysString(h);
    assert t[..|t| - 9] == p;
    DecimalRoundTrip(Days(secs));
    assert ParseDays(p) == Some(Days(secs));
    assert t[|t| - 9..] == ClockString(secs);
    ClockRoundTrip(secs);
    Decomposition(secs);
  }

  /** The counter's two-digit fields are the hours, minutes and seconds of
      the elapsed time. */
  lemma ElapsedFields(h: HeaderDetails)
    ensures var c := ElapsedTimeString(h)[|DaysString(h)|..];
            DecimalValue(c[0..2]) == Hours(h.elapsedSecs)
            && DecimalValue(c[3..5]) == Minutes(h.elapsedSecs)
            && DecimalValue(c[6..8]) == Seconds(h.elapsedSecs)
  {
    ClockRoundTrip(h.elapsedSecs);
  }

  /** The clock part reads back as hours, minutes and seconds. */
  lemma ClockRoundTrip(secs: nat)
    ensures var c := ClockString(secs);
            DecimalValue(c[0..2]) == Hours(secs)
            && DecimalValue(c[3..5]) == Minutes(secs)
            && DecimalValue(c[6..8]) == Seconds(secs)
  {
    var c := ClockString(secs);
    var hh, mm, ss := Pad2(Hours(secs)), Pad2(Minutes(secs)), Pad2(Seconds(secs));
    Pad2Width(Hours(secs));
    Pad2Width(Minutes(secs));
    Pad2Width(Seconds(secs));
    assert c == hh + ":" + mm + ":" + ss + " ";
    assert c[0..2] == hh && c[3..5] == mm && c[6..8] == ss;
  }

  /** Two different elapsed times never print the same. */
  lemma ElapsedInjective(a: HeaderDetails, b: HeaderDetails)
    ensures ElapsedTimeString(a) == ElapsedTimeString(b) ==> a.elapsedSecs == b.elapsedSecs
  {
    ElapsedRoundTrip(a);
    ElapsedRoundTrip(b);
  }

  /** The clock suffix has exactly two colons, and the whole elapsed string
      is ASCII, so its byte length is its character count. */
  lemma ElapsedAscii(h: HeaderDetails)
    ensures CountChar(ElapsedTimeString(h)[|DaysString(h)|..], ':') == 2
    ensures IsAscii(ElapsedTimeString(h))
    ensures Utf8Len(ElapsedTimeString(h)) == |DaysString(h)| + 9
  {
    var t := ElapsedTimeString(h);
    var p := DaysString(h);
    ClockColons(t[|p|..]);
    DaysAscii(h);
    ClockAscii(t[|p|..]);
    AsciiConcat(p, t[|p|..]);
    assert t == p + t[|p|..];
    Utf8LenAscii(t);
  }

  lemma DaysAscii(h: HeaderDetails)
    ensures IsAscii(DaysString(h))
  {
    var n := Days(h.elapsedSecs);
    if n >= 2 {
      DecimalIsAscii(n);
      AsciiConcat(Decimal(n), " days, ");
    }
  }

  /** The clock text is made of digits, colons and a space only. */
  lemma ClockAscii(c: string)
    requires ClockShape(c)
    ensures IsAscii(c)
  {
    forall i | 0 <= i < |c| ensures c[i] as int < 0x80 {
      assert IsDigit(c[i]) || c[i] == ':' || c[i] == ' ';
    }
  }

  lemma AsciiConcat(a: string, b: string)
    requires IsAscii(a)
    requires IsAscii(b)
    ensures IsAscii(a + b)
  {
    forall i | 0 <= i < |a + b| ensures (a + b)[i] as int < 0x80 {
      if i >= |a| {
        assert (a + b)[i] == b[i - |a|];
      }
    }
  }

  // ---------------------------------------------------------------------------
  // Bandwidth summary

  const TotalPrefix: string := " Total Up / Down: "
  const PausedSuffix: string := " [PAUSED]"

  /** `" Total Up / Down: {up} / {down}{paused}"`, both totals formatted as
      rates unless cumulative mode is on. */
  function BandwidthString(h: HeaderDetails, fmt: BandwidthFormatter): (r: string)
    ensures |r| >= |TotalPrefix| && r[..|TotalPrefix|] == TotalPrefix
  {
    var asRate := !h.state.cumulativeMode;
    TotalPrefix + fmt(h.state.totalBytesUploaded, asRate) + " / "
      + fmt(h.state.totalBytesDownloaded, asRate)
      + (if h.paused then PausedSuffix else "")
  }

  /** The formatter is only ever asked for the two totals, and both with
      `as_rate` equal to the negation of cumulative mode. */
  lemma BandwidthAsRate(h: HeaderDetails, f: BandwidthFormatter, g: BandwidthFormatter)
    requires f(h.state.totalBytesUploaded, !h.state.cumulativeMode) == g(h.state.totalBytesUploaded, !h.state.cumulativeMode)
    requires f(h.state.totalBytesDownloaded, !h.state.cumulativeMode) == g(h.state.totalBytesDownloaded, !h.state.cumulativeMode)
    ensures BandwidthString(h, f) == BandwidthString(h, g)
  {
  }

  /** The string ends in " [PAUSED]" exactly when paused, as long as the
      formatted download total does not itself end in ']'. */
  lemma BandwidthPaused(h: HeaderDetails, fmt: BandwidthFormatter)
    requires var d := fmt(h.state.totalBytesDownloaded, !h.state.cumulativeMode); d == [] || d[|d| - 1] != ']'
    ensures var r := BandwidthString(h, fmt);
            h.paused <==> |r| >= |PausedSuffix| && r[|r| - |PausedSuffix|..] == PausedSuffix
  {
    var r := BandwidthString(h, fmt);
    var asRate := !h.state.cumulativeMode;
    var body := TotalPrefix + fmt(h.state.totalBytesUploaded, asRate) + " / "
                + fmt(h.state.totalBytesDownloaded, asRate);
    if !h.paused {
      assert r == body;
      assert r[|r| - 1] != ']';
      if |r| >= |PausedSuffix| {
        assert r[|r| - |PausedSuffix|..][|PausedSuffix| - 1] == r[|r| - 1];
      }
    } else {
      assert r == body + PausedSuffix;
      assert r[|r| - |PausedSuffix|..] == PausedSuffix;
    }
  }

  /** While paused, the summary ends in " [PAUSED]", whatever the formatter
      returns. */
  lemma BandwidthPausedSuffix(h: HeaderDetails, fmt: BandwidthFormatter)
    requires h.paused
    ensures var r := BandwidthString(h, fmt);
            |r| >= |PausedSuffix| && r[|r| - |PausedSuffix|..] == PausedSuffix
  {
    var asRate := !h.state.cumulativeMode;
    var body := TotalPrefix + fmt(h.state.totalBytesUploaded, asRate) + " / "
                + fmt(h.state.totalBytesDownloaded, asRate);
    assert BandwidthString(h, fmt) == body + PausedSuffix;
  }

  /** The byte length of the summary: the fixed text, the two totals and
      the paused suffix. */
  lemma BandwidthLength(h: HeaderDetails, fmt: BandwidthFormatter)
    ensures Utf8Len(BandwidthString(h, fmt))
            == 21 + Utf8Len(fmt(h.state.totalBytesUploaded, !h.state.cumulativeMode))
            + Utf8Len(fmt(h.state.totalBytesDownloaded, !h.state.cumulativeMode))
            + (if h.paused then 9 else 0)
  {
    var asRate := !h.state.cumulativeMode;
    var up, down := fmt(h.state.totalBytesUploaded, asRate), fmt(h.state.totalBytesDownloaded, asRate);
    var suffix := if h.paused then PausedSuffix else "";
    var s1 := TotalPrefix + up;
    var s2 := s1 + " / ";
    var s3 := s2 + down;
    Utf8LenAppend(TotalPrefix, up);
    Utf8LenAppend(s1, " / ");
    Utf8LenAppend(s2, down);
    Utf8LenAppend(s3, suffix);
    FixedTextLengths();
    assert BandwidthString(h, fmt) == s3 + suffix;
  }

  /** The byte lengths of the fixed parts of the summary. */
  lemma FixedTextLengths()
    ensures Utf8Len(TotalPrefix) == 18
    ensures Utf8Len(" / ") == 3
    ensures Utf8Len(PausedSuffix) == 9
    ensures Utf8Len("") == 0
  {
    Utf8LenAscii(TotalPrefix);
    Utf8LenAscii(" / ");
    Utf8LenAscii(PausedSuffix);
  }

  // ---------------------------------------------------------------------------
  // Render

  function HeaderColor(h: HeaderDetails): (c: Color)
    ensures c == Yellow <==> h.paused
  {
    if h.paused then Yellow else Green
  }

  /** Whether the elapsed-time counter fits beside the summary. */
  predicate PrintElapsedTime(h: HeaderDetails, width: u16, fmt: BandwidthFormatter)
    ensures PrintElapsedTime(h, width, fmt) ==> width >= 31
  {
    BandwidthLength(h, fmt);
    ElapsedAscii(h);
    Utf8Len(BandwidthString(h, fmt)) + Utf8Len(ElapsedTimeString(h)) + 1 <= width
  }

  /** The fragments painted into a rectangle `width` columns wide, in paint
      order: the right-aligned elapsed time when it fits, then always the
      left-aligned summary. */
  function Render(h: HeaderDetails, width: u16, fmt: BandwidthFormatter): (r: seq<Fragment>)
    ensures |r| == 2 <==> PrintElapsedTime(h, width, fmt)
    ensures |r| == 1 <==> !PrintElapsedTime(h, width, fmt)
    ensures r[|r| - 1] == Fragment(BandwidthString(h, fmt), Left, true, HeaderColor(h))
    ensures |r| == 2 ==> r[0] == Fragment(ElapsedTimeString(h), Right, true, HeaderColor(h))
  {
    var bandwidth := BandwidthString(h, fmt);
    var color := HeaderColor(h);
    (if PrintElapsedTime(h, width, fmt)
     then [Fragment(ElapsedTimeString(h), Right, true, color)]
     else [])
    + [Fragment(bandwidth, Left, true, color)]
  }

  /** Every fragment is bold, and all share one colour: yellow when paused,
      green otherwise. */
  lemma RenderColor(h: HeaderDetails, width: u16, fmt: BandwidthFormatter)
    ensures forall f :: f in Render(h, width, fmt) ==>
              f.bold && (f.color == Yellow <==> h.paused) && (f.color == Green <==> !h.paused)
  {
    var r := Render(h, width, fmt);
    forall f | f in r ensures f.bold && f.color == HeaderColor(h) {
      var i :| 0 <= i < |r| && r[i] == f;
      if i != |r| - 1 {
        assert i == 0 && |r| == 2;
      }
    }
  }

  /** The width boundary in terms of the summary's length B and the days
      prefix: the counter shows at width B + E + 1 and not at B + E, where
      E = |days| + 9 is the counter's length. */
  lemma RenderBoundary(h: HeaderDetails, fmt: BandwidthFormatter, width: u16)
    ensures var fit := Utf8Len(BandwidthString(h, fmt)) + |DaysString(h)| + 9 + 1;
            (|Render(h, width, fmt)| == 2 <==> fit <= width)
            && (width == fit ==> |Render(h, width, fmt)| == 2)
            && (width == fit - 1 ==> |Render(h, width, fmt)| == 1)
  {
    ElapsedAscii(h);
  }

  /** Widening the rectangle never hides the counter. */
  lemma RenderMonotone(h: HeaderDetails, fmt: BandwidthFormatter, w: u16, w': u16)
    requires w <= w'
    ensures Render(h, w, fmt) == Render(h, w', fmt) || (|Render(h, w, fmt)| == 1 && |Render(h, w', fmt)| == 2)
  {
  }

  // ---------------------------------------------------------------------------
  // Worked examples

  lemma ExampleUnderOneDay(s: UIState)
    ensures ElapsedTimeString(HeaderDetails(s, 3725, false)) == "01:02:05 "
  {
    var h := HeaderDetails(s, 3725, false);
    assert DaysString(h) == "";
    assert Hours(3725) == 1 && Minutes(3725) == 2 && Seconds(3725) == 5;
    assert Pad2(1) == "01" && Pad2(2) == "02" && Pad2(5) == "05";
  }

  lemma ExampleOneDay(s: UIState)
    ensures ElapsedTimeString(HeaderDetails(s, 86400, false)) == "1 day, 00:00:00 "
  {
    var h := HeaderDetails(s, 86400, false);
    assert DaysString(h) == "1 day, ";
    assert Hours(86400) == 0 && Minutes(86400) == 0 && Seconds(86400) == 0;
    assert Pad2(0) == "00";
  }

  lemma ExampleTwoDays(s: UIState)
    ensures ElapsedTimeString(HeaderDetails(s, 2 * 86400 + 3661, true)) == "2 days, 01:01:01 "
  {
    var h := HeaderDetails(s, 2 * 86400 + 3661, true);
    assert Days(h.elapsedSecs) == 2;
    assert Decimal(2) == "2";
    assert DaysString(h) == "2 days, ";
    assert Hours(h.elapsedSecs) == 1 && Minutes(h.elapsedSecs) == 1 && Seconds(h.elapsedSecs) == 1;
    assert Pad2(1) == "01";
  }

  /** The header of the end-to-end example: rate mode, 1500 bytes up,
      2500000 bytes down, 3725 s elapsed, not paused. */
  const ExampleHeader := HeaderDetails(UIState(1500, 2500000, false), 3725, false)

  /** Rate mode, 3725 s elapsed, not paused, 80 columns: when the two
      formatted rates take at most 49 bytes together, both fragments are
      painted in green, the counter reading "01:02:05 ". */
  lemma ExampleEndToEnd(fmt: BandwidthFormatter)
    requires Utf8Len(fmt(1500, true)) + Utf8Len(fmt(2500000, true)) <= 49
    ensures Render(ExampleHeader, 80, fmt)
            == [Fragment("01:02:05 ", Right, true, Green),
                Fragment(TotalPrefix + fmt(1500, true) + " / " + fmt(2500000, true), Left, true, Green)]
  {
    var h := ExampleHeader;
    ExampleFits(fmt);
    RenderBoth(h, 80, fmt);
    ExampleUnderOneDay(h.state);
    assert h == HeaderDetails(h.state, 3725, false);
    assert ElapsedTimeString(h) == "01:02:05 ";
    assert BandwidthString(h, fmt) == TotalPrefix + fmt(1500, true) + " / " + fmt(2500000, true);
    assert HeaderColor(h) == Green;
  }

  /** In the end-to-end example the counter fits in 80 columns. */
  lemma ExampleFits(fmt: BandwidthFormatter)
    requires Utf8Len(fmt(1500, true)) + Utf8Len(fmt(2500000, true)) <= 49
    ensures PrintElapsedTime(ExampleHeader, 80, fmt)
  {
    var h := ExampleHeader;
    assert DaysString(h) == "";
    ElapsedAscii(h);
    BandwidthLength(h, fmt);
  }

  /** When the counter fits, the strip is exactly the counter and then the
      summary. */
  lemma RenderBoth(h: HeaderDetails, width: u16, fmt: BandwidthFormatter)
    requires PrintElapsedTime(h, width, fmt)
    ensures Render(h, width, fmt)
            == [Fragment(ElapsedTimeString(h), Right, true, HeaderColor(h)),
                Fragment(BandwidthString(h, fmt), Left, true, HeaderColor(h))]
  {
  }
}
