# bandwhich header strip, modelled in Dafny

This project models `HeaderDetails` from bandwhich's terminal UI. That is the one-line strip drawn above the traffic tables. It shows a left-aligned `" Total Up / Down: {up} / {down}"` summary, with a `" [PAUSED]"` suffix while capture is paused. When there is room, it also shows a right-aligned elapsed-time counter `"{days}HH:MM:SS "`. Both are bold, yellow while paused and green otherwise.

Files:

- `fmt.dfy` (module `Fmt`): the parts of Rust's standard formatting that the strip uses:
  - `{}` on an unsigned integer (`Decimal`), with its inverse `DecimalValue`;
  - `{:02}` (`Pad2`);
  - `str::len` as a UTF-8 byte count (`Utf8Len`).
- `total_bandwidth.dfy` (module `TotalBandwidth`): the component itself:
  - `DaysString`, `ElapsedTimeString`, `BandwidthString`;
  - the render decision `Render`;
  - a reader `ParseElapsed` that recovers the seconds from the counter text, used to prove that the counter loses nothing.

`render` paints by side effect into a `tui` frame. Here it returns the fragments it would paint, in paint order: the elapsed counter, when it fits, then always the summary. Each fragment is a text, an alignment, a bold flag and a colour. `DisplayBandwidth` is a formatter whose code is not part of this model. It is a parameter `fmt: (nat, bool) -> string` of the bandwidth functions, called with the byte total and `as_rate`. The elapsed `Duration` is reduced to whole seconds (`as_secs`), as a `nat`. The rectangle's width is a `u16`, as in `tui::layout::Rect`.

Three facts about the code that the model keeps:

- the code always paints the summary, so a frame gets one or two paint calls, never zero;
- the colours are `Color::Yellow` and `Color::Green`;
- `len()` counts UTF-8 bytes, not characters. The counter text is ASCII, so for it the two agree (`ElapsedAscii`). The summary's byte length depends on what the formatter returns.

## Model

| member | source | states |
|---|---|---|
| `Fmt.Decimal` | src/display/components/total_bandwidth.rs:78 | `{}` of a day count is a non-empty string of decimal digits with no leading zero (a leading '0' only for zero itself) |
| `Fmt.DecimalRoundTrip` | src/display/components/total_bandwidth.rs:78 | reading a printed number back gives the number: `DecimalValue(Decimal(n)) == n` |
| `Fmt.DecimalInjective` | src/display/components/total_bandwidth.rs:78 | different day counts print as different numerals |
| `Fmt.DecimalLength` | src/display/components/total_bandwidth.rs:84-88 | a numeral has at most k digits exactly when the number is below 10^k |
| `Fmt.Pad2` | src/display/components/total_bandwidth.rs:84-88 | `{:02}` yields only decimal digits, at least two of them |
| `Fmt.Pad2Shape` | src/display/components/total_bandwidth.rs:84-88 | `{:02}` is the plain numeral preceded only by '0' fill characters |
| `Fmt.Pad2Width` | src/display/components/total_bandwidth.rs:84-88 | `{:02}` gives at least two digits, exactly two iff the value is below 100, and the digits read back as the value |
| `Fmt.Utf8Len` | src/display/components/total_bandwidth.rs:21 | `str::len`: the UTF-8 byte length lies between one and four bytes per character |
| `Fmt.Utf8LenAscii` | src/display/components/total_bandwidth.rs:21 | `len()` equals the character count on ASCII text |
| `Fmt.Utf8LenAppend` | src/display/components/total_bandwidth.rs:21 | byte length is additive over concatenation |
| `TotalBandwidth.SECONDS_IN_DAY` | src/display/components/total_bandwidth.rs:9 | the constant 86400 seconds per day |
| `TotalBandwidth.UIState` | src/display/components/total_bandwidth.rs:49-58 | the three fields of the application state the header reads: uploaded and downloaded totals, cumulative mode |
| `TotalBandwidth.HeaderDetails` | src/display/components/total_bandwidth.rs:11-15 | the component's state: the UI state, the elapsed time in whole seconds and the paused flag |
| `TotalBandwidth.BandwidthFormatter` | src/display/components/total_bandwidth.rs:52-59 | `DisplayBandwidth { bandwidth, as_rate }` printed with `{}`: a function from a byte total and the `as_rate` flag to text, whose internals are not modelled |
| `TotalBandwidth.Color` | src/display/components/total_bandwidth.rs:23-27 | the two header colours, `Color::Yellow` and `Color::Green` |
| `TotalBandwidth.Alignment` | src/display/components/total_bandwidth.rs:44-70 | the two paragraph alignments, `Alignment::Left` (line 44) and `Alignment::Right` (line 70) |
| `TotalBandwidth.Fragment` | src/display/components/total_bandwidth.rs:36-71 | one styled paragraph as built at lines 36-45 and 65-71: its text, alignment, bold modifier and foreground colour |
| `TotalBandwidth.TotalPrefix` | src/display/components/total_bandwidth.rs:51 | the literal `" Total Up / Down: "` that opens the summary |
| `TotalBandwidth.PausedSuffix` | src/display/components/total_bandwidth.rs:60 | the literal `" [PAUSED]"` appended while paused |
| `TotalBandwidth.Days` | src/display/components/total_bandwidth.rs:75 | the day count d is the one with d*86400 <= secs < (d+1)*86400 |
| `TotalBandwidth.Hours` | src/display/components/total_bandwidth.rs:86 | the hours field `(secs % 86400) / 3600` is below 24 |
| `TotalBandwidth.Minutes` | src/display/components/total_bandwidth.rs:87 | the minutes field `(secs % 3600) / 60` is below 60 |
| `TotalBandwidth.Seconds` | src/display/components/total_bandwidth.rs:88 | the seconds field `secs % 60` is below 60 |
| `TotalBandwidth.Decomposition` | src/display/components/total_bandwidth.rs:75-88 | days*86400 + hours*3600 + minutes*60 + seconds equals the elapsed seconds |
| `TotalBandwidth.ModWithinDay` | src/display/components/total_bandwidth.rs:86-87 | taking the remainder within a day first does not change the remainder modulo an hour |
| `TotalBandwidth.ModWithinHour` | src/display/components/total_bandwidth.rs:87-88 | taking the remainder within an hour first does not change the remainder modulo a minute |
| `TotalBandwidth.DaysString` | src/display/components/total_bandwidth.rs:74-80 | the prefix is empty iff under one day, is `"1 day, "` iff the day count is 1, and for two or more days is exactly `Decimal` of the day count (no leading zero) followed by `" days, "` |
| `TotalBandwidth.ClockString` | src/display/components/total_bandwidth.rs:84-88 | `"{:02}:{:02}:{:02} "` of hours, minutes and seconds is nine characters: two digits, colon, two digits, colon, two digits, space |
| `TotalBandwidth.ClockRoundTrip` | src/display/components/total_bandwidth.rs:84-88 | the three digit pairs of the clock text read back as the hours, minutes and seconds fields |
| `TotalBandwidth.ElapsedTimeString` | src/display/components/total_bandwidth.rs:82-90 | the counter is the days prefix followed by exactly the clock text `ClockString` of the elapsed seconds: a nine-character `HH:MM:SS ` suffix (digits, colons at offsets 2 and 5, ending in a space); its length is the prefix length plus 9 |
| `TotalBandwidth.ElapsedFields` | src/display/components/total_bandwidth.rs:84-88 | the counter's three digit pairs read back as `(secs % 86400) / 3600`, `(secs % 3600) / 60` and `secs % 60` |
| `TotalBandwidth.ClockColons` | src/display/components/total_bandwidth.rs:84 | a `HH:MM:SS ` suffix holds exactly two colons |
| `TotalBandwidth.ElapsedRoundTrip` | src/display/components/total_bandwidth.rs:74-90 | `ParseElapsed` reads the counter back into the exact elapsed seconds |
| `TotalBandwidth.ElapsedInjective` | src/display/components/total_bandwidth.rs:74-90 | two elapsed times that print the same are equal |
| `TotalBandwidth.ElapsedAscii` | src/display/components/total_bandwidth.rs:83-89 | the counter's suffix has exactly two colons, the counter is ASCII, and its byte length is the prefix length plus 9 |
| `TotalBandwidth.DaysAscii` | src/display/components/total_bandwidth.rs:74-80 | the days prefix is ASCII |
| `TotalBandwidth.BandwidthString` | src/display/components/total_bandwidth.rs:48-62 | the summary always starts with `" Total Up / Down: "` |
| `TotalBandwidth.BandwidthAsRate` | src/display/components/total_bandwidth.rs:49-59 | the summary depends on the formatter only at (uploaded, !cumulative_mode) and (downloaded, !cumulative_mode): two formatters that agree there give the same summary |
| `TotalBandwidth.BandwidthPaused` | src/display/components/total_bandwidth.rs:60 | the summary ends in `" [PAUSED]"` iff paused, given that the formatted download total does not end in `]` |
| `TotalBandwidth.BandwidthPausedSuffix` | src/display/components/total_bandwidth.rs:60 | while paused, the summary ends in `" [PAUSED]"` for every formatter |
| `TotalBandwidth.BandwidthLength` | src/display/components/total_bandwidth.rs:48-62 | the summary's byte length is 21 plus the two formatted totals' byte lengths, plus 9 when paused |
| `TotalBandwidth.HeaderColor` | src/display/components/total_bandwidth.rs:23-27 | the colour is yellow iff paused |
| `TotalBandwidth.PrintElapsedTime` | src/display/components/total_bandwidth.rs:21 | `print_elapsed_time`: the byte lengths of summary and counter plus one fit in the width; it never holds below 31 columns |
| `TotalBandwidth.Render` | src/display/components/total_bandwidth.rs:18-72 | one or two fragments. There are two iff `len(bandwidth) + len(elapsed) + 1 <= width`. The last is always the summary: left-aligned, bold, in the header colour. When there are two, the first is the counter: right-aligned, bold, same colour |
| `TotalBandwidth.RenderBoth` | src/display/components/total_bandwidth.rs:18-33 | when the counter fits, the strip is exactly two fragments: the right-aligned counter, then the left-aligned summary, both bold in the header colour |
| `TotalBandwidth.RenderColor` | src/display/components/total_bandwidth.rs:23-45 | every fragment is bold and carries the same colour: yellow iff paused, green iff not |
| `TotalBandwidth.RenderBoundary` | src/display/components/total_bandwidth.rs:21-31 | with B the summary's byte length and E = len(days prefix) + 9, the counter is shown iff B + E + 1 <= width: shown at width B+E+1, hidden at B+E |
| `TotalBandwidth.RenderMonotone` | src/display/components/total_bandwidth.rs:21-31 | widening the rectangle never hides the counter: the output is unchanged, or the counter appears |
| `TotalBandwidth.ExampleUnderOneDay` | src/display/components/total_bandwidth.rs:82-90 | 3725 seconds print as `"01:02:05 "` |
| `TotalBandwidth.ExampleOneDay` | src/display/components/total_bandwidth.rs:74-90 | 86400 seconds print as `"1 day, 00:00:00 "` |
| `TotalBandwidth.ExampleTwoDays` | src/display/components/total_bandwidth.rs:74-90 | 2 days and 3661 seconds print as `"2 days, 01:01:01 "` |
| `TotalBandwidth.ExampleFits` | src/display/components/total_bandwidth.rs:21 | in the end-to-end example (formatted totals of at most 49 bytes together) the counter fits in 80 columns |
| `TotalBandwidth.ExampleEndToEnd` | src/display/components/total_bandwidth.rs:18-90 | rate mode, 3725 s, not paused, 80 columns, formatted totals of at most 49 bytes together: two green bold fragments: the right-aligned counter `"01:02:05 "`, then the left-aligned summary `" Total Up / Down: " + fmt(1500, true) + " / " + fmt(2500000, true)`, both totals formatted as rates |

## Left out

- `tui` painting is not modelled: `Frame`, `Backend`, `Paragraph`, `Text::styled`, `Style`, `Modifier`, and the clipping to the rectangle. `render_bandwidth` and `render_elapsed_time` become the fragment records that `Render` returns.
- `render_bandwidth` and `render_elapsed_time` each build their string a second time. Those functions are pure, so the model computes each string once.
- `DisplayBandwidth` is a formatter parameter, not a definition. Its code is not part of this model, and it formats an `f64`. The integer-to-`f64` conversion of the byte totals is therefore not modelled either.
- Sub-second precision of `std::time::Duration` is not modelled: the code only uses `as_secs()`.
- Only three fields of `UIState` are modelled: `total_bytes_uploaded`, `total_bytes_downloaded` and `cumulative_mode`. The header reads nothing else.
- The `u64`/`usize` widths of the seconds, byte totals and length sum are unbounded `nat`s in the model. The code only divides and takes remainders of the seconds. The length sum on line 21 cannot overflow for strings that fit in memory.
- BandwidthPaused: requires that the formatted download total does not end in `]`. The formatter is abstract here. Without that assumption a formatter could itself produce text ending in `" [PAUSED]"`.
- The strip being the same on every call with the same inputs is not stated as a lemma: it holds automatically, because every member is a function.
