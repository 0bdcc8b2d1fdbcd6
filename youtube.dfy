// The pure parsers of src/utils/youtubeApi.ts: the ISO 8601 duration
// `PT#H#M#S` as YouTube reports it (ISO 8601:2004, section 4.4.3), its
// clock-style rendering, the YouTube-Short classification rule, and the
// extraction of a video id from a watch, share, embed or Shorts URL.

module YouTube {
  import opened Common
  import opened Text

  // ------------------------------------------------------- ISO 8601 durations

  /** The three numbers captured by `/PT(?:(\d+)H)?(?:(\d+)M)?(?:(\d+)S)?/`; a missing group reads as 0. */
  datatype Duration = Duration(hours: nat, minutes: nat, seconds: nat)
  {
    function TotalSeconds(): nat { hours * 3600 + minutes * 60 + seconds }
  }

  /** `pat` occurs in `s` at position `j`. */
  predicate OccursAt(s: string, pat: string, j: nat)
  {
    j + |pat| <= |s| && s[j..j + |pat|] == pat
  }

  /** The first index at or after `from` where `pat` occurs in `s`. */
  function IndexOf(s: string, pat: string, from: nat): (r: Option<nat>)
    requires |pat| > 0
    ensures r.Some? ==> from <= r.value && OccursAt(s, pat, r.value)
    ensures r.Some? ==> forall j :: from <= j < r.value ==> !OccursAt(s, pat, j)
    ensures r.None? ==> forall j :: from <= j ==> !OccursAt(s, pat, j)
    decreases |s| - from
  {
    if from + |pat| > |s| then None
    else if s[from..from + |pat|] == pat then Some(from)
    else IndexOf(s, pat, from + 1)
  }

  /**
   * One optional group `(?:(\d+)U)?`: the maximal digit run followed by the unit
   * letter `unit`, read as a number, and the text after it; or 0 and the text
   * unchanged when the group does not match.
   */
  function TakeComponent(t: string, unit: char): (nat, string)
  {
    var ds := Run(t, IsDigit);
    if |ds| > 0 && |ds| < |t| && t[|ds|] == unit then (ParseDecimal(ds), t[|ds| + 1..])
    else (0, t)
  }

  /**
   * `duration.match(/PT(?:(\d+)H)?(?:(\d+)M)?(?:(\d+)S)?/)`: the regular expression
   * is unanchored and everything after `PT` is optional, so it matches at the
   * first `PT` and reads the hour, minute and second groups greedily from there.
   */
  function ParseIsoDuration(s: string): Option<Duration>
  {
    match IndexOf(s, "PT", 0)
    case None => None
    case Some(i) => Some(ReadComponents(s[i + 2..]))
  }

  /** The three optional groups after `PT`, in the order H, M, S. */
  function ReadComponents(t: string): Duration
  {
    var (h, afterHours) := TakeComponent(t, 'H');
    var (m, afterMinutes) := TakeComponent(afterHours, 'M');
    var (sec, _) := TakeComponent(afterMinutes, 'S');
    Duration(h, m, sec)
  }

  /** The canonical ISO 8601 text of a duration, with all three components. */
  function IsoDurationText(d: Duration): string
  {
    "PT" + NatToDecimal(d.hours) + "H" + NatToDecimal(d.minutes) + "M" + NatToDecimal(d.seconds) + "S"
  }

  /** A component written as its decimal digits and its unit letter is read back exactly. */
  lemma TakeComponentHit(n: nat, unit: char, rest: string)
    requires !IsDigit(unit)
    ensures TakeComponent(NatToDecimal(n) + [unit] + rest, unit) == (n, rest)
  {
    var ds := NatToDecimal(n);
    var t := ds + [unit] + rest;
    assert t == ds + ([unit] + rest);
    RunStops(ds, [unit] + rest, IsDigit);
    DecimalRoundTrip(n);
    assert t[|ds| + 1..] == rest;
  }

  /** A component whose digits are followed by another unit letter is skipped. */
  lemma TakeComponentMiss(n: nat, other: char, unit: char, rest: string)
    requires !IsDigit(other) && other != unit
    ensures TakeComponent(NatToDecimal(n) + [other] + rest, unit) == (0, NatToDecimal(n) + [other] + rest)
  {
    var ds := NatToDecimal(n);
    assert ds + [other] + rest == ds + ([other] + rest);
    RunStops(ds, [other] + rest, IsDigit);
  }

  /** `PT` found at the very start of the text. */
  lemma IndexOfPrefixPT(rest: string)
    ensures IndexOf("PT" + rest, "PT", 0) == Some(0)
  {
    assert ("PT" + rest)[0..2] == "PT";
  }

  /** The text after `PT` in the canonical form. */
  function ComponentsText(d: Duration): string
  {
    NatToDecimal(d.hours) + "H" + (NatToDecimal(d.minutes) + "M" + (NatToDecimal(d.seconds) + "S"))
  }

  lemma ReadAllComponents(d: Duration)
    ensures ReadComponents(ComponentsText(d)) == d
  {
    var m, s := NatToDecimal(d.minutes), NatToDecimal(d.seconds);
    TakeComponentHit(d.hours, 'H', m + "M" + (s + "S"));
    TakeComponentHit(d.minutes, 'M', s + "S");
    assert s + "S" == s + ['S'] + "";
    TakeComponentHit(d.seconds, 'S', "");
  }

  /** A text starting with `PT` is read from just after it. */
  lemma ParseAfterPT(rest: string)
    ensures ParseIsoDuration("PT" + rest) == Some(ReadComponents(rest))
  {
    IndexOfPrefixPT(rest);
    assert ("PT" + rest)[2..] == rest;
  }

  /** Reading the canonical text of a duration gives the duration back. */
  lemma IsoDurationRoundTrip(d: Duration)
    ensures ParseIsoDuration(IsoDurationText(d)) == Some(d)
  {
    assert IsoDurationText(d) == "PT" + ComponentsText(d);
    ParseAfterPT(ComponentsText(d));
    ReadAllComponents(d);
  }

  /** A duration written without an hour group (`PT4M13S`) reads as zero hours. */
  lemma MinutesSecondsDuration(m: nat, s: nat)
    ensures ParseIsoDuration("PT" + (NatToDecimal(m) + "M" + (NatToDecimal(s) + "S"))) == Some(Duration(0, m, s))
  {
    var md, sd := NatToDecimal(m), NatToDecimal(s);
    ParseAfterPT(md + "M" + (sd + "S"));
    TakeComponentMiss(m, 'M', 'H', sd + "S");
    TakeComponentHit(m, 'M', sd + "S");
    assert sd + "S" == sd + ['S'] + "";
    TakeComponentHit(s, 'S', "");
  }

  // ---------------------------------------------------------------- formatting

  /**
   * The `:`-fields of a clock text: three when there are hours and two
   * otherwise, all of them digits, the first without a leading zero, and every
   * later one padded to two digits: exactly two long, or longer without a
   * leading zero.
   */
  predicate ClockShape(text: string, withHours: bool)
  {
    var f := Split(text, ':');
    |f| == (if withHours then 3 else 2)
    && (forall k :: 0 <= k < |f| ==> |f[k]| > 0 && AllDigits(f[k]))
    && (|f[0]| > 1 ==> f[0][0] != '0')
    && (forall k :: 1 <= k < |f| ==> |f[k]| >= 2 && (|f[k]| == 2 || f[k][0] != '0'))
  }

  /** The clock rendering: `H:MM:SS` when there are hours, `M:SS` otherwise. */
  function FormatClock(d: Duration): (r: string)
    ensures ClockShape(r, d.hours > 0)
  {
    var s := PadStart2(NatToDecimal(d.seconds));
    PaddedDecimal(d.seconds);
    if d.hours > 0 then
      var h := NatToDecimal(d.hours);
      var m := PadStart2(NatToDecimal(d.minutes));
      PaddedDecimal(d.minutes);
      ClockShape3(h, m, s);
      h + ":" + m + ":" + s
    else
      var m := NatToDecimal(d.minutes);
      ClockShape2(m, s);
      m + ":" + s
  }

  /** Hours, then padded minutes and seconds, joined by `:` have the three-field clock shape. */
  lemma ClockShape3(h: string, m: string, s: string)
    requires |h| > 0 && AllDigits(h) && (|h| > 1 ==> h[0] != '0')
    requires |m| >= 2 && AllDigits(m) && (|m| == 2 || m[0] != '0')
    requires |s| >= 2 && AllDigits(s) && (|s| == 2 || s[0] != '0')
    ensures ClockShape(h + ":" + m + ":" + s, true)
  {
    DigitsHaveNoColon(h);
    DigitsHaveNoColon(m);
    DigitsHaveNoColon(s);
    ClockFields3(h, m, s);
  }

  /** Minutes and padded seconds joined by `:` have the two-field clock shape. */
  lemma ClockShape2(m: string, s: string)
    requires |m| > 0 && AllDigits(m) && (|m| > 1 ==> m[0] != '0')
    requires |s| >= 2 && AllDigits(s) && (|s| == 2 || s[0] != '0')
    ensures ClockShape(m + ":" + s, false)
  {
    DigitsHaveNoColon(m);
    DigitsHaveNoColon(s);
    ClockFields2(m, s);
  }

  /** Reads a clock rendering back: three `:`-fields are `H:M:S`, two are `M:S`. */
  function ParseClock(text: string): Option<Duration>
  {
    var f := Split(text, ':');
    if |f| == 3 && AllDigits(f[0]) && AllDigits(f[1]) && AllDigits(f[2]) && |f[0]| > 0 && |f[1]| > 0 && |f[2]| > 0 then
      Some(Duration(ParseDecimal(f[0]), ParseDecimal(f[1]), ParseDecimal(f[2])))
    else if |f| == 2 && AllDigits(f[0]) && AllDigits(f[1]) && |f[0]| > 0 && |f[1]| > 0 then
      Some(Duration(0, ParseDecimal(f[0]), ParseDecimal(f[1])))
    else None
  }

  lemma DigitsHaveNoColon(ds: string)
    requires AllDigits(ds)
    ensures ':' !in ds
  {
    forall i | 0 <= i < |ds|
      ensures ds[i] != ':'
    {
      assert IsDigit(ds[i]);
    }
  }

  /** The clock rendering loses nothing: every component can be read back. */
  lemma ClockRoundTrip(d: Duration)
    ensures ParseClock(FormatClock(d)) == Some(d)
  {
    var s := PadStart2(NatToDecimal(d.seconds));
    PaddedDecimal(d.seconds);
    FormatClockFields(d);
    if d.hours > 0 {
      var h := NatToDecimal(d.hours);
      var m := PadStart2(NatToDecimal(d.minutes));
      PaddedDecimal(d.minutes);
      DecimalRoundTrip(d.hours);
      ParseClock3(h, m, s);
    } else {
      var m := NatToDecimal(d.minutes);
      DecimalRoundTrip(d.minutes);
      ParseClock2(m, s);
    }
  }

  /** The fields the clock rendering is joined from. */
  lemma FormatClockFields(d: Duration)
    ensures var s := PadStart2(NatToDecimal(d.seconds));
      FormatClock(d) == if d.hours > 0 then NatToDecimal(d.hours) + ":" + PadStart2(NatToDecimal(d.minutes)) + ":" + s
        else NatToDecimal(d.minutes) + ":" + s
  {
  }

  /** Three non-empty digit fields joined by `:` read back as hours, minutes and seconds. */
  lemma ParseClock3(h: string, m: string, s: string)
    requires |h| > 0 && AllDigits(h) && |m| > 0 && AllDigits(m) && |s| > 0 && AllDigits(s)
    ensures ParseClock(h + ":" + m + ":" + s) == Some(Duration(ParseDecimal(h), ParseDecimal(m), ParseDecimal(s)))
  {
    DigitsHaveNoColon(h);
    DigitsHaveNoColon(m);
    DigitsHaveNoColon(s);
    ClockFields3(h, m, s);
  }

  /** Two non-empty digit fields joined by `:` read back as minutes and seconds. */
  lemma ParseClock2(m: string, s: string)
    requires |m| > 0 && AllDigits(m) && |s| > 0 && AllDigits(s)
    ensures ParseClock(m + ":" + s) == Some(Duration(0, ParseDecimal(m), ParseDecimal(s)))
  {
    DigitsHaveNoColon(m);
    DigitsHaveNoColon(s);
    ClockFields2(m, s);
  }

  /** Three colon-free fields joined by `:` split back into those fields. */
  lemma ClockFields3(h: string, m: string, s: string)
    requires ':' !in h && ':' !in m && ':' !in s
    ensures Split(h + ":" + m + ":" + s, ':') == [h, m, s]
  {
    assert h + ":" + m + ":" + s == h + [':'] + (m + ":" + s);
    SplitAtFirstSeparator(h, ':', m + ":" + s);
    ClockFields2(m, s);
  }

  /** Two colon-free fields joined by `:` split back into those fields. */
  lemma ClockFields2(m: string, s: string)
    requires ':' !in m && ':' !in s
    ensures Split(m + ":" + s, ':') == [m, s]
  {
    SplitAtFirstSeparator(m, ':', s);
    SplitWithoutSeparator(s, ':');
  }

  /**
   * `formatDuration`: "0:00" when the text holds no `PT`, otherwise the clock
   * rendering of the parsed duration, from which the duration can be read back.
   */
  function FormatDuration(duration: string): (r: string)
    ensures ParseIsoDuration(duration).None? ==> r == "0:00"
    ensures ParseIsoDuration(duration).Some? ==> ParseClock(r) == ParseIsoDuration(duration)
    ensures ClockShape(r, ParseIsoDuration(duration).Some? && ParseIsoDuration(duration).value.hours > 0)
  {
    match ParseIsoDuration(duration)
    case None => assert "0:00" == FormatClock(Duration(0, 0, 0)); "0:00"
    case Some(d) => ClockRoundTrip(d); FormatClock(d)
  }

  /**
   * The clock shape and the value it reads back as fix the text: two texts of
   * the same shape that read back as the same duration are equal.
   */
  lemma ClockTextUnique(a: string, b: string, withHours: bool)
    requires ClockShape(a, withHours) && ClockShape(b, withHours)
    requires ParseClock(a) == ParseClock(b)
    ensures a == b
  {
    var fa, fb := Split(a, ':'), Split(b, ':');
    forall k | 0 <= k < |fa|
      ensures ParseDecimal(fa[k]) == ParseDecimal(fb[k])
    {
      ClockFieldValues(a, withHours);
      ClockFieldValues(b, withHours);
    }
    forall k | 0 <= k < |fa|
      ensures fa[k] == fb[k]
    {
      if k == 0 {
        CanonicalDecimal(fa[0]);
        CanonicalDecimal(fb[0]);
      } else {
        PaddedField(fa[k]);
        PaddedField(fb[k]);
      }
    }
    assert fa == fb;
    JoinSplit(a, ':');
    JoinSplit(b, ':');
  }

  /** A text of clock shape reads back field by field. */
  lemma ClockFieldValues(text: string, withHours: bool)
    requires ClockShape(text, withHours)
    ensures var f := Split(text, ':');
      ParseClock(text) == if withHours then Some(Duration(ParseDecimal(f[0]), ParseDecimal(f[1]), ParseDecimal(f[2])))
        else Some(Duration(0, ParseDecimal(f[0]), ParseDecimal(f[1])))
  {
  }

  /**
   * The contract of `formatDuration` fixes its text: any text with the
   * shape it promises that reads back as the parsed duration is its result.
   */
  lemma FormatDurationDetermined(duration: string, t: string)
    requires ParseIsoDuration(duration).Some?
    requires ClockShape(t, ParseIsoDuration(duration).value.hours > 0)
    requires ParseClock(t) == ParseIsoDuration(duration)
    ensures t == FormatDuration(duration)
  {
    ClockTextUnique(t, FormatDuration(duration), ParseIsoDuration(duration).value.hours > 0);
  }

  /**
   * A duration without an hour group renders as minutes, a colon and two-digit
   * seconds (`PT4M13S` renders as `4:13`).
   */
  lemma FormatMinutesSeconds(m: nat, s: nat)
    ensures FormatDuration("PT" + (NatToDecimal(m) + "M" + (NatToDecimal(s) + "S")))
      == NatToDecimal(m) + ":" + PadStart2(NatToDecimal(s))
  {
    MinutesSecondsDuration(m, s);
  }

  /** A full ISO text renders as its clock form (used by the video list). */
  lemma FormatIsoDuration(d: Duration)
    ensures FormatDuration(IsoDurationText(d)) == FormatClock(d)
  {
    IsoDurationRoundTrip(d);
  }

  // ------------------------------------------------------------ Shorts rule

  /** `text.toLowerCase().includes(tag)`, with ASCII case folding. */
  predicate MentionsTag(text: string, tag: string)
  {
    Contains(LowerAscii(text), tag)
  }

  /**
   * `isYouTubeShort`: no `PT` means not a Short; at most 60 seconds is always a
   * Short; otherwise at most 90 seconds and a `#shorts` or `#short` tag in the
   * title or the description.
   */
  function IsYouTubeShort(duration: string, title: string, description: string): (r: bool)
    ensures ParseIsoDuration(duration).None? ==> !r
    ensures ParseIsoDuration(duration).Some? && ParseIsoDuration(duration).value.TotalSeconds() <= 60 ==> r
    ensures ParseIsoDuration(duration).Some? && ParseIsoDuration(duration).value.TotalSeconds() > 90 ==> !r
    ensures ParseIsoDuration(duration).Some? && 60 < ParseIsoDuration(duration).value.TotalSeconds() <= 90 ==>
              (r <==> MentionsTag(title, "#short") || MentionsTag(description, "#short"))
  {
    match ParseIsoDuration(duration)
    case None => false
    case Some(d) =>
      var total := d.hours * 3600 + d.minutes * 60 + d.seconds;
      if total <= 60 then true
      else
        var hasShortIndicator :=
          MentionsTag(title, "#shorts") || MentionsTag(title, "#short")
          || MentionsTag(description, "#shorts") || MentionsTag(description, "#short");
        ShortsTagImpliesShortTag(title);
        ShortsTagImpliesShortTag(description);
        total <= 90 && hasShortIndicator
  }

  /** The `#shorts` test is subsumed by the `#short` test. */
  lemma ShortsTagImpliesShortTag(text: string)
    ensures MentionsTag(text, "#shorts") ==> MentionsTag(text, "#short")
  {
    if MentionsTag(text, "#shorts") {
      ContainsPrefix(LowerAscii(text), "#shorts", 6);
      assert "#shorts"[..6] == "#short";
    }
  }

  /** Any video of at most a minute is classified as a Short whatever its title and description. */
  lemma ShortVideoIsShort(d: Duration, title: string, description: string)
    requires d.TotalSeconds() <= 60
    ensures IsYouTubeShort(IsoDurationText(d), title, description)
  {
    IsoDurationRoundTrip(d);
  }

  // ------------------------------------------------------------ video ids

  /** The alternatives of the URL pattern, in the order the regular expression lists them. */
  const UrlPrefixes: seq<string> :=
    ["youtube.com/watch?v=", "youtu.be/", "youtube.com/embed/", "youtube.com/shorts/"]

  /** `[^&\n?#]`: a character the id capture may contain. */
  predicate IsIdChar(c: char)
  {
    c != '&' && c != '\n' && c != '?' && c != '#'
  }

  /** `[a-zA-Z0-9_-]`: a character of a bare video id. */
  predicate IsBareIdChar(c: char)
  {
    ('a' <= c <= 'z') || ('A' <= c <= 'Z') || ('0' <= c <= '9') || c == '_' || c == '-'
  }

  /**
   * The URL pattern tried on the text `t` that starts at some position: the
   * first alternative that `t` starts with and that is followed by at least one
   * id character, with the maximal run of id characters after it.
   */
  function UrlMatchAt(t: string, alternatives: seq<string>): (r: Option<string>)
    ensures r.Some? ==> |r.value| > 0 && forall k :: 0 <= k < |r.value| ==> IsIdChar(r.value[k])
    ensures r.Some? ==> exists p :: p in alternatives && StartsWith(t, p) && Run(t[|p|..], IsIdChar) == r.value
    ensures r.None? ==> forall p :: p in alternatives && StartsWith(t, p) ==> Run(t[|p|..], IsIdChar) == ""
  {
    if |alternatives| == 0 then None
    else
      var p := alternatives[0];
      if StartsWith(t, p) && |Run(t[|p|..], IsIdChar)| > 0 then
        Some(Run(t[|p|..], IsIdChar))
      else
        UrlMatchAt(t, alternatives[1..])
  }

  /** Position `j` is the first one at or after `i` where the URL pattern matches, and it gives `r`. */
  predicate LeftmostMatch(url: string, i: nat, j: nat, r: Option<string>)
  {
    i <= j <= |url| && UrlMatchAt(url[j..], UrlPrefixes) == r
    && forall k :: i <= k < j ==> UrlMatchAt(url[k..], UrlPrefixes).None?
  }

  /** No match at `i` extends the leftmost match from `i + 1` to one from `i`. */
  lemma LeftmostStep(url: string, i: nat, j: nat, r: Option<string>)
    requires i < |url| && UrlMatchAt(url[i..], UrlPrefixes).None?
    requires LeftmostMatch(url, i + 1, j, r)
    ensures LeftmostMatch(url, i, j, r)
  {
  }

  /** The leftmost position at or after `i` where the URL pattern matches. */
  function UrlSearch(url: string, i: nat): (r: Option<string>)
    requires i <= |url|
    ensures r.Some? ==> exists j :: LeftmostMatch(url, i, j, r)
    ensures r.None? ==> NoMatchFrom(url, i)
    decreases |url| - i
  {
    var here := UrlMatchAt(url[i..], UrlPrefixes);
    if here.Some? then
      assert LeftmostMatch(url, i, i, here);
      here
    else if i == |url| then None
    else
      var r := UrlSearch(url, i + 1);
      if r.Some? then
        var j :| LeftmostMatch(url, i + 1, j, r);
        LeftmostStep(url, i, j, r);
        r
      else
        NoMatchStep(url, i);
        r
  }

  /** The URL pattern matches at no position from `i` on. */
  predicate NoMatchFrom(url: string, i: nat)
  {
    i <= |url| && forall j :: i <= j <= |url| ==> UrlMatchAt(url[j..], UrlPrefixes).None?
  }

  /** No match at `i` and none after it is no match from `i` on. */
  lemma NoMatchStep(url: string, i: nat)
    requires i < |url| && UrlMatchAt(url[i..], UrlPrefixes).None?
    requires NoMatchFrom(url, i + 1)
    ensures NoMatchFrom(url, i)
  {
  }

  /** `/^([a-zA-Z0-9_-]{11})$/`: the whole input is an 11-character bare id. */
  predicate IsBareVideoId(s: string)
  {
    |s| == 11 && forall k :: 0 <= k < |s| ==> IsBareIdChar(s[k])
  }

  /**
   * `extractVideoId`: the id after the leftmost watch, share, embed or Shorts
   * prefix; failing that, the input itself when it is a bare id; otherwise null.
   */
  function ExtractVideoId(url: string): (r: Option<string>)
    ensures r.Some? ==> |r.value| > 0
    ensures UrlSearch(url, 0).Some? ==> r == UrlSearch(url, 0)
    ensures UrlSearch(url, 0).None? ==> (r.Some? <==> IsBareVideoId(url))
    ensures UrlSearch(url, 0).None? && r.Some? ==> r.value == url
  {
    match UrlSearch(url, 0)
    case Some(id) => Some(id)
    case None => if IsBareVideoId(url) then Some(url) else None
  }

  /** Every URL prefix starts with `y`. */
  lemma PrefixesStartWithY(p: string)
    requires p in UrlPrefixes
    ensures |p| > 0 && p[0] == 'y'
  {
  }

  /** Every URL prefix contains a `.`, which no bare id contains. */
  lemma PrefixesContainDot(p: string)
    requires p in UrlPrefixes
    ensures |p| > 7 && (p[5] == '.' || p[7] == '.')
  {
  }

  /** No URL prefix starts inside a lead-in that has no `y`. */
  lemma NoMatchBefore(lead: string, url: string, j: nat)
    requires StartsWith(url, lead) && j < |lead|
    requires 'y' !in lead
    ensures UrlMatchAt(url[j..], UrlPrefixes).None?
  {
    forall p | p in UrlPrefixes
      ensures !StartsWith(url[j..], p)
    {
      PrefixesStartWithY(p);
      assert url[j] == lead[j];
      assert url[j..][0] == url[j];
    }
  }

  /** A text that does not start with the first alternative is matched by the others. */
  lemma SkipAlternative(t: string, alternatives: seq<string>)
    requires |alternatives| > 0 && !StartsWith(t, alternatives[0])
    ensures UrlMatchAt(t, alternatives) == UrlMatchAt(t, alternatives[1..])
  {
  }

  /** Two texts that differ at position `k` cannot both be prefixes of `t`. */
  lemma NotBoth(t: string, p: string, q: string, k: nat)
    requires StartsWith(t, p) && k < |p| && k < |q| && p[k] != q[k]
    ensures !StartsWith(t, q)
  {
    assert t[k] == p[k];
  }

  /** The four alternatives are mutually exclusive, so the one a text starts with is the one tried. */
  lemma MatchAtPrefix(p: string, id: string, tail: string)
    requires p in UrlPrefixes
    requires |id| > 0 && forall k :: 0 <= k < |id| ==> IsIdChar(id[k])
    requires tail == [] || !IsIdChar(tail[0])
    ensures UrlMatchAt(p + id + tail, UrlPrefixes) == Some(id)
  {
    var t := p + id + tail;
    IdAfterPrefix(p, id, tail);
    var j :| 0 <= j < |UrlPrefixes| && UrlPrefixes[j] == p;
    SkipTo(t, j);
    assert UrlPrefixes[j..][0] == p;
  }

  /** After a prefix, the id run stops where the tail begins. */
  lemma IdAfterPrefix(p: string, id: string, tail: string)
    requires |id| > 0 && forall k :: 0 <= k < |id| ==> IsIdChar(id[k])
    requires tail == [] || !IsIdChar(tail[0])
    ensures StartsWith(p + id + tail, p) && Run((p + id + tail)[|p|..], IsIdChar) == id
  {
    var t := p + id + tail;
    assert t[..|p|] == p;
    assert t[|p|..] == id + tail;
    if tail == [] {
      assert id + tail == id;
      RunAll(id, IsIdChar);
    } else {
      RunStops(id, tail, IsIdChar);
    }
  }

  /** A text starting with the alternative at `j` is only matched from that alternative on. */
  lemma SkipTo(t: string, j: nat)
    requires j < |UrlPrefixes| && StartsWith(t, UrlPrefixes[j])
    ensures UrlMatchAt(t, UrlPrefixes) == UrlMatchAt(t, UrlPrefixes[j..])
  {
    if j >= 1 {
      NotBoth(t, UrlPrefixes[j], UrlPrefixes[0], if j == 1 then 5 else 12);
      SkipOne(t, 0);
    }
    if j >= 2 {
      NotBoth(t, UrlPrefixes[j], UrlPrefixes[1], 5);
      SkipOne(t, 1);
    }
    if j == 3 {
      NotBoth(t, UrlPrefixes[j], UrlPrefixes[2], 12);
      SkipOne(t, 2);
    }
  }

  /** Alternative `i` does not apply, so matching goes on with the next one. */
  lemma SkipOne(t: string, i: nat)
    requires i < |UrlPrefixes| && !StartsWith(t, UrlPrefixes[i])
    ensures UrlMatchAt(t, UrlPrefixes[i..]) == UrlMatchAt(t, UrlPrefixes[i + 1..])
  {
    SkipAlternative(t, UrlPrefixes[i..]);
    assert UrlPrefixes[i..][1..] == UrlPrefixes[i + 1..];
  }

  /**
   * A URL made of a lead-in without `y` (such as `https://www.`), one of the
   * four prefixes, an id and a tail that starts with `&`, `?`, `#` or a newline
   * yields exactly that id.
   */
  lemma ExtractFromUrl(lead: string, p: string, id: string, tail: string)
    requires 'y' !in lead
    requires p in UrlPrefixes
    requires |id| > 0 && forall k :: 0 <= k < |id| ==> IsIdChar(id[k])
    requires tail == [] || !IsIdChar(tail[0])
    ensures ExtractVideoId(lead + p + id + tail) == Some(id)
  {
    var url := lead + (p + id + tail);
    assert url == lead + p + id + tail;
    assert url[|lead|..] == p + id + tail;
    MatchAtPrefix(p, id, tail);
    SearchSkipsLead(lead, url, 0);
  }

  /** The search walks over a lead-in without `y` and returns the match just after it. */
  lemma {:induction false} SearchSkipsLead(lead: string, url: string, i: nat)
    requires StartsWith(url, lead) && i <= |lead|
    requires 'y' !in lead
    ensures UrlSearch(url, i) == UrlSearch(url, |lead|)
    decreases |lead| - i
  {
    if i < |lead| {
      NoMatchBefore(lead, url, i);
      SearchSkipsLead(lead, url, i + 1);
    }
  }

  /** No URL prefix occurs inside a bare id, which has no `.`. */
  lemma NoPrefixInBareId(id: string, j: nat, p: string)
    requires IsBareVideoId(id) && j <= |id|
    requires p in UrlPrefixes
    ensures !StartsWith(id[j..], p)
  {
    PrefixesContainDot(p);
    forall k | 0 <= k < |id[j..]|
      ensures id[j..][k] != '.'
    {
      assert IsBareIdChar(id[j + k]);
    }
  }

  /** A bare 11-character id is returned as it is. */
  lemma ExtractBareId(id: string)
    requires IsBareVideoId(id)
    ensures ExtractVideoId(id) == Some(id)
  {
    forall j | 0 <= j <= |id|
      ensures UrlMatchAt(id[j..], UrlPrefixes).None?
    {
      NoMatchInBareId(id, j);
    }
    assert UrlSearch(id, 0).None?;
  }

  /** The URL pattern matches nowhere inside a bare id. */
  lemma NoMatchInBareId(id: string, j: nat)
    requires IsBareVideoId(id) && j <= |id|
    ensures UrlMatchAt(id[j..], UrlPrefixes).None?
  {
    forall p | p in UrlPrefixes
      ensures !StartsWith(id[j..], p)
    {
      NoPrefixInBareId(id, j, p);
    }
  }
}
