/** `PlaylistCardAdapter.parseDuration`: turns a YouTube content-details
    duration such as `PT12M3S` (the `PT[<m>M][<s>S]` part of the ISO 8601
    duration format, section 4.4.3.2 of ISO 8601:2004) into the text
    `<minutes>:<seconds>` shown on a card. */
module Duration {
  import opened JavaLang

  /** `in.indexOf(unit) > 0`: the unit letter counts as present exactly when
      it occurs and the input does not start with it. */
  function HasMarker(input: string, unit: char): (r: bool)
    ensures r <==> |input| > 0 && input[0] != unit && unit in input
  {
    IndexOf(input, unit) > 0
  }

  /** Drops the `PT` prefix and, when seconds are present, the final unit letter. */
  function Strip(input: string, hasSeconds: bool): (r: Result<string>)
    ensures r.Success? <==> |input| >= if hasSeconds then 3 else 2
    ensures r.Success? ==> r.value == input[2..|input| - if hasSeconds then 1 else 0]
    ensures r.Throws? ==> r.exception == StringIndexOutOfBounds
  {
    if hasSeconds then Substring(input, 2, |input| - 1) else Substring(input, 2, |input|)
  }

  /** The minutes and seconds fields of the stripped text, with the defaults
      `"0"` and `"00"` for a missing field. */
  function Fields(s: string, hasMinutes: bool, hasSeconds: bool): (r: Result<(string, string)>)
    ensures !hasMinutes ==> r.Success? && r.value.0 == "0"
    ensures !hasSeconds && r.Success? ==> r.value.1 == "00"
    ensures !hasMinutes && hasSeconds ==> r.value.1 == s
    ensures hasMinutes && r.Success? ==> 'M' in s && r.value.0 == s[..IndexOf(s, 'M')]
    ensures hasMinutes && !hasSeconds ==> (r.Success? <==> 'M' in s)
    ensures r.Throws? ==> r.exception == if hasSeconds then ArrayIndexOutOfBounds else StringIndexOutOfBounds
  {
    if hasMinutes && hasSeconds then
      var split := Split(s, 'M');
      if |split| < 2 then Throws(ArrayIndexOutOfBounds)
      else
        SplitFirst(s, 'M');
        Success((split[0], split[1]))
    else if hasMinutes then
      match Substring(s, 0, IndexOf(s, 'M'))
      case Throws(e) => Throws(e)
      case Success(minutes) => Success((minutes, "00"))
    else if hasSeconds then Success(("0", s))
    else Success(("0", "00"))
  }

  /** A one-character seconds field gets a leading zero; any other is kept. */
  function PadSeconds(seconds: string): (r: string)
    ensures |r| == if |seconds| == 1 then 2 else |seconds|
    ensures r[|r| - |seconds|..] == seconds
    ensures forall i :: 0 <= i < |r| - |seconds| ==> r[i] == '0'
  {
    if |seconds| == 1 then "0" + seconds else seconds
  }

  /** `parseDuration(in)`: the minutes field, a colon and the padded seconds
      field, or the exception `substring` or the `split` array access raises. */
  function ParseDuration(input: string): (r: Result<string>)
    ensures r.Throws? ==> r.exception == StringIndexOutOfBounds || r.exception == ArrayIndexOutOfBounds
    ensures r.Success? ==> |input| >= 2 && ':' in r.value
  {
    var hasSeconds := HasMarker(input, 'S');
    var hasMinutes := HasMarker(input, 'M');
    match Strip(input, hasSeconds)
    case Throws(e) => Throws(e)
    case Success(s) =>
      match Fields(s, hasMinutes, hasSeconds)
      case Throws(e) => Throws(e)
      case Success((minutes, seconds)) =>
        assert (minutes + ":" + PadSeconds(seconds))[|minutes|] == ':';
        Success(minutes + ":" + PadSeconds(seconds))
  }

  /** Neither marker: `"0:00"`, provided the `PT` prefix can be cut off. */
  lemma {:induction false} ParseWithoutMarkers(input: string)
    requires !HasMarker(input, 'S') && !HasMarker(input, 'M')
    ensures ParseDuration(input) == if |input| >= 2 then Success("0:00") else Throws(StringIndexOutOfBounds)
  {
    if |input| >= 2 {
      assert input[2..|input|] == input[2..];
      assert Fields(input[2..], false, false) == Success(("0", "00"));
      assert "0" + ":" + PadSeconds("00") == "0:00";
    }
  }

  /** Only seconds: minutes default to `"0"`, seconds are everything between
      the prefix and the final letter; an input of two characters throws. */
  lemma {:induction false} ParseSecondsOnly(input: string)
    requires HasMarker(input, 'S') && !HasMarker(input, 'M')
    ensures ParseDuration(input) ==
      if |input| >= 3 then Success("0:" + PadSeconds(input[2..|input| - 1]))
      else Throws(StringIndexOutOfBounds)
  {
    if |input| >= 3 {
      var s := input[2..|input| - 1];
      assert Strip(input, true) == Success(s);
      assert Fields(s, false, true) == Success(("0", s));
      assert "0" + ":" + PadSeconds(s) == "0:" + PadSeconds(s);
    }
  }

  /** Only minutes: the minutes are the text after the prefix and before its
      first `M`; seconds default to `"00"`. When no `M` follows the prefix,
      `indexOf` gives -1 and `substring` throws. */
  lemma {:induction false} ParseMinutesOnly(input: string)
    requires !HasMarker(input, 'S') && HasMarker(input, 'M')
    ensures |input| >= 2
    ensures var s := input[2..];
      ParseDuration(input) ==
        if 'M' in s then Success(s[..IndexOf(s, 'M')] + ":00")
        else Throws(StringIndexOutOfBounds)
  {
    var s := input[2..];
    assert input[2..|input|] == s;
    if 'M' in s {
      var i := IndexOf(s, 'M');
      assert s[0..i] == s[..i];
      assert Fields(s, true, false) == Success((s[..i], "00"));
      assert s[..i] + ":" + PadSeconds("00") == s[..i] + ":00";
    } else {
      assert Substring(s, 0, -1).Throws?;
    }
  }

  /** Both markers: the input has at least three characters, so the prefix
      and the final letter can always be cut off. Minutes are the stripped
      text before its first `M`, seconds the text from there to the next `M`
      or the end. `split[1]` throws when nothing but `M`s follows the first
      `M` (or there is no `M` at all). */
  lemma {:induction false} ParseMinutesAndSeconds(input: string)
    requires HasMarker(input, 'S') && HasMarker(input, 'M')
    ensures |input| >= 3
    ensures var s := input[2..|input| - 1];
      var i := IndexOf(s, 'M');
      ParseDuration(input) ==
        if i < 0 || OnlySeparators(s[i + 1..], 'M') then Throws(ArrayIndexOutOfBounds)
        else
          var rest := s[i + 1..];
          var seconds := if 'M' in rest then rest[..IndexOf(rest, 'M')] else rest;
          Success(s[..i] + ":" + PadSeconds(seconds))
  {
    assert input[0] != 'S' && input[0] != 'M';
    assert exists i, j :: 0 < i < |input| && 0 < j < |input| && input[i] == 'S' && input[j] == 'M';
    var s := input[2..|input| - 1];
    assert Strip(input, true) == Success(s);
    FieldsWithBothMarkers(s);
  }

  /** The fields `split("M")` yields: `split[1]` is missing when `s` has no
      `M`, or only `M`s follow its first one. */
  lemma {:induction false} FieldsWithBothMarkers(s: string)
    ensures var i := IndexOf(s, 'M');
      Fields(s, true, true) ==
        if i < 0 || OnlySeparators(s[i + 1..], 'M') then Throws(ArrayIndexOutOfBounds)
        else
          var rest := s[i + 1..];
          Success((s[..i], if 'M' in rest then rest[..IndexOf(rest, 'M')] else rest))
  {
    if 'M' in s {
      SplitFirst(s, 'M');
      SplitSecond(s, 'M');
    } else {
      assert Split(s, 'M') == [s];
    }
  }

  /** `parseDuration` assembled from its stages: marker detection, cutting
      off the prefix, and picking out the fields. */
  lemma {:induction false} ParseFromFields(input: string, hasMinutes: bool, hasSeconds: bool, s: string, minutes: string, seconds: string)
    requires HasMarker(input, 'S') == hasSeconds && HasMarker(input, 'M') == hasMinutes
    requires Strip(input, hasSeconds) == Success(s)
    requires Fields(s, hasMinutes, hasSeconds) == Success((minutes, seconds))
    ensures ParseDuration(input) == Success(minutes + ":" + PadSeconds(seconds))
  {
  }

  /** No character of `"PT" + x + u` is `c` when `x` has none and `c` is
      neither `P`, `T` nor `u`. */
  lemma {:induction false} AbsentFromWrapped(x: string, u: string, c: char)
    requires c !in x && c !in u && c != 'P' && c != 'T'
    ensures c !in "PT" + x + u
  {
    var w := "PT" + x + u;
    forall i | 0 <= i < |w| ensures w[i] != c {
      if 2 <= i < 2 + |x| { assert w[i] == x[i - 2]; }
      else if i >= 2 + |x| { assert w[i] == u[i - 2 - |x|]; }
    }
  }

  /** The stages of `parseDuration` on `PT<minutes>M<seconds>S`. */
  lemma {:induction false} MinutesSecondsStages(input: string, minutes: string, seconds: string)
    requires input == "PT" + minutes + "M" + seconds + "S"
    requires 'M' !in minutes && 'M' !in seconds && seconds != ""
    ensures HasMarker(input, 'S') && HasMarker(input, 'M')
    ensures Strip(input, true) == Success(minutes + "M" + seconds)
    ensures Fields(minutes + "M" + seconds, true, true) == Success((minutes, seconds))
  {
    assert HasMarker(input, 'S') && HasMarker(input, 'M') by {
      assert input[|input| - 1] == 'S' && input[2 + |minutes|] == 'M';
    }
    assert input[2..|input| - 1] == minutes + "M" + seconds;
    SplitOfTwoFields(minutes, seconds);
  }

  /** `(minutes + "M" + seconds).split("M")` is the two fields. */
  lemma {:induction false} SplitOfTwoFields(minutes: string, seconds: string)
    requires 'M' !in minutes && 'M' !in seconds && seconds != ""
    ensures Split(minutes + "M" + seconds, 'M') == [minutes, seconds]
  {
    var s := minutes + "M" + seconds;
    assert s[|minutes|] == 'M';
    assert Join([minutes, seconds], 'M') == s;
    PiecesOfJoin([minutes, seconds], 'M');
  }

  /** With a minutes field free of `M` and a non-empty seconds field free of
      `M`, the result is the minutes, one colon and the padded seconds. */
  lemma {:induction false} ParseMinutesSecondsText(input: string, minutes: string, seconds: string)
    requires input == "PT" + minutes + "M" + seconds + "S"
    requires 'M' !in minutes && 'M' !in seconds && seconds != ""
    ensures ParseDuration(input) == Success(minutes + ":" + PadSeconds(seconds))
  {
    MinutesSecondsStages(input, minutes, seconds);
    ParseFromFields(input, true, true, minutes + "M" + seconds, minutes, seconds);
  }

  /** The stages of `parseDuration` on `PT<minutes>M`. */
  lemma {:induction false} MinutesStages(input: string, minutes: string)
    requires input == "PT" + minutes + "M"
    requires 'M' !in minutes && 'S' !in minutes
    ensures !HasMarker(input, 'S') && HasMarker(input, 'M')
    ensures Strip(input, false) == Success(minutes + "M")
    ensures Fields(minutes + "M", true, false) == Success((minutes, "00"))
  {
    var s := minutes + "M";
    AbsentFromWrapped(minutes, "M", 'S');
    assert input[|input| - 1] == 'M';
    assert input[2..|input|] == s;
    IndexOfAfter(minutes, "M", 'M');
    assert s[0..|minutes|] == minutes;
  }

  /** Minutes alone, free of `S` and `M`: the minutes and `00` seconds. */
  lemma {:induction false} ParseMinutesText(input: string, minutes: string)
    requires input == "PT" + minutes + "M"
    requires 'M' !in minutes && 'S' !in minutes
    ensures ParseDuration(input) == Success(minutes + ":00")
  {
    MinutesStages(input, minutes);
    ParseFromFields(input, true, false, minutes + "M", minutes, "00");
    assert minutes + ":" + PadSeconds("00") == minutes + ":00";
  }

  /** The stages of `parseDuration` on `PT<seconds>S`. */
  lemma {:induction false} SecondsStages(input: string, seconds: string)
    requires input == "PT" + seconds + "S"
    requires 'M' !in seconds
    ensures HasMarker(input, 'S') && !HasMarker(input, 'M')
    ensures Strip(input, true) == Success(seconds)
    ensures Fields(seconds, false, true) == Success(("0", seconds))
  {
    AbsentFromWrapped(seconds, "S", 'M');
    assert input[|input| - 1] == 'S';
    assert input[2..|input| - 1] == seconds;
  }

  lemma {:induction false} DefaultMinutes(seconds: string)
    ensures "0" + ":" + PadSeconds(seconds) == "0:" + PadSeconds(seconds)
  {
  }

  /** Seconds alone, free of `M`: `0` minutes and the padded seconds. */
  lemma {:induction false} ParseSecondsText(input: string, seconds: string)
    requires input == "PT" + seconds + "S"
    requires 'M' !in seconds
    ensures ParseDuration(input) == Success("0:" + PadSeconds(seconds))
  {
    SecondsStages(input, seconds);
    ParseFromFields(input, false, true, seconds, "0", seconds);
    DefaultMinutes(seconds);
  }

  /** A duration as its fields: each of minutes and seconds present or not. */
  datatype IsoDuration = IsoDuration(minutes: Option<string>, seconds: Option<string>)

  /** One or more decimal digits. */
  predicate IsDigits(x: string)
  {
    |x| > 0 && forall i :: 0 <= i < |x| ==> '0' <= x[i] <= '9'
  }

  lemma {:induction false} DigitsHaveNoMarkerOrColon(x: string)
    requires IsDigits(x)
    ensures 'M' !in x && 'S' !in x && ':' !in x
  {
    assert forall i :: 0 <= i < |x| ==> x[i] != 'M' && x[i] != 'S' && x[i] != ':';
  }

  predicate WellFormed(d: IsoDuration)
  {
    (d.minutes.Some? ==> IsDigits(d.minutes.value)) && (d.seconds.Some? ==> IsDigits(d.seconds.value))
  }

  /** The compact form YouTube reports, `PT[<m>M][<s>S]`. */
  function Render(d: IsoDuration): (r: string)
  {
    "PT"
      + (if d.minutes.Some? then d.minutes.value + "M" else "")
      + (if d.seconds.Some? then d.seconds.value + "S" else "")
  }

  /** What a card should show: minutes (default `0`), a colon, and seconds of at
      least two digits (default `00`). */
  function Display(d: IsoDuration): (r: string)
  {
    (if d.minutes.Some? then d.minutes.value else "0")
      + ":"
      + (if d.seconds.Some? then PadSeconds(d.seconds.value) else "00")
  }

  lemma {:induction false} ParseRenderedBoth(d: IsoDuration)
    requires WellFormed(d) && d.minutes.Some? && d.seconds.Some?
    ensures ParseDuration(Render(d)) == Success(Display(d))
  {
    var m, s := d.minutes.value, d.seconds.value;
    DigitsHaveNoMarkerOrColon(m);
    DigitsHaveNoMarkerOrColon(s);
    assert Render(d) == "PT" + m + "M" + s + "S";
    assert Display(d) == m + ":" + PadSeconds(s);
    ParseMinutesSecondsText(Render(d), m, s);
  }

  lemma {:induction false} ParseRenderedMinutes(d: IsoDuration)
    requires WellFormed(d) && d.minutes.Some? && d.seconds.None?
    ensures ParseDuration(Render(d)) == Success(Display(d))
  {
    var m := d.minutes.value;
    DigitsHaveNoMarkerOrColon(m);
    assert Render(d) == "PT" + m + "M";
    assert Display(d) == m + ":00";
    ParseMinutesText(Render(d), m);
  }

  lemma {:induction false} ParseRenderedSeconds(d: IsoDuration)
    requires WellFormed(d) && d.minutes.None? && d.seconds.Some?
    ensures ParseDuration(Render(d)) == Success(Display(d))
  {
    var s := d.seconds.value;
    DigitsHaveNoMarkerOrColon(s);
    assert Render(d) == "PT" + s + "S";
    assert Display(d) == "0:" + PadSeconds(s);
    ParseSecondsText(Render(d), s);
  }

  lemma {:induction false} ParseRenderedEmpty(d: IsoDuration)
    requires d.minutes.None? && d.seconds.None?
    ensures ParseDuration(Render(d)) == Success(Display(d))
  {
    assert Render(d) == "PT";
    ParseWithoutMarkers("PT");
  }

  /** `parseDuration` inverts `Render`: on every well-formed duration it
      returns exactly the displayed form. */
  lemma {:induction false} ParseRendered(d: IsoDuration)
    requires WellFormed(d)
    ensures ParseDuration(Render(d)) == Success(Display(d))
  {
    if d.minutes.Some? && d.seconds.Some? {
      ParseRenderedBoth(d);
    } else if d.minutes.Some? {
      ParseRenderedMinutes(d);
    } else if d.seconds.Some? {
      ParseRenderedSeconds(d);
    } else {
      ParseRenderedEmpty(d);
    }
  }

  /** Two colon-free texts joined by a colon can be split back at it. */
  lemma {:induction false} JoinedAtColon(before: string, after: string)
    requires ':' !in before && ':' !in after
    ensures var out := before + ":" + after;
      && |out| > |before|
      && out[..|before|] == before
      && out[|before|] == ':'
      && out[|before| + 1..] == after
  {
    var out := before + ":" + after;
    assert out[..|before|] == before;
    assert out[|before| + 1..] == after;
  }

  /** Padding digits with a zero introduces no colon. */
  lemma {:induction false} PaddedHasNoColon(raw: string)
    requires IsDigits(raw)
    ensures ':' !in PadSeconds(raw)
  {
    DigitsHaveNoMarkerOrColon(raw);
    if |raw| == 1 {
      assert PadSeconds(raw) == ['0', raw[0]];
    }
  }

  /** The displayed form holds exactly one colon, with the minutes text before
      it and the seconds text after it. */
  lemma {:induction false} DisplayHasOneColon(d: IsoDuration)
    requires WellFormed(d)
    ensures var minutes := if d.minutes.Some? then d.minutes.value else "0";
      var seconds := if d.seconds.Some? then PadSeconds(d.seconds.value) else "00";
      var out := Display(d);
      && |out| > |minutes|
      && out[..|minutes|] == minutes
      && out[|minutes|] == ':'
      && ':' !in out[..|minutes|]
      && ':' !in out[|minutes| + 1..]
      && out[|minutes| + 1..] == seconds
  {
    var minutes := if d.minutes.Some? then d.minutes.value else "0";
    var seconds := if d.seconds.Some? then PadSeconds(d.seconds.value) else "00";
    if d.minutes.Some? { DigitsHaveNoMarkerOrColon(minutes); }
    if d.seconds.Some? { PaddedHasNoColon(d.seconds.value); }
    assert Display(d) == minutes + ":" + seconds;
    JoinedAtColon(minutes, seconds);
  }

  /** An hours part is not interpreted: it stays in the minutes text. */
  lemma {:induction false} HoursStayInMinutes(hours: string, minutes: string, seconds: string)
    requires IsDigits(hours) && IsDigits(minutes) && IsDigits(seconds)
    ensures ParseDuration("PT" + hours + "H" + minutes + "M" + seconds + "S")
         == Success(hours + "H" + minutes + ":" + PadSeconds(seconds))
  {
    var field := hours + "H" + minutes;
    assert forall i :: 0 <= i < |field| ==> field[i] != 'M' by {
      forall i | 0 <= i < |field| ensures field[i] != 'M' {
        if i < |hours| { assert field[i] == hours[i]; }
        else if i > |hours| { assert field[i] == minutes[i - |hours| - 1]; }
      }
    }
    assert forall i :: 0 <= i < |seconds| ==> seconds[i] != 'M';
    var input := "PT" + hours + "H" + minutes + "M" + seconds + "S";
    assert input == "PT" + field + "M" + seconds + "S";
    ParseMinutesSecondsText(input, field, seconds);
  }

  /** An hours part with neither minutes nor seconds is dropped altogether:
      the card shows `0:00`. */
  lemma {:induction false} HoursAloneShowZero(hours: string)
    requires IsDigits(hours)
    ensures ParseDuration("PT" + hours + "H") == Success("0:00")
  {
    var input := "PT" + hours + "H";
    DigitsHaveNoMarkerOrColon(hours);
    assert !HasMarker(input, 'S') && !HasMarker(input, 'M') by {
      AbsentFromWrapped(hours, "H", 'S');
      AbsentFromWrapped(hours, "H", 'M');
    }
    ParseWithoutMarkers(input);
  }

  /** `PT1M5S`, one minute and five seconds, is shown as `1:05`. */
  lemma {:induction false} ExampleMinutesAndSeconds()
    ensures ParseDuration("PT1M5S") == Success("1:05")
  {
    var d := IsoDuration(Some("1"), Some("5"));
    assert Render(d) == "PT1M5S" && Display(d) == "1:05";
    ParseRendered(d);
  }

  /** `PT12M3S` is shown as `12:03`: minutes are never padded. */
  lemma {:induction false} ExampleTwoDigitMinutes()
    ensures ParseDuration("PT12M3S") == Success("12:03")
  {
    var d := IsoDuration(Some("12"), Some("3"));
    assert Render(d) == "PT12M3S" && Display(d) == "12:03";
    ParseRendered(d);
  }

  /** `PT45S` is shown as `0:45`. */
  lemma {:induction false} ExampleSecondsOnly()
    ensures ParseDuration("PT45S") == Success("0:45")
  {
    var d := IsoDuration(None, Some("45"));
    assert Render(d) == "PT45S" && Display(d) == "0:45";
    ParseRendered(d);
  }

  /** `PT0S` is shown as `0:00`. */
  lemma {:induction false} ExampleZeroSeconds()
    ensures ParseDuration("PT0S") == Success("0:00")
  {
    var d := IsoDuration(None, Some("0"));
    assert Render(d) == "PT0S" && Display(d) == "0:00";
    ParseRendered(d);
  }

  /** `PT`, a duration with no fields, is shown as `0:00`. */
  lemma {:induction false} ExampleEmpty()
    ensures ParseDuration("PT") == Success("0:00")
  {
    var d := IsoDuration(None, None);
    assert Render(d) == "PT" && Display(d) == "0:00";
    ParseRendered(d);
  }

  /** `PT1H2M3S` keeps the hours in the minutes text: `1H2:03`. */
  lemma {:induction false} ExampleHours()
    ensures ParseDuration("PT1H2M3S") == Success("1H2:03")
  {
    var minutes, seconds := "1H2", "3";
    assert PadSeconds(seconds) == "03";
    assert minutes + ":" + PadSeconds(seconds) == "1H2:03";
    assert "PT" + minutes + "M" + seconds + "S" == "PT1H2M3S";
    ParseMinutesSecondsText("PT1H2M3S", minutes, seconds);
  }
}
