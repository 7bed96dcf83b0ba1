/**
 * The log-tail reader of app.py: `read_latest_data` reads every line of the
 * sensor log, parses the last one as `T:<temperature>,H:<humidity>` and, only
 * when both numbers convert, replaces the module-level `latest_data` reading.
 *
 * Three things outside the function become parameters: the log file (its
 * lines as `readlines()` returns them, or `None` when opening it raises
 * `FileNotFoundError`), Python's `float()` on a text (`None` when it raises
 * `ValueError`) and the clock `time.time()`.
 */
module App {

  import opened Wrappers
  import opened PyStr

  /**
   * A Python float, kept as its IEEE 754 binary64 bit pattern. The reader
   * only converts texts to floats and copies them, never computes with them.
   */
  datatype Float = Float(bits: bv64)

  /** `0.0`, whose bit pattern is all zeros. */
  const Zero := Float(0)

  /** The dictionary bound to `latest_data`. */
  datatype Reading = Reading(temperature: Float, humidity: Float, timestamp: Float)

  /** The exceptions a well-prefixed last line can raise; none of them is caught. */
  datatype Exception = IndexError | ValueError

  /** The field texts of the last line, once it is trimmed and split. */
  datatype Extracted =
    | NotReading                          // the trimmed line does not start with "T:"
    | Texts(temp: string, humid: string)  // the texts handed to float()
    | ExtractError(exc: Exception)        // a list index out of range

  /** The last line after both conversions. */
  datatype Parsed =
    | Ignored
    | Values(temperature: Float, humidity: Float)
    | ParseError(exc: Exception)

  /** How a call of `read_latest_data` ends. */
  datatype Outcome =
    | Returned          // normal return, whether or not the reading was replaced
    | NotFoundReported  // the file was missing; a message was printed and the call returned
    | Raised(exc: Exception)

  /** The outcome of one call together with the reading it leaves behind. */
  datatype Step = Step(outcome: Outcome, reading: Reading)

  /**
   * The field texts of one log line, computed the way app.py does: strip the
   * line, check the "T:" prefix, split on ',' and take element 1 of each of
   * the first two parts split on ':'.
   */
  function ExtractFields(line: string): (r: Extracted)
    ensures r.NotReading? <==> !StartsWith(Strip(line), "T:")
    ensures r.ExtractError? ==> r.exc == IndexError
    ensures r.Texts? ==> ':' !in r.temp && ':' !in r.humid
  {
    var last := Strip(line);
    if !StartsWith(last, "T:") then NotReading
    else
      var parts := Split(last, ',');
      var tempParts := Split(parts[0], ':');
      if |tempParts| < 2 then ExtractError(IndexError)
      else if |parts| < 2 then ExtractError(IndexError)
      else
        var humidParts := Split(parts[1], ':');
        if |humidParts| < 2 then ExtractError(IndexError)
        else Texts(tempParts[1], humidParts[1])
  }

  /**
   * The same field texts described by position on a stripped line `s`: the
   * temperature is what follows "T:" up to the next ':' or ',', and the
   * humidity is the text between the first and second ':' of the text between
   * the first and second ','. The index error is a missing first ',' or a
   * missing ':' in that second comma part.
   */
  function ExtractSpec(s: string): Extracted {
    if !StartsWith(s, "T:") then NotReading
    else
      match Second(s, ',')
      case None => ExtractError(IndexError)
      case Some(second) =>
        match Second(second, ':')
        case None => ExtractError(IndexError)
        case Some(humid) => Texts(UpTo(UpTo(s[2..], ','), ':'), humid)
  }

  /** Splitting the line agrees with the positional description on every line. */
  lemma {:induction false} ExtractFieldsMatchesSpec(line: string)
    ensures ExtractFields(line) == ExtractSpec(Strip(line))
  {
    var s := Strip(line);
    if StartsWith(s, "T:") {
      var parts := Split(s, ',');
      TempPart(s);
      SplitSecond(s, ',');
      if |parts| >= 2 {
        assert Second(s, ',') == Some(parts[1]);
        SplitSecond(parts[1], ':');
        var humidParts := Split(parts[1], ':');
        if |humidParts| >= 2 {
          assert Second(parts[1], ':') == Some(humidParts[1]);
          assert ExtractFields(line) == Texts(UpTo(UpTo(s[2..], ','), ':'), humidParts[1]);
        } else {
          assert Second(parts[1], ':') == None;
        }
      } else {
        assert Second(s, ',') == None;
      }
    }
  }

  /**
   * On a "T:" line the temperature part always has a second ':'-piece, so the
   * temperature never raises: every index error comes from the humidity part.
   */
  lemma TempPart(s: string)
    requires StartsWith(s, "T:")
    ensures |Split(Split(s, ',')[0], ':')| >= 2
    ensures Split(Split(s, ',')[0], ':')[1] == UpTo(UpTo(s[2..], ','), ':')
  {
    SplitFirst(s, ',');
    var p := UpTo(s, ',');
    assert s[0] == 'T' && s[1] == ':';
    assert s[1..][1..] == s[2..];
    assert Find(s, ',') == 2 + Find(s[2..], ',');
    assert p[2..] == UpTo(s[2..], ',');
    assert p[1..][1..] == p[2..];
    SplitSecond(p, ':');
    assert ':' in p by { assert p[1] == ':'; }
  }

  /**
   * The last line after `float()` has been applied to both field texts,
   * temperature first.
   */
  function ParseLastLine(line: string, toFloat: string -> Option<Float>): (r: Parsed)
    ensures r.Ignored? <==> !StartsWith(Strip(line), "T:")
  {
    match ExtractFields(line)
    case NotReading => Ignored
    case ExtractError(e) => ParseError(e)
    case Texts(tempText, humidText) =>
      match toFloat(tempText)
      case None => ParseError(ValueError)
      case Some(temperature) =>
        match toFloat(humidText)
        case None => ParseError(ValueError)
        case Some(humidity) => Values(temperature, humidity)
  }

  /**
   * One call of `read_latest_data` on the reading `prev`, the log `file`
   * (`None`: no such file) and the clock value `now`.
   */
  function Refresh(prev: Reading, file: Option<seq<string>>, toFloat: string -> Option<Float>, now: Float): (r: Step)
    ensures r.reading == prev || (r.outcome == Returned && r.reading.timestamp == now)
  {
    match file
    case None => Step(NotFoundReported, prev)
    case Some(lines) =>
      if |lines| == 0 then Step(Returned, prev)
      else
        match ParseLastLine(lines[|lines| - 1], toFloat)
        case Ignored => Step(Returned, prev)
        case ParseError(e) => Step(Raised(e), prev)
        case Values(temperature, humidity) => Step(Returned, Reading(temperature, humidity, now))
  }

  /**
   * What a call does once the field texts of its last line are known: the
   * conversion-and-replace step of `ParseLastLine` and `Refresh` restated on
   * an `Extracted` value, so that `RefreshByLastLine` can pair it with the
   * positional reference `ExtractSpec`.
   */
  function StepOn(prev: Reading, e: Extracted, toFloat: string -> Option<Float>, now: Float): (r: Step)
    ensures r.reading == prev || (r.outcome == Returned && e.Texts? && r.reading.timestamp == now)
  {
    match e
    case NotReading => Step(Returned, prev)
    case ExtractError(exc) => Step(Raised(exc), prev)
    case Texts(temp, humid) =>
      if toFloat(temp).None? || toFloat(humid).None? then Step(Raised(ValueError), prev)
      else Step(Returned, Reading(toFloat(temp).value, toFloat(humid).value, now))
  }

  /** A call on a non-empty file is decided by the positional field texts of its trimmed last line. */
  lemma {:induction false} RefreshByLastLine(prev: Reading, lines: seq<string>, toFloat: string -> Option<Float>, now: Float)
    requires |lines| > 0
    ensures Refresh(prev, Some(lines), toFloat, now)
         == StepOn(prev, ExtractSpec(Strip(lines[|lines| - 1])), toFloat, now)
  {
    ExtractFieldsMatchesSpec(lines[|lines| - 1]);
  }

  /** A line with no `T:` prefix once trimmed. */
  predicate Unprefixed(line: string) {
    !StartsWith(Strip(line), "T:")
  }

  /** `read_latest_data` on a missing file only reports it: the reading stays as it was. */
  lemma MissingFileKeepsReading(prev: Reading, toFloat: string -> Option<Float>, now: Float)
    ensures Refresh(prev, None, toFloat, now) == Step(NotFoundReported, prev)
  {
  }

  /** An empty file returns normally and leaves the reading as it was. */
  lemma EmptyFileKeepsReading(prev: Reading, toFloat: string -> Option<Float>, now: Float)
    ensures Refresh(prev, Some([]), toFloat, now) == Step(Returned, prev)
  {
  }

  /** Only the last line decides the call: the lines before it, whatever they hold, never matter. */
  lemma LastLineDecides(prev: Reading, earlier: seq<string>, others: seq<string>, last: string,
                        toFloat: string -> Option<Float>, now: Float)
    ensures Refresh(prev, Some(earlier + [last]), toFloat, now)
         == Refresh(prev, Some(others + [last]), toFloat, now)
  {
    assert (earlier + [last])[|earlier + [last]| - 1] == last;
    assert (others + [last])[|others + [last]| - 1] == last;
  }

  /** A last line without the "T:" prefix returns normally and leaves the reading as it was. */
  lemma UnprefixedLineKeepsReading(prev: Reading, lines: seq<string>, toFloat: string -> Option<Float>, now: Float)
    requires |lines| > 0 && Unprefixed(lines[|lines| - 1])
    ensures Refresh(prev, Some(lines), toFloat, now) == Step(Returned, prev)
  {
  }

  /** So does a blank or whitespace-only last line: it trims to the empty text. */
  lemma {:induction false} BlankLineKeepsReading(prev: Reading, earlier: seq<string>, last: string,
                                                 toFloat: string -> Option<Float>, now: Float)
    requires AllSpace(last)
    ensures Refresh(prev, Some(earlier + [last]), toFloat, now) == Step(Returned, prev)
  {
  }

  /**
   * A call raises `IndexError` exactly when the trimmed last line starts with
   * "T:" but holds no ',', or its second ','-part holds no ':'.
   */
  lemma {:induction false} IndexErrorCases(prev: Reading, lines: seq<string>, toFloat: string -> Option<Float>, now: Float)
    requires |lines| > 0
    ensures var s := Strip(lines[|lines| - 1]);
            Refresh(prev, Some(lines), toFloat, now).outcome == Raised(IndexError)
            <==> StartsWith(s, "T:")
                 && (',' !in s || ':' !in UpTo(s[Find(s, ',') + 1..], ','))
  {
    var s := Strip(lines[|lines| - 1]);
    RefreshByLastLine(prev, lines, toFloat, now);
    SpecIndexError(s);
    StepOnRaises(prev, ExtractSpec(s), toFloat, now);
  }

  /** By position, the index error is a "T:" line without ',' or without ':' in its second ','-part. */
  lemma {:induction false} SpecIndexError(s: string)
    ensures ExtractSpec(s) == ExtractError(IndexError)
            <==> StartsWith(s, "T:") && (',' !in s || ':' !in UpTo(s[Find(s, ',') + 1..], ','))
  {
    if StartsWith(s, "T:") && ',' in s {
      var second := UpTo(s[Find(s, ',') + 1..], ',');
      assert Second(s, ',') == Some(second);
      assert Second(second, ':').None? <==> ':' !in second;
    }
  }

  /** The conversion step raises exactly the extraction's error, or `ValueError` on a rejected text. */
  lemma StepOnRaises(prev: Reading, e: Extracted, toFloat: string -> Option<Float>, now: Float)
    ensures StepOn(prev, e, toFloat, now).outcome == Raised(IndexError) <==> e == ExtractError(IndexError)
    ensures StepOn(prev, e, toFloat, now).outcome == Raised(ValueError)
            <==> e == ExtractError(ValueError) || (e.Texts? && (toFloat(e.temp).None? || toFloat(e.humid).None?))
    ensures StepOn(prev, e, toFloat, now).reading == prev
            || (StepOn(prev, e, toFloat, now).outcome == Returned && e.Texts?
                && toFloat(e.temp) == Some(StepOn(prev, e, toFloat, now).reading.temperature)
                && toFloat(e.humid) == Some(StepOn(prev, e, toFloat, now).reading.humidity)
                && StepOn(prev, e, toFloat, now).reading.timestamp == now)
  {
  }

  /**
   * A call raises `ValueError` exactly when both field texts were found but
   * `float()` rejects one of them.
   */
  lemma {:induction false} ValueErrorCases(prev: Reading, lines: seq<string>, toFloat: string -> Option<Float>, now: Float)
    requires |lines| > 0
    ensures var e := ExtractSpec(Strip(lines[|lines| - 1]));
            Refresh(prev, Some(lines), toFloat, now).outcome == Raised(ValueError)
            <==> e.Texts? && (toFloat(e.temp).None? || toFloat(e.humid).None?)
  {
    RefreshByLastLine(prev, lines, toFloat, now);
    StepOnRaises(prev, ExtractSpec(Strip(lines[|lines| - 1])), toFloat, now);
  }

  /**
   * There is never a partial update: a call either leaves the reading exactly
   * as it was, or replaces all of it with the two converted field texts of the
   * last line and the clock of this call.
   */
  lemma {:induction false} NoPartialUpdate(prev: Reading, file: Option<seq<string>>, toFloat: string -> Option<Float>, now: Float)
    ensures var r := Refresh(prev, file, toFloat, now);
            r.reading == prev
            || (r.outcome == Returned && file.Some? && |file.value| > 0
                && var e := ExtractSpec(Strip(file.value[|file.value| - 1]));
                   e.Texts? && toFloat(e.temp) == Some(r.reading.temperature)
                   && toFloat(e.humid) == Some(r.reading.humidity) && r.reading.timestamp == now)
  {
    if file.Some? && |file.value| > 0 {
      RefreshByLastLine(prev, file.value, toFloat, now);
      StepOnRaises(prev, ExtractSpec(Strip(file.value[|file.value| - 1])), toFloat, now);
    }
  }

  /** A call whose exception escapes leaves the reading as it was. */
  lemma RaisedKeepsReading(prev: Reading, file: Option<seq<string>>, toFloat: string -> Option<Float>, now: Float)
    ensures Refresh(prev, file, toFloat, now).outcome.Raised? ==> Refresh(prev, file, toFloat, now).reading == prev
  {
  }

  /**
   * When both field texts of the last line convert, the whole reading is
   * replaced: the two values, stamped with the clock of the call.
   */
  lemma {:induction false} ParsedLineReplacesReading(prev: Reading, lines: seq<string>, toFloat: string -> Option<Float>,
                                                     now: Float, temp: string, humid: string, t: Float, h: Float)
    requires |lines| > 0 && ExtractSpec(Strip(lines[|lines| - 1])) == Texts(temp, humid)
    requires toFloat(temp) == Some(t) && toFloat(humid) == Some(h)
    ensures Refresh(prev, Some(lines), toFloat, now) == Step(Returned, Reading(t, h, now))
  {
    RefreshByLastLine(prev, lines, toFloat, now);
  }

  /**
   * A trimmed line `T:<t>,<tag>:<h>`, followed by nothing or by more ','- or
   * ':'-separated text, yields the texts `t` and `h`. The tag of the second
   * field is never checked, and whatever follows the humidity text is ignored.
   */
  lemma {:induction false} WellFormedFields(t: string, tag: string, h: string, tail: string)
    requires ',' !in t && ':' !in t && ',' !in tag && ':' !in tag && ',' !in h && ':' !in h
    requires tail == [] || tail[0] == ',' || tail[0] == ':'
    ensures ExtractSpec("T:" + t + "," + tag + ":" + h + tail) == Texts(t, h)
  {
    var rest := tag + ":" + h + tail;
    assert "T:" + t + "," + rest == "T:" + t + "," + tag + ":" + h + tail;
    FirstCommaPart(t, rest);
    SecondCommaPart(tag, h, tail);
  }

  /** Behind "T:<t>," the first ','-part ends; the temperature text is `t`. */
  lemma {:induction false} FirstCommaPart(t: string, rest: string)
    requires ',' !in t && ':' !in t
    ensures var core := "T:" + t + "," + rest;
            StartsWith(core, "T:")
            && Second(core, ',') == Some(UpTo(rest, ','))
            && UpTo(UpTo(core[2..], ','), ':') == t
  {
    var core := "T:" + t + "," + rest;
    assert core[..2] == "T:";
    assert core == ("T:" + t) + ([','] + rest);
    FindSkip("T:" + t, [','] + rest, ',');
    assert core[|"T:" + t| + 1..] == rest;
    assert core[2..] == t + ([','] + rest);
    UpToStop(t, [','] + rest, ',');
    UpToStop(t, [], ':');
    assert t + [] == t;
  }

  /** The second ','-part `<tag>:<h>...` gives the humidity text `h`. */
  lemma {:induction false} SecondCommaPart(tag: string, h: string, tail: string)
    requires ',' !in tag && ':' !in tag && ',' !in h && ':' !in h
    requires tail == [] || tail[0] == ',' || tail[0] == ':'
    ensures Second(UpTo(tag + ":" + h + tail, ','), ':') == Some(h)
  {
    var tailPart := UpTo(tail, ',');
    assert tailPart == [] || tailPart[0] == ':';
    var second := tag + ([':'] + (h + tailPart));
    SecondCommaPartText(tag, h, tail);
    FindSkip(tag, [':'] + (h + tailPart), ':');
    assert second[|tag| + 1..] == h + tailPart;
    UpToStop(h, tailPart, ':');
  }

  /** The second ','-part runs to the next ',' of the tail, if any. */
  lemma {:induction false} SecondCommaPartText(tag: string, h: string, tail: string)
    requires ',' !in tag && ',' !in h
    ensures UpTo(tag + ":" + h + tail, ',') == tag + ([':'] + (h + UpTo(tail, ',')))
  {
    var line := tag + ":" + h + tail;
    assert line == (tag + ":" + h) + tail;
    FindSkip(tag + ":" + h, tail, ',');
    assert Find(line, ',') == |tag| + 1 + |h| + Find(tail, ',');
    assert line[..Find(line, ',')] == (tag + ":" + h) + tail[..Find(tail, ',')];
  }

  /** The same line with any whitespace around it, such as its newline, is trimmed back to it first. */
  lemma {:induction false} WellFormedLine(lead: string, t: string, tag: string, h: string, tail: string, trail: string)
    requires AllSpace(lead) && AllSpace(trail)
    requires ',' !in t && ':' !in t && ',' !in tag && ':' !in tag && ',' !in h && ':' !in h
    requires tail == [] || tail[0] == ',' || tail[0] == ':'
    requires h + tail == [] || !IsSpace((h + tail)[|h + tail| - 1])
    ensures ExtractFields(lead + ("T:" + t + "," + tag + ":" + h + tail) + trail) == Texts(t, h)
  {
    var core := "T:" + t + "," + tag + ":" + h + tail;
    assert core == ("T:" + t + "," + tag + ":") + (h + tail);
    assert core[|core| - 1] == if h + tail == [] then ':' else (h + tail)[|h + tail| - 1];
    StripPadded(lead, core, trail);
    ExtractFieldsMatchesSpec(lead + core + trail);
    WellFormedFields(t, tag, h, tail);
  }

  /** `T:<t>,H:<h>` with its newline trims to a line whose field texts are `t` and `h`. */
  lemma {:induction false} NewlineTerminatedFields(t: string, h: string)
    requires ',' !in t && ':' !in t && ',' !in h && ':' !in h
    requires h == [] || !IsSpace(h[|h| - 1])
    ensures ExtractSpec(Strip("T:" + t + ",H:" + h + "\n")) == Texts(t, h)
  {
    var core := "T:" + t + ",H:" + h;
    assert core == ("T:" + t + ",H:") + h;
    assert core[|core| - 1] == if h == [] then ':' else h[|h| - 1];
    StripNewline(core);
    assert core == "T:" + t + "," + "H" + ":" + h + "";
    WellFormedFields(t, "H", h, "");
  }

  /** A well-formed last line ending in its newline replaces the reading with its two values. */
  lemma {:induction false} WellFormedLastLineUpdates(prev: Reading, earlier: seq<string>, t: string, h: string,
                                                     toFloat: string -> Option<Float>, now: Float, temperature: Float, humidity: Float)
    requires ',' !in t && ':' !in t && ',' !in h && ':' !in h
    requires h == [] || !IsSpace(h[|h| - 1])
    requires toFloat(t) == Some(temperature) && toFloat(h) == Some(humidity)
    ensures Refresh(prev, Some(earlier + ["T:" + t + ",H:" + h + "\n"]), toFloat, now)
         == Step(Returned, Reading(temperature, humidity, now))
  {
    var lines := earlier + ["T:" + t + ",H:" + h + "\n"];
    assert lines[|lines| - 1] == "T:" + t + ",H:" + h + "\n";
    NewlineTerminatedFields(t, h);
    ParsedLineReplacesReading(prev, lines, toFloat, now, t, h, temperature, humidity);
  }

  /** `T:25.5,H:62.1` gives temperature 25.5 and humidity 62.1. */
  lemma SingleLineExample(prev: Reading, toFloat: string -> Option<Float>, now: Float, t: Float, h: Float)
    requires toFloat("25.5") == Some(t) && toFloat("62.1") == Some(h)
    ensures Refresh(prev, Some(["T:25.5,H:62.1\n"]), toFloat, now) == Step(Returned, Reading(t, h, now))
  {
    SameText("T:" + "25.5" + ",H:" + "62.1" + "\n", "T:25.5,H:62.1\n");
    WellFormedLastLineUpdates(prev, [], "25.5", "62.1", toFloat, now, t, h);
  }

  /** Of `T:-3.2,H:10.0` followed by `T:20.0,H:55.5`, the last line wins. */
  lemma LastLineWinsExample(prev: Reading, toFloat: string -> Option<Float>, now: Float, t: Float, h: Float)
    requires toFloat("20.0") == Some(t) && toFloat("55.5") == Some(h)
    ensures Refresh(prev, Some(["T:-3.2,H:10.0\n", "T:20.0,H:55.5\n"]), toFloat, now) == Step(Returned, Reading(t, h, now))
  {
    SameText("T:" + "20.0" + ",H:" + "55.5" + "\n", "T:20.0,H:55.5\n");
    assert ["T:-3.2,H:10.0\n"] + ["T:20.0,H:55.5\n"] == ["T:-3.2,H:10.0\n", "T:20.0,H:55.5\n"];
    WellFormedLastLineUpdates(prev, ["T:-3.2,H:10.0\n"], "20.0", "55.5", toFloat, now, t, h);
  }

  /** Two texts that agree character by character are equal. */
  lemma SameText(a: string, b: string)
    requires |a| == |b| && forall i | 0 <= i < |a| :: a[i] == b[i]
    ensures a == b
  {
  }

  /** The module-level state of app.py: the reading served to every request. */
  class Reader {

    var latestData: Reading

    /** `latest_data` at import time: both values 0.0, stamped with the start-up clock. */
    constructor (startClock: Float)
      ensures latestData == Reading(Zero, Zero, startClock)
    {
      latestData := Reading(Zero, Zero, startClock);
    }

    /** `read_latest_data()`: rebinds the reading only when the last line fully parses. */
    method ReadLatestData(file: Option<seq<string>>, toFloat: string -> Option<Float>, now: Float)
      returns (outcome: Outcome)
      modifies this
      ensures Step(outcome, latestData) == Refresh(old(latestData), file, toFloat, now)
      ensures latestData == old(latestData) || (outcome == Returned && latestData.timestamp == now)
    {
      match file {
        case None =>
          outcome := NotFoundReported;
        case Some(lines) =>
          outcome := Returned;
          if |lines| > 0 {
            var parsed := ParseLastLine(lines[|lines| - 1], toFloat);
            match parsed {
              case Ignored =>
              case ParseError(e) =>
                outcome := Raised(e);
              case Values(temperature, humidity) =>
                latestData := Reading(temperature, humidity, now);
            }
          }
      }
    }
  }
}
