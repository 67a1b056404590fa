/** The telemetry reader (`readDevice`): each line the device sends is
    searched for the pattern CO2=(\d+),HUM=([0-9.]+),TMP=([0-9.-]+); the
    leftmost match becomes a Sample, otherwise a line starting "OK STP"
    ends the loop and any other line is skipped. */
module Telemetry {
  import opened Wire

  /** The largest int64; ParseInt saturates to it on overflow. */
  const MaxInt64: int := 0x7FFF_FFFF_FFFF_FFFF

  /** The echo of the stop command that ends a session cleanly. */
  const StopEcho: string := "OK STP"

  /** One reading. Humidity and temperature are kept as the captured text;
      the capture instant is not modelled. */
  datatype Sample = Sample(co2: int, humidity: string, temperature: string, tags: seq<string>)

  /** What one line is to the reader. `Panic` is the run-time panic of
      slicing the first six bytes of a shorter line. */
  datatype LineKind = Reading(sample: Sample) | StopEchoLine | Noise | Panic

  /** The character classes of the three capture groups. */
  datatype CharClass = Digits | Decimal | Signed

  predicate IsDigit(ch: char) { '0' <= ch <= '9' }

  predicate InClass(c: CharClass, ch: char) {
    match c
    case Digits => IsDigit(ch)
    case Decimal => IsDigit(ch) || ch == '.'
    case Signed => IsDigit(ch) || ch == '.' || ch == '-'
  }

  /** Every character of `s` is of class `c`. */
  predicate AllIn(c: CharClass, s: string) {
    forall j :: 0 <= j < |s| ==> InClass(c, s[j])
  }

  /** `s[x..y]` is a non-empty run of class `c`: what `[...]+` matches. */
  predicate ClassRun(s: string, x: nat, y: nat, c: CharClass) {
    x < y <= |s| && forall j :: x <= j < y ==> InClass(c, s[j])
  }

  /** `lit` occurs in `s` at position `i`. */
  predicate LiteralAt(s: string, i: nat, lit: string) {
    i + |lit| <= |s| && forall k :: 0 <= k < |lit| ==> s[i + k] == lit[k]
  }

  /** The pattern's language: a match of the regular expression occupies
      `s[i..e]`, with the CO2 digits in `s[i + 4..a]`, the humidity in
      `s[a + 5..b]` and the temperature in `s[b + 5..e]`. */
  ghost predicate MatchesAt(s: string, i: nat, a: nat, b: nat, e: nat) {
    && LiteralAt(s, i, "CO2=") && ClassRun(s, i + 4, a, Digits)
    && LiteralAt(s, a, ",HUM=") && ClassRun(s, a + 5, b, Decimal)
    && LiteralAt(s, b, ",TMP=") && ClassRun(s, b + 5, e, Signed)
  }

  /** The length of the longest run of class `c` starting at `i` (what a
      greedy `[...]+` consumes). */
  function RunLength(s: string, i: nat, c: CharClass): (n: nat)
    requires i <= |s|
    ensures i + n <= |s|
    decreases |s| - i
  {
    if i < |s| && InClass(c, s[i]) then 1 + RunLength(s, i + 1, c) else 0
  }

  /** The greedy run is a run of its class, ended by a character outside
      it or by the end of the text. */
  lemma {:induction false} RunLengthMaximal(s: string, i: nat, c: CharClass)
    requires i <= |s|
    ensures forall j :: i <= j < i + RunLength(s, i, c) ==> InClass(c, s[j])
    ensures i + RunLength(s, i, c) < |s| ==> !InClass(c, s[i + RunLength(s, i, c)])
    decreases |s| - i
  {
    if i < |s| && InClass(c, s[i]) {
      RunLengthMaximal(s, i + 1, c);
    }
  }

  /** A run ended by a character outside its class (or by the end of the
      text) is exactly what the greedy run consumes. */
  lemma {:induction false} RunLengthExact(s: string, i: nat, c: CharClass, n: nat)
    requires i + n <= |s|
    requires forall j :: i <= j < i + n ==> InClass(c, s[j])
    requires i + n < |s| ==> !InClass(c, s[i + n])
    ensures RunLength(s, i, c) == n
    decreases n
  {
    if n > 0 {
      RunLengthExact(s, i + 1, c, n - 1);
    }
  }

  /** The greedy run takes at least every class character in front of it. */
  lemma {:induction false} RunLengthAtLeast(s: string, i: nat, c: CharClass, n: nat)
    requires i + n <= |s|
    requires forall j :: i <= j < i + n ==> InClass(c, s[j])
    ensures RunLength(s, i, c) >= n
    decreases n
  {
    if n > 0 {
      RunLengthAtLeast(s, i + 1, c, n - 1);
    }
  }

  /** One step of the pattern: the literal `lit` at `i`, then a non-empty
      greedy run of class `c`; the position where the run ends. */
  function Step(s: string, i: nat, lit: string, c: CharClass): (e: Option<nat>)
    requires i <= |s|
  {
    if LiteralAt(s, i, lit) then
      var n := RunLength(s, i + |lit|, c);
      if n == 0 then None else Some(i + |lit| + n)
    else None
  }

  /** A step whose run is followed by a comma ends at that comma. */
  lemma StepExact(s: string, i: nat, lit: string, c: CharClass, e: nat)
    requires LiteralAt(s, i, lit) && ClassRun(s, i + |lit|, e, c)
    requires e < |s| && s[e] == ',' && !InClass(c, ',')
    ensures Step(s, i, lit, c) == Some(e)
  {
    RunLengthExact(s, i + |lit|, c, e - (i + |lit|));
  }

  /** Where the captures of a match end: the CO2 digits at `a`, the
      humidity at `b`, the temperature (and the match) at `end`. */
  datatype Match = Match(a: nat, b: nat, end: nat)

  /** The match starting at `i`, if any. Each greedy run stops at the first
      character outside its class, and the literal after it begins with
      such a character, so the runs are taken whole and there is at most
      one match at `i`. */
  function MatchAt(s: string, i: nat): Option<Match>
    requires i <= |s|
  {
    match Step(s, i, "CO2=", Digits)
    case None => None
    case Some(a) =>
      match Step(s, a, ",HUM=", Decimal)
      case None => None
      case Some(b) =>
        match Step(s, b, ",TMP=", Signed)
        case None => None
        case Some(e) => Some(Match(a, b, e))
  }

  /** A match found by `MatchAt` is a match of the pattern whose
      temperature capture cannot be extended (greedy). */
  lemma MatchAtSound(s: string, i: nat)
    requires i <= |s| && MatchAt(s, i).Some?
    ensures var m := MatchAt(s, i).value;
      MatchesAt(s, i, m.a, m.b, m.end) && (m.end == |s| || !InClass(Signed, s[m.end]))
  {
    var m := MatchAt(s, i).value;
    RunLengthMaximal(s, i + 4, Digits);
    RunLengthMaximal(s, m.a + 5, Decimal);
    RunLengthMaximal(s, m.b + 5, Signed);
  }

  /** Every match of the pattern starting at `i` is found by `MatchAt`,
      with the same CO2 and humidity captures and a temperature capture
      that extends the given one, equal to it exactly when the given one
      cannot be extended. */
  lemma MatchAtComplete(s: string, i: nat, a: nat, b: nat, e: nat)
    requires MatchesAt(s, i, a, b, e)
    ensures MatchAt(s, i).Some?
    ensures MatchAt(s, i).value.a == a && MatchAt(s, i).value.b == b
    ensures e <= MatchAt(s, i).value.end
    ensures MatchAt(s, i).value.end == e <==> e == |s| || !InClass(Signed, s[e])
  {
    assert s[a + 0] == ",HUM="[0];
    assert s[b + 0] == ",TMP="[0];
    StepExact(s, i, "CO2=", Digits, a);
    StepExact(s, a, ",HUM=", Decimal, b);
    RunLengthAtLeast(s, b + 5, Signed, e - (b + 5));
    if e == |s| || !InClass(Signed, s[e]) {
      RunLengthExact(s, b + 5, Signed, e - (b + 5));
    } else {
      RunLengthMaximal(s, b + 5, Signed);
    }
  }

  /** The leftmost match at or after `from` (the first of the matches that
      FindAllStringSubmatch returns). */
  function FindMatch(s: string, from: nat): (p: Option<nat>)
    requires from <= |s|
    ensures p.Some? ==> from <= p.value <= |s| && MatchAt(s, p.value).Some?
    ensures forall j :: from <= j <= |s| && (p.None? || j < p.value) ==> MatchAt(s, j).None?
    decreases |s| - from
  {
    if MatchAt(s, from).Some? then Some(from)
    else if from == |s| then None
    else FindMatch(s, from + 1)
  }

  /** The value of a string of decimal digits. */
  function DecimalValue(d: string): nat
    requires AllIn(Digits, d)
  {
    if d == [] then 0 else DecimalValue(d[..|d| - 1]) * 10 + (d[|d| - 1] as int - '0' as int)
  }

  /** strconv.ParseInt(d, 10, 64) on a digit string, its error discarded:
      the value when it fits in an int64, and the largest int64 (which
      ParseInt returns with its range error) when it does not. */
  function ParseInt64(d: string): (r: int)
    requires AllIn(Digits, d)
    ensures 0 <= r <= MaxInt64 && r <= DecimalValue(d)
    ensures r < DecimalValue(d) ==> r == MaxInt64
  {
    if DecimalValue(d) <= MaxInt64 then DecimalValue(d) else MaxInt64
  }

  /** The decimal digits of `n`, without leading zeros. */
  function DecimalText(n: nat): (d: string)
    ensures |d| > 0 && AllIn(Digits, d)
  {
    var last := [('0' as int + n % 10) as char];
    if n < 10 then last else DecimalText(n / 10) + last
  }

  /** Reading back what the device prints: a CO2 value in int64 range
      parses to itself. */
  lemma {:induction false} DecimalRoundTrip(n: nat)
    ensures DecimalValue(DecimalText(n)) == n
  {
    var d := DecimalText(n);
    if n >= 10 {
      DecimalRoundTrip(n / 10);
      assert d[..|d| - 1] == DecimalText(n / 10);
    } else {
      assert d[..|d| - 1] == [];
    }
  }

  lemma ParseInt64RoundTrip(n: nat)
    requires n <= MaxInt64
    ensures ParseInt64(DecimalText(n)) == n
  {
    DecimalRoundTrip(n);
  }

  /** How `readDevice` treats one line: a pattern match wins over the stop
      echo, which is checked on the first six bytes. */
  function Classify(text: string, tags: seq<string>): (k: LineKind)
    ensures k.Reading? ==> 0 <= k.sample.co2 <= MaxInt64 && k.sample.tags == tags
  {
    match FindMatch(text, 0)
    case Some(i) =>
      var m := MatchAt(text, i).value;
      MatchAtSound(text, i);
      assert AllIn(Digits, text[i + 4..m.a]);
      Reading(Sample(ParseInt64(text[i + 4..m.a]), text[m.a + 5..m.b], text[m.b + 5..m.end], tags))
    case None =>
      if |text| < 6 then Panic
      else if text[..6] == StopEcho then StopEchoLine
      else Noise
  }

  /** The leftmost match decides the reading: when the pattern matches
      `text[i..e]` with a temperature capture that cannot be extended, and
      no match starts earlier, the line yields CO2 = the digits' value
      saturated at the largest int64, humidity and temperature as
      captured, and the configured tags, whatever else the line holds (so
      a telemetry line wins over the stop echo). */
  lemma ClassifyLeftmost(text: string, tags: seq<string>, i: nat, a: nat, b: nat, e: nat)
    requires MatchesAt(text, i, a, b, e)
    requires e == |text| || !InClass(Signed, text[e])
    requires forall j, a', b', e' :: 0 <= j < i ==> !MatchesAt(text, j, a', b', e')
    ensures AllIn(Digits, text[i + 4..a])
    ensures Classify(text, tags)
         == Reading(Sample(ParseInt64(text[i + 4..a]), text[a + 5..b], text[b + 5..e], tags))
  {
    MatchAtComplete(text, i, a, b, e);
    forall j | 0 <= j < i ensures MatchAt(text, j).None? {
      if MatchAt(text, j).Some? {
        MatchAtSound(text, j);
      }
    }
  }

  /** A line yields a reading exactly when the pattern matches somewhere in
      it. */
  lemma ClassifyReading(text: string, tags: seq<string>)
    ensures Classify(text, tags).Reading? <==> exists i, a, b, e :: MatchesAt(text, i, a, b, e)
  {
    var r := FindMatch(text, 0);
    if r.Some? {
      MatchAtSound(text, r.value);
      var m := MatchAt(text, r.value).value;
      assert MatchesAt(text, r.value, m.a, m.b, m.end);
    } else if exists i, a, b, e :: MatchesAt(text, i, a, b, e) {
      var i, a, b, e :| MatchesAt(text, i, a, b, e);
      MatchAtComplete(text, i, a, b, e);
      assert false;
    }
  }

  /** A line without any match of the pattern: under six bytes it panics,
      otherwise it is the stop echo exactly when its first six bytes are
      "OK STP", and noise when they are not. */
  lemma NonTelemetryLine(text: string, tags: seq<string>)
    requires forall i, a, b, e :: !MatchesAt(text, i, a, b, e)
    ensures |text| < 6 ==> Classify(text, tags) == Panic
    ensures |text| >= 6 && text[..6] == StopEcho ==> Classify(text, tags) == StopEchoLine
    ensures |text| >= 6 && text[..6] != StopEcho ==> Classify(text, tags) == Noise
  {
    ClassifyReading(text, tags);
  }

  /** How the read loop ends: the stop echo (returns nil), end of input
      (returns nil), a scanner error (cleanup, then the error), or a
      panic on a short line. */
  datatype ReadEnd = Stopped | Ended | ScanFailed | Panicked

  /** The samples the loop emits, how it ends, and the position of the line
      it stopped at (the length of the input when it read to the end). */
  datatype ReadResult = ReadResult(samples: seq<Sample>, end: ReadEnd, stop: nat)

  /** The classification of every line. */
  function Kinds(lines: seq<string>, tags: seq<string>): (ks: seq<LineKind>)
    ensures |ks| == |lines|
  {
    if lines == [] then [] else Kinds(lines[..|lines| - 1], tags) + [Classify(lines[|lines| - 1], tags)]
  }

  lemma {:induction false} KindsAt(lines: seq<string>, tags: seq<string>, j: nat)
    requires j < |lines|
    ensures Kinds(lines, tags)[j] == Classify(lines[j], tags)
    decreases |lines|
  {
    var n := |lines|;
    if j < n - 1 {
      KindsAt(lines[..n - 1], tags, j);
    }
  }

  /** The read loop from line `i` on, given each line's classification.
      `scanErr` says whether the line source ends with an error rather
      than at end of input. */
  function ReadFrom(ks: seq<LineKind>, i: nat, scanErr: bool): ReadResult
    decreases |ks| - i
  {
    if i >= |ks| then ReadResult([], if scanErr then ScanFailed else Ended, i)
    else
      match ks[i]
      case Reading(s) =>
        var rest := ReadFrom(ks, i + 1, scanErr);
        ReadResult([s] + rest.samples, rest.end, rest.stop)
      case StopEchoLine => ReadResult([], Stopped, i)
      case Panic => ReadResult([], Panicked, i)
      case Noise => ReadFrom(ks, i + 1, scanErr)
  }

  /** The samples of the telemetry lines among `ks`, in order. */
  function Readings(ks: seq<LineKind>): seq<Sample> {
    if ks == [] then []
    else Readings(ks[..|ks| - 1]) + (if ks[|ks| - 1].Reading? then [ks[|ks| - 1].sample] else [])
  }

  /** `r` with `samples` emitted before its own. */
  function Prepend(samples: seq<Sample>, r: ReadResult): ReadResult {
    ReadResult(samples + r.samples, r.end, r.stop)
  }

  /** The main loop of `readDevice`, from line `from` of the scanner. */
  method ReadLoop(lines: seq<string>, from: nat, scanErr: bool, tags: seq<string>)
    returns (samples: seq<Sample>, end: ReadEnd, stop: nat)
    requires from <= |lines|
    ensures ReadResult(samples, end, stop) == ReadFrom(Kinds(lines, tags), from, scanErr)
  {
    ghost var ks := Kinds(lines, tags);
    samples := [];
    var i := from;
    while i < |lines|
      invariant from <= i <= |lines|
      invariant ReadFrom(ks, from, scanErr) == Prepend(samples, ReadFrom(ks, i, scanErr))
    {
      var k := Classify(lines[i], tags);
      KindsAt(lines, tags, i);
      ReadFromStep(ks, i, scanErr, samples);
      match k {
        case Reading(d) =>
          samples := samples + [d];
        case StopEchoLine =>
          return samples, Stopped, i;
        case Panic =>
          return samples, Panicked, i;
        case Noise =>
      }
      i := i + 1;
    }
    end := if scanErr then ScanFailed else Ended;
    stop := |lines|;
  }

  /** One turn of the loop: what the line at `i` contributes. */
  lemma ReadFromStep(ks: seq<LineKind>, i: nat, scanErr: bool, samples: seq<Sample>)
    requires i < |ks|
    ensures ks[i].Reading? ==>
      Prepend(samples, ReadFrom(ks, i, scanErr)) == Prepend(samples + [ks[i].sample], ReadFrom(ks, i + 1, scanErr))
    ensures ks[i].Noise? ==> ReadFrom(ks, i, scanErr) == ReadFrom(ks, i + 1, scanErr)
    ensures ks[i].StopEchoLine? ==> ReadFrom(ks, i, scanErr) == ReadResult([], Stopped, i)
    ensures ks[i].Panic? ==> ReadFrom(ks, i, scanErr) == ReadResult([], Panicked, i)
  {
    if ks[i].Reading? {
      var rest := ReadFrom(ks, i + 1, scanErr).samples;
      assert samples + ([ks[i].sample] + rest) == samples + [ks[i].sample] + rest;
    }
  }

  /** The loop reads every line before the one it stopped at, emits one
      sample per telemetry line among them, in order, and nothing for the
      line it stopped at or any after it. It stops at the stop echo or a
      panicking line, or reads to the end of input, where a scanner error
      makes the difference between an error and a clean return. */
  lemma {:induction false} ReadFromShape(ks: seq<LineKind>, i: nat, scanErr: bool)
    requires i <= |ks|
    ensures var r := ReadFrom(ks, i, scanErr);
      && i <= r.stop <= |ks|
      && r.samples == Readings(ks[i..r.stop])
      && (forall j :: i <= j < r.stop ==> ks[j].Reading? || ks[j].Noise?)
      && (r.end == Stopped <==> r.stop < |ks| && ks[r.stop].StopEchoLine?)
      && (r.end == Panicked <==> r.stop < |ks| && ks[r.stop].Panic?)
      && (r.end == Ended <==> r.stop == |ks| && !scanErr)
      && (r.end == ScanFailed <==> r.stop == |ks| && scanErr)
    decreases |ks| - i
  {
    if i < |ks| {
      if ks[i].Reading? || ks[i].Noise? {
        ReadFromShape(ks, i + 1, scanErr);
        var r := ReadFrom(ks, i + 1, scanErr);
        ReadingsCons(ks[i..r.stop]);
        assert ks[i..r.stop][1..] == ks[i + 1..r.stop];
      } else {
        assert ks[i..i] == [];
      }
    } else {
      assert ks[i..i] == [];
    }
  }

  /** Readings of a list, split at its first line. */
  lemma {:induction false} ReadingsCons(ks: seq<LineKind>)
    requires ks != []
    ensures Readings(ks) == (if ks[0].Reading? then [ks[0].sample] else []) + Readings(ks[1..])
    decreases |ks|
  {
    var n := |ks|;
    if n > 1 {
      ReadingsCons(ks[..n - 1]);
      assert ks[..n - 1][1..] == ks[1..][..n - 2];
    } else {
      assert ks[..0] == [];
      assert ks[1..] == [];
    }
  }

  /** Once the stop echo arrives after telemetry and noise lines only, the
      loop returns cleanly with the samples of the lines before it, and no
      later line produces a sample, whatever follows. */
  lemma StopEchoEndsSession(ks: seq<LineKind>, stop: nat, scanErr: bool)
    requires stop < |ks| && ks[stop] == StopEchoLine
    requires forall j :: 0 <= j < stop ==> ks[j].Reading? || ks[j].Noise?
    ensures ReadFrom(ks, 0, scanErr) == ReadResult(Readings(ks[..stop]), Stopped, stop)
  {
    ReadFromShape(ks, 0, scanErr);
    assert ks[0..stop] == ks[..stop];
  }
}
