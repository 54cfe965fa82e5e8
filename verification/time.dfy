/** Human-readable durations, `src/time.rs`: `format_seconds` breaks a count
    of seconds into days, hours, minutes and seconds and prints the parts
    that its guards let through; `format_rough_duration` drops the fraction
    of a second. */
module Durations {
  import opened Options

  datatype Unit = Day | Hour | Minute | Second

  const OneMinute: nat := 60
  const OneHour: nat := OneMinute * 60
  const OneDay: nat := OneHour * 24

  /** The number of seconds in one unit. */
  function Size(u: Unit): nat {
    match u
    case Day => OneDay
    case Hour => OneHour
    case Minute => OneMinute
    case Second => 1
  }

  /** The suffix printed after a count. */
  function Symbol(u: Unit): char {
    match u
    case Day => 'd'
    case Hour => 'h'
    case Minute => 'm'
    case Second => 's'
  }

  /** The position of a unit in the printed order. */
  function Rank(u: Unit): nat {
    match u
    case Day => 0
    case Hour => 1
    case Minute => 2
    case Second => 3
  }

  /** The unit a suffix stands for. */
  function UnitOf(c: char): (u: Option<Unit>)
    ensures u.Some? ==> Symbol(u.value) == c
  {
    match c
    case 'd' => Some(Day)
    case 'h' => Some(Hour)
    case 'm' => Some(Minute)
    case 's' => Some(Second)
    case _ => None
  }

  lemma UnitOfSymbol(u: Unit)
    ensures UnitOf(Symbol(u)) == Some(u)
  {
  }

  /** One printed part such as `18h`. */
  datatype Part = Part(count: nat, unit: Unit)

  /** The seconds one part stands for. */
  function Seconds(p: Part): nat {
    p.count * Size(p.unit)
  }

  /** The seconds a list of parts adds up to. */
  function Total(parts: seq<Part>): nat {
    if |parts| == 0 then 0 else Seconds(parts[0]) + Total(parts[1..])
  }

  lemma {:induction false} TotalAppend(a: seq<Part>, b: seq<Part>)
    ensures Total(a + b) == Total(a) + Total(b)
    decreases |a|
  {
    if |a| == 0 {
      assert a + b == b;
    } else {
      assert (a + b)[0] == a[0];
      assert (a + b)[1..] == a[1..] + b;
      TotalAppend(a[1..], b);
    }
  }

  /** No part is zero, and the units are strictly in the order d, h, m, s,
      so each appears at most once. */
  predicate WellFormed(parts: seq<Part>) {
    && (forall i :: 0 <= i < |parts| ==> 0 < parts[i].count)
    && (forall i, j :: 0 <= i < j < |parts| ==> Rank(parts[i].unit) < Rank(parts[j].unit))
  }

  /** Every unit of `parts` comes at or after `rank` in the printed order. */
  predicate UnitsFrom(parts: seq<Part>, rank: nat) {
    forall i :: 0 <= i < |parts| ==> rank <= Rank(parts[i].unit)
  }

  /** The largest count a unit other than days can have. */
  function Limit(u: Unit): nat {
    match u
    case Day => 0
    case Hour => 24
    case Minute => 60
    case Second => 60
  }

  /** Every count other than days is at most 24 hours, 60 minutes or 60 seconds. */
  predicate Bounded(parts: seq<Part>) {
    forall i :: 0 <= i < |parts| && parts[i].unit != Day ==> parts[i].count <= Limit(parts[i].unit)
  }

  lemma WellFormedPrepend(p: Part, parts: seq<Part>)
    requires 0 < p.count && WellFormed(parts) && UnitsFrom(parts, Rank(p.unit) + 1)
    ensures WellFormed([p] + parts)
  {
  }

  lemma BoundedPrepend(p: Part, parts: seq<Part>)
    requires p.unit != Day ==> p.count <= Limit(p.unit)
    requires Bounded(parts)
    ensures Bounded([p] + parts)
  {
  }

  /** The last guard of `format_seconds`: the seconds, if any. */
  function SecondsPart(secs: nat): seq<Part> {
    if secs > 0 then [Part(secs, Second)] else []
  }

  /** The minutes guard of `format_seconds` and what follows it. */
  function MinutesParts(secs: nat): seq<Part> {
    if secs > OneMinute then [Part(secs / OneMinute, Minute)] + SecondsPart(secs % OneMinute)
    else SecondsPart(secs)
  }

  /** The hours guard of `format_seconds` and what follows it. */
  function HoursParts(secs: nat): seq<Part> {
    if secs > OneHour then [Part(secs / OneHour, Hour)] + MinutesParts(secs % OneHour)
    else MinutesParts(secs)
  }

  /** The parts `format_seconds` prints, in order: the days guard and what
      follows it. Each guard is a strict comparison, so an exact minute, hour
      or day is printed in the next smaller unit. */
  function Parts(seconds: nat): seq<Part> {
    if seconds > OneDay then [Part(seconds / OneDay, Day)] + HoursParts(seconds % OneDay)
    else HoursParts(seconds)
  }

  lemma SecondsPartDecompose(secs: nat)
    ensures Total(SecondsPart(secs)) == secs
    ensures WellFormed(SecondsPart(secs)) && UnitsFrom(SecondsPart(secs), Rank(Second))
    ensures secs <= OneMinute ==> Bounded(SecondsPart(secs))
  {
  }

  lemma MinutesPartsDecompose(secs: nat)
    ensures Total(MinutesParts(secs)) == secs
    ensures WellFormed(MinutesParts(secs)) && UnitsFrom(MinutesParts(secs), Rank(Minute))
    ensures secs <= OneHour ==> Bounded(MinutesParts(secs))
  {
    if secs > OneMinute {
      SecondsPartDecompose(secs % OneMinute);
      WellFormedPrepend(Part(secs / OneMinute, Minute), SecondsPart(secs % OneMinute));
      if secs <= OneHour {
        BoundedPrepend(Part(secs / OneMinute, Minute), SecondsPart(secs % OneMinute));
      }
    } else {
      SecondsPartDecompose(secs);
    }
  }

  lemma HoursPartsDecompose(secs: nat)
    ensures Total(HoursParts(secs)) == secs
    ensures WellFormed(HoursParts(secs)) && UnitsFrom(HoursParts(secs), Rank(Hour))
    ensures secs <= OneDay ==> Bounded(HoursParts(secs))
  {
    if secs > OneHour {
      MinutesPartsDecompose(secs % OneHour);
      WellFormedPrepend(Part(secs / OneHour, Hour), MinutesParts(secs % OneHour));
      if secs <= OneDay {
        BoundedPrepend(Part(secs / OneHour, Hour), MinutesParts(secs % OneHour));
      }
    } else {
      MinutesPartsDecompose(secs);
    }
  }

  /** The printed parts add back up to the input, are well formed, and are
      bounded below the leading unit. */
  lemma PartsDecompose(seconds: nat)
    ensures Total(Parts(seconds)) == seconds
    ensures WellFormed(Parts(seconds))
    ensures Bounded(Parts(seconds))
  {
    if seconds > OneDay {
      HoursPartsDecompose(seconds % OneDay);
      WellFormedPrepend(Part(seconds / OneDay, Day), HoursParts(seconds % OneDay));
      BoundedPrepend(Part(seconds / OneDay, Day), HoursParts(seconds % OneDay));
    } else {
      HoursPartsDecompose(seconds);
    }
  }

  /** Zero seconds print no part, and every other number of seconds prints one. */
  lemma PartsEmpty(seconds: nat)
    ensures Parts(seconds) == [] <==> seconds == 0
  {
    PartsDecompose(seconds);
  }

  /** The decimal digits of `n`, as `format!("{}", n)` prints them. */
  function Decimal(n: nat): (s: string)
    ensures 0 < |s|
    ensures forall i :: 0 <= i < |s| ==> '0' <= s[i] <= '9'
    decreases n
  {
    if n < 10 then [DigitChar(n)] else Decimal(n / 10) + [DigitChar(n % 10)]
  }

  function DigitChar(d: nat): (c: char)
    requires d < 10
    ensures '0' <= c <= '9'
  {
    (d + '0' as int) as char
  }

  predicate IsDigit(c: char) {
    '0' <= c <= '9'
  }

  /** The value of a string of decimal digits. */
  function DecimalValue(s: string): nat
    requires forall i :: 0 <= i < |s| ==> IsDigit(s[i])
    decreases |s|
  {
    if |s| == 0 then 0 else DecimalValue(s[..|s| - 1]) * 10 + DigitValue(s[|s| - 1])
  }

  function DigitValue(c: char): (d: nat)
    requires IsDigit(c)
    ensures d < 10 && DigitChar(d) == c
  {
    c as int - '0' as int
  }

  lemma {:induction false} DecimalRoundTrip(n: nat)
    ensures DecimalValue(Decimal(n)) == n
    decreases n
  {
    if n >= 10 {
      var s := Decimal(n);
      assert s[..|s| - 1] == Decimal(n / 10);
      DecimalRoundTrip(n / 10);
    }
  }

  /** The number of leading digits of `s`. */
  function DigitRun(s: string): (k: nat)
    ensures k <= |s|
    ensures forall i :: 0 <= i < k ==> IsDigit(s[i])
    ensures k < |s| ==> !IsDigit(s[k])
    decreases |s|
  {
    if |s| == 0 || !IsDigit(s[0]) then 0 else 1 + DigitRun(s[1..])
  }

  lemma {:induction false} DigitRunStops(digits: string, rest: string)
    requires forall i :: 0 <= i < |digits| ==> IsDigit(digits[i])
    requires 0 < |rest| && !IsDigit(rest[0])
    ensures DigitRun(digits + rest) == |digits|
    decreases |digits|
  {
    if |digits| > 0 {
      assert (digits + rest)[1..] == digits[1..] + rest;
      DigitRunStops(digits[1..], rest);
    }
  }

  /** How one part is printed: `format!("{}d", count)` and so on. */
  function RenderPart(p: Part): string {
    Decimal(p.count) + [Symbol(p.unit)]
  }

  /** The parts printed one after another, as `out +=` builds the string. */
  function Render(parts: seq<Part>): string
    decreases |parts|
  {
    if |parts| == 0 then "" else RenderPart(parts[0]) + Render(parts[1..])
  }

  /** Reads a printed duration back into its parts: a run of digits and a
      unit suffix, repeatedly. */
  function ParseParts(s: string): Option<seq<Part>>
    decreases |s|
  {
    if |s| == 0 then Some([])
    else
      var k := DigitRun(s);
      if k == 0 || k == |s| then None
      else match UnitOf(s[k])
        case None => None
        case Some(u) =>
          match ParseParts(s[k + 1..])
          case None => None
          case Some(rest) => Some([Part(DecimalValue(s[..k]), u)] + rest)
  }

  /** One printed part is read back in front of whatever follows it. */
  lemma ParsePart(p: Part, tail: string)
    ensures ParseParts(RenderPart(p) + tail)
         == if ParseParts(tail).Some? then Some([p] + ParseParts(tail).value) else None
  {
    var digits := Decimal(p.count);
    var rest := [Symbol(p.unit)] + tail;
    var s := RenderPart(p) + tail;
    assert s == digits + rest;
    DigitRunStops(digits, rest);
    var k := DigitRun(s);
    assert s[..k] == digits;
    assert s[k] == Symbol(p.unit);
    assert s[k + 1..] == tail;
    UnitOfSymbol(p.unit);
    DecimalRoundTrip(p.count);
  }

  /** Printing loses nothing: the parts can be read back from the string. */
  lemma {:induction false} ParseRender(parts: seq<Part>)
    ensures ParseParts(Render(parts)) == Some(parts)
    decreases |parts|
  {
    if |parts| > 0 {
      ParseRender(parts[1..]);
      ParsePart(parts[0], Render(parts[1..]));
      assert [parts[0]] + parts[1..] == parts;
    }
  }

  /** `format_seconds` */
  function FormatSeconds(seconds: nat): string {
    Render(Parts(seconds))
  }

  /** The string `format_seconds` prints denotes exactly the input number of
      seconds, in well-formed parts, and is empty only for zero. */
  lemma FormatSecondsDenotes(seconds: nat)
    ensures ParseParts(FormatSeconds(seconds)) == Some(Parts(seconds))
    ensures Total(ParseParts(FormatSeconds(seconds)).value) == seconds
    ensures WellFormed(ParseParts(FormatSeconds(seconds)).value)
    ensures FormatSeconds(seconds) == "" <==> seconds == 0
  {
    PartsDecompose(seconds);
    PartsEmpty(seconds);
    ParseRender(Parts(seconds));
    if seconds != 0 {
      assert |RenderPart(Parts(seconds)[0])| > 0;
    }
  }

  /** Different numbers of seconds print differently. */
  lemma FormatSecondsInjective(a: nat, b: nat)
    requires FormatSeconds(a) == FormatSeconds(b)
    ensures a == b
  {
    FormatSecondsDenotes(a);
    FormatSecondsDenotes(b);
  }

  /** The test vectors of `test_format_seconds`, the short ones. */
  lemma FormatSecondsTestVectors()
    ensures FormatSeconds(3) == "3s"
    ensures FormatSeconds(65) == "1m5s"
    ensures FormatSeconds(178) == "2m58s"
  {
    assert Parts(3) == [Part(3, Second)];
    assert Parts(65) == [Part(1, Minute), Part(5, Second)];
    assert Parts(178) == [Part(2, Minute), Part(58, Second)];
  }

  lemma RenderCons(p: Part, rest: seq<Part>)
    ensures Render([p] + rest) == RenderPart(p) + Render(rest)
  {
    assert ([p] + rest)[1..] == rest;
  }

  lemma RenderThree(a: Part, b: Part, c: Part)
    ensures Render([a, b, c]) == RenderPart(a) + RenderPart(b) + RenderPart(c)
  {
    RenderCons(c, []);
    assert [b, c] == [b] + [c];
    RenderCons(b, [c]);
    assert [a, b, c] == [a] + [b, c];
    RenderCons(a, [b, c]);
  }

  lemma RenderFour(a: Part, b: Part, c: Part, d: Part)
    ensures Render([a, b, c, d]) == RenderPart(a) + RenderPart(b) + RenderPart(c) + RenderPart(d)
  {
    RenderThree(b, c, d);
    assert [a, b, c, d] == [a] + [b, c, d];
    RenderCons(a, [b, c, d]);
  }

  lemma RenderTwoDigits(n: nat, u: Unit)
    requires 10 <= n < 100
    ensures RenderPart(Part(n, u)) == [DigitChar(n / 10), DigitChar(n % 10), Symbol(u)]
  {
    assert Decimal(n) == Decimal(n / 10) + [DigitChar(n % 10)];
    assert Decimal(n / 10) == [DigitChar(n / 10)];
  }

  /** The test vector `18234` of `test_format_seconds`. */
  lemma FormatSecondsHours()
    ensures FormatSeconds(18234) == "5h3m54s"
  {
    assert MinutesParts(234) == [Part(3, Minute), Part(54, Second)];
    assert Parts(18234) == [Part(5, Hour), Part(3, Minute), Part(54, Second)];
    RenderThree(Part(5, Hour), Part(3, Minute), Part(54, Second));
    RenderTwoDigits(54, Second);
    assert RenderPart(Part(5, Hour)) == "5h";
    assert RenderPart(Part(3, Minute)) == "3m";
  }

  lemma PartsOfDays()
    ensures Parts(500000) == [Part(5, Day), Part(18, Hour), Part(53, Minute), Part(20, Second)]
  {
    assert MinutesParts(3200) == [Part(53, Minute), Part(20, Second)];
    assert HoursParts(68000) == [Part(18, Hour), Part(53, Minute), Part(20, Second)];
  }

  lemma RenderDays()
    ensures Render([Part(5, Day), Part(18, Hour), Part(53, Minute), Part(20, Second)]) == "5d18h53m20s"
  {
    RenderFour(Part(5, Day), Part(18, Hour), Part(53, Minute), Part(20, Second));
    RenderTwoDigits(18, Hour);
    RenderTwoDigits(53, Minute);
    RenderTwoDigits(20, Second);
    assert RenderPart(Part(5, Day)) == "5d";
  }

  /** The test vector `500000` of `test_format_seconds`. */
  lemma FormatSecondsDays()
    ensures FormatSeconds(500000) == "5d18h53m20s"
  {
    PartsOfDays();
    RenderDays();
  }

  /** The strict guards do not roll an exact unit over. */
  lemma FormatSecondsExactUnits()
    ensures FormatSeconds(60) == "60s"
    ensures FormatSeconds(3600) == "60m"
    ensures FormatSeconds(86400) == "24h"
    ensures FormatSeconds(90000) == "1d60m"
  {
    assert Parts(60) == [Part(60, Second)];
    assert Parts(3600) == [Part(60, Minute)];
    assert Parts(86400) == [Part(24, Hour)];
    assert Parts(90000) == [Part(1, Day), Part(60, Minute)];
  }

  /** The sub-second part of a duration. */
  type Nanos = n: nat | n < 1_000_000_000

  /** `std::time::Duration`: whole seconds and a nanosecond fraction. */
  datatype Duration = Duration(secs: nat, nanos: Nanos)

  /** `format_rough_duration`: formats the whole seconds only. */
  function FormatRoughDuration(d: Duration): (s: string)
    ensures ParseParts(s).Some? && Total(ParseParts(s).value) == d.secs
  {
    FormatSecondsDenotes(d.secs);
    FormatSeconds(d.secs)
  }

  /** Durations that differ below a second print the same. */
  lemma RoughDurationIgnoresFraction(a: Duration, b: Duration)
    requires a.secs == b.secs
    ensures FormatRoughDuration(a) == FormatRoughDuration(b)
  {
  }
}
