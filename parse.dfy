/**
  The parse front end of internal/parser/cache.go: rejection of empty and
  time-zone-prefixed specs, the descriptor table, the field loop with its
  defaults for omitted fields, `@every` durations, and the two kinds of
  schedule with their next-activation rules.

  The field-syntax helpers of the parser (normalizeFields, getField, all, the
  `places` order) and the standard library's duration parser are not part of
  this model; they enter as the parameters bundled in `Externals`.
*/
module CronParse {
  import opened Wrappers
  import opened Calendar
  import opened CronSpec

  /** The parser option bits that the parse front end consults. */
  datatype ParseOption = Second | Minute | Hour | Dom | Month | Dow | Descriptor

  datatype Parser = Parser(options: set<ParseOption>)

  /** A parsed schedule: six cron fields, or a fixed delay in nanoseconds. */
  datatype Schedule = Spec(spec: SpecSchedule) | ConstantDelay(delay: int)

  datatype ParseError =
    | EmptySpec
    | TimezoneNotSupported
    | DescriptorNotSupported
    | UnrecognizedDescriptor
    | InvalidFields
    | FieldIndexOutOfRange(index: nat)
    | BadField(place: ParseOption)
    | InvalidDuration
    | DurationOutOfRange
    | DurationOverflow
    | NonPositiveDuration

  /**
    Collaborators of the parse front end whose code is not modelled:
    normalizeFields (None for its error), getField (None for its error),
    all, the `places` order and the standard library's time.ParseDuration
    (None when it rejects the text).
  */
  datatype Externals = Externals(
    normalizeFields: (seq<string>, set<ParseOption>) -> Option<seq<string>>,
    getField: (string, Bounds) -> Option<bv64>,
    all: Bounds -> bv64,
    places: seq<ParseOption>,
    parseStdDuration: string -> Option<int>)

  // ---------------------------------------------------------------------------
  // strings.Fields

  /** Go's unicode.IsSpace. */
  predicate IsSpace(c: char) {
    var n := c as int;
    (9 <= n <= 13) || n == 32 || n == 0x85 || n == 0xA0 || n == 0x1680
    || (0x2000 <= n <= 0x200A) || n == 0x2028 || n == 0x2029 || n == 0x202F
    || n == 0x205F || n == 0x3000
  }

  predicate IsWord(w: string) {
    |w| > 0 && forall i :: 0 <= i < |w| ==> !IsSpace(w[i])
  }

  /** The longest prefix of `s` without white space. */
  function Word(s: string): (w: string)
    ensures w <= s
    ensures forall i :: 0 <= i < |w| ==> !IsSpace(w[i])
    ensures |w| == |s| || IsSpace(s[|w|])
  {
    if s == [] || IsSpace(s[0]) then [] else [s[0]] + Word(s[1..])
  }

  /** strings.Fields: the maximal runs of non-space characters, in order. */
  function Fields(s: string): (r: seq<string>)
    ensures forall i :: 0 <= i < |r| ==> IsWord(r[i])
    decreases |s|
  {
    if s == [] then []
    else if IsSpace(s[0]) then Fields(s[1..])
    else
      var w := Word(s);
      [w] + Fields(s[|w|..])
  }

  /** The characters of `s` other than white space, in order. */
  function NonSpace(s: string): string
    decreases |s|
  {
    if s == [] then []
    else if IsSpace(s[0]) then NonSpace(s[1..])
    else [s[0]] + NonSpace(s[1..])
  }

  /** The words of `ws` run together. */
  function Concat(ws: seq<string>): string {
    if ws == [] then [] else ws[0] + Concat(ws[1..])
  }

  /** The non-space characters of `s` are those of its first word, then those after it. */
  lemma {:induction false} NonSpaceAfterWord(s: string)
    ensures NonSpace(s) == Word(s) + NonSpace(s[|Word(s)|..])
    decreases |s|
  {
    if s != [] && !IsSpace(s[0]) {
      var t := s[1..];
      NonSpaceAfterWord(t);
      assert t[|Word(t)|..] == s[|Word(s)|..];
    }
  }

  /**
    Fields loses nothing but white space: its words, run together, are the
    non-space characters of `s` in order.
  */
  lemma {:induction false} FieldsKeepNonSpace(s: string)
    ensures Concat(Fields(s)) == NonSpace(s)
    decreases |s|
  {
    if s != [] {
      if IsSpace(s[0]) {
        FieldsKeepNonSpace(s[1..]);
      } else {
        var w := Word(s);
        FieldsKeepNonSpace(s[|w|..]);
        NonSpaceAfterWord(s);
        assert Fields(s) == [w] + Fields(s[|w|..]);
        assert ([w] + Fields(s[|w|..]))[1..] == Fields(s[|w|..]);
      }
    }
  }

  /** Words joined by single spaces. */
  function Unwords(ws: seq<string>): string {
    if |ws| == 0 then ""
    else if |ws| == 1 then ws[0]
    else ws[0] + " " + Unwords(ws[1..])
  }

  lemma WordOfJoined(w: string, rest: string)
    requires IsWord(w)
    requires rest == [] || IsSpace(rest[0])
    ensures Word(w + rest) == w
    decreases |w|
  {
    if |w| > 1 {
      assert (w + rest)[1..] == w[1..] + rest;
      WordOfJoined(w[1..], rest);
    } else {
      assert (w + rest)[1..] == rest;
    }
  }

  /** Splitting words joined by single spaces gives the words back. */
  lemma {:induction false} FieldsOfUnwords(ws: seq<string>)
    requires forall i :: 0 <= i < |ws| ==> IsWord(ws[i])
    ensures Fields(Unwords(ws)) == ws
  {
    if |ws| == 1 {
      WordOfJoined(ws[0], []);
      assert ws[0] + [] == ws[0];
      assert ws[0][|ws[0]|..] == [];
    } else if |ws| > 1 {
      var w, tail := ws[0], Unwords(ws[1..]);
      var s := w + " " + tail;
      WordOfJoined(w, " " + tail);
      assert s == w + (" " + tail);
      assert s[|w|..] == " " + tail;
      assert (" " + tail)[1..] == tail;
      FieldsOfUnwords(ws[1..]);
      assert ws == [w] + ws[1..];
    }
  }

  // ---------------------------------------------------------------------------
  // Descriptors

  /**
    The descriptor table of parseDescriptor: the field text a descriptor
    stands for, with a seconds field when `withSeconds`; "" for any other text.
  */
  function DescriptorExpansion(withSeconds: bool, spec: string): string {
    if withSeconds then
      if spec == "@yearly" || spec == "@annually" then "0 0 0 1 1 *"
      else if spec == "@monthly" then "0 0 0 1 * *"
      else if spec == "@weekly" then "0 0 0 * * 0"
      else if spec == "@daily" || spec == "@midnight" then "0 0 0 * * *"
      else if spec == "@hourly" then "0 0 * * * *"
      else ""
    else
      if spec == "@yearly" || spec == "@annually" then "0 0 1 1 *"
      else if spec == "@monthly" then "0 0 1 * *"
      else if spec == "@weekly" then "0 0 * * 0"
      else if spec == "@daily" || spec == "@midnight" then "0 0 * * *"
      else if spec == "@hourly" then "0 * * * *"
      else ""
  }

  predicate IsDescriptorName(spec: string) {
    spec in {"@yearly", "@annually", "@monthly", "@weekly", "@daily", "@midnight", "@hourly"}
  }

  /**
    The two tables agree: the seconds variant is the minute variant with a
    leading "0" seconds field, and only the seven descriptor names expand.
  */
  lemma DescriptorTablesAgree(spec: string)
    ensures DescriptorExpansion(false, spec) != "" <==> IsDescriptorName(spec)
    ensures DescriptorExpansion(true, spec) != "" <==> IsDescriptorName(spec)
    ensures IsDescriptorName(spec) ==>
      DescriptorExpansion(true, spec) == "0 " + DescriptorExpansion(false, spec)
  {
  }

  // ---------------------------------------------------------------------------
  // The field loop of parseCronFields

  function BoundsOf(place: ParseOption): Bounds {
    match place
    case Second => SecondBounds
    case Minute => MinuteBounds
    case Hour => HourBounds
    case Dom => DomBounds
    case Month => MonthBounds
    case _ => DowBounds
  }

  /** The value a field gets when the parser does not read it from the text. */
  function DefaultField(ext: Externals, place: ParseOption): bv64 {
    match place
    case Second => 1
    case Minute => 1
    case Hour => 1
    case Dom => ext.all(DomBounds)
    case Month => ext.all(MonthBounds)
    case _ => ext.all(DowBounds)
  }

  function FieldOf(s: SpecSchedule, place: ParseOption): bv64 {
    match place
    case Second => s.second
    case Minute => s.minute
    case Hour => s.hour
    case Dom => s.dom
    case Month => s.month
    case Dow => s.dow
    case Descriptor => 0
  }

  /** `s` with the field of `place` set to `v`; Descriptor names no field. */
  function SetField(s: SpecSchedule, place: ParseOption, v: bv64): (r: SpecSchedule)
    ensures place != Descriptor ==> FieldOf(r, place) == v
    ensures forall q :: q != place ==> FieldOf(r, q) == FieldOf(s, q)
  {
    match place
    case Second => s.(second := v)
    case Minute => s.(minute := v)
    case Hour => s.(hour := v)
    case Dom => s.(dom := v)
    case Month => s.(month := v)
    case Dow => s.(dow := v)
    case Descriptor => s
  }

  const NoFields: SpecSchedule := SpecSchedule(0, 0, 0, 0, 0, 0)

  /**
    The loop of parseCronFields over the remaining `places`, with `index`
    fields consumed so far and the fields built so far in `acc`.
  */
  function FoldPlaces(p: Parser, ext: Externals, fields: seq<string>, places: seq<ParseOption>,
                      index: nat, acc: SpecSchedule): Result<SpecSchedule, ParseError>
    decreases |places|
  {
    if places == [] then Success(acc)
    else
      var place := places[0];
      if place in p.options then
        if index >= |fields| then Failure(FieldIndexOutOfRange(index))
        else if place == Descriptor then FoldPlaces(p, ext, fields, places[1..], index + 1, acc)
        else match ext.getField(fields[index], BoundsOf(place))
          case None => Failure(BadField(place))
          case Some(v) => FoldPlaces(p, ext, fields, places[1..], index + 1, SetField(acc, place, v))
      else if place == Descriptor then FoldPlaces(p, ext, fields, places[1..], index, acc)
      else FoldPlaces(p, ext, fields, places[1..], index, SetField(acc, place, DefaultField(ext, place)))
  }

  /** How many of `places` the parser reads from the text. */
  function Consumed(places: seq<ParseOption>, options: set<ParseOption>): nat {
    if places == [] then 0
    else (if places[0] in options then 1 else 0) + Consumed(places[1..], options)
  }

  /** parseCronFields as a function of the text. */
  function CronFields(p: Parser, ext: Externals, spec: string): Result<Schedule, ParseError> {
    var fields := Fields(spec);
    if |fields| == 0 then Failure(EmptySpec)
    else match ext.normalizeFields(fields, p.options)
      case None => Failure(InvalidFields)
      case Some(normalized) =>
        match FoldPlaces(p, ext, normalized, ext.places, 0, NoFields)
        case Failure(e) => Failure(e)
        case Success(s) => Success(Spec(s))
  }

  /** The field loop of parseCronFields, place by place. */
  method ParseCronFields(p: Parser, ext: Externals, spec: string) returns (r: Result<Schedule, ParseError>)
    ensures r == CronFields(p, ext, spec)
  {
    var fields := Fields(spec);
    if |fields| == 0 {
      return Failure(EmptySpec);
    }
    var normalized := ext.normalizeFields(fields, p.options);
    if normalized.None? {
      return Failure(InvalidFields);
    }
    fields := normalized.value;
    var acc := NoFields;
    var fieldIndex := 0;
    var i := 0;
    while i < |ext.places|
      invariant 0 <= i <= |ext.places|
      invariant FoldPlaces(p, ext, fields, ext.places[i..], fieldIndex, acc)
             == FoldPlaces(p, ext, fields, ext.places, 0, NoFields)
    {
      var place := ext.places[i];
      assert ext.places[i..][1..] == ext.places[i + 1..];
      if place in p.options {
        if fieldIndex >= |fields| {
          return Failure(FieldIndexOutOfRange(fieldIndex));
        }
        if place != Descriptor {
          var v := ext.getField(fields[fieldIndex], BoundsOf(place));
          if v.None? {
            return Failure(BadField(place));
          }
          acc := SetField(acc, place, v.value);
        }
        fieldIndex := fieldIndex + 1;
      } else if place != Descriptor {
        acc := SetField(acc, place, DefaultField(ext, place));
      }
      i := i + 1;
    }
    assert ext.places[i..] == [];
    return Success(Spec(acc));
  }

  /**
    A field the parser does not read gets its default (bit 0 for second,
    minute and hour; every value for day of month, month and day of week)
    when `places` lists it, and keeps its prior value otherwise.
  */
  lemma {:induction false} OmittedFieldsDefault(p: Parser, ext: Externals, fields: seq<string>,
                                                 places: seq<ParseOption>, index: nat,
                                                 acc: SpecSchedule, f: ParseOption)
    requires f != Descriptor && f !in p.options
    requires FoldPlaces(p, ext, fields, places, index, acc).Success?
    ensures FieldOf(FoldPlaces(p, ext, fields, places, index, acc).value, f)
         == if f in places then DefaultField(ext, f) else FieldOf(acc, f)
    decreases |places|
  {
    if places != [] {
      var place := places[0];
      assert places == [place] + places[1..];
      if place in p.options {
        if place == Descriptor {
          OmittedFieldsDefault(p, ext, fields, places[1..], index + 1, acc, f);
        } else {
          var v := ext.getField(fields[index], BoundsOf(place)).value;
          OmittedFieldsDefault(p, ext, fields, places[1..], index + 1, SetField(acc, place, v), f);
        }
      } else if place == Descriptor {
        OmittedFieldsDefault(p, ext, fields, places[1..], index, acc, f);
      } else {
        OmittedFieldsDefault(p, ext, fields, places[1..], index,
                             SetField(acc, place, DefaultField(ext, place)), f);
      }
    }
  }

  /**
    A field the parser reads, listed once in `places` at position `j`, holds
    what getField made of the text field at the count of fields read before it.
  */
  lemma {:induction false} IncludedFieldRead(p: Parser, ext: Externals, fields: seq<string>,
                                              places: seq<ParseOption>, index: nat,
                                              acc: SpecSchedule, j: nat)
    requires j < |places| && places[j] != Descriptor && places[j] in p.options
    requires places[j] !in places[j + 1..]
    requires FoldPlaces(p, ext, fields, places, index, acc).Success?
    ensures index + Consumed(places[..j], p.options) < |fields|
    ensures ext.getField(fields[index + Consumed(places[..j], p.options)], BoundsOf(places[j]))
         == Some(FieldOf(FoldPlaces(p, ext, fields, places, index, acc).value, places[j]))
    decreases |places|
  {
    var place, f := places[0], places[j];
    assert places == [place] + places[1..];
    if j == 0 {
      assert places[..0] == [];
      var v := ext.getField(fields[index], BoundsOf(f)).value;
      NotListedKeepsField(p, ext, fields, places[1..], index + 1, SetField(acc, f, v), f);
    } else {
      assert places[1..][..j - 1] == places[..j][1..];
      assert places[1..][j - 1..][1..] == places[j + 1..];
      if place in p.options {
        if place == Descriptor {
          IncludedFieldRead(p, ext, fields, places[1..], index + 1, acc, j - 1);
        } else {
          var v := ext.getField(fields[index], BoundsOf(place)).value;
          IncludedFieldRead(p, ext, fields, places[1..], index + 1, SetField(acc, place, v), j - 1);
        }
      } else if place == Descriptor {
        IncludedFieldRead(p, ext, fields, places[1..], index, acc, j - 1);
      } else {
        IncludedFieldRead(p, ext, fields, places[1..], index,
                          SetField(acc, place, DefaultField(ext, place)), j - 1);
      }
    }
  }

  /** A field `places` no longer lists keeps its value through the rest of the loop. */
  lemma {:induction false} NotListedKeepsField(p: Parser, ext: Externals, fields: seq<string>,
                                                places: seq<ParseOption>, index: nat,
                                                acc: SpecSchedule, f: ParseOption)
    requires f !in places
    requires FoldPlaces(p, ext, fields, places, index, acc).Success?
    ensures FieldOf(FoldPlaces(p, ext, fields, places, index, acc).value, f) == FieldOf(acc, f)
    decreases |places|
  {
    if places != [] {
      var place := places[0];
      assert place in places;
      assert forall q :: q in places[1..] ==> q in places;
      if place in p.options {
        if place == Descriptor {
          NotListedKeepsField(p, ext, fields, places[1..], index + 1, acc, f);
        } else {
          var v := ext.getField(fields[index], BoundsOf(place)).value;
          NotListedKeepsField(p, ext, fields, places[1..], index + 1, SetField(acc, place, v), f);
        }
      } else if place == Descriptor {
        NotListedKeepsField(p, ext, fields, places[1..], index, acc, f);
      } else {
        NotListedKeepsField(p, ext, fields, places[1..], index,
                            SetField(acc, place, DefaultField(ext, place)), f);
      }
    }
  }

  /** The loop fails when the text has fewer fields than the parser reads. */
  lemma {:induction false} TooFewFieldsFail(p: Parser, ext: Externals, fields: seq<string>,
                                             places: seq<ParseOption>, index: nat, acc: SpecSchedule)
    requires index <= |fields| < index + Consumed(places, p.options)
    ensures FoldPlaces(p, ext, fields, places, index, acc).Failure?
    decreases |places|
  {
    if places != [] {
      var place := places[0];
      assert Consumed(places, p.options)
          == (if place in p.options then 1 else 0) + Consumed(places[1..], p.options);
      if place in p.options {
        if index < |fields| {
          if place == Descriptor {
            TooFewFieldsFail(p, ext, fields, places[1..], index + 1, acc);
          } else if ext.getField(fields[index], BoundsOf(place)).Some? {
            var v := ext.getField(fields[index], BoundsOf(place)).value;
            TooFewFieldsFail(p, ext, fields, places[1..], index + 1, SetField(acc, place, v));
          }
        }
      } else if place == Descriptor {
        TooFewFieldsFail(p, ext, fields, places[1..], index, acc);
      } else {
        TooFewFieldsFail(p, ext, fields, places[1..], index, SetField(acc, place, DefaultField(ext, place)));
      }
    }
  }

  // ---------------------------------------------------------------------------
  // Durations

  const MaxInt64: int := 0x7FFF_FFFF_FFFF_FFFF
  const MinInt64: int := -0x8000_0000_0000_0000
  const Two64: int := 0x1_0000_0000_0000_0000

  const SecondNanos: int := 1_000_000_000
  const MinuteNanos: int := 60 * SecondNanos
  const HourNanos: int := 60 * MinuteNanos
  const DayNanos: int := 24 * HourNanos

  /** Two's-complement wrap-around of Go's int64 arithmetic. */
  function Wrap64(x: int): (r: int)
    ensures MinInt64 <= r <= MaxInt64
    ensures (x - r) % Two64 == 0
    ensures MinInt64 <= x <= MaxInt64 ==> r == x
  {
    var m := x % Two64;
    if m > MaxInt64 then m - Two64 else m
  }

  predicate IsDigit(c: char) {
    48 <= c as int <= 57
  }

  predicate IsDigits(s: string) {
    |s| > 0 && forall i :: 0 <= i < |s| ==> IsDigit(s[i])
  }

  /** The decimal value of a string of digits. */
  function DigitsValue(s: string): nat
    requires forall i :: 0 <= i < |s| ==> IsDigit(s[i])
  {
    if s == [] then 0
    else
      assert IsDigit(s[|s| - 1]);
      DigitsValue(s[..|s| - 1]) * 10 + (s[|s| - 1] as int - 48)
  }

  /** A match of the pattern `^(\d+)([smhd])$`: the count and the unit letter. */
  datatype Shorthand = Shorthand(count: nat, unit: char)

  function MatchShorthand(spec: string): (r: Option<Shorthand>)
    ensures r.Some? ==> r.value.unit in "smhd"
  {
    if |spec| >= 2 && IsDigits(spec[..|spec| - 1]) && spec[|spec| - 1] in "smhd" then
      Some(Shorthand(DigitsValue(spec[..|spec| - 1]), spec[|spec| - 1]))
    else None
  }

  /** Nanoseconds in one unit of the shorthand. */
  function UnitNanos(unit: char): int {
    if unit == 's' then SecondNanos
    else if unit == 'm' then MinuteNanos
    else if unit == 'h' then HourNanos
    else DayNanos
  }

  /** Values congruent modulo 2^64 wrap to the same int64. */
  lemma Wrap64Congruent(x: int, y: int)
    requires (x - y) % Two64 == 0
    ensures Wrap64(x) == Wrap64(y)
  {
    var q := (x - y) / Two64;
    assert x == y + Two64 * q;
    assert x % Two64 == y % Two64 by {
      ModAddMultiple(y, q);
    }
  }

  lemma ModAddMultiple(y: int, q: int)
    ensures (y + Two64 * q) % Two64 == y % Two64
  {
    var r := y % Two64;
    var d := y / Two64;
    assert y == Two64 * d + r;
    assert y + Two64 * q == Two64 * (d + q) + r;
  }

  /** Multiplying keeps a congruence modulo 2^64. */
  lemma MulKeepsCongruence(a: int, b: int, m: int)
    requires (a - b) % Two64 == 0
    ensures (a * m - b * m) % Two64 == 0
  {
    var q := (a - b) / Two64;
    assert a - b == Two64 * q;
    assert a * m - b * m == (a - b) * m;
    assert a * m - b * m == Two64 * (q * m);
    ModAddMultiple(0, q * m);
  }

  /**
    parseDuration as written: the standard syntax first, then the shorthand
    multiplied out in int64, wrapping on overflow.
  */
  function ParseDurationAsWritten(ext: Externals, spec: string): (r: Result<int, ParseError>)
    ensures ext.parseStdDuration(spec).Some? ==> r == Success(ext.parseStdDuration(spec).value)
    ensures ext.parseStdDuration(spec).None? && MatchShorthand(spec).None? ==> r == Failure(InvalidDuration)
    ensures ext.parseStdDuration(spec).None? && MatchShorthand(spec).Some? ==>
      var sh := MatchShorthand(spec).value;
      && (sh.count > MaxInt64 ==> r == Failure(DurationOutOfRange))
      && (sh.count <= MaxInt64 ==> r == Success(Wrap64(sh.count * UnitNanos(sh.unit))))
  {
    match ext.parseStdDuration(spec)
    case Some(d) => Success(d)
    case None =>
      match MatchShorthand(spec)
      case None => Failure(InvalidDuration)
      case Some(sh) =>
        if sh.count > MaxInt64 then Failure(DurationOutOfRange)
        else if sh.unit == 's' then Success(Wrap64(sh.count * SecondNanos))
        else if sh.unit == 'm' then Success(Wrap64(sh.count * MinuteNanos))
        else if sh.unit == 'h' then Success(Wrap64(sh.count * HourNanos))
        else
          MulKeepsCongruence(sh.count * 24, Wrap64(sh.count * 24), HourNanos);
          Wrap64Congruent(sh.count * 24 * HourNanos, Wrap64(sh.count * 24) * HourNanos);
          Success(Wrap64(Wrap64(sh.count * 24) * HourNanos))
  }

  /** "213504d" wraps around int64 to a positive duration of about 25 minutes. */
  lemma DurationShorthandWraps(ext: Externals)
    requires ext.parseStdDuration("213504d") == None
    ensures MatchShorthand("213504d") == Some(Shorthand(213504, 'd'))
    ensures 213504 * DayNanos > MaxInt64
    ensures ParseDurationAsWritten(ext, "213504d") == Success(1_526_290_448_384)
  {
    assert "213504d"[..6] == "213504";
    assert "213504"[..5] == "21350";
    assert "21350"[..4] == "2135";
    assert "2135"[..3] == "213";
    assert "213"[..2] == "21";
    assert "21"[..1] == "2";
    assert "2"[..0] == "";
    assert DigitsValue("2") == 2;
    assert DigitsValue("21") == 21;
    assert DigitsValue("213") == 213;
    assert DigitsValue("2135") == 2135;
    assert DigitsValue("21350") == 21350;
    assert DigitsValue("213504") == 213504;
  }

  /**
    parseDuration with the shorthand's overflow rejected: the shorthand means
    count times unit, or an error when that exceeds int64.
  */
  function ParseDuration(ext: Externals, spec: string): (r: Result<int, ParseError>)
    ensures ext.parseStdDuration(spec).Some? ==> r == Success(ext.parseStdDuration(spec).value)
    ensures ext.parseStdDuration(spec).None? && r.Success? ==>
      && MatchShorthand(spec).Some?
      && r.value == MatchShorthand(spec).value.count * UnitNanos(MatchShorthand(spec).value.unit)
      && 0 <= r.value <= MaxInt64
    ensures ext.parseStdDuration(spec).None? && MatchShorthand(spec).Some? &&
      MatchShorthand(spec).value.count * UnitNanos(MatchShorthand(spec).value.unit) <= MaxInt64
      ==> r.Success?
  {
    match ext.parseStdDuration(spec)
    case Some(d) => Success(d)
    case None =>
      match MatchShorthand(spec)
      case None => Failure(InvalidDuration)
      case Some(sh) =>
        if sh.count > MaxInt64 then Failure(DurationOutOfRange)
        else if sh.count * UnitNanos(sh.unit) > MaxInt64 then Failure(DurationOverflow)
        else ParseDurationAsWritten(ext, spec)
  }

  /** Where the shorthand fits in int64 the corrected parse agrees with the source. */
  lemma ParseDurationAgreesInRange(ext: Externals, spec: string)
    requires ext.parseStdDuration(spec).None? && MatchShorthand(spec).Some?
    requires MatchShorthand(spec).value.count * UnitNanos(MatchShorthand(spec).value.unit) <= MaxInt64
    ensures ParseDuration(ext, spec) == ParseDurationAsWritten(ext, spec)
  {
    var sh := MatchShorthand(spec).value;
    if sh.unit == 'd' {
      assert sh.count * 24 <= MaxInt64;
    }
  }

  /** `<n>d` means n times 24 hours. */
  lemma DayShorthand(ext: Externals, digits: string)
    requires IsDigits(digits) && ext.parseStdDuration(digits + "d").None?
    requires DigitsValue(digits) * DayNanos <= MaxInt64
    ensures ParseDuration(ext, digits + "d") == Success(DigitsValue(digits) * 24 * HourNanos)
  {
    var spec := digits + "d";
    assert spec[..|spec| - 1] == digits;
  }

  /** The corrected parse rejects the text the source wraps around. */
  lemma OverflowingShorthandRejected(ext: Externals)
    requires ext.parseStdDuration("213504d") == None
    ensures ParseDuration(ext, "213504d") == Failure(DurationOverflow)
  {
    DurationShorthandWraps(ext);
  }

  /** parseEvery: a duration, as parseDuration reads it, that must be positive. */
  function ParseEvery(ext: Externals, spec: string): (r: Result<Schedule, ParseError>)
    ensures r.Success? ==> r.value.ConstantDelay? && 0 < r.value.delay
    ensures r.Success? <==> ParseDurationAsWritten(ext, spec).Success? && ParseDurationAsWritten(ext, spec).value > 0
    ensures r.Success? ==> r.value.delay == ParseDurationAsWritten(ext, spec).value
  {
    match ParseDurationAsWritten(ext, spec)
    case Failure(e) => Failure(e)
    case Success(d) => if d <= 0 then Failure(NonPositiveDuration) else Success(ConstantDelay(d))
  }

  /** `@every 213504d` is accepted with the wrapped delay of about 25 minutes. */
  lemma EveryWrappedShorthandAccepted(ext: Externals)
    requires ext.parseStdDuration("213504d") == None
    ensures ParseEvery(ext, "213504d") == Success(ConstantDelay(1_526_290_448_384))
  {
    DurationShorthandWraps(ext);
  }

  // ---------------------------------------------------------------------------
  // parseDescriptor and parseNoCache

  function ParseDescriptor(p: Parser, ext: Externals, spec: string): (r: Result<Schedule, ParseError>)
    ensures IsDescriptorName(spec) ==>
      r == CronFields(p, ext, DescriptorExpansion(Second in p.options, spec))
    ensures !IsDescriptorName(spec) && !("@every " <= spec) ==> r == Failure(UnrecognizedDescriptor)
    ensures !IsDescriptorName(spec) && "@every " <= spec ==> r == ParseEvery(ext, spec[7..])
  {
    DescriptorTablesAgree(spec);
    var cronSpec := DescriptorExpansion(Second in p.options, spec);
    if cronSpec != "" then CronFields(p, ext, cronSpec)
    else if "@every " <= spec then ParseEvery(ext, spec[7..])
    else Failure(UnrecognizedDescriptor)
  }

  /**
    parseNoCache: empty text, a `TZ=` or `CRON_TZ=` prefix, and `@` text
    without the Descriptor option are rejected before any field is read.
  */
  /** No text starts with both `@` and a time-zone prefix. */
  lemma PrefixesExclusive(spec: string)
    ensures "@" <= spec ==> !("TZ=" <= spec) && !("CRON_TZ=" <= spec)
  {
    if "@" <= spec {
      assert spec[0] == '@';
    }
  }

  function ParseNoCache(p: Parser, ext: Externals, spec: string): (r: Result<Schedule, ParseError>)
    ensures |spec| == 0 ==> r == Failure(EmptySpec)
    ensures |spec| > 0 && ("TZ=" <= spec || "CRON_TZ=" <= spec) ==> r == Failure(TimezoneNotSupported)
    ensures "@" <= spec && Descriptor !in p.options ==> r == Failure(DescriptorNotSupported)
    ensures r.Success? ==> |spec| > 0 && !("TZ=" <= spec) && !("CRON_TZ=" <= spec)
                           && ("@" <= spec ==> Descriptor in p.options)
    ensures r.Success? && r.value.ConstantDelay? ==> 0 < r.value.delay
  {
    PrefixesExclusive(spec);
    if |spec| == 0 then Failure(EmptySpec)
    else if "TZ=" <= spec || "CRON_TZ=" <= spec then Failure(TimezoneNotSupported)
    else if "@" <= spec then
      if Descriptor !in p.options then Failure(DescriptorNotSupported)
      else ParseDescriptor(p, ext, spec)
    else CronFields(p, ext, spec)
  }

  /** With the Descriptor option, a descriptor parses as its expansion for the parser's resolution. */
  lemma DescriptorParsesAsExpansion(p: Parser, ext: Externals, spec: string)
    requires Descriptor in p.options && IsDescriptorName(spec)
    ensures ParseNoCache(p, ext, spec) == CronFields(p, ext, DescriptorExpansion(Second in p.options, spec))
  {
    assert "@" <= spec;
    PrefixesExclusive(spec);
  }

  // ---------------------------------------------------------------------------
  // Next activation of either kind of schedule

  /** ConstantDelaySchedule.Next: the instant `delay` nanoseconds after `t`. */
  function ConstantDelayNext(delay: int, t: DateTime): (r: DateTime)
    requires Valid(t)
    ensures Valid(r) && AbsNanos(r) == AbsNanos(t) + delay
    ensures delay > 0 ==> Before(t, r)
  {
    var r := AddDuration(t, delay);
    SortKeyIsChronological(t, r);
    r
  }

  /** What Schedule.Next promises for each kind of schedule. */
  ghost predicate IsNextOf(sched: Schedule, t: DateTime, r: DateTime)
    requires Valid(t)
  {
    match sched
    case Spec(s) =>
      IsFirstMatch(s, SearchStart(t), Horizon(t), r) || (r == Zero && NoMatchIn(s, SearchStart(t), Horizon(t)))
    case ConstantDelay(d) => Valid(r) && AbsNanos(r) == AbsNanos(t) + d
  }

  /** Schedule.Next: dispatch on the kind of schedule. */
  method ScheduleNext(sched: Schedule, t: DateTime) returns (r: DateTime)
    requires Valid(t)
    ensures Valid(r) && IsNextOf(sched, t, r)
    ensures sched.Spec? ==> r == Zero || Before(t, r)
    ensures sched.ConstantDelay? && sched.delay > 0 ==> Before(t, r)
  {
    match sched
    case Spec(s) =>
      r := Next(s, t);
    case ConstantDelay(d) =>
      r := ConstantDelayNext(d, t);
  }
}
