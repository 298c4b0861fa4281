/** The reference Type (type_time.go): time values parsed from strings with an
    ordered list of layouts, serialized with one layout, optionally truncated,
    and ordered chronologically. */
module Times {
  import opened Errors
  import opened Values
  import Capabilities
  import Schemas
  import Docs

  /** The three layout strings of Go's time package that the type uses. */
  const RFC3339Nano: string := "2006-01-02T15:04:05.999999999Z07:00"
  const RFC1123Z: string := "Mon, 02 Jan 2006 15:04:05 -0700"
  const RFC822Z: string := "02 Jan 06 15:04 -0700"

  /** defaultTimeLayouts, in the order they are tried. */
  const DefaultLayouts: seq<string> := [RFC3339Nano, RFC1123Z, RFC822Z]

  /** The Time configuration. truncate is a duration in nanoseconds. */
  datatype Time = Time(parseLayouts: seq<string>, serializeLayout: string, truncate: int)

  /** Go's time.Parse(layout, s) and Time.Format(layout), whose grammars are
      not part of this model: parse yields the instant or None for an error. */
  datatype TimeLib = TimeLib(parse: (string, string) -> Option<int>, format: (string, int) -> string)

  /** The layouts the parser tries: the configured ones, or the defaults when
      none are configured. Never empty. */
  function Layouts(t: Time): (layouts: seq<string>)
    ensures |layouts| > 0
    ensures |t.parseLayouts| > 0 ==> layouts == t.parseLayouts
    ensures |t.parseLayouts| == 0 ==> layouts == DefaultLayouts
  {
    if |t.parseLayouts| == 0 then DefaultLayouts else t.parseLayouts
  }

  /** The layout the serializer formats with: the configured one, or the first
      default layout when it is empty. Never empty. */
  function SerializeLayout(t: Time): (layout: string)
    ensures layout != ""
    ensures t.serializeLayout != "" ==> layout == t.serializeLayout
    ensures t.serializeLayout == "" ==> layout == DefaultLayouts[0]
  {
    if t.serializeLayout == "" then DefaultLayouts[0] else t.serializeLayout
  }

  /** Time.Truncate(d): rounds down to a multiple of d counted from the zero
      time; a non-positive d leaves the instant unchanged. */
  function Truncate(nanos: int, d: int): (r: int)
    ensures d <= 0 ==> r == nanos
    ensures d > 0 ==> r % d == 0 && r <= nanos < r + d
  {
    if d <= 0 then nanos
    else
      MultipleHasNoRemainder(nanos / d, d);
      nanos - nanos % d
  }

  /** Multiplying by a positive d keeps the order. */
  lemma MulMonotone(d: int, a: int, b: int)
    requires d > 0
    ensures a <= b <==> d * a <= d * b
  {
  }

  /** A multiple of d leaves no remainder. */
  lemma MultipleHasNoRemainder(q: int, d: int)
    requires d > 0
    ensures (d * q) % d == 0
  {
    var x := d * q;
    var k := q - x / d;
    assert d * k == x % d;
    // 0 <= d * k < d forces k == 0
    MulMonotone(d, 1, k);
    MulMonotone(d, k, -1);
  }

  /** A corollary of Truncate's contract, proved by hand because the solver
      does not find the multiplication steps: the truncated instant is the
      latest multiple of d not after the input. */
  lemma TruncateIsGreatestMultiple(nanos: int, d: int, m: int)
    requires d > 0 && m % d == 0 && m <= nanos
    ensures m <= Truncate(nanos, d)
  {
    var q := nanos / d;
    assert m == d * (m / d);
    assert Truncate(nanos, d) == d * q;
    MulMonotone(d, m / d, q + 1);
    assert d * (q + 1) == d * q + d;
    MulMonotone(d, m / d, q);
  }

  /** Truncating twice is truncating once. */
  lemma TruncateIdempotent(nanos: int, d: int)
    ensures Truncate(Truncate(nanos, d), d) == Truncate(nanos, d)
  {
  }

  /** The answer of the first layout, in order, that parses s; None when no layout does. */
  function FirstParse(layouts: seq<string>, lib: TimeLib, s: string): (r: Option<int>)
    ensures r.Some? ==> exists i :: 0 <= i < |layouts| && lib.parse(layouts[i], s) == r
    decreases |layouts|
  {
    if layouts == [] then None
    else if lib.parse(layouts[0], s).Some? then lib.parse(layouts[0], s)
    else
      var rest := FirstParse(layouts[1..], lib, s);
      assert rest.Some? ==> exists i :: 0 <= i < |layouts| && lib.parse(layouts[i], s) == rest by {
        if rest.Some? {
          var k :| 0 <= k < |layouts[1..]| && lib.parse(layouts[1..][k], s) == rest;
          assert layouts[1..][k] == layouts[k + 1];
        }
      }
      rest
  }

  /** Layout i parses s and no earlier layout does. */
  predicate IsFirstMatch(layouts: seq<string>, lib: TimeLib, s: string, i: int) {
    && 0 <= i < |layouts|
    && lib.parse(layouts[i], s).Some?
    && forall j :: 0 <= j < i ==> lib.parse(layouts[j], s).None?
  }

  /** The first matching layout is the one whose answer is used. */
  lemma {:induction false} FirstMatchWins(layouts: seq<string>, lib: TimeLib, s: string, i: int)
    requires IsFirstMatch(layouts, lib, s, i)
    ensures FirstParse(layouts, lib, s) == lib.parse(layouts[i], s)
  {
    if i > 0 {
      assert lib.parse(layouts[0], s).None?;
      var rest := layouts[1..];
      forall j | 0 <= j < i - 1
        ensures lib.parse(rest[j], s).None?
      {
        assert rest[j] == layouts[j + 1];
      }
      FirstMatchWins(rest, lib, s, i - 1);
    }
  }

  /** A successful search always comes from a first matching layout. */
  lemma {:induction false} FirstParseHasFirstMatch(layouts: seq<string>, lib: TimeLib, s: string)
    requires FirstParse(layouts, lib, s).Some?
    ensures exists i :: IsFirstMatch(layouts, lib, s, i) && lib.parse(layouts[i], s) == FirstParse(layouts, lib, s)
  {
    if lib.parse(layouts[0], s).Some? {
      assert IsFirstMatch(layouts, lib, s, 0);
    } else {
      var rest := layouts[1..];
      FirstParseHasFirstMatch(rest, lib, s);
      var k :| IsFirstMatch(rest, lib, s, k) && lib.parse(rest[k], s) == FirstParse(rest, lib, s);
      assert rest[k] == layouts[k + 1];
      forall j | 0 <= j < k + 1
        ensures lib.parse(layouts[j], s).None?
      {
        if j > 0 {
          assert layouts[j] == rest[j - 1];
        }
      }
      assert IsFirstMatch(layouts, lib, s, k + 1);
    }
  }

  /** The search fails exactly when no layout parses s. */
  lemma {:induction false} FirstParseNoneIffNoMatch(layouts: seq<string>, lib: TimeLib, s: string)
    ensures FirstParse(layouts, lib, s).None? <==> forall i :: 0 <= i < |layouts| ==> lib.parse(layouts[i], s).None?
  {
    if layouts != [] {
      var rest := layouts[1..];
      FirstParseNoneIffNoMatch(rest, lib, s);
      assert forall i :: 0 <= i < |rest| ==> rest[i] == layouts[i + 1];
      if FirstParse(layouts, lib, s).None? {
        forall i | 0 <= i < |layouts|
          ensures lib.parse(layouts[i], s).None?
        {
          if i > 0 {
            assert layouts[i] == rest[i - 1];
          }
        }
      }
    }
  }

  /** What the parser closure returns for one input. */
  function ParseTime(t: Time, lib: TimeLib, input: Value): (r: Result)
    ensures !input.Str? ==> r == Fail(Sentinel(NotString))
    ensures r.err.None? ==> r.out.Instant?
    ensures r.err.Some? ==> r.out == Nil
    ensures input.Str? && r.err.Some? ==> r == Fail(Sentinel(InvalidFormat))
  {
    match input
    case Str(s) =>
      (match FirstParse(Layouts(t), lib, s)
       case Some(raw) => Ok(Instant(Truncate(raw, t.truncate)))
       case None => Fail(Sentinel(InvalidFormat)))
    case _ => Fail(Sentinel(NotString))
  }

  /** The parser closure as Go runs it: the layouts are tried in order and the
      first that parses decides; the per-layout errors are dropped. */
  method ParseInput(t: Time, lib: TimeLib, input: Value) returns (r: Result)
    ensures r == ParseTime(t, lib, input)
  {
    if !input.Str? {
      return Fail(Sentinel(NotString));
    }
    var s := input.s;
    var layouts := Layouts(t);
    for k := 0 to |layouts|
      invariant FirstParse(layouts, lib, s) == FirstParse(layouts[k..], lib, s)
    {
      var ts := lib.parse(layouts[k], s);
      assert layouts[k..][1..] == layouts[k + 1..];
      if ts.Some? {
        return Ok(Instant(Truncate(ts.value, t.truncate)));
      }
    }
    return Fail(Sentinel(InvalidFormat));
  }

  /** Time.Parser. */
  function Parser(t: Time, lib: TimeLib): (p: Capabilities.ParserFunc)
    ensures p.ParserFunc?
    ensures forall x :: Capabilities.Parse(p, x) == ParseTime(t, lib, x)
  {
    Capabilities.ParserFunc(x => ParseTime(t, lib, x))
  }

  /** A value that is not a string is refused with NotString and a nil output. */
  lemma ParseRejectsNonString(t: Time, lib: TimeLib, input: Value)
    requires !input.Str?
    ensures ParseTime(t, lib, input) == Fail(Sentinel(NotString))
  {
  }

  /** The first layout in order that parses the string decides the result,
      which is truncated; later layouts are never consulted. */
  lemma ParseUsesFirstMatch(t: Time, lib: TimeLib, s: string, i: int)
    requires IsFirstMatch(Layouts(t), lib, s, i)
    ensures ParseTime(t, lib, Str(s)) == Ok(Instant(Truncate(lib.parse(Layouts(t)[i], s).value, t.truncate)))
  {
    FirstMatchWins(Layouts(t), lib, s, i);
  }

  /** Every successful parse is the truncated answer of a first matching layout. */
  lemma ParseSuccessComesFromFirstMatch(t: Time, lib: TimeLib, s: string)
    requires ParseTime(t, lib, Str(s)).err.None?
    ensures exists i :: (IsFirstMatch(Layouts(t), lib, s, i)
      && ParseTime(t, lib, Str(s)) == Ok(Instant(Truncate(lib.parse(Layouts(t)[i], s).value, t.truncate))))
  {
    FirstParseHasFirstMatch(Layouts(t), lib, s);
  }

  /** The parser fails with InvalidFormat and a nil output exactly when no
      layout parses the string; no other failure is possible for a string. */
  lemma ParseFailsIffNoLayoutMatches(t: Time, lib: TimeLib, s: string)
    ensures ParseTime(t, lib, Str(s)) == Fail(Sentinel(InvalidFormat))
        <==> forall i :: 0 <= i < |Layouts(t)| ==> lib.parse(Layouts(t)[i], s).None?
    ensures ParseTime(t, lib, Str(s)).err.None? || ParseTime(t, lib, Str(s)) == Fail(Sentinel(InvalidFormat))
  {
    FirstParseNoneIffNoMatch(Layouts(t), lib, s);
  }

  /** With default layouts, a string the RFC 3339 layout accepts is parsed by it. */
  lemma DefaultParsesRfc3339(lib: TimeLib, s: string, x: int)
    requires lib.parse(RFC3339Nano, s) == Some(x)
    ensures ParseTime(Time([], "", 0), lib, Str(s)) == Ok(Instant(x))
  {
  }

  /** With default layouts, a string only the RFC 1123 layout accepts falls
      through to it. */
  lemma DefaultFallsBackToRfc1123(lib: TimeLib, s: string, x: int)
    requires lib.parse(RFC3339Nano, s).None? && lib.parse(RFC1123Z, s) == Some(x)
    ensures ParseTime(Time([], "", 0), lib, Str(s)) == Ok(Instant(x))
  {
    ParseUsesFirstMatch(Time([], "", 0), lib, s, 1);
  }

  /** With default layouts, a string none of the three layouts accepts is
      refused with the "invalid format" error and a nil output. */
  lemma DefaultRejectsUnknownFormat(lib: TimeLib, s: string)
    requires lib.parse(RFC3339Nano, s).None? && lib.parse(RFC1123Z, s).None? && lib.parse(RFC822Z, s).None?
    ensures ParseTime(Time([], "", 0), lib, Str(s)) == Fail(Sentinel(InvalidFormat))
    ensures ParseTime(Time([], "", 0), lib, Str(s)).out == Nil
    ensures Message(ParseTime(Time([], "", 0), lib, Str(s)).err.value.kind) == "invalid format"
  {
    ParseFailsIffNoLayoutMatches(Time([], "", 0), lib, s);
  }

  /** What the validator closure returns: a time passes unchanged, whatever
      original is; anything else is refused with NotGoTime. */
  function ValidateTime(input: Value, original: Value): (r: Result)
    ensures input.Instant? ==> r == Ok(input)
    ensures !input.Instant? ==> r == Fail(Sentinel(NotGoTime))
  {
    if input.Instant? then Ok(input) else Fail(Sentinel(NotGoTime))
  }

  /** Time.Validator. */
  function Validator(): (v: Capabilities.ValidatorFunc)
    ensures v.ValidatorFunc?
    ensures forall x, o :: Capabilities.Validate(v, x, o) == ValidateTime(x, o)
  {
    Capabilities.ValidatorFunc((x, o) => ValidateTime(x, o))
  }

  /** Validation is idempotent and never looks at original. */
  lemma ValidateTimeIdempotent(input: Value, original1: Value, original2: Value)
    ensures ValidateTime(input, original1) == ValidateTime(input, original2)
    ensures ValidateTime(input, original1).err.None? ==>
      ValidateTime(ValidateTime(input, original1).out, original2) == ValidateTime(input, original1)
  {
  }

  /** What the serializer closure returns: a time formatted with the
      serialize layout, or NotGoTime for anything else. */
  function SerializeTime(t: Time, lib: TimeLib, input: Value): (r: Result)
    ensures input.Instant? ==> r == Ok(Str(lib.format(SerializeLayout(t), input.nanos)))
    ensures !input.Instant? ==> r == Fail(Sentinel(NotGoTime))
  {
    match input
    case Instant(n) => Ok(Str(lib.format(SerializeLayout(t), n)))
    case _ => Fail(Sentinel(NotGoTime))
  }

  /** Time.Serializer. */
  function Serializer(t: Time, lib: TimeLib): (z: Capabilities.SerializerFunc)
    ensures z.SerializerFunc?
    ensures forall x :: Capabilities.Serialize(z, x) == SerializeTime(t, lib, x)
  {
    Capabilities.SerializerFunc(x => SerializeTime(t, lib, x))
  }

  /** Round trip: when the serialize layout is the first layout tried and that
      layout reads back what it formats, parsing a serialized time gives the
      time back, truncated. The default configuration is such a case. */
  lemma SerializeThenParse(t: Time, lib: TimeLib, x: int)
    requires SerializeLayout(t) == Layouts(t)[0]
    requires lib.parse(SerializeLayout(t), lib.format(SerializeLayout(t), x)) == Some(x)
    ensures ParseTime(t, lib, SerializeTime(t, lib, Instant(x)).out) == Ok(Instant(Truncate(x, t.truncate)))
  {
  }

  /** The default configuration serializes with the layout it tries first. */
  lemma DefaultSerializesWithFirstLayout()
    ensures SerializeLayout(Time([], "", 0)) == Layouts(Time([], "", 0))[0] == RFC3339Nano
  {
  }

  /** What the lesser closure returns: strictly earlier, and false when either
      operand is not a time. */
  function Before(a: Value, b: Value): (r: bool)
    ensures r <==> a.Instant? && b.Instant? && a.nanos < b.nanos
  {
    if !a.Instant? then false
    else if !b.Instant? then false
    else a.nanos < b.nanos
  }

  /** Time.Lesser: a present comparator, so it may be called. */
  function Lesser(): (l: Capabilities.LesserFunc)
    ensures l.LesserFunc?
    ensures forall a, b :: Capabilities.Less(l, a, b) == Before(a, b)
  {
    Capabilities.LesserFunc((a, b) => Before(a, b))
  }

  /** Before is a strict order: irreflexive, asymmetric and transitive, and
      total on times. */
  lemma BeforeIsStrictOrder(a: Value, b: Value, c: Value)
    ensures !Before(a, a)
    ensures Before(a, b) ==> !Before(b, a)
    ensures Before(a, b) && Before(b, c) ==> Before(a, c)
    ensures a.Instant? && b.Instant? && a != b ==> Before(a, b) || Before(b, a)
  {
  }

  /** A mistyped operand makes Before false, in either position. */
  lemma BeforeFalseOnNonTime(a: Value, b: Value)
    requires !a.Instant? || !b.Instant?
    ensures !Before(a, b) && !Before(b, a)
  {
  }

  /** Time.Doc: a string document with format date-time carrying the schema
      unchanged, every other string field left out. */
  function Doc(s: Schemas.Schema): (d: Docs.StringDoc)
    ensures d.schema == s
    ensures d.typeName == "string" && d.format == "date-time"
    ensures d.pattern == "" && d.minLength == "" && d.maxLength == ""
  {
    Docs.StringDoc(s, Docs.TypeString, Docs.FormatDateTime, "", "", "")
  }

  /** Time as a Type: its parser, validator and serializer are the closures above. */
  function AsType(t: Time, lib: TimeLib): (ty: Capabilities.Type)
    ensures forall x :: Capabilities.Parse(ty.parser, x) == ParseTime(t, lib, x)
    ensures forall x, o :: Capabilities.Validate(ty.validator, x, o) == ValidateTime(x, o)
    ensures forall x :: Capabilities.Serialize(ty.serializer, x) == SerializeTime(t, lib, x)
  {
    Capabilities.Type(Parser(t, lib), Validator(), Serializer(t, lib))
  }

  /** A read-only time field: a changed time is refused with CreateOnly, an
      unchanged one accepted, and an envelope holding a non-time is handed to
      the time validator, which refuses it. */
  lemma ReadOnlyTimeField(t: Time, lib: TimeLib, a: int, b: int, original: Value)
    ensures var v := Schemas.Validate(Schemas.Schema(Some(AsType(t, lib)), Nil, "", "", true, false, false));
      && (a != b ==> Capabilities.Validate(v, Instant(a), Instant(b)) == Fail(Sentinel(CreateOnly)))
      && Capabilities.Validate(v, Instant(a), Instant(a)) == Ok(Instant(a))
      && Capabilities.Validate(v, SkipReadOnly(Instant(a)), original) == Ok(Instant(a))
      && Capabilities.Validate(v, SkipReadOnly(Nil), original) == Fail(Sentinel(NotGoTime))
  {
  }
}
