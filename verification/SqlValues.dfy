/** The value transforms of scripts/etl-pg-to-d1.ts: one Postgres value to one SQL literal. */
module SqlValues {
  import opened Wrappers

  predicate IsDigit(c: char) { '0' <= c <= '9' }

  predicate AllDigits(s: string) { forall i :: 0 <= i < |s| ==> IsDigit(s[i]) }

  /** The shape of `String(n)` for a finite number: `12`, `-0.5`, `1e+21`. */
  predicate IsNumeral(s: string)
  {
    && s != ""
    && (IsDigit(s[0]) || (s[0] == '-' && |s| > 1 && IsDigit(s[1])))
    && forall i :: 0 <= i < |s| ==> IsDigit(s[i]) || s[i] in ".e+-"
  }

  type Numeral = s: string | IsNumeral(s) witness "0"

  /** `toISOString` text: it never holds a quote. */
  predicate IsIsoText(s: string)
  {
    |s| >= 10 && forall i :: 0 <= i < |s| ==> IsDigit(s[i]) || s[i] in "+-:.TZ"
  }

  type IsoText = s: string | IsIsoText(s) witness "1970-01-01"

  /** A JavaScript number: its `String` text, and whether `Number.isSafeInteger` holds of it. */
  datatype JsNumber = NotFinite | Finite(text: Numeral, safeInteger: bool)

  /** A value as the Postgres driver delivers it; `undefined` counts as null. */
  datatype PgValue =
    | PgNull
    | PgNumber(number: JsNumber)
    | PgString(s: string)
    | PgBool(b: bool)
    | PgDate(iso: Option<IsoText>)  // None: an invalid Date
    | PgObject(json: string)        // an object or array, by its JSON.stringify text

  datatype ParsedJson = NotJson | JsonScalar | JsonComposite(text: string)

  /** The JavaScript coercions the transforms call, left uninterpreted. */
  datatype Coercions = Coercions(
    numberOf: PgValue -> JsNumber,        // Number(value)
    instantOf: string -> Option<IsoText>, // new Date(text).toISOString(), None when NaN
    parseJson: string -> ParsedJson)      // JSON.parse, composites by their canonical text

  datatype Kind = IntKind | FloatKind | NumericKind | TextKind | BooleanKind | TimestampKind | DateKind | JsonbKind

  /** `/^-?\d+(\.\d+)?$/`. */
  predicate PlainDecimal(s: string)
  {
    var body := if s != "" && s[0] == '-' then s[1..] else s;
    var dot := IndexOfDot(body);
    && dot > 0 && AllDigits(body[..dot])
    && (dot == |body| || (dot + 1 < |body| && AllDigits(body[dot + 1..])))
  }

  function IndexOfDot(s: string): (i: nat)
    ensures i <= |s| && (i < |s| ==> s[i] == '.')
  {
    if s == "" || s[0] == '.' then 0 else 1 + IndexOfDot(s[1..])
  }

  /** `/^\d{4}-\d{2}-\d{2}$/`. */
  predicate PlainDate(s: string)
  {
    |s| == 10 && s[4] == '-' && s[7] == '-' && AllDigits(s[..4]) && AllDigits(s[5..7]) && AllDigits(s[8..])
  }

  /** Plain dates are four digits, two and two, with hyphens between them. */
  lemma PlainDateIs(s: string)
    ensures PlainDate(s) <==> exists year: string, month: string, day: string ::
              |year| == 4 && |month| == 2 && |day| == 2 && AllDigits(year) && AllDigits(month) && AllDigits(day)
              && s == DateText(year, month, day)
  {
    if PlainDate(s) {
      assert s == DateText(s[..4], s[5..7], s[8..]);
    }
    forall year, month, day |
        |year| == 4 && |month| == 2 && |day| == 2 && AllDigits(year) && AllDigits(month) && AllDigits(day)
        && s == DateText(year, month, day)
      ensures PlainDate(s)
    {
      assert s[..4] == year && s[5..7] == month && s[8..] == day;
    }
  }

  function DateText(year: string, month: string, day: string): (s: string)
  {
    year + "-" + month + "-" + day
  }

  lemma PlainDecimalIsNumeral(s: string)
    requires PlainDecimal(s)
    ensures IsNumeral(s)
  {
    var offset := if s[0] == '-' then 1 else 0;
    var body := s[offset..];
    var dot := IndexOfDot(body);
    assert IsDigit(body[..dot][0]);
    forall i | 0 <= i < |s|
      ensures IsDigit(s[i]) || s[i] in ".e+-"
    {
      if offset <= i {
        assert s[i] == body[i - offset];
        if i - offset < dot {
          assert s[i] == body[..dot][i - offset];
        } else if i - offset > dot {
          assert s[i] == body[dot + 1..][i - offset - dot - 1];
        }
      }
    }
  }

  /** An optional minus, digits, and optionally a point and more digits. */
  function DecimalText(minus: bool, whole: string, fraction: string): (s: string)
  {
    (if minus then "-" else "") + (whole + if fraction == "" then "" else "." + fraction)
  }

  /** Exactly those texts are plain decimals. */
  lemma PlainDecimalIs(s: string)
    ensures PlainDecimal(s) <==> exists minus: bool, whole: string, fraction: string ::
              whole != "" && AllDigits(whole) && AllDigits(fraction) && s == DecimalText(minus, whole, fraction)
  {
    if PlainDecimal(s) {
      var minus := s != "" && s[0] == '-';
      var body := if minus then s[1..] else s;
      var dot := IndexOfDot(body);
      var whole := body[..dot];
      var fraction := if dot == |body| then "" else body[dot + 1..];
      assert body == whole + if fraction == "" then "" else "." + fraction;
      assert s == DecimalText(minus, whole, fraction);
    }
    forall minus, whole, fraction |
        whole != "" && AllDigits(whole) && AllDigits(fraction) && s == DecimalText(minus, whole, fraction)
      ensures PlainDecimal(s)
    {
      DecimalParts(minus, whole, fraction);
    }
  }

  lemma DecimalParts(minus: bool, whole: string, fraction: string)
    requires whole != "" && AllDigits(whole) && AllDigits(fraction)
    ensures PlainDecimal(DecimalText(minus, whole, fraction))
  {
    var tail := if fraction == "" then "" else "." + fraction;
    var s := DecimalText(minus, whole, fraction);
    var body := whole + tail;
    assert IsDigit(whole[0]);
    assert body[0] == whole[0];
    assert (if s[0] == '-' then s[1..] else s) == body;
    DotAfter(whole, tail);
    assert body[..|whole|] == whole;
    assert tail != "" ==> body[|whole| + 1..] == fraction;
  }

  lemma {:induction false} DotAfter(whole: string, tail: string)
    requires AllDigits(whole) && (tail == "" || tail[0] == '.')
    ensures IndexOfDot(whole + tail) == |whole|
  {
    if whole == "" {
      assert whole + tail == tail;
    } else {
      assert IsDigit(whole[0]) && (whole + tail)[0] == whole[0];
      assert (whole + tail)[1..] == whole[1..] + tail;
      DotAfter(whole[1..], tail);
    }
  }

  /** `value.replace(/'/g, "''")`. */
  function Escape(s: string): (e: string)
  {
    if s == "" then "" else (if s[0] == '\'' then "''" else [s[0]]) + Escape(s[1..])
  }

  function Quote(s: string): (literal: string) { "'" + s + "'" }

  /** `transformValue`: the SQL literal, or None where the source throws. */
  function TransformValue(js: Coercions, kind: Kind, value: PgValue): (sql: Option<string>)
  {
    if value.PgNull? then Some("NULL")
    else
      match kind
      case IntKind =>
        var n := if value.PgString? then js.numberOf(value) else NumberOnly(value);
        if n.Finite? && n.safeInteger then Some(n.text) else None
      case FloatKind =>
        var n := if value.PgNumber? then value.number else js.numberOf(value);
        if n.Finite? then Some(n.text) else None
      case NumericKind =>
        if value.PgNumber? then
          if value.number.Finite? && PlainDecimal(value.number.text) then Some(value.number.text) else None
        else if value.PgString? && PlainDecimal(value.s) then Some(value.s)
        else None
      case TextKind =>
        if value.PgString? then Some(Quote(Escape(value.s))) else None
      case BooleanKind =>
        if value.PgBool? then Some(if value.b then "1" else "0") else None
      case TimestampKind =>
        var iso := if value.PgDate? then value.iso else if value.PgString? then js.instantOf(value.s) else None;
        if iso.Some? then Some(Quote(iso.value)) else None
      case DateKind =>
        if value.PgDate? && value.iso.Some? then Some(Quote(value.iso.value[..10]))
        else if value.PgString? && PlainDate(value.s) then Some(Quote(value.s))
        else None
      case JsonbKind =>
        var text := JsonText(js, value);
        if text.Some? then Some(Quote(Escape(text.value))) else None
  }

  function NumberOnly(value: PgValue): (n: JsNumber)
  {
    if value.PgNumber? then value.number else NotFinite
  }

  /** The canonical JSON of a composite; a raw string is parsed first, a Date prints as a string. */
  function JsonText(js: Coercions, value: PgValue): (text: Option<string>)
  {
    match value
    case PgObject(json) => Some(json)
    case PgString(s) => (match js.parseJson(s) case JsonComposite(t) => Some(t) case _ => None)
    case PgDate(iso) => Some(if iso.Some? then "\"" + iso.value + "\"" else "null")
    case _ => None
  }

  /** A stored D1 value. A number is its numeral: no float rounding enters the comparison. */
  datatype D1Value = D1Null | D1Number(text: string) | D1Text(s: string)

  /**
   * The value a Postgres value means in D1 (design D2): null stays NULL, booleans are 0/1,
   * instants and dates are ISO text, jsonb is JSON text. None: it has no exact counterpart.
   */
  function Meaning(js: Coercions, kind: Kind, value: PgValue): (d: Option<D1Value>)
  {
    match (kind, value)
    case (_, PgNull) => Some(D1Null)
    case (TextKind, PgString(s)) => Some(D1Text(s))
    case (BooleanKind, PgBool(b)) => Some(D1Number(if b then "1" else "0"))
    case (IntKind, PgNumber(Finite(text, true))) => Some(D1Number(text))
    case (IntKind, PgString(_)) =>
      (match js.numberOf(value) case Finite(text, true) => Some(D1Number(text)) case _ => None)
    case (FloatKind, PgNumber(Finite(text, _))) => Some(D1Number(text))
    case (FloatKind, PgNumber(NotFinite)) => None
    case (FloatKind, _) =>
      (match js.numberOf(value) case Finite(text, _) => Some(D1Number(text)) case NotFinite => None)
    case (NumericKind, PgString(s)) => if PlainDecimal(s) then Some(D1Number(s)) else None
    case (NumericKind, PgNumber(Finite(text, _))) => if PlainDecimal(text) then Some(D1Number(text)) else None
    case (TimestampKind, PgDate(Some(iso))) => Some(D1Text(iso))
    case (TimestampKind, PgString(s)) => (match js.instantOf(s) case Some(iso) => Some(D1Text(iso)) case None => None)
    case (DateKind, PgDate(Some(iso))) => Some(D1Text(iso[..10]))
    case (DateKind, PgString(s)) => if PlainDate(s) then Some(D1Text(s)) else None
    case (JsonbKind, PgObject(json)) => Some(D1Text(json))
    case (JsonbKind, PgString(s)) =>
      (match js.parseJson(s) case JsonComposite(text) => Some(D1Text(text)) case _ => None)
    case (JsonbKind, PgDate(Some(iso))) => Some(D1Text("\"" + iso + "\""))
    case (JsonbKind, PgDate(None)) => Some(D1Text("null"))
    case _ => None
  }
}
