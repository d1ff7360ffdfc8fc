/** Snak decoding (`ClaimValueData::parse_snak` in src/entity.rs): a snak's
    JSON object to the value it carries. A Rust `panic!`/`expect` is `Panic`,
    a returned `None` is `Fail`. */
module Snaks {
  import opened Wrappers
  import opened Strings
  import opened Floats
  import opened Json
  import opened Ids
  import opened WbTime

  /** The data of a claim value: one variant per Wikibase value kind, plus
      "no value" and "unknown value". */
  datatype ClaimValueData =
    | CommonsMedia(s: string)
    | GlobeCoordinate(lat: Float, lon: Float, precision: Float, globe: Qid)
    | Item(qid: Qid)
    | Property(pid: Pid)
    | Stringg(s: string)
    | MonolingualText(text: string, lang: string)
    | ExternalID(s: string)
    | Quantity(amount: Float, lowerBound: Option<Float>, upperBound: Option<Float>, unit: Option<Qid>)
    | DateTime(dateTime: Instant, timePrecision: u8)
    | Url(s: string)
    | MathExpr(s: string)
    | GeoShape(s: string)
    | MusicNotation(s: string)
    | TabularData(s: string)
    | Lexeme(lid: Lid)
    | Form(fid: Fid)
    | Sense(sid: Sid)
    | NoValue
    | UnknownValue

  /** `Default for ClaimValueData`. */
  const DefaultClaimValueData: ClaimValueData := NoValue

  /** The variants that carry a plain string, each tied to one datatype name. */
  predicate IsStringKind(d: ClaimValueData) {
    d.CommonsMedia? || d.Stringg? || d.ExternalID? || d.Url? || d.MathExpr?
    || d.GeoShape? || d.MusicNotation? || d.TabularData?
  }

  // ---------------------------------------------------------------------------
  // Field helpers

  /** `parse_wb_number`: a JSON number as it is, a JSON string through Rust's
      `f64` parser (`parseF64`, a parameter: decimal-to-binary conversion is
      not modelled), anything else `None`. */
  function ParseWbNumber(parseF64: string -> Option<Float>, num: JsonValue): (r: Option<Float>)
    ensures num.Number? ==> r == Some(num.num)
    ensures num.String? ==> r == parseF64(num.str)
    ensures !num.Number? && !num.String? ==> r == None
  {
    if num.Number? then Some(num.num)
    else if num.String? then parseF64(num.str)
    else None
  }

  const EntityIriPrefix: string := "http://www.wikidata.org/entity/Q"

  /** `try_get_as_qid`: the text after the first occurrence of the entity IRI
      prefix (up to any second occurrence) parsed as a `u64`. */
  function TryGetAsQid(v: JsonValue): (r: Option<Qid>)
    ensures r.Some? ==> v.String? && exists i: nat :: OccursAt(v.str, EntityIriPrefix, i)
  {
    if !v.String? then None
    else
      match SplitSecond(v.str, EntityIriPrefix)
      case None => None
      case Some(tail) =>
        match ParseU64(tail)
        case None => None
        case Some(n) => Some(Qid(n))
  }

  /** The IRI of an item. */
  function ItemIri(q: Qid): string {
    EntityIriPrefix + NatToString(q.n)
  }

  /** An item's IRI reads back as the item. */
  lemma ItemIriRoundTrip(q: Qid)
    ensures TryGetAsQid(String(ItemIri(q))) == Some(q)
  {
    var digits := NatToString(q.n);
    assert EntityIriPrefix[0] !in digits by {
      assert !IsDigit(EntityIriPrefix[0]);
    }
    SplitSecondAfterPrefix(EntityIriPrefix, digits);
    ParseNatToString(q.n, U64Bound);
  }

  /** Wikibase writes "no unit" as the string `1`, which is not an item. */
  lemma NoUnitIsNotAnItem()
    ensures TryGetAsQid(String("1")) == None
  {
    assert SplitSecond("1", EntityIriPrefix) == None by {
      assert forall j: nat :: !OccursAt("1", EntityIriPrefix, j);
    }
  }

  /** The string datavalue's variant, chosen by the property's datatype;
      `None` for a datatype the crate does not know. */
  function StringDatatypeValue(dataType: string, s: string): (r: Option<ClaimValueData>)
    ensures r.Some? ==> IsStringKind(r.value) && r.value.s == s
  {
    if dataType == "string" then Some(Stringg(s))
    else if dataType == "commonsMedia" then Some(CommonsMedia(s))
    else if dataType == "external-id" then Some(ExternalID(s))
    else if dataType == "math" then Some(MathExpr(s))
    else if dataType == "geo-shape" then Some(GeoShape(s))
    else if dataType == "musical-notation" then Some(MusicNotation(s))
    else if dataType == "tabular-data" then Some(TabularData(s))
    else if dataType == "url" then Some(Url(s))
    else None
  }

  /** The Wikibase datatype of a value's property. "No value" and "unknown
      value" do not say, and the decoder does not look: any name serves. */
  function DatatypeName(d: ClaimValueData): string {
    match d
    case CommonsMedia(_) => "commonsMedia"
    case GlobeCoordinate(_, _, _, _) => "globe-coordinate"
    case Item(_) => "wikibase-item"
    case Property(_) => "wikibase-property"
    case Stringg(_) => "string"
    case MonolingualText(_, _) => "monolingualtext"
    case ExternalID(_) => "external-id"
    case Quantity(_, _, _, _) => "quantity"
    case DateTime(_, _) => "time"
    case Url(_) => "url"
    case MathExpr(_) => "math"
    case GeoShape(_) => "geo-shape"
    case MusicNotation(_) => "musical-notation"
    case TabularData(_) => "tabular-data"
    case Lexeme(_) => "wikibase-lexeme"
    case Form(_) => "wikibase-form"
    case Sense(_) => "wikibase-sense"
    // A `novalue` or `somevalue` snak still needs a string `datatype` to
    // decode, but `ParseSnak` reads nothing else from it: "string" is only
    // the encoder's pick, and the round trip holds for any other name.
    case NoValue => "string"
    case UnknownValue => "string"
  }

  /** The string variants are exactly what their datatype names decode to. */
  lemma StringDatatypeBijection(dataType: string, s: string, d: ClaimValueData)
    ensures IsStringKind(d) ==> StringDatatypeValue(DatatypeName(d), d.s) == Some(d)
    ensures StringDatatypeValue(dataType, s) == Some(d) ==> DatatypeName(d) == dataType && d.s == s
  {
  }

  // ---------------------------------------------------------------------------
  // Entity ids

  /** The `wikibase-entityid` branch: the id's first char picks the kind; a
      lexeme id is split on `-` into the lexeme and at most one form or sense.
      Every malformed id panics. */
  function EntityIdValue(id: string): (r: Outcome<ClaimValueData>)
    ensures !r.Fail?
    ensures r.Ok? ==> r.value.Item? || r.value.Property? || r.value.Lexeme? || r.value.Form? || r.value.Sense?
  {
    if |id| == 0 then Panic
    else if id[0] == 'Q' then
      match ParseU64(id[1..])
      case Some(n) => Ok(Item(Qid(n)))
      case None => Panic
    else if id[0] == 'P' then
      match ParseU64(id[1..])
      case Some(n) => Ok(Property(Pid(n)))
      case None => Panic
    else if id[0] == 'L' then LexemeIdValue(id)
    else Panic
  }

  /** A form (`F`) or sense (`S`) of lexeme `l`. */
  function SubIdValue(kind: char, l: u64, m: u16): ClaimValueData {
    if kind == 'F' then Form(Fid(Lid(l), m)) else Sense(Sid(Lid(l), m))
  }

  /** The lexeme case of the entity-id branch: one dash-free piece is a
      lexeme, two pieces a form or sense, anything else panics. */
  function LexemeIdValue(id: string): (r: Outcome<ClaimValueData>)
    requires |id| > 0 && id[0] == 'L'
    ensures !r.Fail?
    ensures r.Ok? ==> r.value.Lexeme? || r.value.Form? || r.value.Sense?
  {
    var parts := Split(id, '-');
    if |parts| == 1 then
      match ParseU64(id[1..])
      case Some(n) => Ok(Lexeme(Lid(n)))
      case None => Panic
    else if |parts| == 2 then
      if |parts[1]| == 0 then Panic
      else if parts[1][0] == 'F' || parts[1][0] == 'S' then
        match ParseU64(parts[0][1..])
        case None => Panic
        case Some(l) =>
          match ParseU16(parts[1][1..])
          case None => Panic
          case Some(m) => Ok(SubIdValue(parts[1][0], l, m))
      else Panic
    else Panic
  }

  /** The decoder's entity-id branch accepts exactly the ids the identifier
      parsers of src/ids.rs accept, and gives the same ids. */
  lemma EntityIdAgreesWithIds(id: string)
    ensures ParseQid(id).Success? <==> EntityIdValue(id).Ok? && EntityIdValue(id).value.Item?
    ensures ParseQid(id).Success? ==> EntityIdValue(id) == Ok(Item(ParseQid(id).value))
    ensures ParsePid(id).Success? <==> EntityIdValue(id).Ok? && EntityIdValue(id).value.Property?
    ensures ParsePid(id).Success? ==> EntityIdValue(id) == Ok(Property(ParsePid(id).value))
    ensures ParseLid(id).Success? <==> EntityIdValue(id).Ok? && EntityIdValue(id).value.Lexeme?
    ensures ParseLid(id).Success? ==> EntityIdValue(id) == Ok(Lexeme(ParseLid(id).value))
    ensures ParseFid(id).Success? <==> EntityIdValue(id).Ok? && EntityIdValue(id).value.Form?
    ensures ParseFid(id).Success? ==> EntityIdValue(id) == Ok(Form(ParseFid(id).value))
    ensures ParseSid(id).Success? <==> EntityIdValue(id).Ok? && EntityIdValue(id).value.Sense?
    ensures ParseSid(id).Success? ==> EntityIdValue(id) == Ok(Sense(ParseSid(id).value))
  {
    if |id| > 0 && id[0] == 'L' {
      LexemeIdAgrees(id);
    }
  }

  lemma LexemeIdAgrees(id: string)
    requires |id| > 0 && id[0] == 'L'
    ensures ParseLid(id).Success? <==> EntityIdValue(id).Ok? && EntityIdValue(id).value.Lexeme?
    ensures ParseLid(id).Success? ==> EntityIdValue(id) == Ok(Lexeme(ParseLid(id).value))
    ensures ParseFid(id).Success? <==> EntityIdValue(id).Ok? && EntityIdValue(id).value.Form?
    ensures ParseFid(id).Success? ==> EntityIdValue(id) == Ok(Form(ParseFid(id).value))
    ensures ParseSid(id).Success? <==> EntityIdValue(id).Ok? && EntityIdValue(id).value.Sense?
    ensures ParseSid(id).Success? ==> EntityIdValue(id) == Ok(Sense(ParseSid(id).value))
  {
    assert EntityIdValue(id) == LexemeIdValue(id);
    LidAgrees(id);
    FidAgrees(id);
    SidAgrees(id);
  }

  lemma LidAgrees(id: string)
    requires |id| > 0 && id[0] == 'L'
    ensures ParseLid(id).Success? <==> LexemeIdValue(id).Ok? && LexemeIdValue(id).value.Lexeme?
    ensures ParseLid(id).Success? ==> LexemeIdValue(id) == Ok(Lexeme(ParseLid(id).value))
  {
    LexemePieces(id);
    if '-' in id[1..] {
      LetteredRejectsDash(id, 'L');
    }
  }

  lemma FidAgrees(id: string)
    requires |id| > 0 && id[0] == 'L'
    ensures ParseFid(id).Success? <==> LexemeIdValue(id).Ok? && LexemeIdValue(id).value.Form?
    ensures ParseFid(id).Success? ==> LexemeIdValue(id) == Ok(Form(ParseFid(id).value))
  {
    LexemePieces(id);
    if '-' in id[1..] {
      SubIdAgrees(id, 'F');
    }
  }

  lemma SidAgrees(id: string)
    requires |id| > 0 && id[0] == 'L'
    ensures ParseSid(id).Success? <==> LexemeIdValue(id).Ok? && LexemeIdValue(id).value.Sense?
    ensures ParseSid(id).Success? ==> LexemeIdValue(id) == Ok(Sense(ParseSid(id).value))
  {
    LexemePieces(id);
    if '-' in id[1..] {
      SubIdAgrees(id, 'S');
    }
  }

  /** `id.split('-')` against `id[1..].split('-')`: the same pieces, the first
      one with the `L` in front. */
  lemma LexemePieces(id: string)
    requires |id| > 0 && id[0] == 'L'
    ensures |Split(id, '-')| == |Split(id[1..], '-')|
    ensures Split(id, '-')[0][1..] == Split(id[1..], '-')[0]
    ensures |Split(id, '-')| >= 2 ==> Split(id, '-')[1] == Split(id[1..], '-')[1]
    ensures |Split(id, '-')| == 1 <==> '-' !in id[1..]
  {
    var rest := Split(id[1..], '-');
    var parts := Split(id, '-');
    JoinSplit(id[1..], '-');
    assert id == [id[0]] + id[1..];
    assert parts == [[id[0]] + rest[0]] + rest[1..];
    if |rest| == 1 {
      assert id[1..] == rest[0];
    } else {
      assert id[1..] == rest[0] + ['-'] + Join(rest[1..], '-');
      assert id[1..][|rest[0]|] == '-';
    }
  }

  /** With a dash after the `L`, the decoder's form/sense branch and the
      sub-id parser with kind letter `letter` agree. */
  lemma SubIdAgrees(id: string, letter: char)
    requires |id| > 0 && id[0] == 'L' && '-' in id[1..]
    requires letter == 'F' || letter == 'S'
    ensures ParseLexemeSubId(id, letter).Success? ==>
      LexemeIdValue(id) == Ok(SubIdValue(letter, ParseLexemeSubId(id, letter).value.0, ParseLexemeSubId(id, letter).value.1))
    ensures LexemeIdValue(id).Ok? && ((letter == 'F' && LexemeIdValue(id).value.Form?)
                                      || (letter == 'S' && LexemeIdValue(id).value.Sense?)) ==>
      ParseLexemeSubId(id, letter).Success?
  {
    LexemePieces(id);
    var rest := Split(id[1..], '-');
    var parts := Split(id, '-');
    assert |parts| >= 2;
    if |parts| == 2 && |parts[1]| > 0 && parts[1][0] == letter {
      assert rest[1] == parts[1];
      assert rest[0] == parts[0][1..];
    }
  }

  // ---------------------------------------------------------------------------
  // The decoder

  /** The Wikibase datavalue type a variant is decoded from. */
  function ValueType(d: ClaimValueData): string {
    match d
    case CommonsMedia(_) | Stringg(_) | ExternalID(_) | Url(_) | MathExpr(_)
       | GeoShape(_) | MusicNotation(_) | TabularData(_) => "string"
    case Item(_) | Property(_) | Lexeme(_) | Form(_) | Sense(_) => "wikibase-entityid"
    case GlobeCoordinate(_, _, _, _) => "globecoordinate"
    case Quantity(_, _, _, _) => "quantity"
    case DateTime(_, _) => "time"
    case MonolingualText(_, _) => "monolingualtext"
    case NoValue | UnknownValue => ""
  }

  /** Which datavalue type each kind of value comes from. */
  lemma ValueTypeByKind(d: ClaimValueData)
    ensures IsStringKind(d) ==> ValueType(d) == "string"
    ensures d.Item? || d.Property? || d.Lexeme? || d.Form? || d.Sense? ==> ValueType(d) == "wikibase-entityid"
    ensures d.GlobeCoordinate? ==> ValueType(d) == "globecoordinate"
    ensures d.Quantity? ==> ValueType(d) == "quantity"
    ensures d.DateTime? ==> ValueType(d) == "time"
    ensures d.MonolingualText? ==> ValueType(d) == "monolingualtext"
    ensures d.NoValue? || d.UnknownValue? ==> ValueType(d) == ""
  {
  }

  /** A `string` datavalue: the value must be a string, and the property's
      datatype must be one the crate knows. */
  function StringDatavalue(dataType: string, value: JsonValue): (r: Outcome<ClaimValueData>)
    ensures r.Panic? <==> !value.String?
    ensures r.Ok? <==> value.String? && StringDatatypeValue(dataType, value.str).Some?
    ensures r.Ok? ==> IsStringKind(r.value) && r.value.s == value.str && DatatypeName(r.value) == dataType
    ensures r.Ok? ==> ValueType(r.value) == "string"
  {
    if !value.String? then Panic
    else
      match StringDatatypeValue(dataType, value.str)
      case Some(d) =>
        StringDatatypeBijection(dataType, value.str, d);
        Ok(d)
      case None => Fail
  }

  /** A `wikibase-entityid` datavalue: its `id` must be a string. */
  function EntityIdDatavalue(value: JsonValue): (r: Outcome<ClaimValueData>)
    ensures !r.Fail?
    ensures !TakeProp("id", value).String? ==> r.Panic?
    ensures r.Ok? ==> r.value.Item? || r.value.Property? || r.value.Lexeme? || r.value.Form? || r.value.Sense?
    ensures r.Ok? ==> ValueType(r.value) == "wikibase-entityid"
    ensures TakeProp("id", value).String? ==> r == EntityIdValue(TakeProp("id", value).str)
  {
    var id := TakeProp("id", value);
    if !id.String? then Panic
    else
      var r := EntityIdValue(id.str);
      if r.Ok? then ValueTypeByKind(r.value); r else r
  }

  /** A `globecoordinate` datavalue: every one of latitude, longitude,
      precision and globe must be present and readable, and none panics. */
  function GlobeDatavalue(parseF64: string -> Option<Float>, value: JsonValue): (r: Outcome<ClaimValueData>)
    ensures !r.Panic?
    ensures r.Ok? <==> ParseWbNumber(parseF64, TakeProp("latitude", value)).Some?
                       && ParseWbNumber(parseF64, TakeProp("longitude", value)).Some?
                       && ParseWbNumber(parseF64, TakeProp("precision", value)).Some?
                       && TryGetAsQid(TakeProp("globe", value)).Some?
    ensures r.Ok? ==> r.value.GlobeCoordinate? && ValueType(r.value) == "globecoordinate"
    ensures r.Ok? ==> r.value.lat == ParseWbNumber(parseF64, TakeProp("latitude", value)).value
    ensures r.Ok? ==> r.value.lon == ParseWbNumber(parseF64, TakeProp("longitude", value)).value
    ensures r.Ok? ==> r.value.precision == ParseWbNumber(parseF64, TakeProp("precision", value)).value
    ensures r.Ok? ==> r.value.globe == TryGetAsQid(TakeProp("globe", value)).value
  {
    var lat := ParseWbNumber(parseF64, TakeProp("latitude", value));
    var lon := ParseWbNumber(parseF64, TakeProp("longitude", value));
    var precision := ParseWbNumber(parseF64, TakeProp("precision", value));
    var globe := TryGetAsQid(TakeProp("globe", value));
    if lat.Some? && lon.Some? && precision.Some? && globe.Some? then
      Ok(GlobeCoordinate(lat.value, lon.value, precision.value, globe.value))
    else Fail
  }

  /** A `quantity` datavalue: only the amount is required; the bounds and
      the unit are kept when readable and dropped otherwise. */
  function QuantityDatavalue(parseF64: string -> Option<Float>, value: JsonValue): (r: Outcome<ClaimValueData>)
    ensures !r.Panic?
    ensures r.Ok? <==> ParseWbNumber(parseF64, TakeProp("amount", value)).Some?
    ensures r.Ok? ==> r.value.Quantity? && r.value.unit == TryGetAsQid(TakeProp("unit", value))
    ensures r.Ok? ==> ValueType(r.value) == "quantity"
    ensures r.Ok? ==> r.value.amount == ParseWbNumber(parseF64, TakeProp("amount", value)).value
    ensures r.Ok? ==> r.value.lowerBound == ParseWbNumber(parseF64, TakeProp("lowerBound", value))
    ensures r.Ok? ==> r.value.upperBound == ParseWbNumber(parseF64, TakeProp("upperBound", value))
  {
    match ParseWbNumber(parseF64, TakeProp("amount", value))
    case None => Fail
    case Some(amount) =>
      Ok(Quantity(amount,
                  ParseWbNumber(parseF64, TakeProp("lowerBound", value)),
                  ParseWbNumber(parseF64, TakeProp("upperBound", value)),
                  TryGetAsQid(TakeProp("unit", value))))
  }

  /** A `time` datavalue: the time string must be present; a date the
      parser rejects drops the value, and only then must the precision be
      readable. */
  function TimeDatavalue(parseF64: string -> Option<Float>, value: JsonValue): (r: Outcome<ClaimValueData>)
    ensures !TakeProp("time", value).String? ==> r.Panic?
    ensures TakeProp("time", value).String? && ParseWbTime(TakeProp("time", value).str).Fail? ==> r == Fail
    ensures r.Ok? ==> r.value.DateTime? && TakeProp("time", value).String?
                      && ParseWbTime(TakeProp("time", value).str) == Ok(r.value.dateTime)
                      && ValidInstant(r.value.dateTime)
    ensures r.Ok? ==> ParseWbNumber(parseF64, TakeProp("precision", value)).Some?
    ensures r.Ok? ==> ValueType(r.value) == "time"
    ensures r.Ok? ==> r.value.timePrecision == F64ToU8(ParseWbNumber(parseF64, TakeProp("precision", value)).value)
    ensures TakeProp("time", value).String? && ParseWbTime(TakeProp("time", value).str).Panic? ==> r == Panic
    ensures (TakeProp("time", value).String? && ParseWbTime(TakeProp("time", value).str).Ok?
             && ParseWbNumber(parseF64, TakeProp("precision", value)).None?) ==> r == Panic
    ensures r.Ok? <==> TakeProp("time", value).String? && ParseWbTime(TakeProp("time", value).str).Ok?
                       && ParseWbNumber(parseF64, TakeProp("precision", value)).Some?
  {
    var time := TakeProp("time", value);
    if !time.String? then Panic
    else
      match ParseWbTime(time.str)
      case Panic => Panic
      case Fail => Fail
      case Ok(instant) =>
        match ParseWbNumber(parseF64, TakeProp("precision", value))
        case None => Panic
        case Some(precision) =>
          var d := DateTime(instant, F64ToU8(precision));
          ValueTypeByKind(d);
          Ok(d)
  }

  /** A `monolingualtext` datavalue: text and language must both be strings. */
  function MonolingualDatavalue(value: JsonValue): (r: Outcome<ClaimValueData>)
    ensures !r.Fail?
    ensures r.Ok? <==> TakeProp("text", value).String? && TakeProp("language", value).String?
    ensures r.Ok? ==> r.value.MonolingualText? && ValueType(r.value) == "monolingualtext"
    ensures r.Ok? ==> r.value.text == TakeProp("text", value).str && r.value.lang == TakeProp("language", value).str
  {
    var text := TakeProp("text", value);
    var lang := TakeProp("language", value);
    if !text.String? || !lang.String? then Panic
    else Ok(MonolingualText(text.str, lang.str))
  }

  /** The datavalue types the crate decodes. */
  predicate KnownValueType(typ: string) {
    typ == "string" || typ == "wikibase-entityid" || typ == "globecoordinate"
    || typ == "quantity" || typ == "time" || typ == "monolingualtext"
  }

  /** The `value` of a datavalue of type `typ`, decoded; an unknown type drops
      the value. Only `string` needs the property's datatype. */
  function ParseDatavalue(parseF64: string -> Option<Float>, dataType: string, typ: string, value: JsonValue)
    : (r: Outcome<ClaimValueData>)
    ensures r.Ok? ==> ValueType(r.value) == typ && !r.value.NoValue? && !r.value.UnknownValue?
    ensures !KnownValueType(typ) ==> r == Fail
    ensures typ == "string" ==> r == StringDatavalue(dataType, value)
    ensures typ == "wikibase-entityid" ==> r == EntityIdDatavalue(value)
    ensures typ == "globecoordinate" ==> r == GlobeDatavalue(parseF64, value)
    ensures typ == "quantity" ==> r == QuantityDatavalue(parseF64, value)
    ensures typ == "time" ==> r == TimeDatavalue(parseF64, value)
    ensures typ == "monolingualtext" ==> r == MonolingualDatavalue(value)
  {
    if typ == "string" then StringDatavalue(dataType, value)
    else if typ == "wikibase-entityid" then EntityIdDatavalue(value)
    else if typ == "globecoordinate" then GlobeDatavalue(parseF64, value)
    else if typ == "quantity" then QuantityDatavalue(parseF64, value)
    else if typ == "time" then TimeDatavalue(parseF64, value)
    else if typ == "monolingualtext" then MonolingualDatavalue(value)
    else Fail
  }

  /** `parse_snak`. The datatype and the snak type must be strings;
      `somevalue` and `novalue` need nothing else; `value` decodes the
      datavalue by its `type`; any other snak type panics. */
  function ParseSnak(parseF64: string -> Option<Float>, snak: JsonValue): (r: Outcome<ClaimValueData>)
    ensures !TakeProp("datatype", snak).String? || !TakeProp("snaktype", snak).String? ==> r == Panic
    ensures r == Ok(UnknownValue) <==>
      TakeProp("datatype", snak).String? && TakeProp("snaktype", snak) == String("somevalue")
    ensures r == Ok(NoValue) <==>
      TakeProp("datatype", snak).String? && TakeProp("snaktype", snak) == String("novalue")
    ensures (TakeProp("snaktype", snak).String?
             && TakeProp("snaktype", snak).str !in {"value", "somevalue", "novalue"}) ==> r == Panic
    ensures r.Ok? && TakeProp("snaktype", snak) == String("value") ==>
      TakeProp("type", TakeProp("datavalue", snak)) == String(ValueType(r.value))
    ensures TakeProp("datatype", snak).String? && TakeProp("snaktype", snak) == String("value") ==>
      var dv := TakeProp("datavalue", snak);
      var t := TakeProp("type", dv);
      r == if !t.String? then Panic
           else ParseDatavalue(parseF64, TakeProp("datatype", snak).str, t.str, TakeProp("value", dv))
  {
    var datavalue := TakeProp("datavalue", snak);
    var dataType := TakeProp("datatype", snak);
    var snaktype := TakeProp("snaktype", snak);
    if !dataType.String? || !snaktype.String? then Panic
    else if snaktype.str == "somevalue" then Ok(UnknownValue)
    else if snaktype.str == "novalue" then Ok(NoValue)
    else if snaktype.str != "value" then Panic
    else
      var typ := TakeProp("type", datavalue);
      if !typ.String? then Panic
      else ParseDatavalue(parseF64, dataType.str, typ.str, TakeProp("value", datavalue))
  }

  // ---------------------------------------------------------------------------
  // The encoding the decoder reads back

  /** Values the Wikibase JSON form can carry: a date-time must be one chrono
      can hold. */
  predicate Encodable(d: ClaimValueData) {
    d.DateTime? ==> ValidInstant(d.dateTime)
  }

  function EncodeNumber(f: Option<Float>): JsonValue {
    match f
    case Some(x) => Number(x)
    case None => Null
  }

  function EncodeUnit(unit: Option<Qid>): JsonValue {
    match unit
    case Some(q) => String(ItemIri(q))
    case None => String("1")
  }

  function EntityIdString(d: ClaimValueData): string
    requires d.Item? || d.Property? || d.Lexeme? || d.Form? || d.Sense?
  {
    match d
    case Item(q) => QidString(q)
    case Property(p) => PidString(p)
    case Lexeme(l) => LidString(l)
    case Form(f) => FidString(f)
    case Sense(s) => SidString(s)
  }

  /** The `value` member of a datavalue in Wikibase JSON. */
  function EncodeValue(d: ClaimValueData): JsonValue
    requires Encodable(d) && ValueType(d) != ""
  {
    if IsStringKind(d) then String(d.s)
    else if ValueType(d) == "wikibase-entityid" then
      Object([("id", String(EntityIdString(d)))])
    else
      match d
      case GlobeCoordinate(lat, lon, precision, globe) =>
        Object([("latitude", Number(lat)), ("longitude", Number(lon)),
                ("precision", Number(precision)), ("globe", String(ItemIri(globe)))])
      case Quantity(amount, lower, upper, unit) =>
        Object([("amount", Number(amount)), ("upperBound", EncodeNumber(upper)),
                ("lowerBound", EncodeNumber(lower)), ("unit", EncodeUnit(unit))])
      case DateTime(instant, precision) =>
        Object([("time", String(FormatWbTime(instant))), ("precision", Number(U8ToF64(precision)))])
      case MonolingualText(text, lang) =>
        Object([("text", String(text)), ("language", String(lang))])
  }

  /** A `value` snak of the given datatype holding a datavalue of type `typ`. */
  function ValueSnak(dataType: string, typ: string, value: JsonValue): JsonValue {
    var datavalue := Object([("value", value), ("type", String(typ))]);
    Object([("snaktype", String("value")), ("datatype", String(dataType)), ("datavalue", datavalue)])
  }

  /** A snak in Wikibase JSON holding `d`. */
  function EncodeSnak(d: ClaimValueData): JsonValue
    requires Encodable(d)
  {
    if d.NoValue? then
      Object([("snaktype", String("novalue")), ("datatype", String(DatatypeName(d)))])
    else if d.UnknownValue? then
      Object([("snaktype", String("somevalue")), ("datatype", String(DatatypeName(d)))])
    else
      ValueSnak(DatatypeName(d), ValueType(d), EncodeValue(d))
  }

  /** A `value` snak in the encoder's three-entry layout decodes exactly as
      its datavalue. */
  lemma ValueSnakDecodes(parseF64: string -> Option<Float>, dataType: string, typ: string, value: JsonValue)
    ensures ParseSnak(parseF64, ValueSnak(dataType, typ, value)) == ParseDatavalue(parseF64, dataType, typ, value)
  {
    ValueSnakFields(dataType, typ, value);
  }

  lemma ValueSnakFields(dataType: string, typ: string, value: JsonValue)
    ensures TakeProp("snaktype", ValueSnak(dataType, typ, value)) == String("value")
    ensures TakeProp("datatype", ValueSnak(dataType, typ, value)) == String(dataType)
    ensures TakeProp("type", TakeProp("datavalue", ValueSnak(dataType, typ, value))) == String(typ)
    ensures TakeProp("value", TakeProp("datavalue", ValueSnak(dataType, typ, value))) == value
  {
    var ms := ValueSnak(dataType, typ, value).members;
    LookupEarliest(ms, 0);
    LookupEarliest(ms, 1);
    LookupEarliest(ms, 2);
    var dv := ms[2].1.members;
    LookupEarliest(dv, 0);
    LookupEarliest(dv, 1);
  }

  /** The value of an encoded datavalue decodes to what was encoded. */
  lemma DatavalueRoundTrip(parseF64: string -> Option<Float>, d: ClaimValueData)
    requires Encodable(d) && ValueType(d) != ""
    ensures ParseDatavalue(parseF64, DatatypeName(d), ValueType(d), EncodeValue(d)) == Ok(d)
  {
    if IsStringKind(d) {
      StringValueRoundTrip(parseF64, d);
    } else if ValueType(d) == "wikibase-entityid" {
      EntityIdValueRoundTrip(parseF64, d);
    } else if d.GlobeCoordinate? {
      GlobeRoundTrip(parseF64, d.lat, d.lon, d.precision, d.globe);
    } else if d.Quantity? {
      QuantityRoundTrip(parseF64, d.amount, d.lowerBound, d.upperBound, d.unit);
    } else if d.DateTime? {
      TimeRoundTrip(parseF64, d.dateTime, d.timePrecision);
    } else {
      assert d.MonolingualText?;
      MonolingualRoundTrip(d.text, d.lang);
    }
  }

  lemma StringValueRoundTrip(parseF64: string -> Option<Float>, d: ClaimValueData)
    requires IsStringKind(d)
    ensures ParseDatavalue(parseF64, DatatypeName(d), "string", String(d.s)) == Ok(d)
  {
    StringDatatypeBijection(DatatypeName(d), d.s, d);
  }

  lemma EntityIdValueRoundTrip(parseF64: string -> Option<Float>, d: ClaimValueData)
    requires d.Item? || d.Property? || d.Lexeme? || d.Form? || d.Sense?
    ensures ParseDatavalue(parseF64, DatatypeName(d), "wikibase-entityid", Object([("id", String(EntityIdString(d)))])) == Ok(d)
  {
    EntityIdRoundTrip(d);
  }

  lemma GlobeRoundTrip(parseF64: string -> Option<Float>, lat: Float, lon: Float, precision: Float, globe: Qid)
    ensures GlobeDatavalue(parseF64, Object([("latitude", Number(lat)), ("longitude", Number(lon)),
                                             ("precision", Number(precision)), ("globe", String(ItemIri(globe)))]))
            == Ok(GlobeCoordinate(lat, lon, precision, globe))
  {
    var ms := [("latitude", Number(lat)), ("longitude", Number(lon)),
               ("precision", Number(precision)), ("globe", String(ItemIri(globe)))];
    LookupEarliest(ms, 0);
    LookupEarliest(ms, 1);
    LookupEarliest(ms, 2);
    LookupEarliest(ms, 3);
    ItemIriRoundTrip(globe);
  }

  lemma QuantityRoundTrip(parseF64: string -> Option<Float>, amount: Float, lower: Option<Float>,
                          upper: Option<Float>, unit: Option<Qid>)
    ensures QuantityDatavalue(parseF64, Object([("amount", Number(amount)), ("upperBound", EncodeNumber(upper)),
                                                ("lowerBound", EncodeNumber(lower)), ("unit", EncodeUnit(unit))]))
            == Ok(Quantity(amount, lower, upper, unit))
  {
    var ms := [("amount", Number(amount)), ("upperBound", EncodeNumber(upper)),
               ("lowerBound", EncodeNumber(lower)), ("unit", EncodeUnit(unit))];
    LookupEarliest(ms, 0);
    LookupEarliest(ms, 1);
    LookupEarliest(ms, 2);
    LookupEarliest(ms, 3);
    if unit.Some? {
      ItemIriRoundTrip(unit.value);
    } else {
      NoUnitIsNotAnItem();
    }
    assert ParseWbNumber(parseF64, EncodeNumber(lower)) == lower;
    assert ParseWbNumber(parseF64, EncodeNumber(upper)) == upper;
  }

  lemma TimeRoundTrip(parseF64: string -> Option<Float>, instant: Instant, precision: u8)
    requires ValidInstant(instant)
    ensures TimeDatavalue(parseF64, Object([("time", String(FormatWbTime(instant))), ("precision", Number(U8ToF64(precision)))]))
            == Ok(DateTime(instant, precision))
  {
    var ms := [("time", String(FormatWbTime(instant))), ("precision", Number(U8ToF64(precision)))];
    LookupEarliest(ms, 0);
    LookupEarliest(ms, 1);
    ParseFormatRoundTrip(instant);
    CastRoundTrip(precision);
  }

  lemma MonolingualRoundTrip(text: string, lang: string)
    ensures MonolingualDatavalue(Object([("text", String(text)), ("language", String(lang))]))
            == Ok(MonolingualText(text, lang))
  {
    var ms := [("text", String(text)), ("language", String(lang))];
    LookupEarliest(ms, 0);
    LookupEarliest(ms, 1);
  }

  /** Every entity id reads back as itself through the entity-id branch. */
  lemma EntityIdRoundTrip(d: ClaimValueData)
    requires d.Item? || d.Property? || d.Lexeme? || d.Form? || d.Sense?
    ensures EntityIdValue(EntityIdString(d)) == Ok(d)
  {
    EntityIdAgreesWithIds(EntityIdString(d));
    match d
    case Item(q) => QidRoundTrip(q);
    case Property(p) => PidRoundTrip(p);
    case Lexeme(l) => LidRoundTrip(l);
    case Form(f) => FidRoundTrip(f);
    case Sense(s) => SidRoundTrip(s);
  }

  /** Decoding an encoded snak gives back its value, whatever the string-to-
      `f64` parser (the encoding writes numbers as JSON numbers). */
  lemma SnakRoundTrip(parseF64: string -> Option<Float>, d: ClaimValueData)
    requires Encodable(d)
    ensures ParseSnak(parseF64, EncodeSnak(d)) == Ok(d)
  {
    if d.NoValue? || d.UnknownValue? {
      var ms := EncodeSnak(d).members;
      LookupEarliest(ms, 0);
      LookupEarliest(ms, 1);
    } else {
      ValueSnakDecodes(parseF64, DatatypeName(d), ValueType(d), EncodeValue(d));
      DatavalueRoundTrip(parseF64, d);
    }
  }
}
