/** Claim decoding (`ClaimValue::get_prop_from_snak` in src/entity.rs): a
    statement's JSON object to its rank, main value, qualifiers, references
    and id. Qualifiers and references are property-keyed groups of snaks;
    a snak that does not decode is dropped, one that panics ends everything. */
module Claims {
  import opened Wrappers
  import opened Strings
  import opened Floats
  import opened Json
  import opened Ids
  import opened Snaks

  /** A statement rank. */
  datatype Rank = Deprecated | Normal | Preferred

  /** `Default for Rank`. */
  const DefaultRank: Rank := Normal

  /** The snaks of one reference, each with its property. */
  datatype ReferenceGroup = ReferenceGroup(claims: seq<(Pid, ClaimValueData)>)

  datatype ClaimValue = ClaimValue(
    data: ClaimValueData,
    rank: Rank,
    id: string,
    qualifiers: seq<(Pid, ClaimValueData)>,
    references: seq<ReferenceGroup>)

  /** `#[derive(Default)]` of `ClaimValue`. */
  const DefaultClaimValue: ClaimValue := ClaimValue(DefaultClaimValueData, DefaultRank, "", [], [])

  // ---------------------------------------------------------------------------
  // Property keys

  /** `Pid(pid[1..].parse().expect(..))` on a qualifier or reference key: the
      first char is dropped unchecked (panicking when byte 1 is not a char
      boundary) and the rest must parse as a `u64`. */
  function KeyPid(key: string): (r: Outcome<Pid>)
    ensures !r.Fail?
    ensures r.Ok? <==> |key| > 0 && Utf8Len(key[0]) == 1 && ParseU64(key[1..]).Some?
  {
    if |key| == 0 || Utf8Len(key[0]) != 1 then Panic
    else
      match ParseU64(key[1..])
      case Some(n) => Ok(Pid(n))
      case None => Panic
  }

  /** On keys that start with `P`, reading a key is the property-id parser,
      with its errors turned into panics. */
  lemma KeyPidIsParsePid(key: string)
    requires |key| > 0 && key[0] == 'P'
    ensures KeyPid(key).Ok? <==> ParsePid(key).Success?
    ensures KeyPid(key).Ok? ==> KeyPid(key).value == ParsePid(key).value
  {
  }

  /** The first letter is never looked at: any one-byte char will do. */
  lemma KeyLetterUnchecked(letter: char, p: Pid)
    requires Utf8Len(letter) == 1
    ensures KeyPid([letter] + NatToString(p.n)) == Ok(p)
  {
    assert ([letter] + NatToString(p.n))[1..] == NatToString(p.n);
    ParseNatToString(p.n, U64Bound);
  }

  // ---------------------------------------------------------------------------
  // Keyed snaks, flat

  /** A snak decoder. Qualifiers and references are read with `parse_snak`;
      the loops around it are stated for any decoder, so that their
      properties do not depend on how a single snak is read. */
  type SnakDecoder = JsonValue -> Outcome<ClaimValueData>

  /** `parse_snak`, with the given string-to-`f64` parser. */
  function SnakDecoderOf(parseF64: string -> Option<Float>): SnakDecoder {
    snak => ParseSnak(parseF64, snak)
  }

  /** One snak under property key `pair.0`: the key is only read once the
      snak has decoded. */
  function PairValue(decode: SnakDecoder, pair: (string, JsonValue)): (r: Outcome<(Pid, ClaimValueData)>)
    ensures r.Fail? <==> decode(pair.1).Fail?
    ensures r.Ok? <==> decode(pair.1).Ok? && KeyPid(pair.0).Ok?
    ensures r.Ok? ==> r.value == (KeyPid(pair.0).value, decode(pair.1).value)
  {
    match decode(pair.1)
    case Panic => Panic
    case Fail => Fail
    case Ok(d) =>
      match KeyPid(pair.0)
      case Ok(p) => Ok((p, d))
      case _ => Panic
  }

  /** A sequence of keyed snaks decoded in order: failures are dropped and
      any panic panics the whole. */
  function DecodeKeyedSnaks(decode: SnakDecoder, pairs: seq<(string, JsonValue)>)
    : (r: Outcome<seq<(Pid, ClaimValueData)>>)
    ensures !r.Fail?
    ensures r.Ok? ==> |r.value| <= |pairs|
    decreases |pairs|
  {
    if |pairs| == 0 then Ok([])
    else
      var rest := DecodeKeyedSnaks(decode, pairs[1..]);
      match PairValue(decode, pairs[0])
      case Panic => Panic
      case Fail => rest
      case Ok(x) => if rest.Panic? then Panic else Ok([x] + rest.value)
  }

  /** The decoding panics exactly when one of the snaks does. */
  lemma {:induction false} DecodeKeyedSnaksPanics(decode: SnakDecoder, pairs: seq<(string, JsonValue)>)
    ensures DecodeKeyedSnaks(decode, pairs).Panic? <==>
      exists i :: 0 <= i < |pairs| && PairValue(decode, pairs[i]).Panic?
    decreases |pairs|
  {
    if |pairs| > 0 {
      DecodeKeyedSnaksPanics(decode, pairs[1..]);
      assert forall i :: 1 <= i < |pairs| ==> pairs[i] == pairs[1..][i - 1];
      if exists i :: 0 <= i < |pairs| && PairValue(decode, pairs[i]).Panic? {
        var i :| 0 <= i < |pairs| && PairValue(decode, pairs[i]).Panic?;
        if i > 0 {
          assert PairValue(decode, pairs[1..][i - 1]).Panic?;
        }
      }
    }
  }

  /** Every decoded value is the decoding of one of the snaks, and they come
      in the order of the snaks. */
  lemma {:induction false} DecodeKeyedSnaksFrom(decode: SnakDecoder, pairs: seq<(string, JsonValue)>)
    requires DecodeKeyedSnaks(decode, pairs).Ok?
    ensures forall k :: 0 <= k < |DecodeKeyedSnaks(decode, pairs).value| ==>
      exists i :: 0 <= i < |pairs| && PairValue(decode, pairs[i]) == Ok(DecodeKeyedSnaks(decode, pairs).value[k])
    decreases |pairs|
  {
    if |pairs| > 0 {
      DecodeKeyedSnaksFrom(decode, pairs[1..]);
      var r := DecodeKeyedSnaks(decode, pairs).value;
      forall k | 0 <= k < |r|
        ensures exists i :: 0 <= i < |pairs| && PairValue(decode, pairs[i]) == Ok(r[k])
      {
        if PairValue(decode, pairs[0]).Ok? {
          if k == 0 {
            assert PairValue(decode, pairs[0]) == Ok(r[0]);
          } else {
            var i :| 0 <= i < |pairs[1..]| && PairValue(decode, pairs[1..][i]) == Ok(DecodeKeyedSnaks(decode, pairs[1..]).value[k - 1]);
            assert pairs[1..][i] == pairs[i + 1];
          }
        } else {
          var i :| 0 <= i < |pairs[1..]| && PairValue(decode, pairs[1..][i]) == Ok(DecodeKeyedSnaks(decode, pairs[1..]).value[k]);
          assert pairs[1..][i] == pairs[i + 1];
        }
      }
    }
  }

  /** When every snak decodes, the result is every snak's value, in order. */
  lemma {:induction false} DecodeKeyedSnaksAllOk(decode: SnakDecoder, pairs: seq<(string, JsonValue)>)
    requires forall i :: 0 <= i < |pairs| ==> PairValue(decode, pairs[i]).Ok?
    ensures DecodeKeyedSnaks(decode, pairs).Ok?
    ensures |DecodeKeyedSnaks(decode, pairs).value| == |pairs|
    ensures forall i :: 0 <= i < |pairs| ==> Ok(DecodeKeyedSnaks(decode, pairs).value[i]) == PairValue(decode, pairs[i])
    decreases |pairs|
  {
    if |pairs| > 0 {
      var tail := pairs[1..];
      assert forall i :: 0 <= i < |tail| ==> tail[i] == pairs[i + 1];
      DecodeKeyedSnaksAllOk(decode, tail);
      var x := PairValue(decode, pairs[0]);
      assert x.Ok?;
      var rest := DecodeKeyedSnaks(decode, tail).value;
      var r := [x.value] + rest;
      assert DecodeKeyedSnaks(decode, pairs) == Ok(r);
      forall i | 0 <= i < |pairs| ensures Ok(r[i]) == PairValue(decode, pairs[i]) {
        if i > 0 {
          assert r[i] == rest[i - 1];
          assert tail[i - 1] == pairs[i];
        }
      }
    }
  }

  /** Two decodings glued together: both must succeed. */
  function Concat<T>(a: Outcome<seq<T>>, b: Outcome<seq<T>>): Outcome<seq<T>> {
    if a.Ok? && b.Ok? then Ok(a.value + b.value) else Panic
  }

  /** Decoding distributes over concatenation. */
  lemma {:induction false} DecodeKeyedSnaksAppend(decode: SnakDecoder, a: seq<(string, JsonValue)>, b: seq<(string, JsonValue)>)
    ensures DecodeKeyedSnaks(decode, a + b) == Concat(DecodeKeyedSnaks(decode, a), DecodeKeyedSnaks(decode, b))
    decreases |a|
  {
    if |a| == 0 {
      assert a + b == b;
      var rb := DecodeKeyedSnaks(decode, b);
      if rb.Ok? {
        assert [] + rb.value == rb.value;
      }
    } else {
      assert (a + b)[0] == a[0];
      assert (a + b)[1..] == a[1..] + b;
      DecodeKeyedSnaksAppend(decode, a[1..], b);
      var ra, rb := DecodeKeyedSnaks(decode, a[1..]), DecodeKeyedSnaks(decode, b);
      var first := PairValue(decode, a[0]);
      if first.Ok? && ra.Ok? && rb.Ok? {
        assert [first.value] + (ra.value + rb.value) == ([first.value] + ra.value) + rb.value;
      }
    }
  }

  /** Every element of `xs` paired with `key`: the snaks under one property
      key, or the decoded values of one property. */
  function KeyEach<K, V>(key: K, xs: seq<V>): (pairs: seq<(K, V)>)
    ensures |pairs| == |xs|
    ensures forall i :: 0 <= i < |xs| ==> pairs[i] == (key, xs[i])
    decreases |xs|
  {
    if |xs| == 0 then [] else [(key, xs[0])] + KeyEach(key, xs[1..])
  }

  /** The keyed snaks of an object of arrays, in entry order. */
  function SnakPairs(entries: seq<(string, JsonValue)>): seq<(string, JsonValue)>
    decreases |entries|
  {
    if |entries| == 0 then [] else KeyEach(entries[0].0, Members(entries[0].1)) + SnakPairs(entries[1..])
  }

  // ---------------------------------------------------------------------------
  // References and qualifiers, as the source loops over them

  /** The loops over one reference's `snaks` object: for each entry, every
      member of its array; a value that is not an array has no members. */
  function DecodeReferenceEntries(decode: SnakDecoder, entries: seq<(string, JsonValue)>)
    : (r: Outcome<seq<(Pid, ClaimValueData)>>)
    decreases |entries|
  {
    if |entries| == 0 then Ok([])
    else
      Concat(DecodeKeyedSnaks(decode, KeyEach(entries[0].0, Members(entries[0].1))),
             DecodeReferenceEntries(decode, entries[1..]))
  }

  /** The nested reference loops decode exactly the flattened keyed snaks. */
  lemma {:induction false} ReferenceEntriesFlatten(decode: SnakDecoder, entries: seq<(string, JsonValue)>)
    ensures DecodeReferenceEntries(decode, entries) == DecodeKeyedSnaks(decode, SnakPairs(entries))
    decreases |entries|
  {
    if |entries| > 0 {
      ReferenceEntriesFlatten(decode, entries[1..]);
      DecodeKeyedSnaksAppend(decode, KeyEach(entries[0].0, Members(entries[0].1)), SnakPairs(entries[1..]));
    }
  }

  /** The loop over the qualifiers object: each entry's value must be an
      array, else the decoder panics. */
  function DecodeQualifierEntries(decode: SnakDecoder, entries: seq<(string, JsonValue)>)
    : (r: Outcome<seq<(Pid, ClaimValueData)>>)
    decreases |entries|
  {
    if |entries| == 0 then Ok([])
    else if !entries[0].1.Array? then Panic
    else
      Concat(DecodeKeyedSnaks(decode, KeyEach(entries[0].0, entries[0].1.elems)),
             DecodeQualifierEntries(decode, entries[1..]))
  }

  predicate AllArrays(entries: seq<(string, JsonValue)>) {
    forall i :: 0 <= i < |entries| ==> entries[i].1.Array?
  }

  /** The qualifier loops panic when some entry is not an array, and
      otherwise decode exactly the flattened keyed snaks. */
  lemma {:induction false} QualifierEntriesFlatten(decode: SnakDecoder, entries: seq<(string, JsonValue)>)
    ensures DecodeQualifierEntries(decode, entries)
         == if AllArrays(entries) then DecodeKeyedSnaks(decode, SnakPairs(entries)) else Panic
    decreases |entries|
  {
    if |entries| > 0 {
      QualifierEntriesFlatten(decode, entries[1..]);
      assert AllArrays(entries) <==> entries[0].1.Array? && AllArrays(entries[1..]) by {
        if entries[0].1.Array? && AllArrays(entries[1..]) {
          forall i | 0 <= i < |entries| ensures entries[i].1.Array? {
            if i > 0 { assert entries[i] == entries[1..][i - 1]; }
          }
        }
      }
      if entries[0].1.Array? {
        DecodeKeyedSnaksAppend(decode, KeyEach(entries[0].0, entries[0].1.elems), SnakPairs(entries[1..]));
      }
    }
  }

  /** One reference group: the keyed snaks under its `snaks` member. */
  function ReferencePairs(group: JsonValue): seq<(string, JsonValue)> {
    SnakPairs(Entries(TakeProp("snaks", group)))
  }

  /** The loop over the `references` array: one group per element, in order. */
  function DecodeReferences(decode: SnakDecoder, groups: seq<JsonValue>): (r: Outcome<seq<ReferenceGroup>>)
    ensures !r.Fail?
    ensures r.Panic? <==> exists i :: 0 <= i < |groups| && DecodeKeyedSnaks(decode, ReferencePairs(groups[i])).Panic?
    ensures r.Ok? ==> |r.value| == |groups|
    ensures r.Ok? ==> forall i :: 0 <= i < |groups| ==>
      DecodeKeyedSnaks(decode, ReferencePairs(groups[i])) == Ok(r.value[i].claims)
    decreases |groups|
  {
    if |groups| == 0 then Ok([])
    else
      var first := DecodeReferenceEntries(decode, Entries(TakeProp("snaks", groups[0])));
      ReferenceEntriesFlatten(decode, Entries(TakeProp("snaks", groups[0])));
      var rest := DecodeReferences(decode, groups[1..]);
      assert forall i :: 1 <= i < |groups| ==> groups[i] == groups[1..][i - 1];
      if first.Panic? || rest.Panic? then Panic
      else
        var r := [ReferenceGroup(first.value)] + rest.value;
        assert forall i :: 1 <= i < |r| ==> r[i] == rest.value[i - 1];
        Ok(r)
  }

  // ---------------------------------------------------------------------------
  // The claim

  function RankFromName(name: string): (r: Outcome<Rank>)
    ensures r.Ok? ==> r.value != Deprecated
  {
    if name == "deprecated" then Fail
    else if name == "normal" then Ok(Normal)
    else if name == "preferred" then Ok(Preferred)
    else Panic
  }

  function RankName(rank: Rank): string {
    match rank
    case Deprecated => "deprecated"
    case Normal => "normal"
    case Preferred => "preferred"
  }

  /** The three rank names are told apart: reading a name gives its rank back,
      except that a deprecated claim is dropped. */
  lemma RankNames(rank: Rank)
    ensures RankFromName(RankName(rank)) == if rank == Deprecated then Fail else Ok(rank)
  {
  }

  /** Only a rank's own name reads as that rank. */
  lemma RankFromNameInverts(name: string)
    ensures RankFromName(name).Ok? ==> RankName(RankFromName(name).value) == name
    ensures RankFromName(name).Fail? <==> name == "deprecated"
  {
  }

  /** The qualifiers of a claim: none unless `qualifiers` is an object. */
  function DecodeQualifiers(decode: SnakDecoder, qualifiers: JsonValue): (r: Outcome<seq<(Pid, ClaimValueData)>>)
    ensures !r.Fail?
    ensures !qualifiers.Object? ==> r == Ok([])
    ensures qualifiers.Object? ==>
      r == if AllArrays(qualifiers.members) then DecodeKeyedSnaks(decode, SnakPairs(qualifiers.members)) else Panic
  {
    if qualifiers.Object? then
      QualifierEntriesFlatten(decode, qualifiers.members);
      DecodeQualifierEntries(decode, qualifiers.members)
    else Ok([])
  }

  /** The references of a claim: none unless `references` is an array. */
  function DecodeReferencesOf(decode: SnakDecoder, references: JsonValue): (r: Outcome<seq<ReferenceGroup>>)
    ensures !r.Fail?
    ensures !references.Array? ==> r == Ok([])
    ensures references.Array? ==>
      (r.Panic? <==> exists i :: 0 <= i < |references.elems| && DecodeKeyedSnaks(decode, ReferencePairs(references.elems[i])).Panic?)
    ensures r.Ok? && references.Array? ==> |r.value| == |references.elems|
    ensures r.Ok? && references.Array? ==> forall i :: 0 <= i < |references.elems| ==>
      DecodeKeyedSnaks(decode, ReferencePairs(references.elems[i])) == Ok(r.value[i].claims)
  {
    if references.Array? then DecodeReferences(decode, references.elems) else Ok([])
  }

  /** `get_prop_from_snak`. In order: the rank (a deprecated claim is
      dropped before anything else is read), the main snak, the references,
      the qualifiers, and the id unless `skipId`. */
  function GetPropFromSnak(parseF64: string -> Option<Float>, claim: JsonValue, skipId: bool): (r: Outcome<ClaimValue>)
    ensures !TakeProp("rank", claim).String? ==> r == Panic
    ensures TakeProp("rank", claim) == String("deprecated") ==> r == Fail
    ensures (TakeProp("rank", claim).String?
             && TakeProp("rank", claim).str !in {"deprecated", "normal", "preferred"}) ==> r == Panic
    ensures ((TakeProp("rank", claim) == String("normal") || TakeProp("rank", claim) == String("preferred"))
             && ParseSnak(parseF64, TakeProp("mainsnak", claim)).Fail?) ==> r == Fail
    ensures ((TakeProp("rank", claim) == String("normal") || TakeProp("rank", claim) == String("preferred"))
             && ParseSnak(parseF64, TakeProp("mainsnak", claim)).Panic?) ==> r == Panic
    ensures r.Ok? ==> TakeProp("rank", claim) == String(RankName(r.value.rank)) && r.value.rank != Deprecated
    ensures r.Fail? ==> TakeProp("rank", claim) == String("deprecated") || ParseSnak(parseF64, TakeProp("mainsnak", claim)).Fail?
    ensures r.Ok? ==> ParseSnak(parseF64, TakeProp("mainsnak", claim)) == Ok(r.value.data)
    ensures r.Ok? && skipId ==> r.value.id == ""
    ensures r.Ok? && !skipId ==> TakeProp("id", claim) == String(r.value.id)
    ensures r.Ok? ==> DecodeQualifiers(SnakDecoderOf(parseF64), TakeProp("qualifiers", claim)) == Ok(r.value.qualifiers)
    ensures r.Ok? ==> DecodeReferencesOf(SnakDecoderOf(parseF64), TakeProp("references", claim)) == Ok(r.value.references)
    ensures r.Ok? <==>
      (TakeProp("rank", claim) == String("normal") || TakeProp("rank", claim) == String("preferred"))
      && ParseSnak(parseF64, TakeProp("mainsnak", claim)).Ok?
      && DecodeQualifiers(SnakDecoderOf(parseF64), TakeProp("qualifiers", claim)).Ok?
      && DecodeReferencesOf(SnakDecoderOf(parseF64), TakeProp("references", claim)).Ok?
      && (skipId || TakeProp("id", claim).String?)
  {
    var rankJson := TakeProp("rank", claim);
    if !rankJson.String? then Panic
    else
      match RankFromName(rankJson.str)
      case Fail => Fail
      case Panic => Panic
      case Ok(rank) =>
        RankFromNameInverts(rankJson.str);
        match ParseSnak(parseF64, TakeProp("mainsnak", claim))
        case Fail => Fail
        case Panic => Panic
        case Ok(data) =>
          var decode := SnakDecoderOf(parseF64);
          var references := DecodeReferencesOf(decode, TakeProp("references", claim));
          var qualifiers := DecodeQualifiers(decode, TakeProp("qualifiers", claim));
          var idJson := TakeProp("id", claim);
          if references.Panic? || qualifiers.Panic? then Panic
          else if skipId then Ok(ClaimValue(data, rank, "", qualifiers.value, references.value))
          else if !idJson.String? then Panic
          else Ok(ClaimValue(data, rank, idJson.str, qualifiers.value, references.value))
  }

  // ---------------------------------------------------------------------------
  // The encoding the decoder reads back

  /** Property-keyed groups of values, as Wikibase JSON groups them. */
  type Groups = seq<(Pid, seq<ClaimValueData>)>

  predicate AllEncodable(ds: seq<ClaimValueData>) {
    forall i :: 0 <= i < |ds| ==> Encodable(ds[i])
  }

  predicate GroupsEncodable(groups: Groups) {
    forall i :: 0 <= i < |groups| ==> AllEncodable(groups[i].1)
  }

  predicate AllGroupsEncodable(references: seq<Groups>) {
    forall i :: 0 <= i < |references| ==> GroupsEncodable(references[i])
  }

  function EncodeSnaks(ds: seq<ClaimValueData>): (snaks: seq<JsonValue>)
    requires AllEncodable(ds)
    ensures |snaks| == |ds|
    ensures forall i :: 0 <= i < |ds| ==> snaks[i] == EncodeSnak(ds[i])
    decreases |ds|
  {
    if |ds| == 0 then [] else [EncodeSnak(ds[0])] + EncodeSnaks(ds[1..])
  }

  /** A snaks object: one entry per group, keyed by the property id. */
  function EncodeGroups(groups: Groups): (entries: seq<(string, JsonValue)>)
    requires GroupsEncodable(groups)
    ensures |entries| == |groups|
    ensures AllArrays(entries)
    decreases |groups|
  {
    if |groups| == 0 then []
    else [(PidString(groups[0].0), Array(EncodeSnaks(groups[0].1)))] + EncodeGroups(groups[1..])
  }

  /** The groups' values, each with its property, in order. */
  function Ungroup(groups: Groups): seq<(Pid, ClaimValueData)>
    decreases |groups|
  {
    if |groups| == 0 then [] else KeyEach(groups[0].0, groups[0].1) + Ungroup(groups[1..])
  }

  /** Encoded values under one key decode to themselves. */
  lemma {:induction false} EncodedGroupDecodes(parseF64: string -> Option<Float>, p: Pid, ds: seq<ClaimValueData>)
    requires AllEncodable(ds)
    ensures DecodeKeyedSnaks(SnakDecoderOf(parseF64), KeyEach(PidString(p), EncodeSnaks(ds))) == Ok(KeyEach(p, ds))
    decreases |ds|
  {
    var decode := SnakDecoderOf(parseF64);
    var pairs := KeyEach(PidString(p), EncodeSnaks(ds));
    if |ds| > 0 {
      SnakRoundTrip(parseF64, ds[0]);
      PidRoundTrip(p);
      assert decode(pairs[0].1) == Ok(ds[0]);
      assert KeyPid(pairs[0].0) == Ok(p);
      assert PairValue(decode, pairs[0]) == Ok((p, ds[0]));
      assert pairs[1..] == KeyEach(PidString(p), EncodeSnaks(ds[1..]));
      EncodedGroupDecodes(parseF64, p, ds[1..]);
    }
  }

  /** An encoded snaks object decodes to the ungrouped values. */
  lemma {:induction false} EncodedGroupsDecode(parseF64: string -> Option<Float>, groups: Groups)
    requires GroupsEncodable(groups)
    ensures DecodeKeyedSnaks(SnakDecoderOf(parseF64), SnakPairs(EncodeGroups(groups))) == Ok(Ungroup(groups))
    decreases |groups|
  {
    if |groups| > 0 {
      var entries := EncodeGroups(groups);
      assert entries[1..] == EncodeGroups(groups[1..]);
      assert Members(entries[0].1) == EncodeSnaks(groups[0].1);
      EncodedGroupDecodes(parseF64, groups[0].0, groups[0].1);
      EncodedGroupsDecode(parseF64, groups[1..]);
      DecodeKeyedSnaksAppend(SnakDecoderOf(parseF64), KeyEach(entries[0].0, Members(entries[0].1)), SnakPairs(entries[1..]));
    }
  }

  /** One encoded reference: its groups under `snaks`. */
  function EncodeReference(groups: Groups): JsonValue
    requires GroupsEncodable(groups)
  {
    Object([("snaks", Object(EncodeGroups(groups)))])
  }

  function EncodeReferences(references: seq<Groups>): (groups: seq<JsonValue>)
    requires AllGroupsEncodable(references)
    ensures |groups| == |references|
    ensures forall i :: 0 <= i < |references| ==> groups[i] == EncodeReference(references[i])
    decreases |references|
  {
    if |references| == 0 then [] else [EncodeReference(references[0])] + EncodeReferences(references[1..])
  }

  /** The reference groups the decoder builds from `references`. */
  function UngroupReferences(references: seq<Groups>): (r: seq<ReferenceGroup>)
    ensures |r| == |references|
    ensures forall i :: 0 <= i < |references| ==> r[i] == ReferenceGroup(Ungroup(references[i]))
    decreases |references|
  {
    if |references| == 0 then []
    else [ReferenceGroup(Ungroup(references[0]))] + UngroupReferences(references[1..])
  }

  /** A statement object with the given members. */
  function ClaimObject(mainsnak: JsonValue, qualifiers: JsonValue, id: string, rank: string, references: JsonValue): JsonValue {
    Object([("mainsnak", mainsnak),
            ("type", String("statement")),
            ("qualifiers", qualifiers),
            ("id", String(id)),
            ("rank", String(rank)),
            ("references", references)])
  }

  /** A statement in Wikibase JSON. */
  function EncodeClaim(data: ClaimValueData, rank: Rank, id: string, qualifiers: Groups, references: seq<Groups>): JsonValue
    requires Encodable(data) && GroupsEncodable(qualifiers) && AllGroupsEncodable(references)
  {
    ClaimObject(EncodeSnak(data), Object(EncodeGroups(qualifiers)), id, RankName(rank), Array(EncodeReferences(references)))
  }

  /** One encoded reference decodes to its ungrouped values. */
  lemma EncodedReferenceDecodes(parseF64: string -> Option<Float>, groups: Groups)
    requires GroupsEncodable(groups)
    ensures DecodeKeyedSnaks(SnakDecoderOf(parseF64), ReferencePairs(EncodeReference(groups))) == Ok(Ungroup(groups))
  {
    LookupEarliest([("snaks", Object(EncodeGroups(groups)))], 0);
    assert Entries(TakeProp("snaks", EncodeReference(groups))) == EncodeGroups(groups);
    EncodedGroupsDecode(parseF64, groups);
  }

  /** Encoded references decode to their ungrouped values, group by group. */
  lemma EncodedReferencesDecode(parseF64: string -> Option<Float>, references: seq<Groups>)
    requires AllGroupsEncodable(references)
    ensures DecodeReferences(SnakDecoderOf(parseF64), EncodeReferences(references)) == Ok(UngroupReferences(references))
  {
    var decode := SnakDecoderOf(parseF64);
    var groups := EncodeReferences(references);
    forall i | 0 <= i < |references|
      ensures DecodeKeyedSnaks(decode, ReferencePairs(groups[i])) == Ok(Ungroup(references[i]))
    {
      EncodedReferenceDecodes(parseF64, references[i]);
    }
    var r := DecodeReferences(decode, groups);
    assert !r.Panic?;
    assert r.value == UngroupReferences(references);
  }

  /** The members of a statement object, as the decoder looks them up. */
  lemma ClaimObjectFields(mainsnak: JsonValue, qualifiers: JsonValue, id: string, rank: string, references: JsonValue)
    ensures TakeProp("mainsnak", ClaimObject(mainsnak, qualifiers, id, rank, references)) == mainsnak
    ensures TakeProp("qualifiers", ClaimObject(mainsnak, qualifiers, id, rank, references)) == qualifiers
    ensures TakeProp("id", ClaimObject(mainsnak, qualifiers, id, rank, references)) == String(id)
    ensures TakeProp("rank", ClaimObject(mainsnak, qualifiers, id, rank, references)) == String(rank)
    ensures TakeProp("references", ClaimObject(mainsnak, qualifiers, id, rank, references)) == references
  {
    var ms := ClaimObject(mainsnak, qualifiers, id, rank, references).members;
    LookupEarliest(ms, 0);
    LookupEarliest(ms, 2);
    LookupEarliest(ms, 3);
    LookupEarliest(ms, 4);
    LookupEarliest(ms, 5);
  }

  /** Decoding an encoded statement of rank normal or preferred gives back its
      value, rank, id, qualifiers and references. */
  lemma ClaimRoundTrip(parseF64: string -> Option<Float>, data: ClaimValueData, rank: Rank, id: string,
                       qualifiers: Groups, references: seq<Groups>)
    requires rank != Deprecated
    requires Encodable(data) && GroupsEncodable(qualifiers) && AllGroupsEncodable(references)
    ensures GetPropFromSnak(parseF64, EncodeClaim(data, rank, id, qualifiers, references), false)
         == Ok(ClaimValue(data, rank, id, Ungroup(qualifiers), UngroupReferences(references)))
  {
    var claim := EncodeClaim(data, rank, id, qualifiers, references);
    ClaimObjectFields(EncodeSnak(data), Object(EncodeGroups(qualifiers)), id, RankName(rank), Array(EncodeReferences(references)));
    RankNames(rank);
    SnakRoundTrip(parseF64, data);
    EncodedGroupsDecode(parseF64, qualifiers);
    EncodedReferencesDecode(parseF64, references);
    var decode := SnakDecoderOf(parseF64);
    assert DecodeQualifiers(decode, TakeProp("qualifiers", claim)) == Ok(Ungroup(qualifiers));
    assert DecodeReferencesOf(decode, TakeProp("references", claim)) == Ok(UngroupReferences(references));
    var r := GetPropFromSnak(parseF64, claim, false);
    assert r.Ok?;
    assert r.value.rank == rank by {
      assert String(RankName(r.value.rank)) == String(RankName(rank));
      RankNames(r.value.rank);
    }
  }
}
