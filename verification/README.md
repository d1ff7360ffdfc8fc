# Wikidata entity decoding, modelled in Dafny

This project models the decoding core of the Rust crate `wikidata`.

- **Identifiers.** The five identifier kinds are `Qid`, `Pid`, `Lid`, `Fid` and `Sid`. The model covers their `FromStr`, `Display` and `json_url`, and the `IdParseError` they report.
- **Wikibase time parser.** `parse_wb_time` turns `[+-]YYYY[-MM[-DD]][THH:MM:SS…]` into a chrono UTC instant.
- **Snak decoder.** `ClaimValueData::parse_snak` dispatches on the snak type, the datavalue `type` and, for strings, the property's datatype. It uses the helpers `parse_wb_number` and `try_get_as_qid`.
- **Claim assembler.** `ClaimValue::get_prop_from_snak` reads a statement's rank, main snak, references, qualifiers and id.
- **Entity queries.** `Entity::instances`, `start_time` and `end_time`.
- **Types and defaults.** The data types keep their `Default` values: `NoValue`, rank `Normal`, and an empty `ClaimValue`.

## How the model is set up

**Outcomes.** Each decoding function returns a three-way `Outcome`:
- `Ok(v)` is `Some(v)`;
- `Fail` is a returned `None`;
- `Panic` is a `panic!`, an `expect` or an `unwrap` on the wrong shape, or a byte slice cut inside a UTF-8 character.

The identifier parsers return `Result<_, IdParseError>`.

**JSON.** JSON is an inductive datatype. An object is the list of its entries in insertion order. `take_prop` (`JsonValue::remove`) reads the first entry under a key. The decoder takes each field at most once, so removing it is not modelled.

**Floating point.** An `f64` is kept as its 64-bit pattern.
- The decoder's floating-point steps are the conversion of a JSON number to `f64` (taken as already done, see Left out), Rust's string-to-`f64` parser (a parameter, below), and the saturating `as u8` cast of a time precision.
- The `as u8` cast is modelled exactly on the IEEE-754 fields: round toward zero, NaN gives 0, and values of 256 or more give 255.
- Rust's decimal string-to-`f64` parser is a function parameter `parseF64`. Every property that mentions string numbers holds for any such parser.

**chrono.**
- `Utc.ymd_opt` is a proleptic-Gregorian validity check over chrono's year range, -262144 to 262143.
- `and_hms` panics on an impossible time of day.

**Module layout.** One module per concern, in dependency order:
- `Wrappers`: Option, Result and Outcome;
- `Strings`: integer widths, Rust integer parsing, `split`, UTF-8 widths;
- `Floats`;
- `Json`;
- `Ids`;
- `WbTime`;
- `Snaks`;
- `Claims`;
- `Entities`.

**Decoding behaviour that differs from what a Wikibase reader might expect (the model follows the code):**
- **Deprecated claims.** A `deprecated` rank drops the whole claim: the result is `None`, and nothing else is read. The claim is not kept with rank `Deprecated`.
- **Globe precision.** A missing or unreadable globe-coordinate `precision` drops the snak. It does not default to 1.0.
- **Time values.** A `time` value whose date does not parse drops the snak. It does not become `UnknownValue`.
- **Failing snaks.** A qualifier or reference snak that does not decode is skipped. One that panics panics the whole claim.
- **Iteration order.** Qualifiers and references are read in the JSON object's entry order, then in array order. There are no order arrays and no reference hashes.

## Model

| member | source | states |
|---|---|---|
| Ids.ParseLettered | src/ids.rs:69-83 | `from_str` of `Qid`/`Pid`/`Lid` reports `InvalidPrefix` exactly when the first char is not the id's letter. Every other failure is `UnparseableNumber`. An accepted id is the letter, then an optional `+`, then ASCII digits ending in a digit, with no dash. Its number is the `u64` parse of everything after the letter. |
| Ids.FormatLettered | src/ids.rs:84-89 | The `Qid`/`Pid`/`Lid` `Display` is the id's letter followed by the decimal digits of the number, with no leading zero unless the number is 0. |
| Ids.LetteredRoundTrip | src/ids.rs:69-89 | Parsing the `Display` of any `u64` id with the same letter gives the number back. |
| Ids.QidRoundTrip | src/ids.rs:69-93 | `Qid::from_str(q.to_string()) == Ok(q)` for every `Qid`. |
| Ids.PidRoundTrip | src/ids.rs:69-94 | `Pid::from_str(p.to_string()) == Ok(p)` for every `Pid`. |
| Ids.LidRoundTrip | src/ids.rs:69-95 | `Lid::from_str(l.to_string()) == Ok(l)` for every `Lid`. |
| Ids.LetteredJsonUrl | src/ids.rs:55-67 | `json_url` is the entity-data prefix, then the id's display, then `.json`. The middle part parses back to the same id. |
| Ids.QidJsonUrl | src/ids.rs:55-67 | A `Qid`'s URL is the entity-data prefix, then `Q<n>`, then `.json`, e.g. `…/Q42.json`. |
| Ids.PidJsonUrl | src/ids.rs:55-67 | The same for a `Pid`. |
| Ids.LidJsonUrl | src/ids.rs:55-67 | The same for a `Lid`. |
| Ids.LetteredRejectsDash | src/ids.rs:77-81 | A dash after the letter makes the number unparseable. So `Lid::from_str("L1341-S123")` is an error. |
| Ids.DisplayIsNotInverseOfParse | src/ids.rs:78-88 | `Q+42` and `Q042` both parse to `Qid(42)`, which displays as `Q42`. Parsing is not injective, so the round trip holds only from the id side. |
| Ids.ParseLexemeSubId | src/ids.rs:113-140 | `Fid`/`Sid` `from_str`: no leading `L` is `InvalidPrefix`. An id is accepted exactly when it is `L`, then two dash-separated pieces, the first a `u64` number and the second the kind letter followed by a `u16` number. It then gives those two numbers. An unparseable lexeme number is `UnparseableNumber`. An accepted id has exactly one dash after the `L`. |
| Ids.SubIdPieces | src/ids.rs:106-111 | The `Fid`/`Sid` `Display` starts with `L`. After the `L` it splits at dashes into exactly two pieces: the lexeme's decimal digits, and the kind letter followed by the sub-number's digits. |
| Ids.SubIdRoundTrip | src/ids.rs:106-140 | Parsing the `L<n>-F<m>` / `L<n>-S<m>` display of any lexeme number and `u16` gives both numbers back. |
| Ids.FidRoundTrip | src/ids.rs:106-140 | `Fid::from_str(f.to_string()) == Ok(f)` for every `Fid`. |
| Ids.SidRoundTrip | src/ids.rs:106-140 | `Sid::from_str(s.to_string()) == Ok(s)` for every `Sid`. |
| Ids.SubIdWithoutDash | src/ids.rs:121-127 | With no dash, the result is `TooFewParts` when the lexeme number parses and `UnparseableNumber` when it does not. `L1341` is `TooFewParts`. |
| Ids.SubIdWrongSecondLetter | src/ids.rs:127-130 | A second part that is empty or does not start with the kind letter is `InvalidPrefix`, whatever follows. |
| Ids.SubIdExtraPart | src/ids.rs:131-138 | With a third part, both numbers are checked first, and only then is the id `TooManyParts`. |
| Ids.SubIdNumberTooWide | src/ids.rs:131-133 | A sub-number of 65536 or more is `UnparseableNumber`. |
| Strings.ParseUnsigned | src/ids.rs:78-81 | Rust's unsigned `parse` accepts an optional `+` and then ASCII digits only, ending in a digit, with a value below the type's bound. A non-empty digit string, with or without a leading `+`, parses to its value when that fits and is an error when it does not. |
| Strings.ParseI32 | src/entity.rs:189-192 | Rust's `i32` parse of the year. With no leading `-` it is the unsigned parse below 2^31, so a success is not negative. With a leading `-`, a non-empty digit string of value at most 2^31 gives its negation, and anything else is an error. |
| Strings.ParseIntToString | src/entity.rs:189-192 | The decimal display of every `i32`, with a `-` before a negative one, parses back to the same value. |
| Strings.ParseNatToString | src/ids.rs:78-88 | The decimal display of `n` parses back to `n` exactly when `n` fits the width. |
| Strings.JoinSplit | src/entity.rs:186-187 | `split(sep)` loses nothing: joining its pieces with `sep` rebuilds the string. |
| Strings.SplitJoin | src/entity.rs:186-187 | On pieces free of `sep`, `split` inverts joining. |
| Strings.SplitSecond | src/entity.rs:160-164 | `split(pat).nth(1)` is `None` exactly when `pat` does not occur. Otherwise it starts right after the first occurrence of `pat` and runs to the next occurrence or to the end, and it holds no `pat`. |
| Floats.F64ToU8 | src/entity.rs:335-336 | The `as u8` cast: NaN and negative values give 0, +∞ and values of 256 or more give 255, and anything else gives the floor of the value. |
| Floats.CastRoundTrip | src/entity.rs:335-336 | A precision written as an `f64` reads back through the cast unchanged, for every `u8`. |
| Json.LookupFindsFirst | src/entity.rs:172-174 | `take_prop` gives `Null` for a missing key. Otherwise it gives the value of the first entry under that key. |
| WbTime.ParseWbTime | src/entity.rs:176-232 | `parse_wb_time` behaves as follows. Empty input is `None`, and a first char wider than one byte panics. A date piece that does not give a date is `None`. Without a single `T`, the result is midnight of the parsed date. With one, it is that date at the parsed time of day, and a time of day that fails or panics makes the whole fail or panic. A result is a valid chrono instant whose year is non-negative after `+` and non-positive otherwise. |
| WbTime.ParseDate | src/entity.rs:186-212 | The date is the first `-`-piece parsed as an `i32` and negated unless the era is `+`, with month and day from the second and third pieces (1 when absent, zero or unparseable). It is `None` exactly when the year does not parse or the date does not exist in chrono's calendar. |
| WbTime.SignedYear | src/entity.rs:189-193 | The year is read exactly when it parses as an `i32`. It is then the parsed value, negated unless the era is `+`. |
| WbTime.YmdOpt | src/entity.rs:208-212 | `Utc.ymd_opt` gives a date exactly when the year was read and the date is a valid day. |
| WbTime.FieldOrOne | src/entity.rs:194-207 | A month or day field that parses as a non-zero `u32` is that value. A zero or unparseable field means "unspecified" and is 1. |
| WbTime.ParseClock | src/entity.rs:213-227 | The hour and minute are the first two `:`-pieces, and the seconds the first two chars of the third. Fewer than three pieces, or an hour or minute that does not parse, is `None`. The result panics exactly when the seconds slice does, and succeeds exactly when every field reads. |
| WbTime.SecondsSlice | src/entity.rs:223 | `[0..2]` yields the chars filling the first two bytes. It panics exactly when no prefix is two bytes wide. |
| WbTime.AndHms | src/entity.rs:231 | `and_hms` succeeds exactly on a valid time of day, and otherwise panics. |
| WbTime.ParseFormatRoundTrip | src/entity.rs:176-232 | Every valid instant, written in the canonical `+YYYY-MM-DDTHH:MM:SSZ` form, parses back to itself. |
| WbTime.DateOnlyParses | src/entity.rs:176-232 | A canonical date with no time of day parses to midnight of that date. |
| WbTime.YearMonthParses | src/entity.rs:194-212 | A year and month with no day and no time of day parse to midnight of the first of that month. |
| WbTime.YearOnlyParses | src/entity.rs:194-212 | A bare year parses to midnight of its first of January. |
| WbTime.UnspecifiedFieldsParse | src/entity.rs:194-232 | A first of January written with unspecified month and day fields and a time of day parses to that instant. |
| WbTime.TestFullDate | src/entity.rs:458 | The test string `+2001-12-31` parses to midnight of 31 December 2001. |
| WbTime.TestYearMonth | src/entity.rs:459 | The test string `+2001-12` parses to midnight of 1 December 2001. |
| WbTime.TestYearOnly | src/entity.rs:460 | The test string `-12561` parses to midnight of 1 January of year -12561. |
| WbTime.TestUnspecifiedFields | src/entity.rs:455 | The test string `+1979-00-00T00:00:00Z` parses to midnight of 1 January 1979. |
| WbTime.DateOnlyThroughFields | src/entity.rs:186-212 | Two date pieces that decode alike give the same time, whatever follows them. |
| WbTime.SameFieldsSameDate | src/entity.rs:186-208 | The date depends only on the year piece and the month and day fields. |
| WbTime.UnspecifiedDateFields | src/entity.rs:194-208 | A zero or unparseable month and day read as `-01-01`. |
| WbTime.MissingDateFields | src/entity.rs:194-208 | A date that stops after the year reads as `year-01-01`. |
| WbTime.MissingDayField | src/entity.rs:201-208 | A date that stops after the month reads as day 01. |
| WbTime.UnspecifiedMonthAndDay | src/entity.rs:455-456 | `+1979-00-00T…` parses exactly as `+1979-01-01T…`, for every year, rest and sign. |
| WbTime.MissingMonthAndDay | src/entity.rs:458-460 | `-12561` parses as `-12561-01-01`, and `+2001-12` parses as `+2001-12-01`. |
| WbTime.AnySignButPlusNegates | src/entity.rs:183-193 | Any one-byte first char other than `+` behaves exactly as `-`. |
| WbTime.SignFlipsYearOnly | src/entity.rs:183-193 | When both `+rest` and `-rest` parse, they differ only in the sign of the year. |
| Snaks.ParseWbNumber | src/entity.rs:147-158 | A JSON number is taken as it is. A JSON string goes through the `f64` parser. Anything else is `None`. |
| Snaks.TryGetAsQid | src/entity.rs:160-170 | A result implies a string that contains the entity IRI prefix. |
| Snaks.ItemIriRoundTrip | src/entity.rs:160-170 | Every item's IRI `http://www.wikidata.org/entity/Q<n>` reads back as `Qid(n)`. |
| Snaks.NoUnitIsNotAnItem | src/entity.rs:325-330 | The quantity unit `"1"` reads as no unit. |
| Snaks.StringDatatypeValue | src/entity.rs:259-272 | A known datatype name wraps the string in one of the string variants, and the string is unchanged. |
| Snaks.StringDatatypeBijection | src/entity.rs:259-272 | Datatype names and string variants correspond one to one. |
| Snaks.EntityIdValue | src/entity.rs:274-313 | An entity id never fails quietly: it yields an item, property, lexeme, form or sense, or panics. |
| Snaks.LexemeIdValue | src/entity.rs:284-310 | An `L` id yields a lexeme, form or sense, or panics. |
| Snaks.EntityIdAgreesWithIds | src/entity.rs:274-313 | The decoder's entity-id branch yields each kind exactly when the matching `from_str` of src/ids.rs accepts the id, and with the same value. |
| Snaks.EntityIdRoundTrip | src/entity.rs:274-313 | Every entity id's display reads back as itself. |
| Snaks.StringDatavalue | src/entity.rs:255-273 | A non-string value panics. An unknown datatype fails. Otherwise the string is kept under the datatype's variant. |
| Snaks.EntityIdDatavalue | src/entity.rs:274-277 | A missing or non-string `id` panics. A string `id` is decoded by the entity-id branch, so the result is always an entity-id kind and never `None`. |
| Snaks.GlobeDatavalue | src/entity.rs:314-324 | The result is `Some` exactly when latitude, longitude, precision and globe are all readable. It then holds those four values, and it never panics. |
| Snaks.QuantityDatavalue | src/entity.rs:325-330 | The result is `Some` exactly when the amount is readable, and it never panics. It holds that amount. Each bound is the reading of its field, `None` when unreadable. The unit is `try_get_as_qid` of the `unit` field. |
| Snaks.TimeDatavalue | src/entity.rs:331-337 | A missing `time` panics. A date that does not parse is `None` and one that panics panics, before the precision is read. A parsed date with an unreadable precision panics. A result holds the parsed instant and the precision cast to `u8`, and exists exactly when both read. |
| Snaks.MonolingualDatavalue | src/entity.rs:338-341 | The result is `Some` exactly when text and language are strings, and it then holds both. Otherwise it panics. |
| Snaks.ParseDatavalue | src/entity.rs:254-346 | Each known datavalue `type` dispatches to its own decoder: `string`, `wikibase-entityid`, `globecoordinate`, `quantity`, `time` and `monolingualtext` give exactly what that type's decoder gives on the `value`. An unknown `type` fails. A result is of the kind that `type` names. |
| Snaks.ParseSnak | src/entity.rs:237-253 | A non-string datatype or snaktype panics. `somevalue` gives `UnknownValue`, and `novalue` gives `NoValue`, in both directions. Any other snak type panics. For any `value` snak, a datavalue whose `type` is not a string panics. Otherwise the snak decodes as the datavalue decoder applied to the snak's datatype, that `type` and the datavalue's `value`. A decoded `value` snak matches its datavalue `type`. |
| Snaks.ValueSnakDecodes | src/entity.rs:238-253 | A `value` snak in the encoder's three-entry layout (datatype, snaktype, datavalue) decodes exactly as its datavalue. |
| Snaks.GlobeRoundTrip | src/entity.rs:314-324 | A globe coordinate written with numbers and an item IRI reads back unchanged. |
| Snaks.QuantityRoundTrip | src/entity.rs:325-330 | A quantity reads back unchanged, with or without bounds and unit. |
| Snaks.TimeRoundTrip | src/entity.rs:331-337 | A time value with a `u8` precision reads back unchanged. |
| Snaks.MonolingualRoundTrip | src/entity.rs:338-341 | A monolingual text reads back unchanged. |
| Snaks.DatavalueRoundTrip | src/entity.rs:254-346 | Every encodable value, written as a datavalue of its type, decodes to itself. |
| Snaks.SnakRoundTrip | src/entity.rs:237-347 | Every encodable value, written as a snak, decodes to itself. This holds for any string-to-`f64` parser. |
| Claims.KeyPid | src/entity.rs:391 | A qualifier or reference key yields a `Pid` exactly when its first char is one byte wide and the rest parses as a `u64`. Otherwise it panics. |
| Claims.KeyPidIsParsePid | src/entity.rs:418 | On keys starting with `P`, reading a key agrees with `Pid::from_str`. |
| Claims.KeyLetterUnchecked | src/entity.rs:418 | The key's first letter is never checked. |
| Claims.PairValue | src/entity.rs:416-422 | A keyed snak fails exactly when the snak fails. Its key is read only after the snak decodes. |
| Claims.DecodeKeyedSnaks | src/entity.rs:416-423 | The snak loop never fails as a whole and yields at most one value per snak. |
| Claims.DecodeKeyedSnaksPanics | src/entity.rs:416-423 | The loop panics exactly when one of its snaks panics. |
| Claims.DecodeKeyedSnaksFrom | src/entity.rs:416-423 | Every value the loop keeps is the decoding of one of its snaks. |
| Claims.DecodeKeyedSnaksAllOk | src/entity.rs:416-423 | When every snak decodes, the loop keeps all of them in order. |
| Claims.DecodeKeyedSnaksAppend | src/entity.rs:416-423 | The loop distributes over concatenation, so the survivors keep their input order. |
| Claims.ReferenceEntriesFlatten | src/entity.rs:383-397 | The nested loops over one reference's `snaks` decode the entries' arrays, flattened in entry-then-array order. |
| Claims.QualifierEntriesFlatten | src/entity.rs:407-424 | The qualifier loops panic on a non-array entry. Otherwise they decode the flattened entries in entry-then-array order. |
| Claims.DecodeReferences | src/entity.rs:380-399 | One group is built per reference, in order, each holding its decoded snaks. The loop panics exactly when one group panics. |
| Claims.RankFromName | src/entity.rs:356-363 | A rank read is never `Deprecated`. |
| Claims.RankNames | src/entity.rs:356-363 | `normal` and `preferred` give their ranks, and `deprecated` drops the claim. |
| Claims.RankFromNameInverts | src/entity.rs:356-363 | Only a rank's own name reads as that rank. Only `deprecated` drops the claim. |
| Claims.DecodeQualifiers | src/entity.rs:404-428 | `qualifiers` that is not an object gives no qualifiers. Otherwise they are its flattened snaks, or a panic. |
| Claims.DecodeReferencesOf | src/entity.rs:372-403 | `references` that is not an array gives no references. An array gives one group per element, each holding that reference's decoded snaks, and panics exactly when one reference panics. |
| Claims.GetPropFromSnak | src/entity.rs:352-442 | A missing rank, or a rank other than `deprecated`, `normal` or `preferred`, panics. `deprecated` gives `None`. For the other two ranks, a main snak that fails gives `None` and one that panics panics, and otherwise the result is `None` only when the main snak fails. A result holds the main snak's value, the rank read, the decoded qualifiers and references, and the id: `""` under `skip_id`, the claim's `id` otherwise. The result is a claim exactly when the rank is normal or preferred, every part decodes, and the id is a string or skipped. |
| Claims.EncodedGroupsDecode | src/entity.rs:404-428 | A qualifiers object written from property groups decodes to the values, each keyed by its property, in order. |
| Claims.EncodedReferencesDecode | src/entity.rs:372-403 | References written from property groups decode to one group per reference, in order. |
| Claims.ClaimRoundTrip | src/entity.rs:352-442 | Every non-deprecated statement written as Wikibase JSON decodes to its value, rank, id, qualifiers and references. |
| Entities.Instances | src/entity.rs:104-115 | `instances` lists a target exactly when some "instance of" claim has that item as its value. It matches the claim-order reference definition. |
| Entities.InstancesAppend | src/entity.rs:104-115 | `instances` of concatenated claim lists is the concatenation, so targets come in claim order. |
| Entities.InstancesMembers | src/entity.rs:104-115 | The reference definition lists exactly the item targets of "instance of" claims, at most one per claim. |
| Entities.FirstDateTime | src/entity.rs:117-137 | The result is `Some` exactly when some claim of the property holds a date-time. It is then the date-time of the first such claim. |
| Entities.StartTime | src/entity.rs:117-126 | `start_time` gives the first date of birth held as a date-time, and is `None` only when there is none. |
| Entities.EndTime | src/entity.rs:128-137 | `end_time` gives the first date of death held as a date-time, and is `None` only when there is none. |

## Left out

- Decimal string-to-`f64` conversion, in `parse_wb_number` and Rust's `str::parse::<f64>`. It is a parameter of every function that reads numbers, because modelling correctly rounded decimal conversion is out of scope. No lat, lon, precision or amount arithmetic takes place.
- The conversion of a JSON number to `f64` in `parse_wb_number` (`as_number()?.into()`, src/entity.rs:150). It is taken as already done: `Json.Number` holds the resulting `f64` bit pattern, because the `json` crate's decimal number representation and its rounding are outside this model.
- The `ParseIntError` payload of `IdParseError::UnparseableNumber`. Only the variant is kept, because the error kind carries no behaviour the crate uses.
- `eprintln!` diagnostics, which are logging only, and the serde derives, which are serialisation only.
- Moving and cloning JSON values. `take_prop`'s removal, `take`, `clone` and `drain` are not modelled, because each field is read once, so removal never changes a later read.
- Duplicate keys in a JSON object. The `json` crate keeps object keys unique, and the model reads the first entry under a key.
- The values of `INSTANCE_OF`, `DATE_OF_BIRTH` and `DATE_OF_DEATH`. They are taken as Wikidata's P31, P569 and P570, because src/ids/consts.rs builds them from tables that are not part of this model.
- `unit_suffix` and the other constant tables of src/ids/consts.rs, which are not part of this model.
- `Vec::with_capacity` and `shrink_to_fit`, which affect capacity only.
- Snak encoders (`EncodeSnak`, `EncodeClaim` and related). They exist only to state the round-trip properties. The crate has no encoder, and these write only the members the decoder reads.
- Snaks.TryGetAsQid: the contract states only what a success implies. The exact accepted set is characterised by `Snaks.ItemIriRoundTrip` and `Snaks.NoUnitIsNotAnItem` rather than by a full iff, because the iff would restate the body.
- Claims.RankFromName: the contract states only that a rank read is never deprecated. The full mapping is in `Claims.RankNames` and `Claims.RankFromNameInverts`.
