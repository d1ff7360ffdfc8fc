/** Wikidata identifiers (src/ids.rs): `Qid`/`Pid`/`Lid` are one letter and a
    `u64`; `Fid`/`Sid` are a lexeme id plus a `u16`, written `L<n>-F<m>` and
    `L<n>-S<m>`. Parsing (`FromStr`), `Display` and `json_url`. */
module Ids {
  import opened Wrappers
  import opened Strings

  datatype Qid = Qid(n: u64)
  datatype Pid = Pid(n: u64)
  datatype Lid = Lid(n: u64)
  datatype Fid = Fid(lexeme: Lid, form: u16)
  datatype Sid = Sid(lexeme: Lid, sense: u16)

  /** The three main kinds of id an entity can have. */
  datatype WikiId = EntityId(qid: Qid) | PropertyId(pid: Pid) | LexemeId(lid: Lid)

  /** Why an id did not parse. The `ParseIntError` carried by Rust's
      `UnparseableNumber` is not modelled. */
  datatype IdParseError = UnparseableNumber | InvalidPrefix | TooManyParts | TooFewParts

  // ---------------------------------------------------------------------------
  // Single-letter ids: `id_def!`

  /** `from_str` of `id_def!`: the first char must be `letter`, the rest must
      parse as a `u64`. */
  function ParseLettered(x: string, letter: char): (r: Result<u64, IdParseError>)
    ensures r == Failure(InvalidPrefix) <==> |x| == 0 || x[0] != letter
    ensures r.Failure? ==> r.error in {InvalidPrefix, UnparseableNumber}
    ensures r.Success? ==> |x| >= 2 && '-' !in x[1..]
    ensures r.Success? ==> IsDigit(x[|x| - 1]) && forall i :: 1 < i < |x| ==> IsDigit(x[i])
    ensures r.Success? ==> ParseU64(x[1..]) == Some(r.value)
  {
    if |x| == 0 || x[0] != letter then Failure(InvalidPrefix)
    else
      match ParseU64(x[1..])
      case Some(n) => Success(n)
      case None => Failure(UnparseableNumber)
  }

  /** `Display` of `id_def!`: the letter, then the number in decimal. */
  function FormatLettered(letter: char, n: nat): (s: string)
    ensures |s| >= 2 && s[0] == letter
    ensures AllDigits(s[1..]) && DigitsValue(s[1..]) == n
    ensures s[1] == '0' ==> n == 0
  {
    [letter] + NatToString(n)
  }

  const EntityDataUrlPrefix: string := "https://www.wikidata.org/wiki/Special:EntityData/"

  /** `json_url` of `id_def!`. */
  function LetteredJsonUrl(letter: char, n: u64): (url: string)
    ensures |url| >= |EntityDataUrlPrefix| + 5
    ensures url[..|EntityDataUrlPrefix|] == EntityDataUrlPrefix
    ensures url[|url| - 5..] == ".json"
    ensures url[|EntityDataUrlPrefix|..|url| - 5] == FormatLettered(letter, n)
    ensures ParseLettered(url[|EntityDataUrlPrefix|..|url| - 5], letter) == Success(n)
  {
    LetteredRoundTrip(letter, n);
    var url := EntityDataUrlPrefix + [letter] + NatToString(n) + ".json";
    assert url[|EntityDataUrlPrefix|..|url| - 5] == [letter] + NatToString(n);
    url
  }

  /** Parsing the display of any `u64` id gives the same id back. */
  lemma LetteredRoundTrip(letter: char, n: u64)
    ensures ParseLettered(FormatLettered(letter, n), letter) == Success(n)
  {
    var s := FormatLettered(letter, n);
    assert s[1..] == NatToString(n);
    ParseNatToString(n, U64Bound);
  }

  /** A dash anywhere after the letter makes the number unparseable, so a
      form or sense id is never a lexeme id. */
  lemma LetteredRejectsDash(x: string, letter: char)
    requires |x| > 0 && x[0] == letter && '-' in x[1..]
    ensures ParseLettered(x, letter) == Failure(UnparseableNumber)
  {
    ParseRejectsForeignChar(x[1..], U64Bound, '-');
  }

  function ParseQid(x: string): (r: Result<Qid, IdParseError>) {
    match ParseLettered(x, 'Q')
    case Success(n) => Success(Qid(n))
    case Failure(e) => Failure(e)
  }

  function ParsePid(x: string): (r: Result<Pid, IdParseError>) {
    match ParseLettered(x, 'P')
    case Success(n) => Success(Pid(n))
    case Failure(e) => Failure(e)
  }

  function ParseLid(x: string): (r: Result<Lid, IdParseError>) {
    match ParseLettered(x, 'L')
    case Success(n) => Success(Lid(n))
    case Failure(e) => Failure(e)
  }

  function QidString(q: Qid): string {
    FormatLettered('Q', q.n)
  }

  function PidString(p: Pid): string {
    FormatLettered('P', p.n)
  }

  function LidString(l: Lid): string {
    FormatLettered('L', l.n)
  }

  function QidJsonUrl(q: Qid): (url: string)
    ensures url == EntityDataUrlPrefix + QidString(q) + ".json"
  {
    LetteredJsonUrl('Q', q.n)
  }

  function PidJsonUrl(p: Pid): (url: string)
    ensures url == EntityDataUrlPrefix + PidString(p) + ".json"
  {
    LetteredJsonUrl('P', p.n)
  }

  function LidJsonUrl(l: Lid): (url: string)
    ensures url == EntityDataUrlPrefix + LidString(l) + ".json"
  {
    LetteredJsonUrl('L', l.n)
  }

  lemma QidRoundTrip(q: Qid)
    ensures ParseQid(QidString(q)) == Success(q)
  {
    LetteredRoundTrip('Q', q.n);
  }

  lemma PidRoundTrip(p: Pid)
    ensures ParsePid(PidString(p)) == Success(p)
  {
    LetteredRoundTrip('P', p.n);
  }

  lemma LidRoundTrip(l: Lid)
    ensures ParseLid(LidString(l)) == Success(l)
  {
    LetteredRoundTrip('L', l.n);
  }

  /** The round trip holds only in one direction: a leading `+` and leading
      zeros are accepted, and `Display` drops them. */
  lemma DisplayIsNotInverseOfParse()
    ensures ParseQid("Q+42") == Success(Qid(42))
    ensures ParseQid("Q042") == Success(Qid(42))
    ensures QidString(Qid(42)) == "Q42"
  {
    assert "Q+42"[1..] == "+42";
    assert "+42"[1..] == "42";
    assert "Q042"[1..] == "042";
    assert DigitsValue("42") == 42 by {
      assert "42"[..1] == "4";
      assert "4"[..0] == "";
    }
    assert DigitsValue("042") == 42 by {
      assert "042"[..2] == "04";
      assert "04"[..1] == "0";
      assert "0"[..0] == "";
    }
    assert NatToString(42) == "42" by {
      assert NatToString(4) == "4";
    }
  }

  // ---------------------------------------------------------------------------
  // Lexeme sub-ids: `lexeme_subid_def!`

  /** `from_str` of `lexeme_subid_def!` with the kind letter `letter` (`F` or
      `S`): `L`, the lexeme number, a dash, the letter, the sub-number, and
      nothing more. Number errors are reported before surplus parts. */
  function ParseLexemeSubId(x: string, letter: char): (r: Result<(u64, u16), IdParseError>)
    ensures |x| == 0 || x[0] != 'L' ==> r == Failure(InvalidPrefix)
    ensures r.Success? ==> |x| > 0 && x[0] == 'L' && multiset(x[1..])['-'] == 1
    ensures r.Success? <==> |x| > 0 && x[0] == 'L' && var p := Split(x[1..], '-');
      |p| == 2 && ParseU64(p[0]).Some? && |p[1]| > 0 && p[1][0] == letter && ParseU16(p[1][1..]).Some?
    ensures r.Success? ==> var p := Split(x[1..], '-');
      ParseU64(p[0]) == Some(r.value.0) && ParseU16(p[1][1..]) == Some(r.value.1)
    ensures |x| > 0 && x[0] == 'L' && ParseU64(Split(x[1..], '-')[0]).None? ==> r == Failure(UnparseableNumber)
  {
    if |x| == 0 || x[0] != 'L' then Failure(InvalidPrefix)
    else
      var parts := Split(x[1..], '-');
      match ParseU64(parts[0])
      case None => Failure(UnparseableNumber)
      case Some(lexeme) =>
        if |parts| < 2 then Failure(TooFewParts)
        else if |parts[1]| == 0 || parts[1][0] != letter then Failure(InvalidPrefix)
        else
          match ParseU16(parts[1][1..])
          case None => Failure(UnparseableNumber)
          case Some(sub) =>
            if |parts| > 2 then Failure(TooManyParts)
            else
              OneDash(x[1..]);
              Success((lexeme, sub))
  }

  /** A string that splits into exactly two pieces at `-` holds one dash. */
  lemma OneDash(s: string)
    requires |Split(s, '-')| == 2
    ensures multiset(s)['-'] == 1
  {
    var parts := Split(s, '-');
    assert s == parts[0] + ['-'] + parts[1] by {
      JoinSplit(s, '-');
      assert parts[1..] == [parts[1]];
      assert Join(parts[1..], '-') == parts[1];
    }
  }

  /** `Display` of `lexeme_subid_def!`: the lexeme id, a dash, the letter and
      the sub-number. */
  function FormatLexemeSubId(letter: char, lexeme: nat, sub: nat): string {
    FormatLettered('L', lexeme) + "-" + [letter] + NatToString(sub)
  }

  function ParseFid(x: string): (r: Result<Fid, IdParseError>) {
    match ParseLexemeSubId(x, 'F')
    case Success((l, m)) => Success(Fid(Lid(l), m))
    case Failure(e) => Failure(e)
  }

  function ParseSid(x: string): (r: Result<Sid, IdParseError>) {
    match ParseLexemeSubId(x, 'S')
    case Success((l, m)) => Success(Sid(Lid(l), m))
    case Failure(e) => Failure(e)
  }

  function FidString(f: Fid): string {
    FormatLexemeSubId('F', f.lexeme.n, f.form)
  }

  function SidString(s: Sid): string {
    FormatLexemeSubId('S', s.lexeme.n, s.sense)
  }

  /** The display of a sub-id: `L`, then the text after it as two
      dash-separated pieces, the lexeme number and the letter with the
      sub-number. */
  lemma SubIdPieces(letter: char, lexeme: nat, sub: nat)
    requires letter != '-'
    ensures |FormatLexemeSubId(letter, lexeme, sub)| > 0 && FormatLexemeSubId(letter, lexeme, sub)[0] == 'L'
    ensures FormatLexemeSubId(letter, lexeme, sub)[1..] == NatToString(lexeme) + ['-'] + ([letter] + NatToString(sub))
    ensures Split(FormatLexemeSubId(letter, lexeme, sub)[1..], '-') == [NatToString(lexeme), [letter] + NatToString(sub)]
  {
    var a := NatToString(lexeme);
    var b := [letter] + NatToString(sub);
    var f := FormatLexemeSubId(letter, lexeme, sub);
    assert f == ['L'] + (a + ['-'] + b) by {
      assert FormatLettered('L', lexeme) == ['L'] + a;
    }
    assert f[1..] == a + ['-'] + b;
    NoDashInPieces(letter, lexeme, sub);
    SplitTwo(a, b, '-');
  }

  lemma NoDashInPieces(letter: char, lexeme: nat, sub: nat)
    requires letter != '-'
    ensures '-' !in NatToString(lexeme) && '-' !in [letter] + NatToString(sub)
  {
    var a := NatToString(lexeme);
    var b := [letter] + NatToString(sub);
    assert '-' !in a by { forall i | 0 <= i < |a| ensures a[i] != '-' { assert IsDigit(a[i]); } }
    assert '-' !in b by {
      forall i | 0 <= i < |b| ensures b[i] != '-' {
        if i > 0 { assert IsDigit(NatToString(sub)[i - 1]); }
      }
    }
  }

  /** Parsing the display of any sub-id gives the same numbers back. */
  lemma SubIdRoundTrip(letter: char, lexeme: u64, sub: u16)
    requires letter == 'F' || letter == 'S'
    ensures ParseLexemeSubId(FormatLexemeSubId(letter, lexeme, sub), letter) == Success((lexeme, sub))
  {
    var x := FormatLexemeSubId(letter, lexeme, sub);
    SubIdPieces(letter, lexeme, sub);
    var parts := Split(x[1..], '-');
    assert x[0] == 'L';
    assert |parts| == 2 && parts[1][0] == letter;
    ParseNatToString(lexeme, U64Bound);
    assert ParseU64(parts[0]) == Some(lexeme);
    assert parts[1][1..] == NatToString(sub);
    ParseNatToString(sub, U16Bound);
    assert ParseU16(parts[1][1..]) == Some(sub);
  }

  lemma FidRoundTrip(f: Fid)
    ensures ParseFid(FidString(f)) == Success(f)
  {
    SubIdRoundTrip('F', f.lexeme.n, f.form);
  }

  lemma SidRoundTrip(s: Sid)
    ensures ParseSid(SidString(s)) == Success(s)
  {
    SubIdRoundTrip('S', s.lexeme.n, s.sense);
  }

  /** Without a dash there is no second part: `TooFewParts`, unless the
      lexeme number itself is already unparseable. */
  lemma SubIdWithoutDash(rest: string, letter: char)
    requires '-' !in rest
    ensures ParseLexemeSubId("L" + rest, letter)
         == if ParseU64(rest).Some? then Failure(TooFewParts) else Failure(UnparseableNumber)
  {
    assert ("L" + rest)[1..] == rest;
    SplitWithoutSep(rest, '-');
  }

  /** A second part that does not start with the kind letter (including an
      empty one) is an `InvalidPrefix`, whatever follows it. */
  lemma SubIdWrongSecondLetter(lexeme: string, rest: string, letter: char)
    requires '-' !in lexeme && ParseU64(lexeme).Some?
    requires |rest| == 0 || rest[0] != letter
    ensures ParseLexemeSubId("L" + lexeme + "-" + rest, letter) == Failure(InvalidPrefix)
  {
    assert ("L" + lexeme + "-" + rest)[1..] == lexeme + ['-'] + rest;
    SplitAtFirstSep(lexeme, '-', rest);
  }

  /** With a third dash-separated part, both numbers are still checked first;
      only when they parse is the id `TooManyParts`. */
  lemma SubIdExtraPart(lexeme: string, sub: string, extra: string, letter: char)
    requires '-' !in lexeme && '-' !in sub && letter != '-'
    ensures ParseLexemeSubId("L" + lexeme + "-" + [letter] + sub + "-" + extra, letter)
         == if ParseU64(lexeme).None? then Failure(UnparseableNumber)
            else if ParseU16(sub).None? then Failure(UnparseableNumber)
            else Failure(TooManyParts)
  {
    var second := [letter] + sub;
    var x := "L" + lexeme + "-" + [letter] + sub + "-" + extra;
    assert x[1..] == lexeme + ['-'] + (second + ['-'] + extra);
    SplitAtFirstSep(lexeme, '-', second + ['-'] + extra);
    assert '-' !in second;
    SplitAtFirstSep(second, '-', extra);
    assert second[1..] == sub;
  }

  /** A sub-number that does not fit in 16 bits is an `UnparseableNumber`. */
  lemma SubIdNumberTooWide(letter: char, lexeme: u64, sub: nat)
    requires letter == 'F' || letter == 'S'
    requires sub >= U16Bound
    ensures ParseLexemeSubId(FormatLexemeSubId(letter, lexeme, sub), letter) == Failure(UnparseableNumber)
  {
    var x := FormatLexemeSubId(letter, lexeme, sub);
    SubIdPieces(letter, lexeme, sub);
    var parts := Split(x[1..], '-');
    assert x[0] == 'L';
    assert |parts| == 2 && parts[1][0] == letter;
    ParseNatToString(lexeme, U64Bound);
    assert ParseU64(parts[0]) == Some(lexeme);
    assert parts[1][1..] == NatToString(sub);
    ParseNatToString(sub, U16Bound);
    assert ParseU16(parts[1][1..]) == None;
  }
}
