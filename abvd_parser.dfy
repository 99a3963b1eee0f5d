/**
  The record classifier and the checks of `Parser.parse` in
  abvdget/ABVD.py. The XML walk is not part of this model: a document is
  the sequence of its <record> elements, each the map from its child tags
  to their text (None for an empty element), so a tag cannot occur twice.
*/
module AbvdParser {
  import opened Wrappers

  /** One <record> element. */
  type Content = map<string, Option<string>>

  const LanguageKeys: seq<string> := [
    "id", "checkedby", "language", "classification", "author",
    "silcode", "glottocode", "notes", "typedby", "problems"]

  const LexiconKeys: seq<string> := [
    "id", "word_id", "word", "item", "annotation", "loan", "cognacy", "pmpcognacy"]

  const SourcedLexiconKeys: seq<string> := [
    "id", "word_id", "word", "source_id", "source", "item", "annotation", "loan", "cognacy"]

  const LocationKeys: seq<string> := ["latitude", "longitude"]

  /** Every expected key is present; other keys may be there too. */
  predicate HasKeys(c: Content, expected: seq<string>) {
    forall k :: k in expected ==> k in c
  }

  predicate IsLanguage(c: Content) { HasKeys(c, LanguageKeys) }
  predicate IsLexicon(c: Content) { HasKeys(c, LexiconKeys) }
  predicate IsSourcedLexicon(c: Content) { HasKeys(c, SourcedLexiconKeys) }
  predicate IsLocation(c: Content) { HasKeys(c, LocationKeys) }

  /** Extra keys and the values held never change a shape test: only the
      presence of the expected keys counts. */
  lemma HasKeysDependsOnKeysOnly(c: Content, d: Content, expected: seq<string>)
    requires forall k :: k in expected ==> (k in c <==> k in d)
    ensures HasKeys(c, expected) <==> HasKeys(d, expected)
  {
  }

  /** Adding keys to a record keeps every shape it had. */
  lemma HasKeysMonotone(c: Content, d: Content, expected: seq<string>)
    requires c.Keys <= d.Keys && HasKeys(c, expected)
    ensures HasKeys(d, expected)
  {
  }

  datatype Kind = LanguageRecord | LexiconRecord | SourcedLexiconRecord | LocationRecord | UnknownRecord

  /** The shape tests are tried in the order language, lexicon, lexicon with
      a source, location, and the first that holds wins; a record passing
      none is unknown. */
  function Classify(c: Content): (k: Kind)
    ensures k == LanguageRecord <==> IsLanguage(c)
    ensures k == LexiconRecord <==> !IsLanguage(c) && IsLexicon(c)
    ensures k == SourcedLexiconRecord <==>
      !IsLanguage(c) && !IsLexicon(c) && IsSourcedLexicon(c)
    ensures k == LocationRecord <==>
      !IsLanguage(c) && !IsLexicon(c) && !IsSourcedLexicon(c) && IsLocation(c)
    ensures k == UnknownRecord <==>
      !IsLanguage(c) && !IsLexicon(c) && !IsSourcedLexicon(c) && !IsLocation(c)
  {
    if IsLanguage(c) then LanguageRecord
    else if IsLexicon(c) then LexiconRecord
    else if IsSourcedLexicon(c) then SourcedLexiconRecord
    else if IsLocation(c) then LocationRecord
    else UnknownRecord
  }

  /** The `entities` dictionary. */
  datatype Entities = Entities(language: Option<Content>, lexicon: seq<Content>, location: Option<Content>)

  /** The ValueErrors `parse` raises. */
  datatype ParseError =
    | DuplicateLanguage
    | UnknownRecordType(content: Content)
    | NoLanguage
    | NoLexicon

  const NoEntities := Entities(None, [], None)

  /** One turn of the record loop. */
  function Step(e: Entities, c: Content): Result<Entities, ParseError> {
    match Classify(c)
    case LanguageRecord =>
      if e.language.Some? then Err(DuplicateLanguage) else Ok(e.(language := Some(c)))
    case LexiconRecord => Ok(e.(lexicon := e.lexicon + [c]))
    case SourcedLexiconRecord => Ok(e.(lexicon := e.lexicon + [c]))
    case LocationRecord => Ok(e.(location := Some(c)))
    case UnknownRecord => Err(UnknownRecordType(c))
  }

  /** The record loop over `rs`, left to right, stopping at the first raise. */
  function Walk(rs: seq<Content>): Result<Entities, ParseError>
    decreases |rs|
  {
    if rs == [] then Ok(NoEntities)
    else
      match Walk(rs[..|rs| - 1])
      case Err(err) => Err(err)
      case Ok(e) => Step(e, rs[|rs| - 1])
  }

  /** The checks after the loop. */
  function Finish(w: Result<Entities, ParseError>): Result<Entities, ParseError> {
    if w.Err? then w
    else if w.value.language.None? then Err(NoLanguage)
    else if |w.value.lexicon| == 0 then Err(NoLexicon)
    else w
  }

  /** `parse` on a document whose records are `records`. */
  method Parse(records: seq<Content>) returns (r: Result<Entities, ParseError>)
    ensures r == Finish(Walk(records))
  {
    var entities := NoEntities;
    var i := 0;
    while i < |records|
      invariant 0 <= i <= |records|
      invariant Walk(records[..i]) == Ok(entities)
    {
      var content := records[i];
      assert records[..i + 1][..i] == records[..i];
      match Classify(content) {
        case LanguageRecord =>
          if entities.language.Some? {
            WalkStopsAtError(records, i + 1);
            return Err(DuplicateLanguage);
          }
          entities := entities.(language := Some(content));
        case LexiconRecord =>
          entities := entities.(lexicon := entities.lexicon + [content]);
        case SourcedLexiconRecord =>
          entities := entities.(lexicon := entities.lexicon + [content]);
        case LocationRecord =>
          entities := entities.(location := Some(content));
        case UnknownRecord =>
          WalkStopsAtError(records, i + 1);
          return Err(UnknownRecordType(content));
      }
      i := i + 1;
    }
    assert records[..i] == records;
    if entities.language.None? {
      return Err(NoLanguage);
    }
    if |entities.lexicon| == 0 {
      return Err(NoLexicon);
    }
    return Ok(entities);
  }

  /** Once the loop raises, later records are never looked at. */
  lemma {:induction false} WalkStopsAtError(rs: seq<Content>, n: nat)
    requires n <= |rs| && Walk(rs[..n]).Err?
    ensures Walk(rs) == Walk(rs[..n])
    decreases |rs| - n
  {
    if n < |rs| {
      assert rs[..n + 1][..n] == rs[..n];
      WalkStopsAtError(rs, n + 1);
    } else {
      assert rs[..n] == rs;
    }
  }

  // ---------------------------------------------------------------------
  // What the loop collects, defined record by record

  /** The language records, in document order. */
  function Languages(rs: seq<Content>): seq<Content> {
    if rs == [] then []
    else Languages(rs[..|rs| - 1]) + (if Classify(rs[|rs| - 1]) == LanguageRecord then [rs[|rs| - 1]] else [])
  }

  predicate IsLexical(c: Content) {
    Classify(c) == LexiconRecord || Classify(c) == SourcedLexiconRecord
  }

  /** The lexicon records of either shape, in document order. */
  function Lexicons(rs: seq<Content>): (r: seq<Content>)
    ensures forall c :: c in r ==> c in rs && IsLexical(c)
    ensures forall i :: 0 <= i < |rs| && IsLexical(rs[i]) ==> rs[i] in r
  {
    if rs == [] then []
    else
      var p := rs[..|rs| - 1];
      var r := Lexicons(p) + (if IsLexical(rs[|rs| - 1]) then [rs[|rs| - 1]] else []);
      assert forall i :: 0 <= i < |p| ==> rs[i] == p[i];
      r
  }

  /** The last location record, if any. */
  function LastLocation(rs: seq<Content>): (r: Option<Content>)
    ensures r.Some? ==> r.value in rs && Classify(r.value) == LocationRecord
    ensures r.None? <==> forall i :: 0 <= i < |rs| ==> Classify(rs[i]) != LocationRecord
  {
    if rs == [] then None
    else if Classify(rs[|rs| - 1]) == LocationRecord then Some(rs[|rs| - 1])
    else
      var p := rs[..|rs| - 1];
      assert forall i :: 0 <= i < |p| ==> rs[i] == p[i];
      LastLocation(p)
  }

  predicate AllKnown(rs: seq<Content>) {
    forall i :: 0 <= i < |rs| ==> Classify(rs[i]) != UnknownRecord
  }

  function FirstOf(s: seq<Content>): Option<Content> {
    if s == [] then None else Some(s[0])
  }

  /** The loop runs through exactly when every record has a known shape and
      there is at most one language record; it then holds that record, the
      lexicon records in document order and the last location record. */
  lemma {:induction false} WalkCollects(rs: seq<Content>)
    ensures Walk(rs).Ok? <==> AllKnown(rs) && |Languages(rs)| <= 1
    ensures Walk(rs).Ok? ==>
      Walk(rs).value == Entities(FirstOf(Languages(rs)), Lexicons(rs), LastLocation(rs))
    decreases |rs|
  {
    if rs != [] {
      var p := rs[..|rs| - 1];
      var c := rs[|rs| - 1];
      WalkCollects(p);
      AllKnownSnoc(rs);
      var k := Classify(c);
      if Walk(p).Ok? {
        var e := Walk(p).value;
        assert Walk(rs) == Step(e, c);
        if k == LanguageRecord {
          assert Languages(rs) == Languages(p) + [c];
        } else {
          assert Languages(rs) == Languages(p);
        }
      } else {
        assert Walk(rs).Err?;
        if k == LanguageRecord {
          assert Languages(rs) == Languages(p) + [c];
        } else {
          assert Languages(rs) == Languages(p);
        }
      }
    }
  }

  lemma {:induction false} AllKnownSnoc(rs: seq<Content>)
    requires rs != []
    ensures AllKnown(rs) <==> AllKnown(rs[..|rs| - 1]) && Classify(rs[|rs| - 1]) != UnknownRecord
  {
    var p := rs[..|rs| - 1];
    assert forall i :: 0 <= i < |p| ==> rs[i] == p[i];
  }

  /** `parse` succeeds exactly when every record has a known shape, there is
      exactly one language record and at least one lexicon record. */
  lemma {:induction false} ParseSucceeds(rs: seq<Content>)
    ensures Finish(Walk(rs)).Ok? <==>
      AllKnown(rs) && |Languages(rs)| == 1 && |Lexicons(rs)| > 0
    ensures Finish(Walk(rs)).Ok? ==>
      Finish(Walk(rs)).value == Entities(Some(Languages(rs)[0]), Lexicons(rs), LastLocation(rs))
  {
    WalkCollects(rs);
  }

  /** A record that makes the loop raise: an unknown shape, or a language
      record after the first. */
  predicate Fault(rs: seq<Content>, i: nat)
    requires i < |rs|
  {
    Classify(rs[i]) == UnknownRecord ||
    (Classify(rs[i]) == LanguageRecord && |Languages(rs[..i])| >= 1)
  }

  function FaultError(c: Content): ParseError {
    if Classify(c) == UnknownRecord then UnknownRecordType(c) else DuplicateLanguage
  }

  /** When the loop raises, it is at the first faulty record, with that
      record's error. */
  lemma {:induction false} WalkFault(rs: seq<Content>) returns (i: nat)
    requires Walk(rs).Err?
    ensures i < |rs| && Fault(rs, i)
    ensures forall j :: 0 <= j < i ==> !Fault(rs, j)
    ensures Walk(rs).error == FaultError(rs[i])
    decreases |rs|
  {
    var p := rs[..|rs| - 1];
    if Walk(p).Err? {
      i := WalkFault(p);
      FaultInPrefix(rs, i);
      forall j | 0 <= j < i
        ensures !Fault(rs, j)
      {
        FaultInPrefix(rs, j);
      }
    } else {
      i := |p|;
      WalkCollects(p);
      assert rs[..i] == p;
      forall j | 0 <= j < i
        ensures !Fault(rs, j)
      {
        FaultInPrefix(rs, j);
        NoFaultWhileCollecting(p, j);
      }
    }
  }

  /** Whether a record is faulty does not depend on what follows it. */
  lemma {:induction false} FaultInPrefix(rs: seq<Content>, j: nat)
    requires j < |rs| - 1
    ensures Fault(rs, j) == Fault(rs[..|rs| - 1], j)
  {
    assert rs[..|rs| - 1][..j] == rs[..j];
  }

  /** A record list the loop runs through has no faulty record. */
  lemma {:induction false} NoFaultWhileCollecting(p: seq<Content>, j: nat)
    requires j < |p| && AllKnown(p) && |Languages(p)| <= 1
    ensures !Fault(p, j)
  {
    if Classify(p[j]) == LanguageRecord {
      var q := p[..j + 1];
      assert q[..j] == p[..j];
      LanguagesSnoc(q);
      LanguagesPrefix(p, j + 1);
    }
  }

  lemma {:induction false} LanguagesSnoc(rs: seq<Content>)
    requires rs != []
    ensures |Languages(rs)| ==
      |Languages(rs[..|rs| - 1])| + (if Classify(rs[|rs| - 1]) == LanguageRecord then 1 else 0)
  {
  }

  /** A prefix has no more language records than the whole. */
  lemma {:induction false} LanguagesPrefix(rs: seq<Content>, j: nat)
    requires j <= |rs|
    ensures |Languages(rs[..j])| <= |Languages(rs)|
    decreases |rs|
  {
    if j < |rs| {
      assert rs[..|rs| - 1][..j] == rs[..j];
      LanguagesPrefix(rs[..|rs| - 1], j);
    } else {
      assert rs[..j] == rs;
    }
  }

  /** A record with the tags of an older language record, without
      <glottocode> (and with no <word_id> or <latitude>), has no known shape. */
  lemma NoGlottocodeIsUnknown(c: Content)
    requires "glottocode" !in c && "word_id" !in c && "latitude" !in c
    ensures Classify(c) == UnknownRecord
  {
    assert LanguageKeys[6] == "glottocode";
    assert LexiconKeys[1] == "word_id";
    assert SourcedLexiconKeys[1] == "word_id";
    assert LocationKeys[0] == "latitude";
  }

  /** So a document with two such language records and a lexicon record is
      refused at the first of them as an unknown record type, not as a
      duplicate language. */
  lemma OldLanguageRecordsRefused(lang: Content, lex: Content)
    requires "glottocode" !in lang && "word_id" !in lang && "latitude" !in lang
    ensures Finish(Walk([lang, lang, lex])) == Err(UnknownRecordType(lang))
  {
    NoGlottocodeIsUnknown(lang);
    var rs := [lang, lang, lex];
    assert rs[..1][..0] == [];
    assert Walk(rs[..1]) == Err(UnknownRecordType(lang));
    WalkStopsAtError(rs, 1);
  }
}
