/**
  Lexical records (class Record of abvdget/ABVD.py): whether an entry is a
  loan, the taxon name of its language, and how `ABVDatabase.to_record`
  builds a record from a language's details and one lexicon entry.

  Record fields hold whatever Python value they were given, so they are
  `Value`s here.
*/
module AbvdRecord {
  import opened Wrappers
  import opened Py
  import opened Tools

  datatype Record = Record(
    id: Value, lid: Value, wid: Value, language: Value, word: Value,
    item: Value, annotation: Value, loan: Value, cognacy: Value)

  /** `is_loan`: None, False and "" are not loans (compared with `==`, so
      the integer 0, equal to False, is not one either); anything else is. */
  function IsLoan(r: Record): (b: bool)
    ensures !b <==> r.loan in {PNone, PBool(false), PInt(0), PStr("")}
  {
    if r.loan.PNone? then false
    else if Equal(r.loan, PBool(false)) || Equal(r.loan, PStr("")) then false
    else if r.loan == PBool(true) then true
    else true
  }

  /** Why `get_taxon` raises. */
  datatype TaxonError =
    | LanguageNotText(typeName: string)  // slugify() needs a str
    | LidNotNumber(typeName: string)     // "%d" needs a number

  /** `get_taxon()`: the language unchanged when the record has no LID,
      otherwise `"%s_%d" % (slugify(Language), LID)`; `fold` is the Unicode
      folding inside slugify. */
  function GetTaxon(r: Record, fold: string -> string): (t: Result<Value, TaxonError>)
    ensures r.lid.PNone? ==> t == Ok(r.language)
    ensures !r.lid.PNone? && !r.language.PStr? ==> t == Err(LanguageNotText(TypeName(r.language)))
    ensures !r.lid.PNone? && r.language.PStr? && !IsInt(r.lid) ==> t == Err(LidNotNumber(TypeName(r.lid)))
    ensures !r.lid.PNone? && r.language.PStr? && IsInt(r.lid) ==>
      t == Ok(PStr(Slugify(r.language.s, fold) + "_" + IntToDecimal(IntValue(r.lid))))
    ensures !r.lid.PNone? && t.Ok? ==> t.value.PStr? && ' ' !in t.value.s
  {
    if r.lid.PNone? then Ok(r.language)
    else if !r.language.PStr? then Err(LanguageNotText(TypeName(r.language)))
    else if !IsInt(r.lid) then Err(LidNotNumber(TypeName(r.lid)))
    else
      var slug := Slugify(r.language.s, fold);
      var d := IntToDecimal(IntValue(r.lid));
      DecimalWithout(IntValue(r.lid), ' ');
      Ok(PStr(slug + "_" + d))
  }

  /** A decimal number has no space and no '_'. */
  lemma DecimalWithout(n: int, c: char)
    requires c == ' ' || c == '_'
    ensures c !in IntToDecimal(n)
  {
    var d := IntToDecimal(n);
    assert d[0] != c;
  }

  /** The last '_'-separated field of a taxon name. */
  function LastField(t: string): string {
    var parts := Split(t, '_');
    parts[|parts| - 1]
  }

  /** The number after the last '_' of `slug_n` reads back as `n`. */
  lemma LastFieldIsNumber(slug: string, n: int)
    ensures ParseInt(LastField(slug + "_" + IntToDecimal(n))) == Some(n)
  {
    var d := IntToDecimal(n);
    assert slug + "_" + d == slug + ['_'] + d;
    SplitAround(slug, d, '_');
    DecimalWithout(n, '_');
    SplitWithoutSep(d, '_');
    ParseDecimal(n);
  }

  /** The taxon name gives back the LID: its last '_'-separated field reads
      as the record's LID, whatever the language name holds. */
  lemma TaxonGivesLid(r: Record, fold: string -> string)
    requires !r.lid.PNone? && GetTaxon(r, fold).Ok?
    ensures GetTaxon(r, fold).value.PStr?
    ensures ParseInt(LastField(GetTaxon(r, fold).value.s)) == Some(IntValue(r.lid))
  {
    LastFieldIsNumber(Slugify(r.language.s, fold), IntValue(r.lid));
  }

  // ---------------------------------------------------------------------
  // to_record

  /** A JSON object as `json.load` gives it. */
  type Object = map<string, Value>

  /** Why `int(v)` raises: ValueError for text that is not an integer,
      TypeError for None and other objects. */
  datatype IntError = NotNumeral(text: string) | NotConvertible(typeName: string)

  /** `int(v)` */
  function PyInt(v: Value): (r: Result<int, IntError>)
    ensures IsInt(v) ==> r == Ok(IntValue(v))
    ensures v.PStr? ==> (r.Ok? <==> ParseInt(v.s).Some?)
    ensures v.PNone? || v.PObject? ==> r.Err?
  {
    match v
    case PBool(_) => Ok(IntValue(v))
    case PInt(i) => Ok(i)
    case PStr(s) => if ParseInt(s).Some? then Ok(ParseInt(s).value) else Err(NotNumeral(s))
    case _ => Err(NotConvertible(TypeName(v)))
  }

  /** Why `to_record` raises: a missing key (KeyError) or an id that `int()`
      rejects. */
  datatype RecordError = MissingKey(key: string) | BadId(key: string, error: IntError)

  /** The entry keys `to_record` reads, in the order it reads them. */
  const EntryFields: seq<string> :=
    ["id", "word_id", "word", "item", "annotation", "loan", "cognacy"]

  /** `to_record(details, entry)`: the language id and the entry's id and
      word id go through `int()`; every other field is copied as it is.
      Errors come in the order Python evaluates the arguments. */
  function ToRecord(details: Object, entry: Object): (r: Result<Record, RecordError>)
    ensures r.Ok? <==>
      "id" in details && "language" in details &&
      (forall k :: k in EntryFields ==> k in entry) &&
      PyInt(details["id"]).Ok? && PyInt(entry["id"]).Ok? && PyInt(entry["word_id"]).Ok?
    ensures r.Ok? ==>
      r.value.lid == PInt(PyInt(details["id"]).value) &&
      r.value.id == PInt(PyInt(entry["id"]).value) &&
      r.value.wid == PInt(PyInt(entry["word_id"]).value)
    ensures r.Ok? ==>
      r.value.language == details["language"] && r.value.word == entry["word"] &&
      r.value.item == entry["item"] && r.value.annotation == entry["annotation"] &&
      r.value.loan == entry["loan"] && r.value.cognacy == entry["cognacy"]
  {
    if "id" !in details then Err(MissingKey("id"))
    else if PyInt(details["id"]).Err? then Err(BadId("id", PyInt(details["id"]).error))
    else if "id" !in entry then Err(MissingKey("id"))
    else if PyInt(entry["id"]).Err? then Err(BadId("id", PyInt(entry["id"]).error))
    else if "word_id" !in entry then Err(MissingKey("word_id"))
    else if PyInt(entry["word_id"]).Err? then Err(BadId("word_id", PyInt(entry["word_id"]).error))
    else if "language" !in details then Err(MissingKey("language"))
    else if "word" !in entry then Err(MissingKey("word"))
    else if "item" !in entry then Err(MissingKey("item"))
    else if "annotation" !in entry then Err(MissingKey("annotation"))
    else if "loan" !in entry then Err(MissingKey("loan"))
    else if "cognacy" !in entry then Err(MissingKey("cognacy"))
    else
      Ok(Record(
        PInt(PyInt(entry["id"]).value), PInt(PyInt(details["id"]).value),
        PInt(PyInt(entry["word_id"]).value), details["language"], entry["word"],
        entry["item"], entry["annotation"], entry["loan"], entry["cognacy"]))
  }

  /** `int()` reads back the decimal text of an integer. */
  lemma PyIntOfDecimal(n: int)
    ensures PyInt(PStr(IntToDecimal(n))) == Ok(n)
  {
    ParseDecimal(n);
  }

  /** Ids stored as decimal text (as the downloaded JSON holds them) come
      back as those integers. */
  lemma ToRecordReadsDecimalIds(details: Object, entry: Object, lid: int, id: int, wid: int)
    requires "id" in details && "language" in details && forall k :: k in EntryFields ==> k in entry
    requires details["id"] == PStr(IntToDecimal(lid))
    requires entry["id"] == PStr(IntToDecimal(id))
    requires entry["word_id"] == PStr(IntToDecimal(wid))
    ensures ToRecord(details, entry).Ok?
    ensures ToRecord(details, entry).value.lid == PInt(lid)
    ensures ToRecord(details, entry).value.id == PInt(id)
    ensures ToRecord(details, entry).value.wid == PInt(wid)
  {
    PyIntOfDecimal(lid);
    PyIntOfDecimal(id);
    PyIntOfDecimal(wid);
    assert "id" in entry && "word_id" in entry by {
      assert EntryFields[0] == "id" && EntryFields[1] == "word_id";
    }
  }
}
