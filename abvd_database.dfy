/**
  `ABVDatabase` of abvdget/ABVD.py: a set of loaded language files, the
  per-file cache of lexical records that `get_lexicon` fills, the counts
  over it, and `process`, which gathers every file's records.

  Reading a file from disk is not part of this model: `Load` is given the
  parsed content of the file.
*/
module AbvdDatabase {
  import opened Wrappers
  import opened Py
  import opened AbvdRecord

  /** A loaded language file: its "language" entry (None when missing or
      null) and its "lexicon" entry (None when the key is missing). */
  datatype Loaded = Loaded(language: Option<Object>, lexicon: Option<seq<Object>>)

  /** Why a database operation raises. */
  datatype DbError =
    | FileNotLoaded(filename: string)   // KeyError from `self.files[filename]`
    | NoDetails(filename: string)       // ValueError "Data for ... not loaded"
    | NoLexiconKey(filename: string)    // KeyError 'lexicon'
    | BadEntry(error: RecordError)      // raised inside to_record

  // ---------------------------------------------------------------------
  // The records of one file

  /** Every entry converted with `to_record`, or the first refusal. */
  function ToRecords(details: Object, entries: seq<Object>): Result<seq<Record>, RecordError>
    decreases |entries|
  {
    if entries == [] then Ok([])
    else
      match ToRecord(details, entries[0])
      case Err(e) => Err(e)
      case Ok(rec) =>
        match ToRecords(details, entries[1..])
        case Err(e) => Err(e)
        case Ok(rest) => Ok([rec] + rest)
  }

  /** The records converted before the first refusal. */
  function Converted(details: Object, entries: seq<Object>): seq<Record>
    decreases |entries|
  {
    if entries == [] then []
    else
      match ToRecord(details, entries[0])
      case Err(_) => []
      case Ok(rec) => [rec] + Converted(details, entries[1..])
  }

  /** The conversion succeeds exactly when every entry converts, and then
      holds each entry's record in entry order. */
  lemma {:induction false} ToRecordsAll(details: Object, entries: seq<Object>)
    ensures ToRecords(details, entries).Ok? <==>
      forall i :: 0 <= i < |entries| ==> ToRecord(details, entries[i]).Ok?
    ensures ToRecords(details, entries).Ok? ==> |ToRecords(details, entries).value| == |entries|
    ensures ToRecords(details, entries).Ok? ==> forall i :: 0 <= i < |entries| ==>
      ToRecords(details, entries).value[i] == ToRecord(details, entries[i]).value
    decreases |entries|
  {
    if entries != [] {
      ToRecordsAll(details, entries[1..]);
      assert forall i :: 1 <= i < |entries| ==> entries[i] == entries[1..][i - 1];
    }
  }

  /** The converted records are the conversions of the first entries, up to
      the first entry that is refused. */
  lemma {:induction false} ConvertedPrefix(details: Object, entries: seq<Object>)
    ensures ConvertsTo(details, entries, Converted(details, entries))
    ensures |Converted(details, entries)| < |entries| ==>
      ToRecord(details, entries[|Converted(details, entries)|]).Err?
    decreases |entries|
  {
    if entries != [] {
      ConvertedPrefix(details, entries[1..]);
      assert forall i :: 1 <= i < |entries| ==> entries[i] == entries[1..][i - 1];
    }
  }

  /** A refusal is reported for the first entry that is not converted. */
  lemma {:induction false} ToRecordsFails(details: Object, entries: seq<Object>)
    requires ToRecords(details, entries).Err?
    ensures |Converted(details, entries)| < |entries|
    ensures ToRecord(details, entries[|Converted(details, entries)|]).Err?
    ensures ToRecords(details, entries).error ==
      ToRecord(details, entries[|Converted(details, entries)|]).error
    decreases |entries|
  {
    if ToRecord(details, entries[0]).Ok? {
      ToRecordsFails(details, entries[1..]);
    }
    ConvertedPrefix(details, entries);
  }

  /** `rs` are the conversions of the first `|rs|` entries. */
  ghost predicate ConvertsTo(details: Object, entries: seq<Object>, rs: seq<Record>) {
    |rs| <= |entries| &&
    forall i :: 0 <= i < |rs| ==>
      ToRecord(details, entries[i]).Ok? && rs[i] == ToRecord(details, entries[i]).value
  }

  lemma ConvertsToSnoc(details: Object, entries: seq<Object>, rs: seq<Record>, rec: Record)
    requires ConvertsTo(details, entries, rs)
    requires |rs| < |entries| && ToRecord(details, entries[|rs|]) == Ok(rec)
    ensures ConvertsTo(details, entries, rs + [rec])
  {
  }

  /** A list of records that agrees with the conversions up to the first
      refusal is the converted prefix. */
  lemma ConvertedUnique(details: Object, entries: seq<Object>, rs: seq<Record>)
    requires ConvertsTo(details, entries, rs)
    requires |rs| < |entries| ==> ToRecord(details, entries[|rs|]).Err?
    ensures rs == Converted(details, entries)
    ensures |rs| == |entries| ==> ToRecords(details, entries) == Ok(rs)
  {
    var c := Converted(details, entries);
    ConvertedPrefix(details, entries);
    assert |c| == |rs|;
    if |rs| == |entries| {
      ToRecordsAll(details, entries);
      var t := ToRecords(details, entries);
      assert t.Ok?;
      assert t.value == rs;
    }
  }

  /** What `get_details` adds to the language entry. */
  function Stamp(details: Object, filename: string): Object {
    details["filename" := PStr(filename)]
  }

  /** to_record reads only "id" and "language" of the details, so the
      added "filename" key changes nothing. */
  lemma StampInvisible(details: Object, filename: string, entries: seq<Object>)
    ensures ToRecords(Stamp(details, filename), entries) == ToRecords(details, entries)
    ensures Converted(Stamp(details, filename), entries) == Converted(details, entries)
  {
    var s := Stamp(details, filename);
    assert forall e :: ToRecord(s, e) == ToRecord(details, e);
    ToRecordsSame(s, details, entries);
    ConvertedSame(s, details, entries);
  }

  lemma {:induction false} ToRecordsSame(d1: Object, d2: Object, entries: seq<Object>)
    requires forall e :: ToRecord(d1, e) == ToRecord(d2, e)
    ensures ToRecords(d1, entries) == ToRecords(d2, entries)
    decreases |entries|
  {
    if entries != [] {
      ToRecordsSame(d1, d2, entries[1..]);
    }
  }

  lemma {:induction false} ConvertedSame(d1: Object, d2: Object, entries: seq<Object>)
    requires forall e :: ToRecord(d1, e) == ToRecord(d2, e)
    ensures Converted(d1, entries) == Converted(d2, entries)
    decreases |entries|
  {
    if entries != [] {
      ConvertedSame(d1, d2, entries[1..]);
    }
  }

  // ---------------------------------------------------------------------
  // Specification of the database operations, on the old state

  type Files = map<string, Loaded>
  type Cache = map<string, seq<Record>>

  /** `get_details`: the language entry with its file name added. */
  function Details(files: Files, filename: string): Result<Object, DbError> {
    if filename !in files then Err(FileNotLoaded(filename))
    else if files[filename].language.None? then Err(NoDetails(filename))
    else Ok(Stamp(files[filename].language.value, filename))
  }

  /** The files whose language entry carries the added key after
      `get_details(filename)`. */
  function StampedAfter(files: Files, stamped: set<string>, filename: string): set<string> {
    if filename in files && files[filename].language.Some? then stamped + {filename} else stamped
  }

  /** What `get_lexicon(filename)` yields. */
  function Lexicon(files: Files, cache: Cache, filename: string): (r: Result<seq<Record>, DbError>)
    ensures r.Err? ==> filename !in cache
    ensures filename !in cache && filename !in files ==> r == Err(FileNotLoaded(filename))
    ensures filename !in cache && r.Ok? ==>
      filename in files && files[filename].language.Some? && files[filename].lexicon.Some? &&
      |r.value| == |files[filename].lexicon.value|
  {
    if filename in cache then Ok(cache[filename])
    else if filename !in files then Err(FileNotLoaded(filename))
    else if files[filename].language.None? then Err(NoDetails(filename))
    else if files[filename].lexicon.None? then Err(NoLexiconKey(filename))
    else
      var d := files[filename].language.value;
      var es := files[filename].lexicon.value;
      ToRecordsAll(d, es);
      match ToRecords(d, es)
      case Ok(rs) => Ok(rs)
      case Err(e) => Err(BadEntry(e))
  }

  /** What the cache holds for `filename` after `get_lexicon(filename)`:
      the list is stored empty before anything can raise and filled one
      record at a time, so a raise leaves what was converted so far. */
  function CacheEntry(files: Files, cache: Cache, filename: string): (r: seq<Record>)
    ensures (filename !in cache && filename in files && files[filename].language.Some? &&
             files[filename].lexicon.Some?) ==>
      ConvertsTo(files[filename].language.value, files[filename].lexicon.value, r)
    ensures (filename !in cache &&
             (filename !in files || files[filename].language.None? || files[filename].lexicon.None?)) ==>
      r == []
  {
    if filename in cache then cache[filename]
    else if filename !in files || files[filename].language.None? || files[filename].lexicon.None? then []
    else
      var d := files[filename].language.value;
      var es := files[filename].lexicon.value;
      ConvertedPrefix(d, es);
      Converted(d, es)
  }

  /** When `get_lexicon` succeeds, the cache holds exactly what it yielded,
      and so every later call yields the same. */
  lemma CacheHoldsLexicon(files: Files, cache: Cache, filename: string)
    requires Lexicon(files, cache, filename).Ok?
    ensures CacheEntry(files, cache, filename) == Lexicon(files, cache, filename).value
    ensures Lexicon(files, cache[filename := CacheEntry(files, cache, filename)], filename) ==
      Lexicon(files, cache, filename)
  {
    if filename !in cache {
      var d := files[filename].language.value;
      var es := files[filename].lexicon.value;
      ToRecordsAll(d, es);
      assert ConvertsTo(d, es, ToRecords(d, es).value);
      ConvertedUnique(d, es, ToRecords(d, es).value);
    }
  }

  /** When `get_lexicon` raises, the cache keeps a strict prefix of the
      file's records, and the next call yields that prefix instead of
      raising again. */
  lemma FailureCachesPrefix(files: Files, cache: Cache, filename: string)
    requires Lexicon(files, cache, filename).Err?
    ensures filename !in cache
    ensures filename in files && files[filename].language.Some? && files[filename].lexicon.Some? ==>
      |CacheEntry(files, cache, filename)| < |files[filename].lexicon.value|
    ensures Lexicon(files, cache[filename := CacheEntry(files, cache, filename)], filename) ==
      Ok(CacheEntry(files, cache, filename))
  {
    if filename in files && files[filename].language.Some? && files[filename].lexicon.Some? {
      ToRecordsFails(files[filename].language.value, files[filename].lexicon.value);
    }
  }

  /** The number of records with a cognacy value. */
  function CountCognates(rs: seq<Record>): (n: nat)
    ensures n <= |rs|
    ensures n == |rs| <==> forall i :: 0 <= i < |rs| ==> !rs[i].cognacy.PNone?
    ensures n == 0 <==> forall i :: 0 <= i < |rs| ==> rs[i].cognacy.PNone?
    decreases |rs|
  {
    if rs == [] then 0
    else
      var rest := CountCognates(rs[1..]);
      assert forall i :: 1 <= i < |rs| ==> rs[i] == rs[1..][i - 1];
      (if rs[0].cognacy.PNone? then 0 else 1) + rest
  }

  /** One record counts exactly when it has a cognacy value. */
  lemma CountCognatesSingle(r: Record)
    ensures CountCognates([r]) == if r.cognacy.PNone? then 0 else 1
  {
    assert [r][1..] == [];
  }

  /** The count over two lists of records is the sum of their counts, so
      with `CountCognatesSingle` it is the number of records with a cognacy
      value. */
  lemma {:induction false} CountCognatesConcat(a: seq<Record>, b: seq<Record>)
    ensures CountCognates(a + b) == CountCognates(a) + CountCognates(b)
    decreases |a|
  {
    if a == [] {
      assert a + b == b;
    } else {
      assert (a + b)[0] == a[0];
      assert (a + b)[1..] == a[1..] + b;
      CountCognatesConcat(a[1..], b);
    }
  }

  /** What `process` gathers before it stops, and why it stopped. */
  datatype Outcome = Outcome(gathered: seq<Record>, failure: Option<DbError>)

  /** One file of `process`: `get_details` first, then `get_lexicon`. */
  function ProcessStep(files: Files, cache: Cache, filename: string): Result<seq<Record>, DbError> {
    if filename !in files then Err(FileNotLoaded(filename))
    else if files[filename].language.None? then Err(NoDetails(filename))
    else Lexicon(files, cache, filename)
  }

  /** `process` over the files `fs`, in order, stopping at the first raise. */
  function Collect(files: Files, cache: Cache, fs: seq<string>): (o: Outcome)
    ensures o.failure.None? <==> forall i :: 0 <= i < |fs| ==> ProcessStep(files, cache, fs[i]).Ok?
    ensures o.failure.Some? ==> exists i :: 0 <= i < |fs| && ProcessStep(files, cache, fs[i]) == Err(o.failure.value)
    decreases |fs|
  {
    if fs == [] then Outcome([], None)
    else
      var o := Collect(files, cache, fs[..|fs| - 1]);
      if o.failure.Some? then o
      else
        match ProcessStep(files, cache, fs[|fs| - 1])
        case Err(e) => Outcome(o.gathered, Some(e))
        case Ok(rs) => Outcome(o.gathered + rs, None)
  }

  /** When every file succeeds, `process` gathers every file's records, in
      the order the files were loaded. */
  lemma {:induction false} CollectAll(files: Files, cache: Cache, fs: seq<string>, i: nat)
    requires i < |fs| && Collect(files, cache, fs).failure.None?
    ensures ProcessStep(files, cache, fs[i]).Ok?
    ensures Collect(files, cache, fs[..i]).gathered + ProcessStep(files, cache, fs[i]).value
      <= Collect(files, cache, fs).gathered
    decreases |fs|
  {
    var p := fs[..|fs| - 1];
    if i < |p| {
      assert p[..i] == fs[..i] && p[i] == fs[i];
      CollectAll(files, cache, p, i);
    } else {
      assert p == fs[..i];
    }
  }

  // ---------------------------------------------------------------------
  // Loading files one after another

  /** The files after loading each of `inputs` in turn: a later file of the
      same name replaces the earlier one. */
  function LoadedFiles(inputs: seq<(string, Loaded)>): Files
    decreases |inputs|
  {
    if inputs == [] then map[]
    else
      var last := inputs[|inputs| - 1];
      LoadedFiles(inputs[..|inputs| - 1])[last.0 := last.1]
  }

  /** The order of the keys after loading each of `inputs` in turn: a name
      takes its place when it is first loaded. */
  function LoadOrder(inputs: seq<(string, Loaded)>): seq<string>
    decreases |inputs|
  {
    if inputs == [] then []
    else
      var o := LoadOrder(inputs[..|inputs| - 1]);
      var name := inputs[|inputs| - 1].0;
      if name in o then o else o + [name]
  }

  /** The loaded names are the input names, each listed once, and they are
      the keys of the loaded files. */
  lemma {:induction false} LoadOrderNames(inputs: seq<(string, Loaded)>)
    ensures forall f :: f in LoadOrder(inputs) <==> exists i :: 0 <= i < |inputs| && inputs[i].0 == f
    ensures forall f :: f in LoadedFiles(inputs) <==> f in LoadOrder(inputs)
    ensures forall i, j :: 0 <= i < j < |LoadOrder(inputs)| ==> LoadOrder(inputs)[i] != LoadOrder(inputs)[j]
    decreases |inputs|
  {
    if inputs != [] {
      var p := inputs[..|inputs| - 1];
      LoadOrderNames(p);
      assert forall i :: 0 <= i < |p| ==> p[i] == inputs[i];
    }
  }

  /** A file holds the content of the last input of its name. */
  lemma {:induction false} LoadedFilesLast(inputs: seq<(string, Loaded)>, i: nat)
    requires i < |inputs|
    requires forall j :: i < j < |inputs| ==> inputs[j].0 != inputs[i].0
    ensures inputs[i].0 in LoadedFiles(inputs)
    ensures LoadedFiles(inputs)[inputs[i].0] == inputs[i].1
    decreases |inputs|
  {
    if i < |inputs| - 1 {
      var p := inputs[..|inputs| - 1];
      assert p[i] == inputs[i];
      LoadedFilesLast(p, i);
    }
  }

  /** Loading more files only adds names at the end of the order. */
  lemma {:induction false} LoadOrderPrefix(inputs: seq<(string, Loaded)>, n: nat)
    requires n <= |inputs|
    ensures LoadOrder(inputs[..n]) <= LoadOrder(inputs)
    decreases |inputs|
  {
    if n < |inputs| {
      var p := inputs[..|inputs| - 1];
      assert p[..n] == inputs[..n];
      LoadOrderPrefix(p, n);
    } else {
      assert inputs[..n] == inputs;
    }
  }

  /** The first input of a name puts that name next in the order: the names
      are in the order of their first loading. */
  lemma LoadOrderFirst(inputs: seq<(string, Loaded)>, i: nat)
    requires i < |inputs|
    requires forall j :: 0 <= j < i ==> inputs[j].0 != inputs[i].0
    ensures |LoadOrder(inputs[..i])| < |LoadOrder(inputs)|
    ensures LoadOrder(inputs)[|LoadOrder(inputs[..i])|] == inputs[i].0
  {
    var q := inputs[..i + 1];
    assert q[..|q| - 1] == inputs[..i];
    LoadOrderNames(inputs[..i]);
    assert forall j :: 0 <= j < i ==> inputs[..i][j] == inputs[j];
    assert inputs[i].0 !in LoadOrder(inputs[..i]);
    assert LoadOrder(q) == LoadOrder(inputs[..i]) + [inputs[i].0];
    LoadOrderPrefix(inputs, i + 1);
  }

  // ---------------------------------------------------------------------
  // The database object

  class ABVDatabase {
    /** `files`, with the order its keys were first inserted in. */
    var files: Files
    var order: seq<string>
    /** The files whose language entry holds the "filename" key that
        `get_details` writes into it; the entry as Python holds it is
        `Stamp(files[f].language.value, f)` for these. */
    var stamped: set<string>
    /** `_lexicon_by_file` */
    var lexiconByFile: Cache
    /** `records`: None until `process` runs. */
    var records: Option<seq<Record>>

    ghost predicate Valid()
      reads this
    {
      (forall f :: f in files <==> f in order) &&
      (forall i, j :: 0 <= i < j < |order| ==> order[i] != order[j])
    }

    /** `ABVDatabase(files)`, given the content of each file to load. */
    constructor (inputs: seq<(string, Loaded)>)
      ensures Valid()
      ensures files == LoadedFiles(inputs) && order == LoadOrder(inputs)
      ensures forall f :: f in files <==> exists i :: 0 <= i < |inputs| && inputs[i].0 == f
      ensures lexiconByFile == map[] && records == None && stamped == {}
    {
      files := map[];
      order := [];
      stamped := {};
      lexiconByFile := map[];
      records := None;
      new;
      var i := 0;
      while i < |inputs|
        invariant 0 <= i <= |inputs|
        invariant Valid()
        invariant files == LoadedFiles(inputs[..i]) && order == LoadOrder(inputs[..i])
        invariant lexiconByFile == map[] && records == None && stamped == {}
      {
        assert inputs[..i + 1][..i] == inputs[..i];
        Load(inputs[i].0, inputs[i].1);
        i := i + 1;
      }
      assert inputs[..i] == inputs;
      LoadOrderNames(inputs);
    }

    /** `load(filename)`: the file's content replaces any earlier one; a new
        name goes last in the iteration order. The record cache is left as
        it is. */
    method Load(filename: string, content: Loaded)
      requires Valid()
      modifies this
      ensures Valid()
      ensures files == old(files)[filename := content]
      ensures order == if filename in old(files) then old(order) else old(order) + [filename]
      ensures stamped == old(stamped) - {filename}
      ensures lexiconByFile == old(lexiconByFile) && records == old(records)
    {
      if filename !in files {
        order := order + [filename];
      }
      files := files[filename := content];
      stamped := stamped - {filename};
    }

    /** `get_details(filename)` */
    method GetDetails(filename: string) returns (d: Result<Object, DbError>)
      requires Valid()
      modifies this
      ensures Valid()
      ensures d == Details(old(files), filename)
      ensures stamped == StampedAfter(old(files), old(stamped), filename)
      ensures files == old(files) && order == old(order)
      ensures lexiconByFile == old(lexiconByFile) && records == old(records)
    {
      if filename !in files {
        return Err(FileNotLoaded(filename));
      }
      var language := files[filename].language;
      if language.None? {
        return Err(NoDetails(filename));
      }
      stamped := stamped + {filename};
      return Ok(Stamp(language.value, filename));
    }

    /** `get_lexicon(filename)`, run to the end. */
    method GetLexicon(filename: string) returns (r: Result<seq<Record>, DbError>)
      requires Valid()
      modifies this
      ensures Valid()
      ensures r == Lexicon(old(files), old(lexiconByFile), filename)
      ensures lexiconByFile ==
        old(lexiconByFile)[filename := CacheEntry(old(files), old(lexiconByFile), filename)]
      ensures stamped ==
        if filename in old(lexiconByFile) then old(stamped) else StampedAfter(old(files), old(stamped), filename)
      ensures files == old(files) && order == old(order) && records == old(records)
    {
      if filename in lexiconByFile {
        return Ok(lexiconByFile[filename]);
      }
      lexiconByFile := lexiconByFile[filename := []];
      var d := GetDetails(filename);
      if d.Err? {
        return Err(d.error);
      }
      var lexicon := files[filename].lexicon;
      if lexicon.None? {
        return Err(NoLexiconKey(filename));
      }
      var entries := lexicon.value;
      StampInvisible(files[filename].language.value, filename, entries);
      var converted := ConvertEntries(filename, d.value, entries);
      if converted.Err? {
        return Err(BadEntry(converted.error));
      }
      return Ok(converted.value);
    }

    /** The loop of `get_lexicon`: each entry is converted and appended to
        the file's cached list, which starts out empty. */
    method ConvertEntries(filename: string, details: Object, entries: seq<Object>)
      returns (r: Result<seq<Record>, RecordError>)
      requires Valid() && filename in lexiconByFile && lexiconByFile[filename] == []
      modifies this
      ensures Valid()
      ensures r == ToRecords(details, entries)
      ensures lexiconByFile == old(lexiconByFile)[filename := Converted(details, entries)]
      ensures stamped == old(stamped) && files == old(files) && order == old(order) && records == old(records)
    {
      var built: seq<Record> := [];
      var i := 0;
      while i < |entries|
        invariant 0 <= i <= |entries| && |built| == i
        invariant stamped == old(stamped) && files == old(files) && order == old(order) && records == old(records)
        invariant lexiconByFile == old(lexiconByFile)[filename := built]
        invariant ConvertsTo(details, entries, built)
      {
        var rec := ToRecord(details, entries[i]);
        if rec.Err? {
          ConvertedUnique(details, entries, built);
          ToRecordsAll(details, entries);
          ToRecordsFails(details, entries);
          return Err(rec.error);
        }
        ConvertsToSnoc(details, entries, built, rec.value);
        built := built + [rec.value];
        lexiconByFile := lexiconByFile[filename := built];
        i := i + 1;
      }
      ConvertedUnique(details, entries, built);
      return Ok(built);
    }

    /** `get_nlexemes(filename)`: how many records the file has. */
    method GetNLexemes(filename: string) returns (r: Result<nat, DbError>)
      requires Valid()
      modifies this
      ensures Valid()
      ensures r.Ok? <==> Lexicon(old(files), old(lexiconByFile), filename).Ok?
      ensures r.Ok? ==> r.value == |Lexicon(old(files), old(lexiconByFile), filename).value|
      ensures r.Err? ==> r.error == Lexicon(old(files), old(lexiconByFile), filename).error
      ensures lexiconByFile ==
        old(lexiconByFile)[filename := CacheEntry(old(files), old(lexiconByFile), filename)]
      ensures stamped ==
        if filename in old(lexiconByFile) then old(stamped) else StampedAfter(old(files), old(stamped), filename)
      ensures files == old(files) && order == old(order) && records == old(records)
    {
      var lexicon := GetLexicon(filename);
      if lexicon.Err? {
        return Err(lexicon.error);
      }
      return Ok(|lexicon.value|);
    }

    /** `get_ncognates(filename)`: how many of the file's records have a
        cognacy value; never more than `get_nlexemes`. */
    method GetNCognates(filename: string) returns (r: Result<nat, DbError>)
      requires Valid()
      modifies this
      ensures Valid()
      ensures r.Ok? <==> Lexicon(old(files), old(lexiconByFile), filename).Ok?
      ensures r.Ok? ==> r.value == CountCognates(Lexicon(old(files), old(lexiconByFile), filename).value)
      ensures r.Ok? ==> r.value <= |Lexicon(old(files), old(lexiconByFile), filename).value|
      ensures r.Err? ==> r.error == Lexicon(old(files), old(lexiconByFile), filename).error
      ensures lexiconByFile ==
        old(lexiconByFile)[filename := CacheEntry(old(files), old(lexiconByFile), filename)]
      ensures stamped ==
        if filename in old(lexiconByFile) then old(stamped) else StampedAfter(old(files), old(stamped), filename)
      ensures files == old(files) && order == old(order) && records == old(records)
    {
      var lexicon := GetLexicon(filename);
      if lexicon.Err? {
        return Err(lexicon.error);
      }
      return Ok(CountCognates(lexicon.value));
    }

    /** `process()`: the records of every file, in load order; a raise
        leaves `records` holding what was gathered before it. */
    method Process() returns (r: Result<seq<Record>, DbError>)
      requires Valid()
      modifies this
      ensures Valid()
      ensures records == Some(Collect(old(files), old(lexiconByFile), old(order)).gathered)
      ensures Collect(old(files), old(lexiconByFile), old(order)).failure.None? ==> r == Ok(records.value)
      ensures Collect(old(files), old(lexiconByFile), old(order)).failure.Some? ==>
        r == Err(Collect(old(files), old(lexiconByFile), old(order)).failure.value)
      ensures files == old(files) && order == old(order)
    {
      ghost var files0, cache0 := files, lexiconByFile;
      var gathered: seq<Record> := [];
      records := Some(gathered);
      var i := 0;
      while i < |order|
        invariant 0 <= i <= |order|
        invariant Valid()
        invariant files == files0 && order == old(order) && records == Some(gathered)
        invariant Pending(lexiconByFile, cache0, order, i)
        invariant Collect(files0, cache0, order[..i]) == Outcome(gathered, None)
      {
        var filename := order[i];
        PendingStep(files, lexiconByFile, cache0, order, i);
        ghost var cache1 := lexiconByFile;
        var step := ProcessFile(filename);
        if step.Err? {
          CollectSnoc(files0, cache0, order, i, gathered);
          CollectStops(files0, cache0, order, i + 1);
          return Err(step.error);
        }
        CollectSnoc(files0, cache0, order, i, gathered);
        PendingAfter(lexiconByFile, cache1, cache0, order, i);
        gathered := gathered + step.value;
        records := Some(gathered);
        i := i + 1;
      }
      assert order[..i] == order;
      return Ok(gathered);
    }

    /** One turn of the loop of `process`: `get_details`, then the records
        of `get_lexicon`. Only this file's cache entry changes. */
    method ProcessFile(filename: string) returns (r: Result<seq<Record>, DbError>)
      requires Valid()
      modifies this
      ensures Valid()
      ensures r == ProcessStep(old(files), old(lexiconByFile), filename)
      ensures stamped == StampedAfter(old(files), old(stamped), filename)
      ensures forall f :: f != filename ==>
        (f in lexiconByFile <==> f in old(lexiconByFile)) &&
        (f in lexiconByFile ==> lexiconByFile[f] == old(lexiconByFile)[f])
      ensures files == old(files) && order == old(order) && records == old(records)
    {
      var d := GetDetails(filename);
      if d.Err? {
        return Err(d.error);
      }
      r := GetLexicon(filename);
    }
  }

  /** The files `order[i..]` still have the cache entries they had in
      `cache0`. */
  ghost predicate Pending(cache: Cache, cache0: Cache, order: seq<string>, i: nat) {
    forall k :: i <= k < |order| ==>
      (order[k] in cache <==> order[k] in cache0) &&
      (order[k] in cache ==> cache[order[k]] == cache0[order[k]])
  }

  /** So the next file's step is the one it had at the start. */
  lemma PendingStep(files: Files, cache: Cache, cache0: Cache, order: seq<string>, i: nat)
    requires i < |order| && Pending(cache, cache0, order, i)
    ensures ProcessStep(files, cache, order[i]) == ProcessStep(files, cache0, order[i])
  {
  }

  /** A step that changes only the entry of `order[i]` leaves the files
      after it pending, when no name occurs twice in `order`. */
  lemma PendingAfter(cache: Cache, cache1: Cache, cache0: Cache, order: seq<string>, i: nat)
    requires i < |order| && Pending(cache1, cache0, order, i)
    requires forall j, k :: 0 <= j < k < |order| ==> order[j] != order[k]
    requires forall f :: f != order[i] ==>
      (f in cache <==> f in cache1) && (f in cache ==> cache[f] == cache1[f])
    ensures Pending(cache, cache0, order, i + 1)
  {
  }

  /** `process` over one more file. */
  lemma CollectSnoc(files: Files, cache: Cache, fs: seq<string>, i: nat, gathered: seq<Record>)
    requires i < |fs| && Collect(files, cache, fs[..i]) == Outcome(gathered, None)
    ensures ProcessStep(files, cache, fs[i]).Err? ==>
      Collect(files, cache, fs[..i + 1]) == Outcome(gathered, Some(ProcessStep(files, cache, fs[i]).error))
    ensures ProcessStep(files, cache, fs[i]).Ok? ==>
      Collect(files, cache, fs[..i + 1]) == Outcome(gathered + ProcessStep(files, cache, fs[i]).value, None)
  {
    assert fs[..i + 1][..i] == fs[..i];
  }

  /** Once a file raises, `process` looks at no later file. */
  lemma {:induction false} CollectStops(files: Files, cache: Cache, fs: seq<string>, n: nat)
    requires n <= |fs| && Collect(files, cache, fs[..n]).failure.Some?
    ensures Collect(files, cache, fs) == Collect(files, cache, fs[..n])
    decreases |fs| - n
  {
    if n < |fs| {
      assert fs[..n + 1][..n] == fs[..n];
      CollectStops(files, cache, fs, n + 1);
    } else {
      assert fs[..n] == fs;
    }
  }
}
