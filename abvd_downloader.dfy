/**
  The database and language-id checks of `Downloader` in abvdget/ABVD.py.
  Fetching over the network is not part of this model; a downloader is the
  value of its `database` and `url` attributes.
*/
module AbvdDownloader {
  import opened Wrappers
  import opened Py

  /** The download URL template. */
  const URL: string :=
    "http://abvd.shh.mpg.de/utils/save/?type=xml&section=%(db)s&language=%(id)d"

  /** The databases a downloader can serve. */
  const Databases: seq<string> := ["austronesian", "bantu", "mayan", "utoaztecan"]

  /** Language ids that were removed from each database. */
  const DeadLanguages: map<string, seq<int>> := map[
    "bantu" := [],
    "mayan" := [],
    "utoaztecan" := [],
    "austronesian" := [261, 874]]  // Futuna-Aniwa, proto-philippines

  datatype Downloader = Downloader(database: string, url: string)

  /** `ValueError("Unknown Database: ...")` */
  datatype UnknownDatabase = UnknownDatabase(name: string)

  /** `Downloader(database, url)` as written: the database must be listed,
      and the URL template kept is always `URL`, whatever `url` was given. */
  function NewDownloaderAsWritten(database: string, url: string): (r: Result<Downloader, UnknownDatabase>)
    ensures r.Ok? <==> database in Databases
    ensures r.Err? ==> r.error.name == database
    ensures r.Ok? ==> r.value.database == database && r.value.url == URL
  {
    if database !in Databases then Err(UnknownDatabase(database))
    else Ok(Downloader(database, URL))
  }

  /** A template passed to the constructor is lost. */
  lemma UrlArgumentIgnored()
    ensures NewDownloaderAsWritten("bantu", "http://localhost/%(db)s/%(id)d").value.url
      != "http://localhost/%(db)s/%(id)d"
  {
    assert |URL| != |"http://localhost/%(db)s/%(id)d"|;
  }

  /** `Downloader(database, url)` keeping the given template. */
  function NewDownloader(database: string, url: string): (r: Result<Downloader, UnknownDatabase>)
    ensures r.Ok? <==> database in Databases
    ensures r.Err? ==> r.error.name == database
    ensures r.Ok? ==> r.value.database == database && r.value.url == url
  {
    if database !in Databases then Err(UnknownDatabase(database))
    else Ok(Downloader(database, url))
  }

  /** With the default argument the two constructors agree. */
  lemma DefaultUrlAgrees(database: string)
    ensures NewDownloader(database, URL) == NewDownloaderAsWritten(database, URL)
  {
  }

  /** Why `is_valid_language` raises. */
  datatype LanguageError =
    | InvalidLanguage  // not an int
    | DeadLanguage(id: int)

  /** `is_valid_language(language_id)` on a constructed downloader; a bool
      is an int to Python, so True and False pass as 1 and 0. */
  function IsValidLanguage(d: Downloader, languageId: Value): (r: Result<Value, LanguageError>)
    requires d.database in Databases
    ensures !IsInt(languageId) ==> r == Err(InvalidLanguage)
    ensures IsInt(languageId) && IntValue(languageId) in DeadLanguages[d.database] ==>
      r == Err(DeadLanguage(IntValue(languageId)))
    ensures IsInt(languageId) && IntValue(languageId) !in DeadLanguages[d.database] ==>
      r == Ok(languageId)
  {
    if !IsInt(languageId) then Err(InvalidLanguage)
    else if IntValue(languageId) in DeadLanguages[d.database] then
      Err(DeadLanguage(IntValue(languageId)))
    else Ok(languageId)
  }

  /** Deadness is per database: 261 and 874 are removed from austronesian
      only, and every other integer id is valid everywhere. */
  lemma DeadOnlyInAustronesian(d: Downloader, id: int)
    requires d.database in Databases
    ensures IsValidLanguage(d, PInt(id)).Err? <==>
      d.database == "austronesian" && (id == 261 || id == 874)
  {
  }
}
