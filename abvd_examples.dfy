/**
  Cases from the record and downloader tests (test/test_Record.py,
  test/test_Downloader.py), worked through the model.
*/
module AbvdExamples {
  import opened Wrappers
  import opened Py
  import opened Tools
  import opened AbvdRecord
  import opened AbvdDownloader

  /** The record of the record tests, with language id `lid`. */
  function English(lid: Value): Record {
    Record(PInt(1), lid, PInt(2), PStr("English"), PStr("Hand"), PStr("hand"), PStr("?"), PStr("L"), PNone)
  }

  /** A plain name that the folding leaves alone is the slug of itself, so
      the taxon is the name, '_' and the id. */
  lemma PlainTaxon(r: Record, name: string, n: int, fold: string -> string)
    requires r.language == PStr(name) && r.lid == PInt(n)
    requires Trimmed(name) && PlainWord(name) && fold(name) == name
    ensures GetTaxon(r, fold) == Ok(PStr(name + "_" + IntToDecimal(n)))
  {
    PlainWordChars(name);
    SlugifyPlain(name, fold);
  }

  lemma EnglishIsPlain()
    ensures Trimmed("English") && PlainWord("English")
    ensures "English" + "_" + IntToDecimal(3) == "English_3"
  {
    assert IntToDecimal(3) == "3";
  }

  /** The record of the first taxon test, "English" with language id 3,
      has the taxon "English_3" (for a folding that leaves plain ASCII
      alone); without an id the taxon is just "English". */
  lemma EnglishTaxon(fold: string -> string)
    requires fold("English") == "English"
    ensures GetTaxon(English(PInt(3)), fold) == Ok(PStr("English_3"))
    ensures GetTaxon(English(PNone), fold) == Ok(PStr("English"))
  {
    EnglishIsPlain();
    PlainTaxon(English(PInt(3)), "English", 3, fold);
  }

  lemma ArosiWords()
    ensures PlainWord("Arosi") && PlainWord("Oneibia") && PlainWord("Village")
  {
  }

  lemma ArosiPhrase()
    ensures '[' !in "Oneibia Village" && '/' !in "Oneibia Village"
    ensures '(' !in "Oneibia Village" && ')' !in "Oneibia Village"
    ensures '-' !in "Oneibia Village"
  {
  }

  lemma ArosiJoins()
    ensures "Arosi" + " (" + "Oneibia Village" + ")" == "Arosi (Oneibia Village)"
    ensures "Arosi" + " " + "Oneibia Village" == "Arosi Oneibia Village"
    ensures "Oneibia" + " " + "Village" == "Oneibia Village"
    ensures "Arosi" + "_" + ("Oneibia" + "_" + "Village") + "_" + "583" == "Arosi_Oneibia_Village_583"
  {
  }

  lemma ArosiTrimmed()
    ensures Trimmed("Arosi (Oneibia Village)")
    ensures IntToDecimal(583) == "583"
  {
  }

  /** The record of the taxon test with spaces, "Arosi (Oneibia Village)"
      with language id 583, has the taxon "Arosi_Oneibia_Village_583": the
      parentheses are deleted and the spaces become '_' (for a folding that
      leaves the cut name alone). */
  lemma ArosiTaxon(fold: string -> string)
    requires fold("Arosi Oneibia Village") == "Arosi Oneibia Village"
    ensures GetTaxon(English(PInt(583)).(language := PStr("Arosi (Oneibia Village)")), fold) ==
      Ok(PStr("Arosi_Oneibia_Village_583"))
  {
    ArosiSlug(fold);
    ArosiTrimmed();
    SluggedTaxon(English(PInt(583)).(language := PStr("Arosi (Oneibia Village)")),
      "Arosi (Oneibia Village)", "Arosi" + "_" + ("Oneibia" + "_" + "Village"), 583, fold);
    ArosiJoins();
  }

  /** With an integer id, the taxon is the slug, '_' and the id's numeral. */
  lemma SluggedTaxon(r: Record, name: string, slug: string, n: int, fold: string -> string)
    requires r.language == PStr(name) && r.lid == PInt(n) && Slugify(name, fold) == slug
    ensures GetTaxon(r, fold) == Ok(PStr(slug + "_" + IntToDecimal(n)))
  {
  }

  lemma ArosiSlug(fold: string -> string)
    requires fold("Arosi Oneibia Village") == "Arosi Oneibia Village"
    ensures Slugify("Arosi (Oneibia Village)", fold) == "Arosi" + "_" + ("Oneibia" + "_" + "Village")
  {
    ArosiWords();
    ArosiPhrase();
    ArosiJoins();
    ArosiTrimmed();
    PlainWordChars("Arosi");
    PlainWordChars("Oneibia");
    PlainWordChars("Village");
    SlugifyParenthesised("Arosi", "Oneibia Village", fold);
    TidySpace("Arosi", "Oneibia Village");
    TidySpace("Oneibia", "Village");
    TidyPlain("Arosi");
    TidyPlain("Oneibia");
    TidyPlain("Village");
  }

  /** "" and None are not loans; "L", "English" and True are. */
  lemma LoanCases()
    ensures !IsLoan(English(PNone).(loan := PStr("")))
    ensures !IsLoan(English(PNone).(loan := PNone))
    ensures IsLoan(English(PNone).(loan := PStr("L")))
    ensures IsLoan(English(PNone).(loan := PStr("English")))
    ensures IsLoan(English(PNone).(loan := PBool(true)))
  {
  }

  /** "uralic" is not a database; in austronesian, text ids are invalid and
      261 is dead, while bantu accepts 261. */
  lemma DownloaderCases()
    ensures NewDownloaderAsWritten("uralic", URL) == Err(UnknownDatabase("uralic"))
    ensures IsValidLanguage(Downloader("austronesian", URL), PStr("A")) == Err(InvalidLanguage)
    ensures IsValidLanguage(Downloader("austronesian", URL), PStr("Maori")) == Err(InvalidLanguage)
    ensures IsValidLanguage(Downloader("austronesian", URL), PInt(261)) == Err(DeadLanguage(261))
    ensures IsValidLanguage(Downloader("bantu", URL), PInt(261)) == Ok(PInt(261))
  {
  }
}
