/**
  The text helpers of abvdget/tools.py: `clean`, which tidies a field read
  from the database, and `slugify`, which turns a language name into the
  stem of a file or taxon name.

  `slugify` decomposes accented letters (Unicode NFKD) and drops the
  combining marks this leaves. Unicode normalisation is not modelled: that
  step is the parameter `fold`, and every result here holds whatever `fold`
  does.
*/
module Tools {
  import opened Wrappers
  import opened Py

  /** `clean(var)`: None becomes the empty text; otherwise tabs and line
      feeds are deleted and the surrounding whitespace stripped. */
  function Clean(v: Option<string>): (r: string)
    ensures v.None? ==> r == ""
    ensures '\t' !in r && '\n' !in r
    ensures Trimmed(r)
  {
    match v
    case None => ""
    case Some(s) =>
      var u := DeleteChar(DeleteChar(s, '\t'), '\n');
      StripKeepsAbsent(u, '\t');
      StripKeepsAbsent(u, '\n');
      Strip(u)
  }

  /** `clean` leaves a text alone exactly when it has no tab, no line feed and
      no surrounding whitespace: with the ensures of Clean, this describes
      every result `clean` can give. */
  lemma CleanKeeps(t: string)
    requires '\t' !in t && '\n' !in t && Trimmed(t)
    ensures Clean(Some(t)) == t
  {
    StripTrimmed(t);
  }

  /** Cleaning twice is cleaning once. */
  lemma CleanIdempotent(v: Option<string>)
    ensures Clean(Some(Clean(v))) == Clean(v)
  {
    CleanKeeps(Clean(v));
  }

  /** A tab or line feed inside a text is simply removed: "la\nng" cleans to
      "lang". */
  lemma CleanDropsBreak(a: string, c: char, b: string)
    requires c == '\t' || c == '\n'
    ensures Clean(Some(a + [c] + b)) == Clean(Some(a + b))
  {
    DeleteCharConcat(a + [c], b, '\t');
    DeleteCharConcat(a, [c], '\t');
    DeleteCharConcat(a, b, '\t');
    var a1 := DeleteChar(a, '\t');
    var b1 := DeleteChar(b, '\t');
    var c1 := DeleteChar([c], '\t');
    assert c1 == (if c == '\t' then [] else [c]);
    DeleteCharConcat(a1 + c1, b1, '\n');
    DeleteCharConcat(a1, c1, '\n');
    DeleteCharConcat(a1, b1, '\n');
    assert DeleteChar(c1, '\n') == [];
    assert DeleteChar(a1, '\n') + [] == DeleteChar(a1, '\n');
  }

  /** `str.strip()` removes Unicode whitespace too: a name ending in a
      no-break space (U+00A0) cleans to the name. */
  lemma CleanNoBreakSpace(t: string)
    requires '\t' !in t && '\n' !in t && Trimmed(t)
    ensures Clean(Some(t + "\U{A0}")) == t
  {
    var s := t + "\U{A0}";
    assert '\t' !in s && '\n' !in s;
    assert s == [] + t + "\U{A0}";
    StripPadded([], t, "\U{A0}");
  }

  // ---------------------------------------------------------------------
  // slugify

  /** `s.split(sep)[0].strip()` */
  function CutAt(s: string, sep: char): (r: string)
    ensures sep !in r
  {
    var first := Split(s, sep)[0];
    StripKeepsAbsent(first, sep);
    Strip(first)
  }

  /** A character absent from `s` stays absent after CutAt. */
  lemma CutAtKeepsAbsent(s: string, sep: char, c: char)
    requires c !in s
    ensures c !in CutAt(s, sep)
  {
    SplitKeepsAbsent(s, sep, c);
    StripKeepsAbsent(Split(s, sep)[0], c);
  }

  /** Lines 11-13 of slugify: keep what comes before any '[' and before any
      '/', strip it, and delete the parentheses. */
  function Cut(s: string): (r: string)
    ensures '[' !in r && '/' !in r && '(' !in r && ')' !in r
  {
    var v := CutAt(s, '[');
    CutAtKeepsAbsent(v, '/', '[');
    var w := CutAt(v, '/');
    DeleteChar(DeleteChar(w, '('), ')')
  }

  /** Lines 17-19 of slugify: hyphens, colons, question marks, apostrophes
      (typographic and plain), commas and full stops are deleted. */
  function Depunct(s: string): (r: string)
    ensures '-' !in r && ':' !in r && '?' !in r
    ensures '\U{2019}' !in r && '\'' !in r && ',' !in r && '.' !in r
    ensures forall c :: c in r ==> c in s
  {
    var a := DeleteChar(s, '-');
    var b := DeleteChar(DeleteChar(a, ':'), '?');
    var c := DeleteChar(DeleteChar(b, '\U{2019}'), '\'');
    DeleteChar(DeleteChar(c, ','), '.')
  }

  /** Lines 17-21 of slugify, the part that works character by character:
      punctuation deleted, spaces to "_", sharp s to "V". */
  function Finish(s: string): (r: string)
    ensures ' ' !in r && '-' !in r && ':' !in r && '?' !in r
    ensures '\U{2019}' !in r && '\'' !in r && ',' !in r && '.' !in r && '\U{DF}' !in r
  {
    ReplaceChar(ReplaceChar(Depunct(s), ' ', '_'), '\U{DF}', 'V')
  }

  /** Lines 16-21 of slugify: " - " becomes "_", then `Finish` deletes the
      punctuation, turns spaces into "_" and sharp s into "V". */
  function Tidy(s: string): (r: string)
    ensures ' ' !in r && '-' !in r && ':' !in r && '?' !in r
    ensures '\U{2019}' !in r && '\'' !in r && ',' !in r && '.' !in r && '\U{DF}' !in r
  {
    Finish(ReplaceAll(s, " - ", "_"))
  }

  /** Deleting the punctuation distributes over concatenation. */
  lemma DepunctConcat(s: string, t: string)
    ensures Depunct(s + t) == Depunct(s) + Depunct(t)
  {
    var cs := ['-', ':', '?', '\U{2019}', '\'', ',', '.'];
    for k := 0 to |cs|
      invariant DeleteChars(s + t, cs[..k]) == DeleteChars(s, cs[..k]) + DeleteChars(t, cs[..k])
    {
      DeleteCharConcat(DeleteChars(s, cs[..k]), DeleteChars(t, cs[..k]), cs[k]);
      DeleteCharsSnoc(s + t, cs[..k], cs[k]);
      DeleteCharsSnoc(s, cs[..k], cs[k]);
      DeleteCharsSnoc(t, cs[..k], cs[k]);
      assert cs[..k + 1] == cs[..k] + [cs[k]];
    }
    assert cs[..|cs|] == cs;
    DepunctIsDeleteChars(s + t);
    DepunctIsDeleteChars(s);
    DepunctIsDeleteChars(t);
  }

  /** Deleting several characters, one after another. */
  function DeleteChars(s: string, cs: seq<char>): string
    decreases |cs|
  {
    if cs == [] then s else DeleteChars(DeleteChar(s, cs[0]), cs[1..])
  }

  lemma {:induction false} DeleteCharsSnoc(s: string, cs: seq<char>, c: char)
    ensures DeleteChars(s, cs + [c]) == DeleteChar(DeleteChars(s, cs), c)
    decreases |cs|
  {
    if cs == [] {
      assert cs + [c] == [c];
    } else {
      assert (cs + [c])[0] == cs[0];
      assert (cs + [c])[1..] == cs[1..] + [c];
      DeleteCharsSnoc(DeleteChar(s, cs[0]), cs[1..], c);
    }
  }

  lemma DepunctIsDeleteChars(s: string)
    ensures Depunct(s) == DeleteChars(s, ['-', ':', '?', '\U{2019}', '\'', ',', '.'])
  {
  }

  /** The character-by-character part distributes over concatenation. */
  lemma FinishConcat(s: string, t: string)
    ensures Finish(s + t) == Finish(s) + Finish(t)
  {
    DepunctConcat(s, t);
    ReplaceCharConcat(Depunct(s), Depunct(t), ' ', '_');
    ReplaceCharConcat(ReplaceChar(Depunct(s), ' ', '_'), ReplaceChar(Depunct(t), ' ', '_'), '\U{DF}', 'V');
  }

  /** Without a hyphen there is no " - " to replace. */
  lemma TidyNoHyphen(s: string)
    requires '-' !in s
    ensures Tidy(s) == Finish(s)
  {
    assert " - "[1] == '-';
    ReplaceAllMissing(s, " - ", "_", 1);
  }

  /** Slugifying hyphen-free text works piece by piece. */
  lemma TidyConcat(a: string, b: string)
    requires '-' !in a && '-' !in b
    ensures Tidy(a + b) == Tidy(a) + Tidy(b)
  {
    TidyNoHyphen(a);
    TidyNoHyphen(b);
    TidyNoHyphen(a + b);
    FinishConcat(a, b);
  }

  lemma FinishSpace()
    ensures Finish(" ") == "_"
  {
    assert Depunct(" ") == " ";
  }

  lemma FinishSharpS()
    ensures Finish("\U{DF}") == "V"
  {
    assert Depunct("\U{DF}") == "\U{DF}";
  }

  lemma FinishUnderscore()
    ensures Finish("_") == "_"
  {
    assert Depunct("_") == "_";
  }

  lemma FinishFullStop()
    ensures Finish(".") == ""
  {
    assert Depunct(".") == "";
  }

  /** A full stop is deleted. */
  lemma TidyFullStop(a: string, b: string)
    requires '-' !in a && '-' !in b
    ensures Tidy(a + "." + b) == Tidy(a) + Tidy(b)
  {
    var x := a + ".";
    assert '-' !in x + b;
    TidyNoHyphen(x + b);
    TidyNoHyphen(a);
    TidyNoHyphen(b);
    FinishConcat(x, b);
    FinishConcat(a, ".");
    FinishFullStop();
    assert Finish(x) == Finish(a);
  }

  /** A space becomes "_". */
  lemma TidySpace(a: string, b: string)
    requires '-' !in a && '-' !in b
    ensures Tidy(a + " " + b) == Tidy(a) + "_" + Tidy(b)
  {
    TidyNoHyphen(a + " " + b);
    TidyNoHyphen(a);
    TidyNoHyphen(b);
    FinishConcat(a + " ", b);
    FinishConcat(a, " ");
    FinishSpace();
  }

  /** Sharp s becomes "V". */
  lemma TidySharpS(a: string, b: string)
    requires '-' !in a && '-' !in b
    ensures Tidy(a + "\U{DF}" + b) == Tidy(a) + "V" + Tidy(b)
  {
    TidyNoHyphen(a + "\U{DF}" + b);
    TidyNoHyphen(a);
    TidyNoHyphen(b);
    FinishConcat(a + "\U{DF}", b);
    FinishConcat(a, "\U{DF}");
    FinishSharpS();
  }

  /** The first " - " becomes one "_": "Aklanon - Bisayan" reads
      "Aklanon_Bisayan". */
  lemma TidyDash(a: string, b: string)
    requires '-' !in a
    ensures Tidy(a + " - " + b) == Tidy(a) + "_" + Tidy(b)
  {
    var x := a + " - " + b;
    forall i | 0 <= i < |a|
      ensures !(" - " <= x[i..])
    {
      assert x[i + 1] == if i + 1 < |a| then a[i + 1] else ' ';
      assert " - "[1] == '-';
    }
    ReplaceAllFirst(a, b, " - ", "_");
    var rest := ReplaceAll(b, " - ", "_");
    FinishConcat(a + "_", rest);
    FinishConcat(a, "_");
    FinishUnderscore();
    TidyNoHyphen(a);
  }

  /** `slugify(var)`, with the Unicode folding of lines 14-15 as `fold`. */
  function Slugify(s: string, fold: string -> string): (r: string)
    ensures ' ' !in r && '-' !in r && ':' !in r && '?' !in r
    ensures '\U{2019}' !in r && '\'' !in r && ',' !in r && '.' !in r && '\U{DF}' !in r
  {
    Tidy(fold(Cut(s)))
  }

  /** Everything from the first '[' on is ignored: "Buru [Namrole Bay]" has
      the slug of "Buru ". */
  lemma SlugifyIgnoresBracketed(s: string, t: string, fold: string -> string)
    requires '[' !in s
    ensures Slugify(s + "[" + t, fold) == Slugify(s, fold)
  {
    SplitAround(s, t, '[');
    SplitWithoutSep(s, '[');
    assert s + "[" + t == s + ['['] + t;
  }

  /** Stripping a text with a non-space `c` in it strips each side of `c`. */
  lemma StripAroundChar(s: string, c: char, t: string)
    requires !IsSpace(c)
    ensures Strip(s + [c] + t) == LStrip(s) + ([c] + RStrip(t))
  {
    var l := LStrip(s);
    var m := l + [c];
    assert LStrip(s + [c] + t) == m + t by {
      assert s + [c] + t == s + ([c] + t);
      LStripConcat(s, [c] + t);
    }
    assert RStrip(m + t) == m + RStrip(t) by {
      RStripConcat(m, t);
    }
  }

  /** Stripping a text with a '/' in it strips each side of the '/'. */
  lemma StripAroundSlash(s: string, t: string)
    ensures Strip(s + "/" + t) == LStrip(s) + ("/" + RStrip(t))
  {
    assert s + "/" + t == s + ['/'] + t;
    StripAroundChar(s, '/', t);
  }

  /** Lines 11-12 of slugify on a text with a '/' (and no '[') before the
      first '/'. */
  lemma CutAtSlash(s: string, t: string)
    requires '[' !in s && '/' !in s
    ensures CutAt(CutAt(s + "/" + t, '['), '/') == Strip(s)
  {
    var t1 := Split(t, '[')[0];
    assert s + "/" + t == (s + "/") + t;
    assert '[' !in s + "/";
    SplitFirstPiece(s + "/", t, '[');
    var v1 := Strip(s + "/" + t1);
    assert CutAt(s + "/" + t, '[') == v1;
    StripAroundSlash(s, t1);
    var l := LStrip(s);
    assert '/' !in l;
    SplitFirstPiece(l, "/" + RStrip(t1), '/');
    assert Split("/" + RStrip(t1), '/')[0] == "";
    assert l + "" == l;
    StripAfterLStrip(s);
  }

  /** Lines 11-12 of slugify on a text without '[' or '/'. */
  lemma CutAtPlain(s: string)
    requires '[' !in s && '/' !in s
    ensures CutAt(CutAt(s, '['), '/') == Strip(s)
  {
    SplitWithoutSep(s, '[');
    StripKeepsAbsent(s, '/');
    SplitWithoutSep(Strip(s), '/');
    StripIdempotent(s);
  }

  /** Without '[' or '/', cutting strips the name and deletes every '(' and
      ')', and nothing else. */
  lemma CutDeletesParens(s: string)
    requires '[' !in s && '/' !in s
    ensures Cut(s) == DeleteChar(DeleteChar(Strip(s), '('), ')')
  {
    CutAtPlain(s);
  }

  /** A name with a parenthesised part keeps both parts, with a space
      between, and loses the parentheses: "Banggai (W.dialect)" is cut to
      "Banggai W.dialect". */
  lemma CutParenthesised(a: string, b: string)
    requires Trimmed(a + " (" + b + ")")
    requires '[' !in a && '/' !in a && '(' !in a && ')' !in a
    requires '[' !in b && '/' !in b && '(' !in b && ')' !in b
    ensures Cut(a + " (" + b + ")") == a + " " + b
  {
    var s := a + " (" + b + ")";
    var p1 := a + " ";
    var p2 := p1 + "(";
    var p3 := p2 + b;
    assert s == p3 + ")";
    assert '[' !in s && '/' !in s;
    CutDeletesParens(s);
    StripTrimmed(s);
    assert '(' !in p1 && '(' !in ")";
    DeleteCharConcat(p1, "(", '(');
    assert DeleteChar("(", '(') == [];
    assert DeleteChar(p2, '(') == p1;
    DeleteCharConcat(p2, b, '(');
    assert DeleteChar(p3, '(') == p1 + b;
    DeleteCharConcat(p3, ")", '(');
    var q := p1 + b;
    assert DeleteChar(s, '(') == q + ")";
    assert ')' !in q;
    DeleteCharConcat(q, ")", ')');
    assert DeleteChar(")", ')') == [];
    assert q + [] == q;
  }

  /** slugify of a name with a parenthesised part is the clean-up of both
      parts with a space between them. */
  lemma SlugifyParenthesised(a: string, b: string, fold: string -> string)
    requires Trimmed(a + " (" + b + ")")
    requires '[' !in a && '/' !in a && '(' !in a && ')' !in a
    requires '[' !in b && '/' !in b && '(' !in b && ')' !in b
    requires fold(a + " " + b) == a + " " + b
    ensures Slugify(a + " (" + b + ")", fold) == Tidy(a + " " + b)
  {
    CutParenthesised(a, b);
  }

  /** The first '/' ends what is kept: "Angkola / Mandailin" has the slug of
      "Angkola ". */
  lemma SlugifyIgnoresAfterSlash(s: string, t: string, fold: string -> string)
    requires '[' !in s && '/' !in s
    ensures Slugify(s + "/" + t, fold) == Slugify(s, fold)
  {
    CutAtSlash(s, t);
    CutAtPlain(s);
  }

  /** A trimmed name with none of the characters slugify treats specially,
      whose folding has none of the characters it removes or replaces,
      has that folding as its slug: "English" stays "English". */
  lemma SlugifyPlain(s: string, fold: string -> string)
    requires Trimmed(s) && '[' !in s && '/' !in s && '(' !in s && ')' !in s
    requires ' ' !in fold(s) && '-' !in fold(s) && ':' !in fold(s) && '?' !in fold(s)
    requires '\U{2019}' !in fold(s) && '\'' !in fold(s) && ',' !in fold(s) && '.' !in fold(s)
    requires '\U{DF}' !in fold(s)
    ensures Slugify(s, fold) == fold(s)
  {
    CutAtPlain(s);
    StripTrimmed(s);
    assert Cut(s) == s;
    TidyPlain(fold(s));
  }

  /** A text with none of the characters slugify removes or replaces is
      left as it is. */
  lemma TidyPlain(t: string)
    requires ' ' !in t && '-' !in t && ':' !in t && '?' !in t
    requires '\U{2019}' !in t && '\'' !in t && ',' !in t && '.' !in t
    requires '\U{DF}' !in t
    ensures Tidy(t) == t
  {
    assert " - "[0] == ' ';
    ReplaceAllAbsent(t, " - ", "_");
    assert Depunct(t) == t;
    ReplaceCharAbsent(t, ' ', '_');
    ReplaceCharAbsent(t, '\U{DF}', 'V');
  }

  /** Two plain words joined by " - " have the slug of the two words joined
      by "_". */
  lemma SlugifyDashed(a: string, b: string, fold: string -> string)
    requires Trimmed(a + " - " + b) && PlainWord(a) && PlainWord(b)
    requires fold(a + " - " + b) == a + " - " + b
    ensures Slugify(a + " - " + b, fold) == a + "_" + b
  {
    var s := a + " - " + b;
    PlainWordChars(a);
    PlainWordChars(b);
    assert '[' !in s && '/' !in s && '(' !in s && ')' !in s by {
      assert forall c :: c in s ==> c in a || c in " - " || c in b;
    }
    CutAtPlain(s);
    StripTrimmed(s);
    assert Cut(s) == s;
    TidyDash(a, b);
    TidyPlain(a);
    TidyPlain(b);
  }

  /** No character that slugify cuts at, removes or replaces. */
  predicate PlainWord(t: string) {
    forall c :: c in t ==> c !in "[/() -:?\U{2019}',.\U{DF}"
  }

  lemma PlainWordChars(t: string)
    requires PlainWord(t)
    ensures '[' !in t && '/' !in t && '(' !in t && ')' !in t
    ensures ' ' !in t && '-' !in t && ':' !in t && '?' !in t
    ensures '\U{2019}' !in t && '\'' !in t && ',' !in t && '.' !in t
    ensures '\U{DF}' !in t
  {
  }

  lemma AklanonPlain()
    ensures PlainWord("Aklanon") && PlainWord("Bisayan")
    ensures Trimmed("Aklanon - Bisayan")
  {
  }

  /** The language name of the ABVD's own example, with a folding that
      leaves it alone (NFKD does): "Aklanon - Bisayan" has the slug
      "Aklanon_Bisayan". */
  lemma SlugifyAklanon(fold: string -> string)
    requires fold("Aklanon - Bisayan") == "Aklanon - Bisayan"
    ensures Slugify("Aklanon - Bisayan", fold) == "Aklanon_Bisayan"
  {
    AklanonPlain();
    assert "Aklanon" + " - " + "Bisayan" == "Aklanon - Bisayan";
    assert "Aklanon" + "_" + "Bisayan" == "Aklanon_Bisayan";
    SlugifyDashed("Aklanon", "Bisayan", fold);
  }

  lemma BanggaiWords()
    ensures PlainWord("Banggai") && PlainWord("W") && PlainWord("dialect")
    ensures '[' !in "W.dialect" && '/' !in "W.dialect" && '(' !in "W.dialect" && ')' !in "W.dialect"
    ensures '-' !in "W.dialect"
  {
  }

  lemma BanggaiJoins()
    ensures "Banggai" + " (" + "W.dialect" + ")" == "Banggai (W.dialect)"
    ensures "Banggai" + " " + "W.dialect" == "Banggai W.dialect"
    ensures "W" + "." + "dialect" == "W.dialect"
    ensures "Banggai" + "_" + ("W" + "dialect") == "Banggai_Wdialect"
  {
  }

  lemma BanggaiTrimmed()
    ensures Trimmed("Banggai (W.dialect)")
  {
  }

  /** The test's parenthesised name, with a folding that leaves the cut name
      alone: "Banggai (W.dialect)" has the slug "Banggai_Wdialect". */
  lemma SlugifyBanggai(fold: string -> string)
    requires fold("Banggai W.dialect") == "Banggai W.dialect"
    ensures Slugify("Banggai (W.dialect)", fold) == "Banggai_Wdialect"
  {
    BanggaiWords();
    BanggaiJoins();
    BanggaiTrimmed();
    PlainWordChars("Banggai");
    PlainWordChars("W");
    PlainWordChars("dialect");
    SlugifyParenthesised("Banggai", "W.dialect", fold);
    TidySpace("Banggai", "W.dialect");
    TidyFullStop("W", "dialect");
    TidyPlain("Banggai");
    TidyPlain("W");
    TidyPlain("dialect");
  }
}
