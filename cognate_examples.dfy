/**
  Fields from the parser's own test suite (test/test_CognateParser.py),
  worked through the general lemmas of module Cognates.
*/
module CognateExamples {
  import opened Wrappers
  import opened Py
  import opened Cognates

  /** "1, 2?": code 1, then code 2 marked as uncertain. */
  function OneTwoMaybe(): seq<Written> {
    [Written("", 1, false, ""), Written(" ", 2, true, "")]
  }

  /** "1?, 2?": both codes uncertain. */
  function BothMaybe(): seq<Written> {
    [Written("", 1, true, ""), Written(" ", 2, true, "")]
  }

  /** "15": one certain code. */
  function Fifteen(): seq<Written> {
    [Written("", 15, false, "")]
  }

  lemma OneTwoMaybeText()
    ensures Field(OneTwoMaybe(), [',']) == "1, 2?"
  {
    var ws := OneTwoMaybe();
    assert IntToDecimal(1) == "1";
    assert IntToDecimal(2) == "2";
    assert Render(ws[0]) == "1";
    assert Render(ws[1]) == " 2?";
    assert Renders(ws) == ["1", " 2?"];
  }

  lemma BothMaybeText()
    ensures Field(BothMaybe(), [',']) == "1?, 2?"
  {
    var ws := BothMaybe();
    assert IntToDecimal(1) == "1";
    assert IntToDecimal(2) == "2";
    assert Render(ws[0]) == "1?";
    assert Render(ws[1]) == " 2?";
    assert Renders(ws) == ["1?", " 2?"];
  }

  lemma FifteenText()
    ensures Field(Fifteen(), []) == "15"
  {
    var ws := Fifteen();
    assert IntToDecimal(15) == "15";
    assert Render(ws[0]) == "15";
  }

  /** Strict mode drops the uncertain code: "1, 2?" gives [1]. */
  lemma DubiousSubsetStrict(check: bool)
    ensures Resolve(check, true, PStr("1, 2?")) == Ready(Codes(check, [1]))
  {
    var ws := OneTwoMaybe();
    OneTwoMaybeText();
    assert !ws[0].doubt;
    StrictWrittenField(check, ws, [',']);
    assert Certain(ws) == [1];
  }

  /** Lenient mode keeps it: "1, 2?" gives [1, 2]. */
  lemma DubiousSubsetLenient(check: bool)
    ensures Resolve(check, false, PStr("1, 2?")) == Ready(Codes(check, [1, 2]))
  {
    var ws := OneTwoMaybe();
    OneTwoMaybeText();
    LenientWrittenField(check, ws, [',']);
    assert Numbers(ws) == [1, 2];
  }

  /** Strict mode mints a token when every code is uncertain: "1?, 2?". */
  lemma AllDubiousStrict(check: bool)
    ensures Resolve(check, true, PStr("1?, 2?")) == Fresh
  {
    BothMaybeText();
    StrictAllDoubtful(check, BothMaybe(), [',']);
  }

  lemma FifteenStrict()
    ensures Resolve(true, true, PStr("15")) == Ready([Int(15)])
  {
    var ws := Fifteen();
    FifteenText();
    assert !ws[0].doubt;
    StrictWrittenField(true, ws, []);
    assert Certain(ws) == [15];
    assert Ints([15]) == [Int(15)];
  }


  /** A lone "?" is one uncertain piece with no code. */
  lemma MarkOnlyPieces()
    ensures SubCodes("?") == ["?"]
    ensures DeleteChar("?", '?') == ""
  {
    assert !IsSeparator("?"[0]);
    SinglePiece("?");
    assert Trimmed("?");
    StripTrimmed("?");
    assert DeleteChar("?", '?') == DeleteChar("", '?');
  }

  /** Strict mode mints a token for a lone "?" ... */
  lemma MarkOnlyStrict(check: bool)
    ensures Resolve(check, true, PStr("?")) == Fresh
  {
    MarkOnlyPieces();
    assert AllDubious(["?"]);
  }

  /** ... while lenient mode deletes the mark, drops the empty piece and
      returns no codes, with no token even when uniques are on. */
  lemma MarkOnlyLenient(check: bool)
    ensures Resolve(check, false, PStr("?")) == Ready([])
  {
    MarkOnlyPieces();
    assert DeleteMarks(["?"]) == [""];
    assert Survivors(false, ["?"]) == [];
    NoCodes();
  }

  /** A letter is not a cognate class: "A" raises with `check` on ... */
  lemma LetterRaises(strict: bool)
    ensures Resolve(true, strict, PStr("A")) == Raise(NotNumeric("A"))
  {
    assert IsForeign("A"[0]);
    ForeignCharRaises(strict, "A", 0);
  }

  /** ... and comes back as text with `check` off. */
  lemma LetterUnchecked(strict: bool)
    ensures Resolve(false, strict, PStr("A")) == Ready([Text("A")])
  {
    assert Trimmed("A");
    StripTrimmed("A");
    UncheckedSingle(strict, "A");
  }

  /** An integer value (not text) raises. */
  lemma IntegerValueRaises(check: bool, strict: bool)
    ensures Resolve(check, strict, PInt(1)).Raise?
  {
    assert Str(PInt(1)) == "1";
  }

  lemma TokenNames()
    ensures UniqueToken(1) == "u_1" && UniqueToken(2) == "u_2"
  {
    assert IntToDecimal(1) == "1";
    assert IntToDecimal(2) == "2";
  }

  /** One parser shared by a run of entries, as in the strict, unique
      parser of the test suite: coded entries (such as "5, 40" and "5")
      return their codes and leave the counter alone, and each empty entry
      gets the next fresh token, u_1 and then u_2, across calls. */
  method SharedCounter(first: string, second: string, third: string)
    returns (r: seq<Result<seq<Code>, ParseError>>)
    requires Resolve(true, true, PStr(first)).Ready?
    requires Resolve(true, true, PStr(second)).Ready?
    requires Resolve(true, true, PStr(third)).Ready?
    ensures r == [Ok(Resolve(true, true, PStr(first)).codes), Ok(Resolve(true, true, PStr(second)).codes),
                  Ok([Text("u_1")]), Ok(Resolve(true, true, PStr(third)).codes), Ok([Text("u_2")])]
  {
    TokenNames();
    var parser := new CognateParser(true, true, true);
    var a := parser.ParseCognate(PStr(first));
    var b := parser.ParseCognate(PStr(second));
    var c := parser.ParseCognate(PStr(""));
    var d := parser.ParseCognate(PStr(third));
    var e := parser.ParseCognate(PStr(""));
    r := [a, b, c, d, e];
  }
}
