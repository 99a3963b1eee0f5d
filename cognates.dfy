/**
  The cognate-code parser (abvdget/CognateParser.py).

  A parser turns the free-text cognacy field of one lexicon entry ("1, 2?",
  "x", "", "91?, 42") into a list of cognate classes. An entry without a usable
  code gets a fresh `u_<n>` token from a counter the parser instance owns, so
  that one instance shared by a whole run never hands out the same token twice.

  The decision a call makes is the pure function `Resolve`; the class
  `CognateParser` owns the counter and is proved to act as `Resolve` says.
*/
module Cognates {
  import opened Wrappers
  import opened Py

  /** One cognate class: an integer code, or text (a minted `u_<n>` token, or
      a piece handed back unchecked when `check` is off). */
  datatype Code = Int(n: int) | Text(s: string)

  /** The three `ValueError`s `parse_cognate` raises. */
  datatype ParseError =
    | BrokenCombined(raw: string)  // text starting with a comma
    | NotNumeric(raw: string)      // a surviving piece that int() rejects
    | NotText(typeName: string)    // a value that is neither None nor str

  /** What one call decides before it touches the counter: mint a fresh token,
      return these codes, or raise. */
  datatype Resolution = Fresh | Ready(codes: seq<Code>) | Raise(error: ParseError)

  /** `"u_%d" % k`: the prefix "u_" and then the numeral of `k`. */
  function UniqueToken(k: nat): (r: string)
    ensures |r| > 2 && r[..2] == "u_"
    ensures r[2..] == IntToDecimal(k)
  {
    var d := IntToDecimal(k);
    assert ("u_" + d)[2..] == d;
    "u_" + d
  }

  /** What follows "u_" reads back as the counter value. */
  lemma UniqueTokenReadsBack(k: nat)
    ensures ParseInt(UniqueToken(k)[2..]) == Some(k)
  {
    ParseDecimal(k);
  }

  /** Different counter values give different tokens. */
  lemma UniqueTokenInjective(j: nat, k: nat)
    requires UniqueToken(j) == UniqueToken(k)
    ensures j == k
  {
    assert UniqueToken(j)[2..] == IntToDecimal(j);
    assert UniqueToken(k)[2..] == IntToDecimal(k);
    DecimalInjective(j, k);
  }

  /** `str(value).lower() == 's'`: entry filed under the wrong word. */
  predicate IsWrongSlot(t: string) {
    t == "s" || t == "S"
  }

  /** `str(value).lower() == 'x'`: erroneous entry. */
  predicate IsErroneous(t: string) {
    t == "x" || t == "X"
  }

  /** The values that go straight to a fresh token: None, the empty text,
      and anything whose text is s or x in either case. */
  predicate NoCode(value: Value) {
    value.PNone? || value == PStr("") || IsWrongSlot(Str(value)) || IsErroneous(Str(value))
  }

  /** The characters `parse_cognate` accepts between two codes. */
  predicate IsSeparator(c: char) {
    c == ',' || c == '.' || c == '/'
  }

  predicate StartsWithComma(s: string) {
    |s| > 0 && s[0] == ','
  }

  // ---------------------------------------------------------------------
  // The split / strip / filter / int pipeline

  /** `value.replace('.', ',').replace('/', ',')`: the three separators become one. */
  function Normalise(s: string): (r: string)
    ensures |r| == |s|
    ensures forall i :: 0 <= i < |s| ==> r[i] == if IsSeparator(s[i]) then ',' else s[i]
    ensures '.' !in r && '/' !in r
  {
    ReplaceChar(ReplaceChar(s, '.', ','), '/', ',')
  }

  /** `[v.strip() for v in value.split(",")]` after `Normalise`. */
  function SubCodes(s: string): (pieces: seq<string>)
    ensures |pieces| >= 1
    ensures forall i :: 0 <= i < |pieces| ==> Trimmed(pieces[i])
  {
    StripAll(Split(Normalise(s), ','))
  }

  function StripAll(parts: seq<string>): (r: seq<string>)
    ensures |r| == |parts|
    ensures forall i :: 0 <= i < |parts| ==> r[i] == Strip(parts[i])
  {
    seq(|parts|, i requires 0 <= i < |parts| => Strip(parts[i]))
  }

  /** `[v for v in value if '?' not in v]`: strict mode drops dubious pieces. */
  function DropDubious(pieces: seq<string>): (r: seq<string>)
    ensures |r| <= |pieces|
    ensures forall v :: v in r <==> v in pieces && '?' !in v
    ensures r == [] <==> forall i :: 0 <= i < |pieces| ==> '?' in pieces[i]
    ensures (forall i :: 0 <= i < |pieces| ==> '?' !in pieces[i]) ==> r == pieces
  {
    if pieces == [] then []
    else
      var rest := DropDubious(pieces[1..]);
      assert forall v :: v in pieces <==> v == pieces[0] || v in pieces[1..];
      assert forall i :: 1 <= i < |pieces| ==> pieces[i] == pieces[1..][i - 1];
      assert pieces == [pieces[0]] + pieces[1..];
      (if '?' in pieces[0] then [] else [pieces[0]]) + rest
  }

  /** `[v.replace("?", "") for v in value]`: lenient mode keeps dubious pieces. */
  function DeleteMarks(pieces: seq<string>): (r: seq<string>)
    ensures |r| == |pieces|
    ensures forall i :: 0 <= i < |pieces| ==> r[i] == DeleteChar(pieces[i], '?')
  {
    seq(|pieces|, i requires 0 <= i < |pieces| => DeleteChar(pieces[i], '?'))
  }

  /** Every piece carries a question mark. */
  predicate AllDubious(pieces: seq<string>) {
    forall i :: 0 <= i < |pieces| ==> '?' in pieces[i]
  }

  /** `[v for v in value if len(v) > 0]` */
  function DropEmpty(pieces: seq<string>): (r: seq<string>)
    ensures |r| <= |pieces|
    ensures forall v :: v in r <==> v in pieces && v != ""
    ensures (forall i :: 0 <= i < |pieces| ==> pieces[i] != "") ==> r == pieces
  {
    if pieces == [] then []
    else
      var rest := DropEmpty(pieces[1..]);
      assert forall v :: v in pieces <==> v == pieces[0] || v in pieces[1..];
      assert forall i :: 1 <= i < |pieces| ==> pieces[i] == pieces[1..][i - 1];
      assert pieces == [pieces[0]] + pieces[1..];
      (if pieces[0] == "" then [] else [pieces[0]]) + rest
  }

  lemma ConcatAssoc(x: seq<string>, y: seq<string>, z: seq<string>)
    ensures x + (y + z) == (x + y) + z
  {
  }

  lemma DropDubiousCons(x: string, rest: seq<string>)
    ensures DropDubious([x] + rest) == (if '?' in x then [] else [x]) + DropDubious(rest)
  {
    assert ([x] + rest)[1..] == rest;
  }

  /** The filter keeps order and multiplicity: it works piece by piece. */
  lemma {:induction false} DropDubiousConcat(a: seq<string>, b: seq<string>)
    ensures DropDubious(a + b) == DropDubious(a) + DropDubious(b)
    decreases |a|
  {
    if a != [] {
      DropDubiousHead(a, b);
      DropDubiousConcat(a[1..], b);
      ConcatAssoc(if '?' in a[0] then [] else [a[0]], DropDubious(a[1..]), DropDubious(b));
    } else {
      assert a + b == b;
    }
  }

  lemma DropDubiousHead(a: seq<string>, b: seq<string>)
    requires a != []
    ensures DropDubious(a + b) == (if '?' in a[0] then [] else [a[0]]) + DropDubious(a[1..] + b)
    ensures DropDubious(a) == (if '?' in a[0] then [] else [a[0]]) + DropDubious(a[1..])
  {
    assert a + b == [a[0]] + (a[1..] + b);
    DropDubiousCons(a[0], a[1..] + b);
    assert a == [a[0]] + a[1..];
    DropDubiousCons(a[0], a[1..]);
  }

  /** The filter keeps order and multiplicity: it works piece by piece. */
  lemma {:induction false} DropEmptyConcat(a: seq<string>, b: seq<string>)
    ensures DropEmpty(a + b) == DropEmpty(a) + DropEmpty(b)
    decreases |a|
  {
    if a != [] {
      DropEmptyHead(a, b);
      DropEmptyConcat(a[1..], b);
      ConcatAssoc(if a[0] == "" then [] else [a[0]], DropEmpty(a[1..]), DropEmpty(b));
    } else {
      assert a + b == b;
    }
  }

  lemma DropEmptyHead(a: seq<string>, b: seq<string>)
    requires a != []
    ensures DropEmpty(a + b) == (if a[0] == "" then [] else [a[0]]) + DropEmpty(a[1..] + b)
    ensures DropEmpty(a) == (if a[0] == "" then [] else [a[0]]) + DropEmpty(a[1..])
  {
    assert (a + b)[0] == a[0] && (a + b)[1..] == a[1..] + b;
  }

  /** `[int(v) for v in value]`: every piece converted, or None when one fails. */
  function ToInts(pieces: seq<string>): (r: Option<seq<int>>)
    ensures r.Some? <==> forall i :: 0 <= i < |pieces| ==> ParseInt(pieces[i]).Some?
    ensures r.Some? ==> |r.value| == |pieces|
    ensures r.Some? ==> forall i :: 0 <= i < |pieces| ==> ParseInt(pieces[i]) == Some(r.value[i])
  {
    if forall i :: 0 <= i < |pieces| ==> ParseInt(pieces[i]).Some? then
      Some(seq(|pieces|, i requires 0 <= i < |pieces| => ParseInt(pieces[i]).value))
    else None
  }

  /** The pieces that reach the integer check: none is empty, in strict
      mode none is dubious, and in lenient mode none keeps its mark. */
  function Survivors(strict: bool, pieces: seq<string>): (r: seq<string>)
    ensures |r| <= |pieces|
    ensures forall i :: 0 <= i < |r| ==> r[i] != "" && '?' !in r[i]
    ensures strict ==> forall v :: v in r <==> v in pieces && v != "" && '?' !in v
  {
    var marked := if strict then DropDubious(pieces) else DeleteMarks(pieces);
    assert forall v :: v in marked ==> '?' !in v;
    var r := DropEmpty(marked);
    assert forall i :: 0 <= i < |r| ==> r[i] in r;
    r
  }

  function Ints(ns: seq<int>): (r: seq<Code>)
    ensures |r| == |ns| && forall i :: 0 <= i < |ns| ==> r[i] == Int(ns[i])
  {
    seq(|ns|, i requires 0 <= i < |ns| => Int(ns[i]))
  }

  function Texts(ts: seq<string>): (r: seq<Code>)
    ensures |r| == |ts| && forall i :: 0 <= i < |ts| ==> r[i] == Text(ts[i])
  {
    seq(|ts|, i requires 0 <= i < |ts| => Text(ts[i]))
  }

  /** What `parse_cognate(value)` does, apart from advancing the counter. */
  function Resolve(check: bool, strict: bool, value: Value): (r: Resolution)
    ensures NoCode(value) ==> r == Fresh
    ensures r.Fresh? <==> (NoCode(value) ||
      (strict && value.PStr? && !StartsWithComma(value.s) && AllDubious(SubCodes(value.s))))
    ensures r.Raise? && r.error.NotText? <==> !NoCode(value) && !value.PStr?
    ensures r.Raise? && r.error.BrokenCombined? <==>
      !NoCode(value) && value.PStr? && StartsWithComma(value.s)
    ensures r.Raise? && r.error.NotNumeric? ==> check
    ensures r.Ready? && check ==> forall i :: 0 <= i < |r.codes| ==> r.codes[i].Int?
    ensures r.Ready? && !check ==> forall i :: 0 <= i < |r.codes| ==> r.codes[i].Text?
  {
    if value.PNone? then Fresh
    else if value == PStr("") then Fresh
    else if IsWrongSlot(Str(value)) then Fresh
    else if IsErroneous(Str(value)) then Fresh
    else if value.PStr? then
      var s := value.s;
      if StartsWithComma(s) then Raise(BrokenCombined(s))
      else
        var pieces := SubCodes(s);
        if strict && DropDubious(pieces) == [] then Fresh
        else
          var kept := Survivors(strict, pieces);
          if check then
            match ToInts(kept)
            case Some(ns) => Ready(Ints(ns))
            case None => Raise(NotNumeric(s))
          else Ready(Texts(kept))
    else Raise(NotText(TypeName(value)))
  }

  // ---------------------------------------------------------------------
  // Fields written as codes: what the parser makes of them

  /** One code as written in a field: an integer, perhaps flagged as
      uncertain with a trailing '?', with whitespace around it. */
  datatype Written = Written(pre: string, n: int, doubt: bool, post: string)

  predicate WellPadded(w: Written) {
    AllSpace(w.pre) && AllSpace(w.post)
  }

  /** The code without its padding: "12" or "12?". */
  function Core(w: Written): (r: string)
    ensures Trimmed(r) && r != []
    ensures '?' in r <==> w.doubt
  {
    var d := IntToDecimal(w.n);
    if w.doubt then
      assert (d + "?")[0] == d[0];
      d + "?"
    else d
  }

  function Render(w: Written): string {
    w.pre + Core(w) + w.post
  }

  /** The pieces joined by the separators: `seps[i]` sits between
      `pieces[i]` and `pieces[i + 1]`. */
  function Interleave(pieces: seq<string>, seps: seq<char>): (r: string)
    requires |pieces| == |seps| + 1
    ensures pieces[0] <= r
    decreases |seps|
  {
    if seps == [] then pieces[0]
    else pieces[0] + [seps[0]] + Interleave(pieces[1..], seps[1..])
  }

  function Renders(ws: seq<Written>): (r: seq<string>)
    ensures |r| == |ws| && forall i :: 0 <= i < |ws| ==> r[i] == Render(ws[i])
  {
    seq(|ws|, i requires 0 <= i < |ws| => Render(ws[i]))
  }

  function Cores(ws: seq<Written>): (r: seq<string>)
    ensures |r| == |ws| && forall i :: 0 <= i < |ws| ==> r[i] == Core(ws[i])
  {
    seq(|ws|, i requires 0 <= i < |ws| => Core(ws[i]))
  }

  /** A whole cognacy field written as codes and separators. */
  function Field(ws: seq<Written>, seps: seq<char>): string
    requires |ws| == |seps| + 1
  {
    Interleave(Renders(ws), seps)
  }

  /** The integers written, in order. */
  function Numbers(ws: seq<Written>): (r: seq<int>)
    ensures |r| == |ws| && forall i :: 0 <= i < |ws| ==> r[i] == ws[i].n
  {
    seq(|ws|, i requires 0 <= i < |ws| => ws[i].n)
  }

  /** The integers written without a '?', in order. */
  function Certain(ws: seq<Written>): seq<int> {
    if ws == [] then [] else (if ws[0].doubt then [] else [ws[0].n]) + Certain(ws[1..])
  }

  function Decimals(ns: seq<int>): (r: seq<string>)
    ensures |r| == |ns| && forall i :: 0 <= i < |ns| ==> r[i] == IntToDecimal(ns[i])
  {
    seq(|ns|, i requires 0 <= i < |ns| => IntToDecimal(ns[i]))
  }

  /** The codes `parse_cognate` returns for these integers. */
  function Codes(check: bool, ns: seq<int>): seq<Code> {
    if check then Ints(ns) else Texts(Decimals(ns))
  }

  /** The characters a written code is made of. */
  lemma RenderChars(w: Written, c: char)
    requires WellPadded(w) && c in Render(w)
    ensures IsSpace(c) || c == '-' || IsDigit(c) || c == '?'
  {
    var d := IntToDecimal(w.n);
    if c in d {
      var i :| 0 <= i < |d| && d[i] == c;
      assert i == 0 || IsDigit(d[i]);
    } else if c in w.pre {
      var i :| 0 <= i < |w.pre| && w.pre[i] == c;
    } else if c in w.post {
      var i :| 0 <= i < |w.post| && w.post[i] == c;
    }
  }

  /** Normalising a text that holds no separator changes nothing. */
  lemma NormaliseKeeps(s: string)
    requires forall i :: 0 <= i < |s| ==> !IsSeparator(s[i])
    ensures Normalise(s) == s
  {
  }

  lemma NormaliseConcat(a: string, b: string)
    ensures Normalise(a + b) == Normalise(a) + Normalise(b)
  {
    assert forall i :: 0 <= i < |b| ==> (a + b)[|a| + i] == b[i];
  }

  /** Normalising a field turns every separator into a comma. */
  lemma {:induction false} NormaliseInterleave(pieces: seq<string>, seps: seq<char>)
    requires |pieces| == |seps| + 1
    requires forall i :: 0 <= i < |seps| ==> IsSeparator(seps[i])
    requires forall i, k :: 0 <= i < |pieces| && 0 <= k < |pieces[i]| ==> !IsSeparator(pieces[i][k])
    ensures Normalise(Interleave(pieces, seps)) == Join(pieces, ',')
    decreases |seps|
  {
    NormaliseKeeps(pieces[0]);
    if seps != [] {
      var rest := Interleave(pieces[1..], seps[1..]);
      assert forall i, k :: 1 <= i < |pieces| && 0 <= k < |pieces[i]| ==>
        pieces[1..][i - 1][k] == pieces[i][k];
      NormaliseInterleave(pieces[1..], seps[1..]);
      NormaliseConcat(pieces[0] + [seps[0]], rest);
      NormaliseConcat(pieces[0], [seps[0]]);
      assert Normalise([seps[0]]) == [','];
    }
  }

  /** The pieces `parse_cognate` sees in a written field are the bare codes. */
  lemma FieldSubCodes(ws: seq<Written>, seps: seq<char>)
    requires |ws| == |seps| + 1
    requires forall i :: 0 <= i < |ws| ==> WellPadded(ws[i])
    requires forall i :: 0 <= i < |seps| ==> IsSeparator(seps[i])
    ensures SubCodes(Field(ws, seps)) == Cores(ws)
  {
    var ps := Renders(ws);
    forall i, k | 0 <= i < |ps| && 0 <= k < |ps[i]|
      ensures !IsSeparator(ps[i][k])
    {
      RenderChars(ws[i], ps[i][k]);
    }
    NormaliseInterleave(ps, seps);
    forall i | 0 <= i < |ps|
      ensures ',' !in ps[i]
    {
      assert forall k :: 0 <= k < |ps[i]| ==> ps[i][k] != ',';
    }
    SplitJoin(ps, ',');
    forall i | 0 <= i < |ps|
      ensures Strip(ps[i]) == Core(ws[i])
    {
      StripPadded(ws[i].pre, Core(ws[i]), ws[i].post);
    }
  }

  /** A written field is text the parser does not treat as empty, s or x,
      and it does not open with a comma. */
  lemma FieldIsCoded(ws: seq<Written>, seps: seq<char>)
    requires |ws| == |seps| + 1
    requires forall i :: 0 <= i < |ws| ==> WellPadded(ws[i])
    ensures !NoCode(PStr(Field(ws, seps)))
    ensures !StartsWithComma(Field(ws, seps))
  {
    var f := Field(ws, seps);
    var p := Render(ws[0]);
    assert p <= f && |p| > 0;
    assert f[0] == p[0];
    RenderChars(ws[0], p[0]);
  }

  lemma DecimalsConcat(a: seq<int>, b: seq<int>)
    ensures Decimals(a + b) == Decimals(a) + Decimals(b)
  {
  }

  /** Strict mode keeps exactly the codes written without '?'. */
  lemma {:induction false} StrictKeepsCertain(ws: seq<Written>)
    ensures DropDubious(Cores(ws)) == Decimals(Certain(ws))
    decreases |ws|
  {
    if ws != [] {
      var cs := Cores(ws);
      var head := if ws[0].doubt then [] else [ws[0].n];
      assert cs[1..] == Cores(ws[1..]);
      assert DropDubious(cs) == (if '?' in cs[0] then [] else [cs[0]]) + DropDubious(cs[1..]);
      StrictKeepsCertain(ws[1..]);
      assert Decimals(head) == (if '?' in cs[0] then [] else [cs[0]]);
      DecimalsConcat(head, Certain(ws[1..]));
    }
  }

  /** Lenient mode keeps every code, its '?' removed. */
  lemma LenientKeepsAll(ws: seq<Written>)
    ensures DeleteMarks(Cores(ws)) == Decimals(Numbers(ws))
  {
    forall i | 0 <= i < |ws|
      ensures DeleteChar(Core(ws[i]), '?') == IntToDecimal(ws[i].n)
    {
      var d := IntToDecimal(ws[i].n);
      assert '?' !in d;
      if ws[i].doubt {
        DeleteCharConcat(d, "?", '?');
        assert DeleteChar("?", '?') == "";
        assert d + "" == d;
      }
    }
  }

  /** Decimal numerals are never empty, so none is dropped. */
  lemma DecimalsKept(ns: seq<int>)
    ensures DropEmpty(Decimals(ns)) == Decimals(ns)
  {
  }

  /** `int()` reads every numeral back. */
  lemma DecimalsParse(ns: seq<int>)
    ensures ToInts(Decimals(ns)) == Some(ns)
  {
    var ds := Decimals(ns);
    forall i | 0 <= i < |ns|
      ensures ParseInt(ds[i]) == Some(ns[i])
    {
      ParseDecimal(ns[i]);
    }
    var r := ToInts(ds);
    assert r.Some?;
    assert |r.value| == |ns|;
    assert forall i :: 0 <= i < |ns| ==> r.value[i] == ns[i];
    assert r.value == ns;
  }

  /** A text whose surviving pieces are numerals resolves to those numbers. */
  lemma ResolveNumerals(check: bool, strict: bool, s: string, ns: seq<int>)
    requires !NoCode(PStr(s)) && !StartsWithComma(s)
    requires !(strict && AllDubious(SubCodes(s)))
    requires Survivors(strict, SubCodes(s)) == Decimals(ns)
    ensures Resolve(check, strict, PStr(s)) == Ready(Codes(check, ns))
  {
    if check {
      DecimalsParse(ns);
    }
  }

  /** Strict mode mints a fresh token for a written field whose every code
      carries '?'. */
  lemma StrictAllDoubtful(check: bool, ws: seq<Written>, seps: seq<char>)
    requires |ws| == |seps| + 1
    requires forall i :: 0 <= i < |ws| ==> WellPadded(ws[i])
    requires forall i :: 0 <= i < |seps| ==> IsSeparator(seps[i])
    requires forall i :: 0 <= i < |ws| ==> ws[i].doubt
    ensures Resolve(check, true, PStr(Field(ws, seps))) == Fresh
  {
    FieldSubCodes(ws, seps);
    FieldIsCoded(ws, seps);
    assert AllDubious(Cores(ws));
  }

  /** Strict mode reads a written field back as the codes written without
      '?', in order: integers with `check`, their decimal text without. */
  lemma StrictWrittenField(check: bool, ws: seq<Written>, seps: seq<char>)
    requires |ws| == |seps| + 1
    requires forall i :: 0 <= i < |ws| ==> WellPadded(ws[i])
    requires forall i :: 0 <= i < |seps| ==> IsSeparator(seps[i])
    requires exists i :: 0 <= i < |ws| && !ws[i].doubt
    ensures Resolve(check, true, PStr(Field(ws, seps))) == Ready(Codes(check, Certain(ws)))
  {
    var cs := Cores(ws);
    FieldSubCodes(ws, seps);
    FieldIsCoded(ws, seps);
    var i :| 0 <= i < |ws| && !ws[i].doubt;
    assert '?' !in cs[i];
    StrictKeepsCertain(ws);
    DecimalsKept(Certain(ws));
    ResolveNumerals(check, true, Field(ws, seps), Certain(ws));
  }

  /** Lenient mode reads a written field back as every code written, in
      order, its '?' dropped: integers with `check`, decimal text without. */
  lemma LenientWrittenField(check: bool, ws: seq<Written>, seps: seq<char>)
    requires |ws| == |seps| + 1
    requires forall i :: 0 <= i < |ws| ==> WellPadded(ws[i])
    requires forall i :: 0 <= i < |seps| ==> IsSeparator(seps[i])
    ensures Resolve(check, false, PStr(Field(ws, seps))) == Ready(Codes(check, Numbers(ws)))
  {
    FieldSubCodes(ws, seps);
    FieldIsCoded(ws, seps);
    LenientKeepsAll(ws);
    DecimalsKept(Numbers(ws));
    ResolveNumerals(check, false, Field(ws, seps), Numbers(ws));
  }

  // ---------------------------------------------------------------------
  // Other texts

  /** A character `int()` never accepts, and that the pipeline does not
      remove: not whitespace, digit, sign, separator or '?'. */
  predicate IsForeign(c: char) {
    !IsSpace(c) && !IsDigit(c) && c != '-' && c != '+' && !IsSeparator(c) && c != '?'
  }

  /** A text without separators is one piece: itself, stripped. */
  lemma SinglePiece(s: string)
    requires forall i :: 0 <= i < |s| ==> !IsSeparator(s[i])
    ensures SubCodes(s) == [Strip(s)]
  {
    NormaliseKeeps(s);
    assert ',' !in s;
    SplitWithoutSep(s, ',');
  }

  lemma NoCodes()
    ensures Ints([]) == [] && Texts([]) == [] && ToInts([]) == Some([])
  {
  }

  lemma OneText(t: string)
    ensures Texts([t]) == [Text(t)]
  {
  }

  /** Whitespace only (but not empty) is one empty piece, which every mode drops. */
  lemma BlankSurvivors(strict: bool, s: string)
    requires s != [] && AllSpace(s)
    ensures !NoCode(PStr(s)) && !StartsWithComma(s)
    ensures !AllDubious(SubCodes(s))
    ensures Survivors(strict, SubCodes(s)) == []
  {
    assert IsSpace(s[0]);
    assert !IsWrongSlot(s) && !IsErroneous(s);
    assert forall i :: 0 <= i < |s| ==> !IsSeparator(s[i]);
    SinglePiece(s);
    assert s + [] + [] == s;
    StripPadded(s, [], []);
    assert SubCodes(s) == [""];
    EmptyPieceDropped(strict);
  }

  /** A single empty piece survives in neither mode. */
  lemma EmptyPieceDropped(strict: bool)
    ensures Survivors(strict, [""]) == []
  {
    assert DropDubious([""]) == [""];
    assert DeleteMarks([""]) == [""];
    assert DropEmpty([""]) == [];
  }

  /** A field of whitespace only (but not empty) holds no code: the parser
      returns nothing, and mints no token, in either mode. */
  lemma BlankField(check: bool, strict: bool, s: string)
    requires s != [] && AllSpace(s)
    ensures Resolve(check, strict, PStr(s)) == Ready([])
  {
    BlankSurvivors(strict, s);
    NoCodes();
  }

  /** A text without separators or '?' survives as one piece: itself, stripped. */
  lemma SingleSurvivor(strict: bool, s: string)
    requires forall i :: 0 <= i < |s| ==> !IsSeparator(s[i]) && s[i] != '?'
    requires Strip(s) != []
    ensures !AllDubious(SubCodes(s))
    ensures Survivors(strict, SubCodes(s)) == [Strip(s)]
  {
    SinglePiece(s);
    var t := Strip(s);
    assert '?' !in t by {
      if '?' in t {
        StripChars(s, '?');
      }
    }
    assert DropDubious([t]) == [t];
    assert DeleteMarks([t]) == [t];
    assert DropEmpty([t]) == [t];
  }

  /** With `check` off, a text without separators or '?' comes back whole,
      stripped, as the only code. */
  lemma UncheckedSingle(strict: bool, s: string)
    requires !NoCode(PStr(s))
    requires forall i :: 0 <= i < |s| ==> !IsSeparator(s[i]) && s[i] != '?'
    requires Strip(s) != []
    ensures Resolve(false, strict, PStr(s)) == Ready([Text(Strip(s))])
  {
    SingleSurvivor(strict, s);
    assert !StartsWithComma(s);
    OneText(Strip(s));
  }

  /** A foreign character of a field without '?' lands in a piece without '?'. */
  lemma ForeignPiece(s: string, k: nat) returns (i: nat)
    requires k < |s| && IsForeign(s[k])
    requires '?' !in s
    ensures i < |SubCodes(s)|
    ensures s[k] in SubCodes(s)[i] && '?' !in SubCodes(s)[i]
  {
    var c := s[k];
    var n := Normalise(s);
    assert n[k] == c;
    var parts := Split(n, ',');
    i := SplitKeepsChar(n, ',', k);
    var j :| 0 <= j < |parts[i]| && parts[i][j] == c;
    StripKeepsChar(parts[i], j);
    var p := SubCodes(s)[i];
    assert p == Strip(parts[i]);
    assert '?' !in p by {
      if '?' in p {
        StripChars(parts[i], '?');
        SplitPieceChars(n, ',', i, '?');
      }
    }
  }

  /** A non-empty piece without '?' survives, in either mode. */
  lemma SurvivorKept(strict: bool, pieces: seq<string>, i: nat) returns (q: nat)
    requires i < |pieces| && pieces[i] != [] && '?' !in pieces[i]
    ensures q < |Survivors(strict, pieces)| && Survivors(strict, pieces)[q] == pieces[i]
  {
    var p := pieces[i];
    var marked := if strict then DropDubious(pieces) else DeleteMarks(pieces);
    if strict {
      assert p in DropDubious(pieces);
    } else {
      assert DeleteMarks(pieces)[i] == p;
    }
    assert p in marked;
    assert p in DropEmpty(marked);
    q :| 0 <= q < |DropEmpty(marked)| && DropEmpty(marked)[q] == p;
  }

  /** One piece `int()` rejects makes the whole conversion fail. */
  lemma RejectedPiece(kept: seq<string>, q: nat)
    requires q < |kept| && ParseInt(kept[q]).None?
    ensures ToInts(kept).None?
  {
  }

  /** A foreign character in a field without '?' ends up in a surviving
      piece, which `int()` rejects. */
  lemma ForeignCharSurvives(strict: bool, s: string, k: nat)
    requires k < |s| && IsForeign(s[k])
    requires '?' !in s
    ensures !AllDubious(SubCodes(s))
    ensures ToInts(Survivors(strict, SubCodes(s))).None?
  {
    var pieces := SubCodes(s);
    var i := ForeignPiece(s, k);
    var p := pieces[i];
    var m :| 0 <= m < |p| && p[m] == s[k];
    ParseRejectsForeignChar(p, m);
    var q := SurvivorKept(strict, pieces, i);
    RejectedPiece(Survivors(strict, pieces), q);
  }

  /** With `check` on, a field holding a foreign character (a letter, say)
      and no '?' raises. */
  lemma ForeignCharRaises(strict: bool, s: string, k: nat)
    requires !NoCode(PStr(s)) && !StartsWithComma(s)
    requires k < |s| && IsForeign(s[k])
    requires '?' !in s
    ensures Resolve(true, strict, PStr(s)) == Raise(NotNumeric(s))
  {
    ForeignCharSurvives(strict, s, k);
  }

  /** A text that passes the early exits and is not sent to a fresh token:
      without `check` its surviving pieces come back as text, in order; with
      `check` it raises exactly when some surviving piece is not an integer,
      and otherwise gives each piece's value, in order. */
  lemma ResolveSurvivors(check: bool, strict: bool, s: string)
    requires !NoCode(PStr(s)) && !StartsWithComma(s)
    requires !(strict && AllDubious(SubCodes(s)))
    ensures !check ==> Resolve(check, strict, PStr(s)) == Ready(Texts(Survivors(strict, SubCodes(s))))
    ensures check ==> (Resolve(check, strict, PStr(s)) == Raise(NotNumeric(s)) <==>
      exists q :: 0 <= q < |Survivors(strict, SubCodes(s))| && ParseInt(Survivors(strict, SubCodes(s))[q]).None?)
    ensures check && Resolve(check, strict, PStr(s)).Ready? ==>
      var kept := Survivors(strict, SubCodes(s));
      var codes := Resolve(check, strict, PStr(s)).codes;
      |codes| == |kept| && forall i :: 0 <= i < |kept| ==> codes[i].Int? && ParseInt(kept[i]) == Some(codes[i].n)
  {
    var kept := Survivors(strict, SubCodes(s));
    assert strict ==> DropDubious(SubCodes(s)) != [];
    assert Resolve(check, strict, PStr(s)) ==
      if check then (if ToInts(kept).Some? then Ready(Ints(ToInts(kept).value)) else Raise(NotNumeric(s)))
      else Ready(Texts(kept));
  }

  // ---------------------------------------------------------------------
  // The parser object

  class CognateParser {
    const check: bool
    const strict: bool
    const uniques: bool
    var uniqueId: nat
    /** The tokens minted so far, oldest first. */
    ghost var issued: seq<string>

    ghost predicate Valid()
      reads this
    {
      |issued| == uniqueId &&
      forall i :: 0 <= i < |issued| ==> issued[i] == UniqueToken(i + 1)
    }

    /** `CognateParser(check, strict, uniques)`; the source's defaults are all true. */
    constructor(check: bool, strict: bool, uniques: bool)
      ensures this.check == check && this.strict == strict && this.uniques == uniques
      ensures uniqueId == 0 && issued == [] && Valid()
    {
      this.check := check;
      this.strict := strict;
      this.uniques := uniques;
      uniqueId := 0;
      issued := [];
    }

    /** `get_next_unique()`: with uniques on, advance the counter and return
        the token for its new value, never one handed out before; with
        uniques off, return nothing and leave the counter alone. */
    method GetNextUnique() returns (r: seq<Code>)
      requires Valid()
      modifies this
      ensures Valid()
      ensures uniques ==> uniqueId == old(uniqueId) + 1 && r == [Text(UniqueToken(uniqueId))]
      ensures uniques ==> issued == old(issued) + [UniqueToken(uniqueId)]
      ensures uniques ==> UniqueToken(uniqueId) !in old(issued)
      ensures !uniques ==> uniqueId == old(uniqueId) && r == [] && issued == old(issued)
    {
      if !uniques {
        return [];
      }
      uniqueId := uniqueId + 1;
      var token := UniqueToken(uniqueId);
      forall i | 0 <= i < |issued|
        ensures issued[i] != token
      {
        if issued[i] == token {
          UniqueTokenInjective(i + 1, uniqueId);
        }
      }
      issued := issued + [token];
      r := [Text(token)];
    }

    /** `parse_cognate(value)`: acts as `Resolve` decides; only a call that
        needs a fresh token, with uniques on, moves the counter. */
    method ParseCognate(value: Value) returns (r: Result<seq<Code>, ParseError>)
      requires Valid()
      modifies this
      ensures Valid()
      ensures Resolve(check, strict, value).Fresh? && uniques ==>
        uniqueId == old(uniqueId) + 1 && r == Ok([Text(UniqueToken(uniqueId))]) &&
        UniqueToken(uniqueId) !in old(issued)
      ensures Resolve(check, strict, value).Fresh? && !uniques ==>
        uniqueId == old(uniqueId) && r == Ok([])
      ensures Resolve(check, strict, value).Ready? ==>
        uniqueId == old(uniqueId) && r == Ok(Resolve(check, strict, value).codes)
      ensures Resolve(check, strict, value).Raise? ==>
        uniqueId == old(uniqueId) && r == Err(Resolve(check, strict, value).error)
    {
      if value.PNone? {
        var codes := GetNextUnique();
        return Ok(codes);
      } else if value == PStr("") {
        var codes := GetNextUnique();
        return Ok(codes);
      } else if IsWrongSlot(Str(value)) {
        var codes := GetNextUnique();
        return Ok(codes);
      } else if IsErroneous(Str(value)) {
        var codes := GetNextUnique();
        return Ok(codes);
      } else if value.PStr? {
        var s := value.s;
        if StartsWithComma(s) {
          return Err(BrokenCombined(s));
        }
        var pieces := SubCodes(s);
        var kept: seq<string>;
        if strict {
          kept := DropDubious(pieces);
          if |kept| == 0 {
            var codes := GetNextUnique();
            return Ok(codes);
          }
        } else {
          kept := DeleteMarks(pieces);
        }
        kept := DropEmpty(kept);
        if check {
          var ns := ToInts(kept);
          if ns.None? {
            return Err(NotNumeric(s));
          }
          return Ok(Ints(ns.value));
        } else {
          return Ok(Texts(kept));
        }
      } else {
        return Err(NotText(TypeName(value)));
      }
    }
  }
}
