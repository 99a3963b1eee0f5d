/**
  The parts of Python the modelled code leans on: its dynamic values and `==`
  between them, `str()`, the `str` methods `strip`, `split` and `replace`,
  `int()` applied to text, and `"%d"` formatting.

  Whitespace is what Python's `str.isspace` accepts: tab, line feed,
  vertical tab, form feed, carriage return, the four information separators
  0x1C-0x1F and space, and the Unicode spaces U+0085, U+00A0, U+1680,
  U+2000-U+200A, U+2028, U+2029, U+202F, U+205F and U+3000. `int()` accepts
  surrounding whitespace, an optional sign and ASCII digits.
*/
module Py {
  import opened Wrappers

  /** A Python value as the modelled code meets it. `PObject` stands for any
      other object: the name of its type and what `str()` makes of it. */
  datatype Value =
    | PNone
    | PBool(b: bool)
    | PInt(i: int)
    | PStr(s: string)
    | PObject(typeName: string, text: string)

  /** `isinstance(v, int)`: `bool` is a subclass of `int`. */
  predicate IsInt(v: Value) {
    v.PBool? || v.PInt?
  }

  function IntValue(v: Value): int
    requires IsInt(v)
  {
    if v.PBool? then (if v.b then 1 else 0) else v.i
  }

  /** Python `==`: booleans and integers compare as numbers (`0 == False`);
      values of other different kinds are unequal. */
  function Equal(a: Value, b: Value): (r: bool)
    ensures a == b ==> r
    ensures r && IsInt(a) ==> IsInt(b) && IntValue(a) == IntValue(b)
    ensures r && !IsInt(a) ==> b == a
  {
    if IsInt(a) && IsInt(b) then IntValue(a) == IntValue(b) else a == b
  }

  /** `type(v).__name__` */
  function TypeName(v: Value): string {
    match v
    case PNone => "NoneType"
    case PBool(_) => "bool"
    case PInt(_) => "int"
    case PStr(_) => "str"
    case PObject(t, _) => t
  }

  /** `str(v)`: text is itself, an integer is its numeral. */
  function Str(v: Value): (r: string)
    ensures v.PStr? ==> r == v.s
    ensures v.PInt? ==> r == IntToDecimal(v.i)
    ensures v.PNone? ==> r == "None"
  {
    match v
    case PNone => "None"
    case PBool(b) => if b then "True" else "False"
    case PInt(i) => IntToDecimal(i)
    case PStr(s) => s
    case PObject(_, text) => text
  }

  // ---------------------------------------------------------------------
  // Whitespace and str.strip()

  predicate IsSpace(c: char) {
    9 <= c as int <= 13 || 28 <= c as int <= 32 || c as int == 0x85 || c as int == 0xA0 ||
    c as int == 0x1680 || 0x2000 <= c as int <= 0x200A || c as int == 0x2028 ||
    c as int == 0x2029 || c as int == 0x202F || c as int == 0x205F || c as int == 0x3000
  }

  predicate AllSpace(s: string) {
    forall i :: 0 <= i < |s| ==> IsSpace(s[i])
  }

  /** Neither end of `s` is whitespace. */
  predicate Trimmed(s: string) {
    s == [] || (!IsSpace(s[0]) && !IsSpace(s[|s| - 1]))
  }

  /** How many whitespace characters open `s`. */
  function LeadingSpace(s: string): (k: nat)
    ensures k <= |s|
    ensures k < |s| ==> !IsSpace(s[k])
    decreases |s|
  {
    if |s| > 0 && IsSpace(s[0]) then 1 + LeadingSpace(s[1..]) else 0
  }

  /** How many whitespace characters close `s`. */
  function TrailingSpace(s: string): (k: nat)
    ensures k <= |s|
    ensures k < |s| ==> !IsSpace(s[|s| - 1 - k])
    decreases |s|
  {
    if |s| > 0 && IsSpace(s[|s| - 1]) then 1 + TrailingSpace(s[..|s| - 1]) else 0
  }

  /** `s.lstrip()`: the suffix left after dropping the leading whitespace. */
  function LStrip(s: string): (r: string)
    ensures r == [] || !IsSpace(r[0])
  {
    s[LeadingSpace(s)..]
  }

  /** `s.rstrip()`: the prefix left after dropping the trailing whitespace. */
  function RStrip(s: string): (r: string)
    ensures r == [] || !IsSpace(r[|r| - 1])
  {
    s[..|s| - TrailingSpace(s)]
  }

  /** What `lstrip()` drops is whitespace. */
  lemma {:induction false} LStripDropsSpace(s: string)
    ensures AllSpace(s[..LeadingSpace(s)])
    decreases |s|
  {
    if |s| > 0 && IsSpace(s[0]) {
      LStripDropsSpace(s[1..]);
      var k := LeadingSpace(s);
      assert forall i :: 1 <= i < k ==> s[..k][i] == s[1..][..k - 1][i - 1];
    }
  }

  /** What `rstrip()` drops is whitespace. */
  lemma {:induction false} RStripDropsSpace(s: string)
    ensures AllSpace(s[|s| - TrailingSpace(s)..])
    decreases |s|
  {
    if |s| > 0 && IsSpace(s[|s| - 1]) {
      var u := s[..|s| - 1];
      RStripDropsSpace(u);
      var j := |u| - TrailingSpace(u);
      assert |s| - TrailingSpace(s) == j;
      forall i | j <= i < |s|
        ensures IsSpace(s[i])
      {
        if i < |u| {
          assert s[i] == u[j..][i - j];
        }
      }
    }
  }

  /** `s.strip()` */
  function Strip(s: string): (r: string)
    ensures Trimmed(r)
    ensures |r| <= |s|
  {
    RStrip(LStrip(s))
  }

  lemma {:induction false} LeadingSpaceOfPadded(a: string, x: string)
    requires AllSpace(a)
    requires x == [] || !IsSpace(x[0])
    ensures LeadingSpace(a + x) == |a|
    decreases |a|
  {
    if a != [] {
      assert (a + x)[1..] == a[1..] + x;
      LeadingSpaceOfPadded(a[1..], x);
    } else {
      assert a + x == x;
    }
  }

  lemma {:induction false} TrailingSpaceOfPadded(x: string, b: string)
    requires AllSpace(b)
    requires x == [] || !IsSpace(x[|x| - 1])
    ensures TrailingSpace(x + b) == |b|
    decreases |b|
  {
    if b != [] {
      assert (x + b)[..|x + b| - 1] == x + b[..|b| - 1];
      TrailingSpaceOfPadded(x, b[..|b| - 1]);
    } else {
      assert x + b == x;
    }
  }

  lemma LStripOfPadded(a: string, x: string)
    requires AllSpace(a)
    requires x == [] || !IsSpace(x[0])
    ensures LStrip(a + x) == x
  {
    LeadingSpaceOfPadded(a, x);
    assert (a + x)[|a|..] == x;
  }

  lemma RStripOfPadded(x: string, b: string)
    requires AllSpace(b)
    requires x == [] || !IsSpace(x[|x| - 1])
    ensures RStrip(x + b) == x
  {
    TrailingSpaceOfPadded(x, b);
    assert (x + b)[..|x|] == x;
  }

  /** Stripping removes exactly the surrounding whitespace: `s.strip()` of a
      trimmed text padded with whitespace on both sides is that text. */
  lemma StripPadded(a: string, t: string, b: string)
    requires AllSpace(a) && AllSpace(b) && Trimmed(t)
    ensures Strip(a + t + b) == t
  {
    if t == [] {
      assert a + t + b == (a + b) + [];
      LStripOfPadded(a + b, []);
    } else {
      assert a + t + b == a + (t + b);
      LStripOfPadded(a, t + b);
      RStripOfPadded(t, b);
    }
  }

  /** `s.strip().strip() == s.strip()` */
  lemma StripIdempotent(s: string)
    ensures Strip(Strip(s)) == Strip(s)
  {
    var t := Strip(s);
    assert [] + t + [] == t;
    StripPadded([], t, []);
  }

  /** Stripping the leading whitespace first changes nothing. */
  lemma StripAfterLStrip(s: string)
    ensures Strip(LStrip(s)) == Strip(s)
  {
    var l := LStrip(s);
    assert [] + l == l;
    LStripOfPadded([], l);
  }

  lemma {:induction false} LeadingSpaceConcat(x: string, y: string)
    requires y != [] && !IsSpace(y[0])
    ensures LeadingSpace(x + y) == LeadingSpace(x)
    decreases |x|
  {
    if x == [] {
      assert x + y == y;
    } else {
      assert (x + y)[0] == x[0];
      if IsSpace(x[0]) {
        assert (x + y)[1..] == x[1..] + y;
        LeadingSpaceConcat(x[1..], y);
      }
    }
  }

  lemma {:induction false} TrailingSpaceConcat(x: string, y: string)
    requires x != [] && !IsSpace(x[|x| - 1])
    ensures TrailingSpace(x + y) == TrailingSpace(y)
    decreases |y|
  {
    if y == [] {
      assert x + y == x;
    } else {
      assert (x + y)[|x + y| - 1] == y[|y| - 1];
      if IsSpace(y[|y| - 1]) {
        assert (x + y)[..|x + y| - 1] == x + y[..|y| - 1];
        TrailingSpaceConcat(x, y[..|y| - 1]);
      }
    }
  }

  /** `lstrip()` stops at the first character that is not whitespace. */
  lemma LStripConcat(x: string, y: string)
    requires y != [] && !IsSpace(y[0])
    ensures LStrip(x + y) == LStrip(x) + y
  {
    LeadingSpaceConcat(x, y);
    assert (x + y)[LeadingSpace(x)..] == x[LeadingSpace(x)..] + y;
  }

  /** `rstrip()` stops at the last character that is not whitespace. */
  lemma RStripConcat(x: string, y: string)
    requires x != [] && !IsSpace(x[|x| - 1])
    ensures RStrip(x + y) == x + RStrip(y)
  {
    TrailingSpaceConcat(x, y);
    assert (x + y)[..|x + y| - TrailingSpace(y)] == x + y[..|y| - TrailingSpace(y)];
  }

  /** `strip()` only removes characters. */
  lemma StripChars(s: string, c: char)
    requires c in Strip(s)
    ensures c in s
  {
    var l := LStrip(s);
    var j :| 0 <= j < |Strip(s)| && Strip(s)[j] == c;
    assert l[j] == c;
    assert s[LeadingSpace(s) + j] == c;
  }

  /** A character absent from a text is absent from its stripped form. */
  lemma StripKeepsAbsent(s: string, c: char)
    requires c !in s
    ensures c !in Strip(s)
  {
    if c in Strip(s) {
      StripChars(s, c);
    }
  }

  /** A character absent from a text is absent from its first piece. */
  lemma SplitKeepsAbsent(s: string, sep: char, c: char)
    requires c !in s
    ensures c !in Split(s, sep)[0]
  {
  }

  /** `strip()` keeps every character that is not whitespace. */
  lemma StripKeepsChar(s: string, k: nat)
    requires k < |s| && !IsSpace(s[k])
    ensures s[k] in Strip(s)
  {
    var l := LStrip(s);
    LStripDropsSpace(s);
    RStripDropsSpace(l);
    var off := LeadingSpace(s);
    assert off <= k;
    assert l[k - off] == s[k];
    assert k - off < |Strip(s)|;
    assert Strip(s)[k - off] == s[k];
  }

  // ---------------------------------------------------------------------
  // str.split(sep) for a one-character separator, and its inverse sep.join

  /** `s.split(sep)`: the pieces between separators, empty ones included. */
  function Split(s: string, sep: char): (parts: seq<string>)
    ensures |parts| >= 1
    ensures forall i :: 0 <= i < |parts| ==> sep !in parts[i]
    ensures parts[0] <= s
    decreases |s|
  {
    if s == [] then [""]
    else
      var rest := Split(s[1..], sep);
      if s[0] == sep then [""] + rest
      else [[s[0]] + rest[0]] + rest[1..]
  }

  /** `sep.join(parts)` */
  function Join(parts: seq<string>, sep: char): string
    requires |parts| >= 1
  {
    if |parts| == 1 then parts[0] else parts[0] + [sep] + Join(parts[1..], sep)
  }

  /** Joining the pieces of a split gives back the text. */
  lemma {:induction false} JoinSplit(s: string, sep: char)
    ensures Join(Split(s, sep), sep) == s
    decreases |s|
  {
    if s != [] {
      var rest := Split(s[1..], sep);
      JoinSplit(s[1..], sep);
      if s[0] == sep {
        assert Split(s, sep) == [""] + rest;
        assert ([""] + rest)[1..] == rest;
      } else {
        var parts := [[s[0]] + rest[0]] + rest[1..];
        assert Split(s, sep) == parts;
        if |rest| == 1 {
          assert Join(parts, sep) == [s[0]] + rest[0];
        } else {
          assert parts[1..] == rest[1..];
          assert Join(rest, sep) == rest[0] + [sep] + Join(rest[1..], sep);
        }
      }
    }
  }

  /** A text without the separator is a single piece. */
  lemma {:induction false} SplitWithoutSep(s: string, sep: char)
    requires sep !in s
    ensures Split(s, sep) == [s]
    decreases |s|
  {
    if s != [] {
      SplitWithoutSep(s[1..], sep);
      assert [s[0]] + s[1..] == s;
    }
  }

  /** Splitting around one separator splits each side on its own. */
  lemma {:induction false} SplitAround(a: string, b: string, sep: char)
    ensures Split(a + [sep] + b, sep) == Split(a, sep) + Split(b, sep)
    decreases |a|
  {
    var s := a + [sep] + b;
    if a == [] {
      assert s == [sep] + b;
      assert s[1..] == b;
    } else {
      assert s[0] == a[0];
      assert s[1..] == a[1..] + [sep] + b;
      SplitAround(a[1..], b, sep);
    }
  }

  /** Splitting a join gives back the pieces when none holds the separator. */
  lemma {:induction false} SplitJoin(parts: seq<string>, sep: char)
    requires |parts| >= 1
    requires forall i :: 0 <= i < |parts| ==> sep !in parts[i]
    ensures Split(Join(parts, sep), sep) == parts
    decreases |parts|
  {
    SplitWithoutSep(parts[0], sep);
    if |parts| > 1 {
      SplitJoin(parts[1..], sep);
      SplitAround(parts[0], Join(parts[1..], sep), sep);
      assert [parts[0]] + parts[1..] == parts;
    }
  }

  /** The first piece of `x + y` is `x` followed by the first piece of `y`
      when `x` holds no separator. */
  lemma {:induction false} SplitFirstPiece(x: string, y: string, sep: char)
    requires sep !in x
    ensures Split(x + y, sep)[0] == x + Split(y, sep)[0]
    decreases |x|
  {
    if x != [] {
      assert x[0] != sep;
      assert (x + y)[0] == x[0];
      assert (x + y)[1..] == x[1..] + y;
      assert Split(x + y, sep)[0] == [x[0]] + Split(x[1..] + y, sep)[0];
      SplitFirstPiece(x[1..], y, sep);
      assert [x[0]] + (x[1..] + Split(y, sep)[0]) == x + Split(y, sep)[0];
    } else {
      assert x + y == y;
    }
  }

  /** Every character of a piece comes from the text. */
  lemma {:induction false} SplitPieceChars(s: string, sep: char, i: nat, c: char)
    requires i < |Split(s, sep)| && c in Split(s, sep)[i]
    ensures c in s
    decreases |s|
  {
    if s != [] {
      var rest := Split(s[1..], sep);
      if s[0] == sep {
        if i > 0 {
          assert Split(s, sep)[i] == rest[i - 1];
          SplitPieceChars(s[1..], sep, i - 1, c);
        }
      } else if i == 0 {
        assert Split(s, sep)[0] == [s[0]] + rest[0];
        if c != s[0] {
          SplitPieceChars(s[1..], sep, 0, c);
        }
      } else {
        assert Split(s, sep)[i] == rest[i];
        SplitPieceChars(s[1..], sep, i, c);
      }
    }
  }

  /** Every character of the text but the separator lands in some piece. */
  lemma {:induction false} SplitKeepsChar(s: string, sep: char, k: nat) returns (i: nat)
    requires k < |s| && s[k] != sep
    ensures i < |Split(s, sep)| && s[k] in Split(s, sep)[i]
    decreases |s|
  {
    var rest := Split(s[1..], sep);
    if k == 0 {
      assert Split(s, sep)[0] == [s[0]] + rest[0];
      i := 0;
    } else {
      var j := SplitKeepsChar(s[1..], sep, k - 1);
      assert s[1..][k - 1] == s[k];
      if s[0] == sep {
        assert Split(s, sep)[j + 1] == rest[j];
        i := j + 1;
      } else if j == 0 {
        assert Split(s, sep)[0] == [s[0]] + rest[0];
        i := 0;
      } else {
        assert Split(s, sep)[j] == rest[j];
        i := j;
      }
    }
  }

  // ---------------------------------------------------------------------
  // str.replace

  /** `s.replace(a, b)` for one-character `a` and `b`. */
  function ReplaceChar(s: string, a: char, b: char): (r: string)
    ensures |r| == |s|
    ensures forall i :: 0 <= i < |s| ==> r[i] == if s[i] == a then b else s[i]
    ensures a != b ==> a !in r
    ensures forall c :: c != a && c != b ==> (c in r <==> c in s)
  {
    var r := seq(|s|, i requires 0 <= i < |s| => if s[i] == a then b else s[i]);
    assert forall c :: c != a && c != b && c in s ==> c in r by {
      forall c | c != a && c != b && c in s ensures c in r {
        var i :| 0 <= i < |s| && s[i] == c;
        assert r[i] == c;
      }
    }
    r
  }

  /** `s.replace(a, "")` */
  function DeleteChar(s: string, a: char): (r: string)
    ensures a !in r
    ensures |r| <= |s|
    ensures forall c :: c != a ==> (c in r <==> c in s)
    ensures a !in s ==> r == s
  {
    if s == [] then []
    else
      var rest := DeleteChar(s[1..], a);
      assert s == [s[0]] + s[1..];
      if s[0] == a then rest else [s[0]] + rest
  }

  /** Deleting a character distributes over concatenation. */
  lemma {:induction false} DeleteCharConcat(s: string, t: string, a: char)
    ensures DeleteChar(s + t, a) == DeleteChar(s, a) + DeleteChar(t, a)
    decreases |s|
  {
    if s == [] {
      assert s + t == t;
    } else {
      assert (s + t)[0] == s[0];
      assert (s + t)[1..] == s[1..] + t;
      DeleteCharConcat(s[1..], t, a);
    }
  }

  /** `s.replace(pat, rep)`: occurrences replaced left to right without overlap. */
  function ReplaceAll(s: string, pat: string, rep: string): (r: string)
    requires |pat| > 0
    ensures forall c :: c !in s && c !in rep ==> c !in r
    decreases |s|
  {
    if |s| < |pat| then s
    else if s[..|pat|] == pat then
      var rest := ReplaceAll(s[|pat|..], pat, rep);
      assert forall c :: c in s[|pat|..] ==> c in s;
      rep + rest
    else
      var rest := ReplaceAll(s[1..], pat, rep);
      assert forall c :: c in s[1..] ==> c in s;
      [s[0]] + rest
  }

  /** A text without the first character of the pattern has nothing to
      replace. */
  lemma {:induction false} ReplaceAllAbsent(s: string, pat: string, rep: string)
    requires |pat| > 0 && pat[0] !in s
    ensures ReplaceAll(s, pat, rep) == s
    decreases |s|
  {
    if |s| >= |pat| {
      assert s[..|pat|][0] != pat[0];
      assert pat[0] !in s[1..];
      ReplaceAllAbsent(s[1..], pat, rep);
      assert [s[0]] + s[1..] == s;
    }
  }

  /** When no occurrence of the pattern starts inside `a`, `a` is copied as
      it is and the replacing goes on after it. */
  lemma {:induction false} ReplaceAllSkip(a: string, b: string, pat: string, rep: string)
    requires |pat| > 0
    requires forall i :: 0 <= i < |a| ==> !(pat <= (a + b)[i..])
    ensures ReplaceAll(a + b, pat, rep) == a + ReplaceAll(b, pat, rep)
    decreases |a|
  {
    if a == [] {
      assert a + b == b;
    } else {
      var s := a + b;
      assert s[0..] == s;
      assert s[1..] == a[1..] + b;
      forall i | 0 <= i < |a[1..]|
        ensures !(pat <= (a[1..] + b)[i..])
      {
        assert (a[1..] + b)[i..] == s[i + 1..];
      }
      if |s| < |pat| {
        assert ReplaceAll(b, pat, rep) == b;
      } else {
        assert s[..|pat|] != pat;
        ReplaceAllSkip(a[1..], b, pat, rep);
        assert ReplaceAll(s, pat, rep) == [s[0]] + ReplaceAll(s[1..], pat, rep);
        assert a == [s[0]] + a[1..];
      }
    }
  }

  /** An occurrence at the front is replaced and the rest is scanned after it. */
  lemma ReplaceAllHit(b: string, pat: string, rep: string)
    requires |pat| > 0
    ensures ReplaceAll(pat + b, pat, rep) == rep + ReplaceAll(b, pat, rep)
  {
    assert (pat + b)[..|pat|] == pat;
    assert (pat + b)[|pat|..] == b;
  }

  /** The first occurrence of the pattern is replaced, what precedes it is
      kept, and the replacing goes on after it. */
  lemma ReplaceAllFirst(a: string, b: string, pat: string, rep: string)
    requires |pat| > 0
    requires forall i :: 0 <= i < |a| ==> !(pat <= (a + pat + b)[i..])
    ensures ReplaceAll(a + pat + b, pat, rep) == a + rep + ReplaceAll(b, pat, rep)
  {
    assert a + pat + b == a + (pat + b);
    ReplaceAllSkip(a, pat + b, pat, rep);
    ReplaceAllHit(b, pat, rep);
  }

  /** A text lacking some character of the pattern has nothing to replace. */
  lemma {:induction false} ReplaceAllMissing(s: string, pat: string, rep: string, k: nat)
    requires k < |pat| && pat[k] !in s
    ensures ReplaceAll(s, pat, rep) == s
    decreases |s|
  {
    if |s| >= |pat| {
      assert s[..|pat|][k] == s[k];
      assert pat[k] !in s[1..];
      ReplaceAllMissing(s[1..], pat, rep, k);
      assert [s[0]] + s[1..] == s;
    }
  }

  /** Replacing a character that does not occur changes nothing. */
  lemma ReplaceCharAbsent(s: string, a: char, b: char)
    requires a !in s
    ensures ReplaceChar(s, a, b) == s
  {
  }

  /** Replacing a character distributes over concatenation. */
  lemma ReplaceCharConcat(s: string, t: string, a: char, b: char)
    ensures ReplaceChar(s + t, a, b) == ReplaceChar(s, a, b) + ReplaceChar(t, a, b)
  {
    var l := ReplaceChar(s + t, a, b);
    var m := ReplaceChar(s, a, b) + ReplaceChar(t, a, b);
    assert |l| == |m|;
    forall i | 0 <= i < |l|
      ensures l[i] == m[i]
    {
      if i < |s| {
        assert (s + t)[i] == s[i];
      } else {
        assert (s + t)[i] == t[i - |s|];
      }
    }
  }

  // ---------------------------------------------------------------------
  // "%d" formatting and int() on text

  predicate IsDigit(c: char) {
    '0' <= c <= '9'
  }

  /** One or more ASCII digits. */
  predicate IsDigits(s: string) {
    |s| > 0 && forall i :: 0 <= i < |s| ==> IsDigit(s[i])
  }

  function DigitChar(d: nat): (c: char)
    requires d < 10
    ensures IsDigit(c)
  {
    ('0' as int + d) as char
  }

  /** The number a run of decimal digits denotes (leading zeros allowed). */
  function DigitsValue(s: string): nat
    requires forall i :: 0 <= i < |s| ==> IsDigit(s[i])
  {
    if s == [] then 0
    else
      assert IsDigit(s[|s| - 1]);
      DigitsValue(s[..|s| - 1]) * 10 + (s[|s| - 1] as int - '0' as int)
  }

  /** `"%d" % n` for `n >= 0` */
  function NatToDecimal(n: nat): (r: string)
    ensures IsDigits(r)
    decreases n
  {
    if n < 10 then [DigitChar(n)] else NatToDecimal(n / 10) + [DigitChar(n % 10)]
  }

  /** `"%d" % n` */
  function IntToDecimal(n: int): (r: string)
    ensures Trimmed(r)
    ensures r != [] && (r[0] == '-' || IsDigit(r[0]))
    ensures forall i :: 1 <= i < |r| ==> IsDigit(r[i])
  {
    if n < 0 then "-" + NatToDecimal(-n) else NatToDecimal(n)
  }

  /** `int(s)` for a text `s`: surrounding whitespace, an optional sign and
      one or more ASCII digits; anything else raises (here: None). */
  /** What `int()` accepts once the whitespace is stripped: digits, with an
      optional sign. */
  predicate IsNumeral(t: string) {
    IsDigits(t) || (|t| > 0 && (t[0] == '-' || t[0] == '+') && IsDigits(t[1..]))
  }

  function ParseInt(s: string): (r: Option<int>)
    ensures r.Some? <==> IsNumeral(Strip(s))
    ensures r.Some? && Strip(s)[0] == '-' ==> r.value <= 0
    ensures r.Some? && Strip(s)[0] != '-' ==> r.value >= 0
  {
    var t := Strip(s);
    if |t| > 0 && (t[0] == '-' || t[0] == '+') then
      if IsDigits(t[1..]) then
        var v: int := DigitsValue(t[1..]);
        Some(if t[0] == '-' then -v else v)
      else None
    else if IsDigits(t) then Some(DigitsValue(t))
    else None
  }

  lemma {:induction false} DigitsValueOfDecimal(n: nat)
    ensures DigitsValue(NatToDecimal(n)) == n
    decreases n
  {
    if n >= 10 {
      var r := NatToDecimal(n);
      DigitsValueOfDecimal(n / 10);
      assert r[..|r| - 1] == NatToDecimal(n / 10);
    }
  }

  /** A text without surrounding whitespace is left alone by `strip()`. */
  lemma StripTrimmed(t: string)
    requires Trimmed(t)
    ensures Strip(t) == t
  {
    if t != [] {
      assert LStrip(t) == t;
      assert RStrip(t) == t;
    }
  }

  lemma ParseNatDecimal(n: nat)
    ensures ParseInt(NatToDecimal(n)) == Some(n)
  {
    var d := NatToDecimal(n);
    DigitsValueOfDecimal(n);
    assert !(d[0] == '-' || d[0] == '+');
    StripTrimmed(d);
  }

  lemma ParseNegDecimal(n: nat)
    requires n > 0
    ensures ParseInt("-" + NatToDecimal(n)) == Some(-(n as int))
  {
    var m := NatToDecimal(n);
    var d := "-" + m;
    assert d[1..] == m;
    DigitsValueOfDecimal(n);
    assert Trimmed(d);
    StripTrimmed(d);
  }

  /** Only zeros. */
  predicate AllZeros(z: string) {
    forall i :: 0 <= i < |z| ==> z[i] == '0'
  }

  lemma {:induction false} DigitsValueZeros(z: string)
    requires AllZeros(z)
    ensures DigitsValue(z) == 0
    decreases |z|
  {
    if z != [] {
      DigitsValueZeros(z[..|z| - 1]);
    }
  }

  /** Leading zeros add nothing to the value of a run of digits. */
  lemma {:induction false} DigitsValueAfterZeros(z: string, d: string)
    requires AllZeros(z) && forall i :: 0 <= i < |d| ==> IsDigit(d[i])
    ensures DigitsValue(z + d) == DigitsValue(d)
    decreases |d|
  {
    if d == [] {
      assert z + d == z;
      DigitsValueZeros(z);
    } else {
      var t := z + d;
      assert t[..|t| - 1] == z + d[..|d| - 1];
      assert t[|t| - 1] == d[|d| - 1];
      DigitsValueAfterZeros(z, d[..|d| - 1]);
    }
  }

  /** `int()` reads a numeral with leading zeros: `int("007") == 7`. */
  lemma ParseLeadingZeros(z: string, n: nat)
    requires AllZeros(z)
    ensures ParseInt(z + NatToDecimal(n)) == Some(n)
  {
    var d := NatToDecimal(n);
    var t := z + d;
    ZerosThenDigits(z, d);
    assert Trimmed(t) by {
      assert IsDigit(t[0]) && IsDigit(t[|t| - 1]);
    }
    StripTrimmed(t);
    assert ParseInt(t) == Some(DigitsValue(t));
    DigitsValueAfterZeros(z, d);
    DigitsValueOfDecimal(n);
  }

  lemma ZerosThenDigits(z: string, d: string)
    requires AllZeros(z) && IsDigits(d)
    ensures IsDigits(z + d)
  {
    var t := z + d;
    forall i | 0 <= i < |t|
      ensures IsDigit(t[i])
    {
      if i >= |z| {
        assert t[i] == d[i - |z|];
      }
    }
  }

  /** `int()` accepts an explicit '+': `int("+5") == 5`. */
  lemma ParsePlusSign(n: nat)
    ensures ParseInt("+" + NatToDecimal(n)) == Some(n)
  {
    var d := NatToDecimal(n);
    var t := "+" + d;
    assert t[1..] == d;
    assert t[|t| - 1] == d[|d| - 1];
    StripTrimmed(t);
    DigitsValueOfDecimal(n);
  }

  /** `int()` looks only at the stripped text. */
  lemma ParseSeesOnlyStrip(x: string, y: string)
    requires Strip(x) == Strip(y)
    ensures ParseInt(x) == ParseInt(y)
  {
  }

  /** `int("%d" % n) == n` */
  lemma ParseDecimal(n: int)
    ensures ParseInt(IntToDecimal(n)) == Some(n)
  {
    if n < 0 {
      ParseNegDecimal(-n);
    } else {
      ParseNatDecimal(n);
    }
  }

  /** `int()` ignores whitespace around the number. */
  lemma ParsePaddedDecimal(a: string, n: int, b: string)
    requires AllSpace(a) && AllSpace(b)
    ensures ParseInt(a + IntToDecimal(n) + b) == Some(n)
  {
    var d := IntToDecimal(n);
    StripPadded(a, d, b);
    StripTrimmed(d);
    ParseSeesOnlyStrip(a + d + b, d);
    ParseDecimal(n);
  }

  /** "%d" is one-to-one. */
  lemma DecimalInjective(m: int, n: int)
    requires IntToDecimal(m) == IntToDecimal(n)
    ensures m == n
  {
    ParseDecimal(m);
    ParseDecimal(n);
  }

  /** `int()` rejects a text holding anything but whitespace, a sign or a digit. */
  lemma ParseRejectsForeignChar(s: string, k: nat)
    requires k < |s|
    requires !IsSpace(s[k]) && !IsDigit(s[k]) && s[k] != '-' && s[k] != '+'
    ensures ParseInt(s) == None
  {
    var l := LStrip(s);
    var t := Strip(s);
    LStripDropsSpace(s);
    RStripDropsSpace(l);
    var off := LeadingSpace(s);
    assert off <= k < off + |t|;
    var j := k - off;
    assert t[j] == s[k];
    if j > 0 {
      assert t[1..][j - 1] == s[k];
    }
  }
}
