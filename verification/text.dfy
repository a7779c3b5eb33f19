/**
 * The pieces of Python's string handling that the input parsers of the
 * applications rely on: `str.strip()`, `str.isdigit()`, `str.split(sep)`,
 * `str.split()`, `str.replace` of one character by another, and
 * `int(text)` in base 10. Whitespace is what `str.isspace()` accepts below
 * U+0100; digits are the ASCII ones.
 */
module Text {
  import opened Common

  /** The characters `str.isspace()` accepts below U+0100. */
  predicate IsSpace(c: char) {
    c == ' ' || c == '\t' || c == '\n' || c == '\r' || c == '\U{B}' || c == '\U{C}'
    || ('\U{1C}' <= c <= '\U{1F}') || c == '\U{85}' || c == '\U{A0}'
  }

  predicate AllSpace(s: string) {
    forall i :: 0 <= i < |s| ==> IsSpace(s[i])
  }

  /** Neither end of s is whitespace. */
  predicate Trimmed(s: string) {
    s == [] || (!IsSpace(s[0]) && !IsSpace(s[|s| - 1]))
  }

  predicate IsDigit(c: char) {
    '0' <= c <= '9'
  }

  // ---- str.strip() ----

  /** `str.lstrip()`. */
  function StripLeft(s: string): (r: string)
    ensures |r| <= |s| && (r == [] || !IsSpace(r[0]))
  {
    if s != [] && IsSpace(s[0]) then StripLeft(s[1..]) else s
  }

  /** `str.rstrip()`. */
  function StripRight(s: string): (r: string)
    ensures |r| <= |s| && (r == [] || !IsSpace(r[|r| - 1]))
    ensures r != [] ==> r[0] == s[0]
  {
    if s != [] && IsSpace(s[|s| - 1]) then StripRight(s[..|s| - 1]) else s
  }

  /** `str.strip()`: s without its leading and trailing whitespace. */
  function Strip(s: string): (r: string)
    ensures Trimmed(r) && |r| <= |s|
  {
    StripRight(StripLeft(s))
  }

  /** `lstrip` removes a run of whitespace from the front and keeps the rest. */
  lemma {:induction false} StripLeftShape(s: string)
    ensures var r := StripLeft(s);
            s == s[..|s| - |r|] + r && AllSpace(s[..|s| - |r|])
  {
    if s != [] && IsSpace(s[0]) {
      StripLeftShape(s[1..]);
      var r := StripLeft(s[1..]);
      assert s[1..] == s[1..][..|s| - 1 - |r|] + r;
      assert s[..|s| - |r|] == [s[0]] + s[1..][..|s| - 1 - |r|];
    } else {
      assert s[..0] == [];
    }
  }

  /** Stripping removes exactly the whitespace padding around a trimmed text. */
  lemma StripPadding(p: string, t: string, q: string)
    requires AllSpace(p) && AllSpace(q) && Trimmed(t)
    ensures Strip(p + t + q) == t
  {
    assert p + t + q == p + (t + q);
    if t == [] {
      assert AllSpace(p + t + q);
      StripLeftBlank(p + t + q);
    } else {
      StripLeftPadding(p, t + q);
      StripRightPadding(t, q);
    }
  }

  lemma {:induction false} StripLeftPadding(p: string, u: string)
    requires AllSpace(p) && (u == [] || !IsSpace(u[0]))
    ensures StripLeft(p + u) == u
  {
    if p != [] {
      assert (p + u)[1..] == p[1..] + u;
      StripLeftPadding(p[1..], u);
    } else {
      assert p + u == u;
    }
  }

  lemma {:induction false} StripLeftBlank(u: string)
    requires AllSpace(u)
    ensures StripLeft(u) == []
  {
    if u != [] {
      StripLeftBlank(u[1..]);
    }
  }

  lemma {:induction false} StripRightPadding(t: string, q: string)
    requires AllSpace(q) && t != [] && !IsSpace(t[|t| - 1])
    ensures StripRight(t + q) == t
    decreases |q|
  {
    if q != [] {
      assert (t + q)[..|t + q| - 1] == t + q[..|q| - 1];
      StripRightPadding(t, q[..|q| - 1]);
    } else {
      assert t + q == t;
    }
  }

  // ---- digits ----

  /** `str.isdigit()` on ASCII text: at least one character, all of them digits. */
  predicate IsDigitString(s: string) {
    s != [] && forall i :: 0 <= i < |s| ==> IsDigit(s[i])
  }

  function DigitValue(c: char): (v: nat)
    requires IsDigit(c)
  {
    c as int - '0' as int
  }

  /** The value of a string of decimal digits, most significant first. */
  function DigitsValue(ds: string): (v: nat)
    requires forall i :: 0 <= i < |ds| ==> IsDigit(ds[i])
  {
    if ds == [] then 0 else 10 * DigitsValue(ds[..|ds| - 1]) + DigitValue(ds[|ds| - 1])
  }

  /** The decimal rendering of n, as `str(n)` writes it. */
  function Decimal(n: nat): (r: string)
    ensures r != [] && forall i :: 0 <= i < |r| ==> IsDigit(r[i])
  {
    if n < 10 then [('0' as int + n) as char]
    else Decimal(n / 10) + [('0' as int + n % 10) as char]
  }

  /** Reading back a rendering gives the number. */
  lemma {:induction false} DecimalValue(n: nat)
    ensures DigitsValue(Decimal(n)) == n
  {
    var r := Decimal(n);
    if n >= 10 {
      DecimalValue(n / 10);
      assert r[..|r| - 1] == Decimal(n / 10);
    }
  }

  /** `str(n)` for any integer. */
  function Show(n: int): (r: string)
    ensures r != [] && IsDigit(r[|r| - 1]) && (IsDigit(r[0]) || r[0] == '-')
  {
    if n < 0 then ['-'] + Decimal(-n) else Decimal(n)
  }

  // ---- int(text) ----

  /** Digits with single underscores between them, as `int` accepts in base 10. */
  predicate Grouped(body: string) {
    body != [] && IsDigit(body[0]) && IsDigit(body[|body| - 1])
    && (forall i :: 0 <= i < |body| ==> IsDigit(body[i]) || body[i] == '_')
    && (forall i :: 0 <= i < |body| - 1 ==> !(body[i] == '_' && body[i + 1] == '_'))
  }

  /** The digits of a grouped body without its underscores. */
  function Ungrouped(body: string): (r: string)
    requires forall i :: 0 <= i < |body| ==> IsDigit(body[i]) || body[i] == '_'
    ensures forall i :: 0 <= i < |r| ==> IsDigit(r[i])
    ensures (forall i :: 0 <= i < |body| ==> IsDigit(body[i])) ==> r == body
  {
    if body == [] then []
    else (if body[0] == '_' then [] else [body[0]]) + Ungrouped(body[1..])
  }

  /** An optional sign, then grouped decimal digits. */
  function ParseTrimmed(t: string): (r: Option<int>)
    ensures r.Some? ==> t != []
  {
    if t == [] then None
    else
      var body := if t[0] == '-' || t[0] == '+' then t[1..] else t;
      if Grouped(body) then
        var v: int := DigitsValue(Ungrouped(body));
        Some(if t[0] == '-' then -v else v)
      else None
  }

  /**
   * `int(text)`: surrounding whitespace ignored, an optional sign, then
   * grouped decimal digits; anything else is a ValueError (None here).
   */
  function ParseInt(text: string): (r: Option<int>)
    ensures r.Some? ==> Strip(text) != []
  {
    ParseTrimmed(Strip(text))
  }

  /** Plain digits are a grouped body that stands for itself. */
  lemma PlainDigits(d: string)
    requires IsDigitString(d)
    ensures Grouped(d) && Ungrouped(d) == d
  {
  }

  /** Unsigned digits read back as their value. */
  lemma ParseDigits(d: string)
    requires IsDigitString(d)
    ensures ParseTrimmed(d) == Some(DigitsValue(d))
  {
    PlainDigits(d);
  }

  /** A minus sign and digits read back as the negated value. */
  lemma ParseNegated(d: string)
    requires IsDigitString(d)
    ensures ParseTrimmed(['-'] + d) == Some(-(DigitsValue(d) as int))
  {
    assert (['-'] + d)[1..] == d;
    PlainDigits(d);
  }

  /** A minus sign and the digits of m read back as -m. */
  lemma ParseMinusDecimal(m: nat)
    ensures ParseTrimmed(['-'] + Decimal(m)) == Some(-(m as int))
  {
    ParseNegated(Decimal(m));
    DecimalValue(m);
  }

  /** `str(n)` of a negative n read back as n. */
  lemma ParseShowNegative(n: int)
    requires n < 0
    ensures ParseTrimmed(Show(n)) == Some(n)
  {
    ParseMinusDecimal(-n);
  }

  /** `str(n)` of a non-negative n read back as n. */
  lemma ParseShowNatural(n: nat)
    ensures ParseTrimmed(Show(n)) == Some(n)
  {
    var d := Decimal(n);
    assert Show(n) == d;
    ParseDigits(d);
    DecimalValue(n);
  }

  /** A sign and the digits of `str(n)` read back as n. */
  lemma ParseTrimmedShow(n: int)
    ensures ParseTrimmed(Show(n)) == Some(n)
  {
    if n < 0 {
      ParseShowNegative(n);
    } else {
      ParseShowNatural(n);
    }
  }

  /** A text without whitespace at its ends is its own strip. */
  lemma TrimmedStrip(t: string)
    requires Trimmed(t)
    ensures Strip(t) == t
  {
    StripPadding([], t, []);
    assert [] + t + [] == t;
  }

  /** `int(str(n)) == n`. */
  lemma ParseShow(n: int)
    ensures ParseInt(Show(n)) == Some(n)
  {
    TrimmedStrip(Show(n));
    ParseTrimmedShow(n);
  }

  /** Whitespace around a number does not matter to `int`. */
  lemma ParsePadded(p: string, n: int, q: string)
    requires AllSpace(p) && AllSpace(q)
    ensures ParseInt(p + Show(n) + q) == Some(n)
  {
    StripPadding(p, Show(n), q);
    ParseTrimmedShow(n);
  }

  // ---- str.split(sep) and str.join ----

  /** `text.split(sep)`: the pieces between the separators, empty ones included. */
  function SplitOn(text: string, sep: char): (r: seq<string>)
    ensures |r| >= 1
    ensures forall i :: 0 <= i < |r| ==> sep !in r[i]
  {
    if text == [] then [[]]
    else
      var rest := SplitOn(text[1..], sep);
      if text[0] == sep then [[]] + rest
      else [[text[0]] + rest[0]] + rest[1..]
  }

  /** `sep.join(pieces)`. */
  function Join(pieces: seq<string>, sep: char): (r: string)
    requires |pieces| >= 1
  {
    if |pieces| == 1 then pieces[0] else pieces[0] + [sep] + Join(pieces[1..], sep)
  }

  /** Joining the pieces of a split gives the text back. */
  lemma {:induction false} JoinSplit(text: string, sep: char)
    ensures Join(SplitOn(text, sep), sep) == text
  {
    if text != [] {
      var rest := SplitOn(text[1..], sep);
      JoinSplit(text[1..], sep);
      if text[0] == sep {
        assert ([[]] + rest)[1..] == rest;
      } else {
        var r := [[text[0]] + rest[0]] + rest[1..];
        if |rest| > 1 {
          assert r[1..] == rest[1..];
          assert Join(rest, sep) == rest[0] + [sep] + Join(rest[1..], sep);
        }
      }
    }
  }

  /** Splitting a join of separator-free pieces gives the pieces back. */
  lemma {:induction false} SplitJoin(pieces: seq<string>, sep: char)
    requires |pieces| >= 1 && forall i :: 0 <= i < |pieces| ==> sep !in pieces[i]
    ensures SplitOn(Join(pieces, sep), sep) == pieces
    decreases |pieces|, |pieces[0]|
  {
    var p := pieces[0];
    if p == [] {
      if |pieces| > 1 {
        SplitJoin(pieces[1..], sep);
        assert Join(pieces, sep) == [sep] + Join(pieces[1..], sep);
        assert ([sep] + Join(pieces[1..], sep))[1..] == Join(pieces[1..], sep);
      }
    } else {
      var tail := [p[1..]] + pieces[1..];
      assert sep !in p[1..];
      SplitJoin(tail, sep);
      assert tail[1..] == pieces[1..];
      assert Join(pieces, sep) == [p[0]] + Join(tail, sep) by {
        if |pieces| > 1 {
          assert p == [p[0]] + p[1..];
        }
      }
      assert ([p[0]] + Join(tail, sep))[1..] == Join(tail, sep);
      assert [p[0]] + p[1..] == p;
    }
  }

  // ---- str.split() ----

  /** No character of w is whitespace. */
  predicate NoSpace(w: string) {
    forall i :: 0 <= i < |w| ==> !IsSpace(w[i])
  }

  /** The length of the run of non-whitespace characters that starts t. */
  function WordLength(t: string): (k: nat)
    ensures k <= |t| && (k < |t| ==> IsSpace(t[k]))
    ensures NoSpace(t[..k])
  {
    if t == [] || IsSpace(t[0]) then 0 else 1 + WordLength(t[1..])
  }

  /** `text.split()`: the maximal runs of non-whitespace characters. */
  function Words(text: string): (r: seq<string>)
    ensures forall i :: 0 <= i < |r| ==> r[i] != [] && NoSpace(r[i])
    decreases |text|
  {
    var t := StripLeft(text);
    if t == [] then []
    else
      var k := WordLength(t);
      [t[..k]] + Words(t[k..])
  }

  /** The characters of text that are not whitespace. */
  function Visible(text: string): string {
    if text == [] then [] else (if IsSpace(text[0]) then [] else [text[0]]) + Visible(text[1..])
  }

  function Concat(pieces: seq<string>): string {
    if pieces == [] then [] else pieces[0] + Concat(pieces[1..])
  }

  /** One step of `split()`: the first word of the stripped text, then the rest. */
  lemma WordsStep(text: string)
    ensures var t := StripLeft(text);
            Words(text) == if t == [] then [] else [t[..WordLength(t)]] + Words(t[WordLength(t)..])
  {
  }

  lemma ConcatCons(w: string, rest: seq<string>)
    ensures Concat([w] + rest) == w + Concat(rest)
  {
    assert ([w] + rest)[1..] == rest;
  }

  /** The words hold exactly the visible characters of the text, in order. */
  lemma {:induction false} WordsCover(text: string)
    ensures Concat(Words(text)) == Visible(text)
    decreases |text|
  {
    var t := StripLeft(text);
    if t == [] {
      var p := text[..|text| - |t|];
      StripLeftShape(text);
      VisibleSpaces(p, t);
      WordsStep(text);
    } else {
      var w, u := WordsFront(text);
      WordsCover(u);
      CoverStep(w, u, Words(u));
    }
  }

  /** Splitting a text that holds a word: the first word, and the text after it. */
  lemma WordsFront(text: string) returns (w: string, u: string)
    requires StripLeft(text) != []
    ensures Words(text) == [w] + Words(u) && |u| < |text|
    ensures Visible(text) == Visible(w + u)
    ensures NoSpace(w)
  {
    var t := StripLeft(text);
    var p := text[..|text| - |t|];
    StripLeftShape(text);
    VisibleSpaces(p, t);
    WordsStep(text);
    var k := WordLength(t);
    w, u := t[..k], t[k..];
    SplitAt(t, k);
  }

  lemma SplitAt(s: string, k: nat)
    requires k <= |s|
    ensures s == s[..k] + s[k..]
  {
  }

  /** A word put in front of pieces that cover u covers the word followed by u. */
  lemma CoverStep(w: string, u: string, rest: seq<string>)
    requires NoSpace(w)
    requires Concat(rest) == Visible(u)
    ensures Concat([w] + rest) == Visible(w + u)
  {
    ConcatCons(w, rest);
    VisibleWord(w);
    VisibleConcat(w, u);
  }

  lemma {:induction false} VisibleConcat(a: string, b: string)
    ensures Visible(a + b) == Visible(a) + Visible(b)
  {
    if a != [] {
      assert (a + b)[1..] == a[1..] + b;
      VisibleConcat(a[1..], b);
    } else {
      assert a + b == b;
    }
  }

  lemma VisibleSpaces(p: string, t: string)
    requires AllSpace(p)
    ensures Visible(p + t) == Visible(t)
  {
    VisibleConcat(p, t);
    VisibleBlank(p);
  }

  lemma {:induction false} VisibleBlank(p: string)
    requires AllSpace(p)
    ensures Visible(p) == []
  {
    if p != [] {
      VisibleBlank(p[1..]);
    }
  }

  lemma {:induction false} VisibleWord(w: string)
    requires NoSpace(w)
    ensures Visible(w) == w
  {
    if w != [] {
      VisibleWord(w[1..]);
      assert w == [w[0]] + w[1..];
    }
  }

  /** A word followed by whitespace or the end is the first piece of the split. */
  lemma WordsLeading(w: string, u: string)
    requires w != [] && NoSpace(w)
    requires u == [] || IsSpace(u[0])
    ensures Words(w + u) == [w] + Words(u)
  {
    var s := w + u;
    assert StripLeft(s) == s by {
      StripLeftPadding([], s);
      assert [] + s == s;
    }
    assert WordLength(s) == |w| by {
      WordPrefix(w, u);
    }
    assert s[..|w|] == w && s[|w|..] == u;
    WordsStep(s);
  }

  /** Words separated by whitespace split back into those words. */
  lemma WordsOfSpaced(w: string, gap: string, rest: string)
    requires w != [] && NoSpace(w)
    requires gap != [] && AllSpace(gap)
    ensures Words(w + gap + rest) == [w] + Words(rest)
  {
    assert w + gap + rest == w + (gap + rest);
    WordsLeading(w, gap + rest);
    WordsAfterSpaces(gap, rest);
  }

  lemma {:induction false} WordPrefix(w: string, u: string)
    requires NoSpace(w) && (u == [] || IsSpace(u[0]))
    ensures WordLength(w + u) == |w|
  {
    if w != [] {
      assert (w + u)[1..] == w[1..] + u;
      WordPrefix(w[1..], u);
    } else {
      assert w + u == u;
    }
  }

  lemma {:induction false} WordsAfterSpaces(p: string, t: string)
    requires AllSpace(p)
    ensures Words(p + t) == Words(t)
    decreases |p|
  {
    if p != [] {
      assert (p + t)[1..] == p[1..] + t;
      assert StripLeft(p + t) == StripLeft(p[1..] + t);
      WordsAfterSpaces(p[1..], t);
      assert Words(p + t) == Words(p[1..] + t);
    } else {
      assert p + t == t;
    }
  }

  /** A single word with no whitespace around it is its own split. */
  lemma WordsOfWord(w: string)
    requires w != [] && NoSpace(w)
    ensures Words(w) == [w]
  {
    WordsLeading(w, []);
    assert w + [] == w;
    WordsStep([]);
  }

  // ---- str.replace(a, b) for single characters ----

  /** `text.replace(a, b)` where a and b are single characters. */
  function ReplaceChar(text: string, a: char, b: char): (r: string)
    ensures |r| == |text|
    ensures forall i :: 0 <= i < |text| ==> r[i] == (if text[i] == a then b else text[i])
  {
    if text == [] then [] else [if text[0] == a then b else text[0]] + ReplaceChar(text[1..], a, b)
  }

  // ---- all-or-nothing conversion ----

  /** `[int(p) for p in pieces]`: every piece converted, or a ValueError for the whole list. */
  function ParseAll(pieces: seq<string>): (r: Option<seq<int>>)
    ensures r.Some? <==> forall i :: 0 <= i < |pieces| ==> ParseInt(pieces[i]).Some?
    ensures r.Some? ==> |r.value| == |pieces| && forall i :: 0 <= i < |pieces| ==> ParseInt(pieces[i]) == Some(r.value[i])
  {
    if pieces == [] then Some([])
    else
      match (ParseInt(pieces[0]), ParseAll(pieces[1..]))
      case (Some(v), Some(vs)) => Some([v] + vs)
      case _ => None
  }

  /** The rendering of each number. */
  function ShowAll(xs: seq<int>): (r: seq<string>)
    ensures |r| == |xs| && forall i :: 0 <= i < |xs| ==> r[i] == Show(xs[i])
  {
    if xs == [] then [] else [Show(xs[0])] + ShowAll(xs[1..])
  }

  /** Converting every rendering gives the numbers back. */
  lemma {:induction false} ParseShowAll(ks: seq<int>)
    ensures ParseAll(ShowAll(ks)) == Some(ks)
  {
    if ks != [] {
      var rest := ShowAll(ks[1..]);
      assert ShowAll(ks) == [Show(ks[0])] + rest;
      ParseAllCons(Show(ks[0]), rest);
      ParseShowAll(ks[1..]);
      ParseShow(ks[0]);
      assert [ks[0]] + ks[1..] == ks;
    }
  }

  /** One step of the all-or-nothing conversion. */
  lemma ParseAllCons(p: string, ps: seq<string>)
    ensures ParseAll([p] + ps) == if ParseInt(p).Some? && ParseAll(ps).Some? then Some([ParseInt(p).value] + ParseAll(ps).value) else None
  {
    assert ([p] + ps)[1..] == ps;
  }

  // ---- lists of numbers written out ----

  /** A non-empty piece of text with no whitespace and no comma in it. */
  predicate Token(s: string) {
    s != [] && forall i :: 0 <= i < |s| ==> !IsSpace(s[i]) && s[i] != ','
  }

  /** `str(n)` is a token. */
  lemma ShowToken(n: int)
    ensures Token(Show(n))
  {
    var s := Show(n);
    if n < 0 {
      assert forall i :: 1 <= i < |s| ==> s[i] == Decimal(-n)[i - 1];
    }
  }

  /** Tokens joined by commas have no whitespace at either end. */
  lemma {:induction false} JoinCommaTrimmed(ps: seq<string>)
    requires |ps| >= 1 && forall i :: 0 <= i < |ps| ==> Token(ps[i])
    ensures Trimmed(Join(ps, ','))
  {
    if |ps| > 1 {
      var rest := Join(ps[1..], ',');
      JoinCommaTrimmed(ps[1..]);
      assert Join(ps, ',') == ps[0] + [','] + rest;
    }
  }

  /** Replacing a character is done piece by piece. */
  lemma ReplaceConcat(a: string, b: string, x: char, y: char)
    ensures ReplaceChar(a + b, x, y) == ReplaceChar(a, x, y) + ReplaceChar(b, x, y)
  {
  }

  /** Tokens joined by commas read as the same tokens joined by spaces once the commas become spaces. */
  lemma {:induction false} ReplaceJoin(ps: seq<string>)
    requires |ps| >= 1 && forall i :: 0 <= i < |ps| ==> Token(ps[i])
    ensures ReplaceChar(Join(ps, ','), ',', ' ') == Join(ps, ' ')
  {
    var p := ps[0];
    assert ReplaceChar(p, ',', ' ') == p;
    if |ps| > 1 {
      var rest := Join(ps[1..], ',');
      ReplaceJoin(ps[1..]);
      ReplaceConcat(p + [','], rest, ',', ' ');
      ReplaceConcat(p, [','], ',', ' ');
    }
  }

  /** Tokens joined by spaces split back into the tokens. */
  lemma {:induction false} WordsJoin(ps: seq<string>)
    requires |ps| >= 1 && forall i :: 0 <= i < |ps| ==> Token(ps[i])
    ensures Words(Join(ps, ' ')) == ps
  {
    if |ps| == 1 {
      WordsOfWord(ps[0]);
    } else {
      var w, rest := ps[0], ps[1..];
      WordsJoin(rest);
      WordsJoinStep(w, rest, ps);
    }
  }

  /** The inductive step of WordsJoin: one more token in front. */
  lemma WordsJoinStep(w: string, rest: seq<string>, ps: seq<string>)
    requires Token(w) && |rest| >= 1 && ps == [w] + rest
    requires Words(Join(rest, ' ')) == rest
    ensures Words(Join(ps, ' ')) == ps
  {
    var gap, tail := [' '], Join(rest, ' ');
    assert ps[1..] == rest;
    assert Join(ps, ' ') == w + gap + tail;
    WordsOfSpaced(w, gap, tail);
  }
}
