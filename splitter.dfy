/**
 * The splitter of a multi-part SQL object name (`SqlObjectName.SplitName`).
 *
 * The scan keeps one flag, "inside a literal section". Each `[`, `]` or `"`
 * flips it; opening and closing characters are not told apart. A `.` met while
 * the flag is off is overwritten with a sentinel character, and the rewritten
 * text is then split on that sentinel.
 */
module Splitter {

  /** `IsEnclosingChar`: the three characters that flip the literal flag. */
  predicate IsEnclosingChar(c: char) {
    c == '[' || c == ']' || c == '"'
  }

  /** How many enclosing characters occur in `s`. */
  function EnclosingCount(s: string): nat {
    if s == [] then 0 else (if IsEnclosingChar(s[0]) then 1 else 0) + EnclosingCount(s[1..])
  }

  lemma {:induction false} EnclosingCountAppend(s: string, t: string)
    ensures EnclosingCount(s + t) == EnclosingCount(s) + EnclosingCount(t)
  {
    if s != [] {
      assert (s + t)[1..] == s[1..] + t;
      EnclosingCountAppend(s[1..], t);
    } else {
      assert s + t == t;
    }
  }

  /** Reading one more character flips the flag exactly when it is an enclosing character. */
  lemma InLiteralStep(p: string, c: char)
    ensures InLiteral(p + [c]) == (InLiteral(p) != IsEnclosingChar(c))
  {
    EnclosingCountAppend(p, [c]);
    assert [c][1..] == [];
  }

  /** The literal flag after scanning the prefix `p` from the initial `false`. */
  predicate InLiteral(p: string) {
    EnclosingCount(p) % 2 == 1
  }

  /** Position `i` of `s` holds a `.` that the scan meets with the flag off. */
  predicate IsSplitPoint(s: string, i: nat)
    requires i < |s|
  {
    s[i] == '.' && !InLiteral(s[..i])
  }

  /** The number of split points in `s`, counted along the scan. */
  function OutsideDotCount(s: string): nat {
    if s == [] then 0
    else OutsideDotCount(s[..|s| - 1]) + (if IsSplitPoint(s, |s| - 1) then 1 else 0)
  }

  const Apostrophe: char := '\''

  /** The fallback delimiter, U+2A01 N-ARY CIRCLED PLUS OPERATOR. */
  const CircledPlus: char := '\U{2A01}'

  /**
   * The delimiter written over split points: the apostrophe, or the circled
   * plus when the text already holds an apostrophe. It is absent from the
   * text unless the text holds both characters.
   */
  function Sentinel(text: string): (d: char)
    ensures d != '.' && !IsEnclosingChar(d)
    ensures d !in text || (Apostrophe in text && CircledPlus in text)
  {
    if Apostrophe in text then CircledPlus else Apostrophe
  }

  /** The character array after the scan: split points overwritten with `d`. */
  function Mark(s: string, d: char): (m: string)
    ensures |m| == |s|
    ensures forall i {:trigger m[i], s[i]} :: 0 <= i < |s| && m[i] != s[i] ==> s[i] == '.' && m[i] == d
  {
    seq(|s|, i requires 0 <= i < |s| => if IsSplitPoint(s, i) then d else s[i])
  }

  /** Adds `p` to the front of the first segment. */
  function PrependTo(p: string, parts: seq<string>): (r: seq<string>)
    requires |parts| >= 1
  {
    [p + parts[0]] + parts[1..]
  }

  /** How many times `c` occurs in `s`. */
  function Count(s: string, c: char): nat {
    if s == [] then 0 else (if s[0] == c then 1 else 0) + Count(s[1..], c)
  }

  /** `Count` is the multiplicity of `c` in the multiset of `s`. */
  lemma {:induction false} CountIsMultiplicity(s: string, c: char)
    ensures Count(s, c) == multiset(s)[c]
  {
    if s != [] {
      CountIsMultiplicity(s[1..], c);
      assert s == [s[0]] + s[1..];
    }
  }

  /**
   * `String.Split(char)`: every occurrence of `d` closes a segment, and empty
   * segments are kept.
   */
  function SplitOn(s: string, d: char): (r: seq<string>)
    ensures |r| == 1 + Count(s, d)
    ensures forall k :: 0 <= k < |r| ==> d !in r[k]
    ensures Join(r, d) == s
  {
    if s == [] then [""]
    else
      assert s == [s[0]] + s[1..];
      var rest := SplitOn(s[1..], d);
      if s[0] == d then
        assert ([""] + rest)[1..] == rest;
        [""] + rest
      else
        JoinPrependTo([s[0]], rest, d);
        PrependTo([s[0]], rest)
  }

  /** The segments `SplitName` returns for `text`. */
  function Split(text: string): (parts: seq<string>)
    ensures |parts| >= 1
  {
    var d := Sentinel(text);
    SplitOn(Mark(text, d), d)
  }

  /** Joins segments with `sep` between neighbours. */
  function Join(parts: seq<string>, sep: char): string
    requires |parts| >= 1
  {
    if |parts| == 1 then parts[0] else parts[0] + [sep] + Join(parts[1..], sep)
  }

  /**
   * `SplitName`: copies the text into a character array, overwrites each
   * split point with the sentinel and splits the array on it.
   */
  method SplitName(text: string) returns (parts: seq<string>)
    ensures parts == Split(text)
  {
    var isInLiteralSection := false;
    var chars := new char[|text|](i requires 0 <= i < |text| => text[i]);

    var delimiter := Apostrophe;
    if Apostrophe in text {
      delimiter := CircledPlus;
    }

    for i := 0 to chars.Length
      invariant isInLiteralSection == InLiteral(text[..i])
      invariant forall k :: 0 <= k < i ==> chars[k] == (if IsSplitPoint(text, k) then delimiter else text[k])
      invariant forall k :: i <= k < chars.Length ==> chars[k] == text[k]
    {
      var c := chars[i];
      assert text[..i + 1] == text[..i] + [c];
      InLiteralStep(text[..i], c);
      if IsEnclosingChar(c) {
        isInLiteralSection := !isInLiteralSection;
      } else if !isInLiteralSection && c == '.' {
        chars[i] := delimiter;
      }
    }

    assert chars[..] == Mark(text, delimiter);
    parts := SplitOn(chars[..], delimiter);
  }

  /**
   * A direct tokenizer with no sentinel: it carries the literal flag and
   * starts a new segment at each `.` met with the flag off.
   */
  function Tokenize(s: string, inLiteral: bool): (parts: seq<string>)
    ensures |parts| >= 1
  {
    if s == [] then [""]
    else if IsEnclosingChar(s[0]) then PrependTo([s[0]], Tokenize(s[1..], !inLiteral))
    else if !inLiteral && s[0] == '.' then [""] + Tokenize(s[1..], inLiteral)
    else PrependTo([s[0]], Tokenize(s[1..], inLiteral))
  }

  lemma JoinPrependTo(p: string, parts: seq<string>, sep: char)
    requires |parts| >= 1
    ensures Join(PrependTo(p, parts), sep) == p + Join(parts, sep)
  {
    var r := PrependTo(p, parts);
    if |parts| > 1 {
      assert r[1..] == parts[1..];
    }
  }

  /** Joining the tokens with `.` gives back the scanned text. */
  lemma {:induction false} TokenizeLossless(s: string, inLiteral: bool)
    ensures Join(Tokenize(s, inLiteral), '.') == s
  {
    if s != [] {
      var next := if IsEnclosingChar(s[0]) then !inLiteral else inLiteral;
      TokenizeLossless(s[1..], next);
      var rest := Tokenize(s[1..], next);
      if !IsEnclosingChar(s[0]) && !inLiteral && s[0] == '.' {
        assert ([""] + rest)[1..] == rest;
        assert s == "." + s[1..];
      } else {
        JoinPrependTo([s[0]], rest, '.');
        assert s == [s[0]] + s[1..];
      }
    }
  }

  lemma PrependToPrependTo(p: string, t: string, parts: seq<string>)
    requires |parts| >= 1
    ensures PrependTo(p, PrependTo(t, parts)) == PrependTo(p + t, parts)
  {
    assert p + (t + parts[0]) == (p + t) + parts[0];
  }

  /**
   * A run with no enclosing character, and no dot unless the flag is on,
   * only extends the current segment.
   */
  lemma {:induction false} TokenizeRun(p: string, rest: string, inLiteral: bool)
    requires forall i :: 0 <= i < |p| ==> !IsEnclosingChar(p[i]) && (inLiteral || p[i] != '.')
    ensures Tokenize(p + rest, inLiteral) == PrependTo(p, Tokenize(rest, inLiteral))
  {
    var tail := Tokenize(rest, inLiteral);
    if p == [] {
      assert p + rest == rest;
      assert p + tail[0] == tail[0];
      assert PrependTo(p, tail) == [tail[0]] + tail[1..] == tail;
    } else {
      assert (p + rest)[0] == p[0] && (p + rest)[1..] == p[1..] + rest;
      TokenizeRun(p[1..], rest, inLiteral);
      PrependToPrependTo([p[0]], p[1..], tail);
      assert [p[0]] + p[1..] == p;
    }
  }

  /** `a` holds no enclosing character. */
  predicate NoEnclosing(a: string) {
    forall i :: 0 <= i < |a| ==> !IsEnclosingChar(a[i])
  }

  /** A bracketed run with no enclosing character inside is one piece of a segment. */
  lemma TokenizeBracketed(a: string, rest: string)
    requires NoEnclosing(a)
    ensures Tokenize("[" + a + "]" + rest, false) == PrependTo("[" + a + "]", Tokenize(rest, false))
  {
    var s := "[" + a + "]" + rest;
    var inner := a + ("]" + rest);
    assert s[0] == '[' && s[1..] == inner;
    TokenizeRun(a, "]" + rest, true);
    var closing := "]" + rest;
    assert closing[0] == ']' && closing[1..] == rest;
    var tail := Tokenize(rest, false);
    PrependToPrependTo(a, "]", tail);
    PrependToPrependTo("[", a + "]", tail);
    assert "[" + (a + "]") == "[" + a + "]";
  }

  /** A dot met with the flag off closes the segment. */
  lemma TokenizeDot(rest: string)
    ensures Tokenize("." + rest, false) == [""] + Tokenize(rest, false)
  {
    assert ("." + rest)[0] == '.' && ("." + rest)[1..] == rest;
  }

  lemma TokenizeEnd(a: string)
    requires NoEnclosing(a)
    ensures Tokenize("[" + a + "]", false) == ["[" + a + "]"]
  {
    TokenizeBracketed(a, "");
    assert "[" + a + "]" + "" == "[" + a + "]";
  }

  /** Plain text: no enclosing character and no dot. */
  predicate IsPlain(p: string) {
    forall i :: 0 <= i < |p| ==> !IsEnclosingChar(p[i]) && p[i] != '.'
  }

  /** Plain text followed by a dot is one whole segment. */
  lemma TokenizePlainThenDot(p: string, rest: string)
    requires IsPlain(p)
    ensures Tokenize(p + ("." + rest), false) == [p] + Tokenize(rest, false)
  {
    TokenizeRun(p, "." + rest, false);
    TokenizeDot(rest);
    assert p + "" == p;
  }

  /** Plain text at the end is the last segment. */
  lemma TokenizePlainLast(p: string)
    requires IsPlain(p)
    ensures Tokenize(p, false) == [p]
  {
    TokenizeRun(p, "", false);
    assert p + "" == p;
  }

  /** A bracketed run followed by a dot is one whole segment. */
  lemma TokenizeBracketedThenDot(a: string, rest: string)
    requires NoEnclosing(a)
    ensures Tokenize("[" + a + "]" + ("." + rest), false) == ["[" + a + "]"] + Tokenize(rest, false)
  {
    TokenizeBracketed(a, "." + rest);
    TokenizeDot(rest);
    assert "[" + a + "]" + "" == "[" + a + "]";
  }

  /** `Mark` for a scan that starts with the flag equal to `inLiteral`. */
  ghost function MarkFrom(s: string, d: char, inLiteral: bool): string {
    seq(|s|, i requires 0 <= i < |s| => if s[i] == '.' && inLiteral == InLiteral(s[..i]) then d else s[i])
  }

  lemma MarkFromCons(s: string, d: char, inLiteral: bool)
    requires |s| > 0
    ensures MarkFrom(s, d, inLiteral)
         == [if s[0] == '.' && !inLiteral then d else s[0]]
          + MarkFrom(s[1..], d, inLiteral != IsEnclosingChar(s[0]))
  {
    var next := inLiteral != IsEnclosingChar(s[0]);
    var lhs := MarkFrom(s, d, inLiteral);
    var rhs := [if s[0] == '.' && !inLiteral then d else s[0]] + MarkFrom(s[1..], d, next);
    assert s[..0] == [];
    forall i | 1 <= i < |s|
      ensures lhs[i] == rhs[i]
    {
      assert s[..i][1..] == s[1..][..i - 1];
    }
  }

  lemma {:induction false} SplitOnMarkFrom(s: string, d: char, inLiteral: bool)
    requires d !in s
    ensures SplitOn(MarkFrom(s, d, inLiteral), d) == Tokenize(s, inLiteral)
  {
    if s != [] {
      var next := inLiteral != IsEnclosingChar(s[0]);
      MarkFromCons(s, d, inLiteral);
      SplitOnMarkFrom(s[1..], d, next);
      var m := MarkFrom(s, d, inLiteral);
      assert m[1..] == MarkFrom(s[1..], d, next);
    }
  }

  /** Without a sentinel collision the split is the direct tokenizer. */
  lemma SplitIsTokenize(text: string)
    requires Sentinel(text) !in text
    ensures Split(text) == Tokenize(text, false)
  {
    var d := Sentinel(text);
    assert Mark(text, d) == MarkFrom(text, d, false);
    SplitOnMarkFrom(text, d, false);
  }

  /**
   * The rewritten text holds the delimiter once per dot met with the flag
   * off, plus once per delimiter the text already held.
   */
  lemma {:induction false} MarkCount(s: string, d: char)
    requires d != '.'
    ensures multiset(Mark(s, d))[d] == OutsideDotCount(s) + multiset(s)[d]
  {
    if s != [] {
      var n := |s|;
      var t, c := s[..n - 1], s[n - 1];
      assert s == t + [c];
      MarkCount(t, d);
      MarkSnoc(t, c, d);
      var last := if IsSplitPoint(s, n - 1) then d else c;
      assert multiset(Mark(s, d))[d] == multiset(Mark(t, d))[d] + multiset([last])[d];
      assert multiset(s)[d] == multiset(t)[d] + multiset([c])[d];
    }
  }

  /** Appending a character appends its image to the rewritten text. */
  lemma MarkSnoc(t: string, c: char, d: char)
    ensures Mark(t + [c], d) == Mark(t, d) + [if IsSplitPoint(t + [c], |t|) then d else c]
  {
    var s := t + [c];
    forall i | 0 <= i < |t|
      ensures Mark(s, d)[i] == Mark(t, d)[i]
    {
      assert s[..i] == t[..i];
    }
  }

  /**
   * For every text, collisions included: one segment more than the dots met
   * with the flag off and the sentinel characters the text already held.
   */
  lemma SplitCountAny(text: string)
    ensures |Split(text)| == 1 + OutsideDotCount(text) + multiset(text)[Sentinel(text)]
  {
    MarkCount(text, Sentinel(text));
    CountIsMultiplicity(Mark(text, Sentinel(text)), Sentinel(text));
  }

  /**
   * Without a sentinel collision there is one segment more than there are
   * dots met with the flag off.
   */
  lemma SplitCount(text: string)
    requires Sentinel(text) !in text
    ensures |Split(text)| == 1 + OutsideDotCount(text)
  {
    SplitCountAny(text);
  }

  /**
   * Without a sentinel collision the split loses nothing: joining the
   * segments with `.` gives back the text, enclosing characters included.
   */
  lemma SplitLossless(text: string)
    requires Sentinel(text) !in text
    ensures Join(Split(text), '.') == text
  {
    SplitIsTokenize(text);
    TokenizeLossless(text, false);
  }

  /**
   * For every text, collisions included, joining the segments with the
   * chosen delimiter gives back the marked copy of the text.
   */
  lemma SplitJoin(text: string)
    ensures Join(Split(text), Sentinel(text)) == Mark(text, Sentinel(text))
  {
  }

  lemma {:induction false} SplitOnAbsent(s: string, d: char)
    requires d !in s
    ensures SplitOn(s, d) == [s]
  {
    if s != [] {
      SplitOnAbsent(s[1..], d);
      assert s == [s[0]] + s[1..];
    }
  }

  /**
   * A text with no dot outside a literal section (the empty text among them)
   * is returned whole as the only segment.
   */
  lemma SplitWithoutSplitPoint(text: string)
    requires Sentinel(text) !in text
    requires forall i :: 0 <= i < |text| ==> !IsSplitPoint(text, i)
    ensures Split(text) == [text]
  {
    var d := Sentinel(text);
    assert Mark(text, d) == text;
    SplitOnAbsent(text, d);
  }

  /** One step of `SplitOn`, at the first character of the text. */
  lemma SplitOnCons(c: char, t: string, d: char)
    ensures SplitOn([c] + t, d)
            == if c == d then [""] + SplitOn(t, d) else PrependTo([c], SplitOn(t, d))
  {
    assert ([c] + t)[1..] == t;
  }

  /** A text without dots is left as it is by the scan. */
  lemma MarkWithoutDots(s: string, d: char)
    requires '.' !in s
    ensures Mark(s, d) == s
  {
    forall i | 0 <= i < |s| ensures s[i] != '.' {
      assert s[i] in s;
    }
  }

  /** Putting a character other than `d` in front lengthens the first segment. */
  lemma SplitOnPrepend(c: char, s: string, first: string, rest: seq<string>, d: char)
    requires c != d && SplitOn(s, d) == [first] + rest
    ensures SplitOn([c] + s, d) == [[c] + first] + rest
  {
    SplitOnCons(c, s, d);
    assert ([first] + rest)[1..] == rest;
  }

  /** A text with exactly one delimiter splits into what lies before and after it. */
  lemma {:induction false} SplitOnOneDelimiter(x: string, y: string, d: char)
    requires d !in x && d !in y
    ensures SplitOn(x + [d] + y, d) == [x, y]
  {
    if x == [] {
      assert x + [d] + y == [d] + y;
      SplitOnCons(d, y, d);
      SplitOnAbsent(y, d);
    } else {
      var c, rest := x[0], x[1..];
      assert x == [c] + rest;
      SplitOnOneDelimiter(rest, y, d);
      assert x + [d] + y == [c] + (rest + [d] + y);
      SplitOnPrepend(c, rest + [d] + y, rest, [y], d);
    }
  }

  /**
   * A text holding both the apostrophe and the circled plus also splits at
   * the circled plus: "a'⨁b" has no dot and still gives the two segments
   * "a'" and "b".
   */
  lemma SentinelCollision(a: char, b: char)
    requires a != '.' && b != '.' && a != CircledPlus && b != CircledPlus
    ensures Split([a, Apostrophe, CircledPlus, b]) == [[a, Apostrophe], [b]]
  {
    var text := [a, Apostrophe, CircledPlus, b];
    assert Sentinel(text) == CircledPlus by { assert text[1] == Apostrophe && text[2] == CircledPlus; }
    MarkWithoutDots(text, CircledPlus);
    assert text == [a, Apostrophe] + [CircledPlus] + [b];
    SplitOnOneDelimiter([a, Apostrophe], [b], CircledPlus);
  }
}
