/**
 * `SqlObjectName.CleanSqlName`: strips the quoting characters `"`, `'`, `[`
 * and `]` from a name segment, by four successive `String.Replace` calls.
 */
module Cleaner {
  import opened Wrappers

  /** The four characters the cleaner deletes. */
  predicate IsQuoteChar(c: char) {
    c == '"' || c == '\'' || c == '[' || c == ']'
  }

  /** `s` holds no quoting character. */
  predicate IsClean(s: string) {
    forall i :: 0 <= i < |s| ==> !IsQuoteChar(s[i])
  }

  /** `s.Replace(c, String.Empty)`: deletes every `c` and keeps every other character. */
  function RemoveAll(s: string, c: char): (r: string)
    ensures c !in r
    ensures forall x :: x != c ==> multiset(r)[x] == multiset(s)[x]
  {
    if s == [] then []
    else
      assert s == [s[0]] + s[1..];
      (if s[0] == c then [] else [s[0]]) + RemoveAll(s[1..], c)
  }

  /** The characters the source removes, in the order of its `Replace` calls. */
  const QuoteChars: seq<char> := ['"', '\'', '[', ']']

  /** One `Replace(c, String.Empty)` call per character of `cs`, in order. */
  function RemoveEach(s: string, cs: seq<char>): string
    decreases |cs|
  {
    if cs == [] then s else RemoveEach(RemoveAll(s, cs[0]), cs[1..])
  }

  /** The four `Replace` calls of the source, in their order. */
  function RemoveQuoteChars(s: string): string {
    RemoveEach(s, QuoteChars)
  }

  /**
   * Reference definition: one pass that keeps, in order, exactly the
   * characters that are not quoting characters.
   */
  function KeepUnquoted(s: string): (r: string)
    ensures IsClean(r)
    ensures |r| <= |s|
  {
    if s == [] then [] else (if IsQuoteChar(s[0]) then [] else [s[0]]) + KeepUnquoted(s[1..])
  }

  /**
   * `CleanSqlName`: `null` passes through; otherwise the result is the
   * segment with every quoting character deleted and nothing else changed.
   */
  function CleanSqlName(name: Option<string>): (r: Option<string>)
    ensures r.None? <==> name.None?
    ensures r.Some? ==> r.value == KeepUnquoted(name.value) && IsClean(r.value)
  {
    match name
    case None => None
    case Some(s) =>
      RemoveQuoteCharsIsKeepUnquoted(s);
      Some(RemoveQuoteChars(s))
  }

  lemma {:induction false} RemoveAllAppend(s: string, t: string, c: char)
    ensures RemoveAll(s + t, c) == RemoveAll(s, c) + RemoveAll(t, c)
  {
    if s == [] {
      assert s + t == t;
    } else {
      assert (s + t)[1..] == s[1..] + t;
      RemoveAllAppend(s[1..], t, c);
    }
  }

  lemma RemoveAllOne(c: char, x: char)
    ensures RemoveAll([c], x) == if c == x then [] else [c]
  {
    assert [c][1..] == [];
  }

  lemma {:induction false} RemoveEachAppend(s: string, t: string, cs: seq<char>)
    ensures RemoveEach(s + t, cs) == RemoveEach(s, cs) + RemoveEach(t, cs)
    decreases |cs|
  {
    if cs != [] {
      RemoveAllAppend(s, t, cs[0]);
      RemoveEachAppend(RemoveAll(s, cs[0]), RemoveAll(t, cs[0]), cs[1..]);
    }
  }

  lemma {:induction false} RemoveEachEmpty(cs: seq<char>)
    ensures RemoveEach([], cs) == []
  {
    if cs != [] {
      RemoveEachEmpty(cs[1..]);
    }
  }

  lemma {:induction false} RemoveEachOne(c: char, cs: seq<char>)
    ensures RemoveEach([c], cs) == if c in cs then [] else [c]
  {
    if cs != [] {
      RemoveAllOne(c, cs[0]);
      assert cs == [cs[0]] + cs[1..];
      if c == cs[0] {
        RemoveEachEmpty(cs[1..]);
      } else {
        RemoveEachOne(c, cs[1..]);
      }
    }
  }

  /** The four-pass removal of the source equals the one-pass reference. */
  lemma {:induction false} RemoveQuoteCharsIsKeepUnquoted(s: string)
    ensures RemoveQuoteChars(s) == KeepUnquoted(s)
  {
    if s != [] {
      assert s == [s[0]] + s[1..];
      RemoveEachAppend([s[0]], s[1..], QuoteChars);
      RemoveEachOne(s[0], QuoteChars);
      assert IsQuoteChar(s[0]) <==> s[0] in QuoteChars;
      RemoveQuoteCharsIsKeepUnquoted(s[1..]);
    }
  }

  lemma {:induction false} KeepUnquotedAppend(s: string, t: string)
    ensures KeepUnquoted(s + t) == KeepUnquoted(s) + KeepUnquoted(t)
  {
    if s == [] {
      assert s + t == t;
    } else {
      assert (s + t)[1..] == s[1..] + t;
      KeepUnquotedAppend(s[1..], t);
    }
  }

  /** A segment with no quoting character is left as it is. */
  lemma {:induction false} KeepUnquotedOfClean(s: string)
    requires IsClean(s)
    ensures KeepUnquoted(s) == s
  {
    if s != [] {
      KeepUnquotedOfClean(s[1..]);
    }
  }

  /** Cleaning twice is cleaning once. */
  lemma CleanIdempotent(name: Option<string>)
    ensures CleanSqlName(CleanSqlName(name)) == CleanSqlName(name)
  {
    if name.Some? {
      KeepUnquotedOfClean(CleanSqlName(name).value);
    }
  }

  /** Cleaning a bracketed clean segment gives back the segment. */
  lemma CleanBracketed(s: string)
    requires IsClean(s)
    ensures CleanSqlName(Some("[" + s + "]")) == Some(s)
  {
    KeepUnquotedAppend("[" + s, "]");
    KeepUnquotedAppend("[", s);
    KeepUnquotedOfClean(s);
    assert KeepUnquoted("[") == [] by { assert "["[1..] == []; }
    assert KeepUnquoted("]") == [] by { assert "]"[1..] == []; }
    assert KeepUnquoted("[" + s + "]") == s;
  }
}
