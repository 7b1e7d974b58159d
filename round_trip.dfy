/**
 * Parsing what `GetFullNameAsString` renders. With no quoting character in
 * any field, the parsing constructor recovers the name and every present
 * database and schema, and rendering the parsed triple gives the same text.
 */
module RoundTrip {
  import opened Wrappers
  import opened Splitter
  import opened Cleaner
  import opened Formatter
  import opened SqlObjectNames

  lemma CleanHasNoEnclosing(s: string)
    requires IsClean(s)
    ensures forall i :: 0 <= i < |s| ==> !IsEnclosingChar(s[i]) && s[i] != Apostrophe
  {
  }

  /** Text rendered from clean fields has no apostrophe, so the split of it has no collision. */
  lemma RenderedHasNoApostrophe(q: QualifiedName)
    requires IsCleanName(q)
    ensures Apostrophe !in FullName(q)
    ensures Sentinel(FullName(q)) !in FullName(q)
  {
    var r := FullName(q);
    CleanHasNoEnclosing(Text(q.database));
    CleanHasNoEnclosing(Text(q.schema));
    CleanHasNoEnclosing(Text(q.name));
    assert Apostrophe !in Bracketed(Text(q.database));
    assert Apostrophe !in Bracketed(Text(q.schema));
    assert Apostrophe !in Bracketed(Text(q.name));
  }

  lemma TokenizeOnePart(n: string)
    requires NoEnclosing(n)
    ensures Tokenize(Bracketed(n), false) == [Bracketed(n)]
  {
    TokenizeEnd(n);
  }

  lemma TokenizeTwoParts(s: string, n: string)
    requires NoEnclosing(s) && NoEnclosing(n)
    ensures Tokenize(Bracketed(s) + "." + Bracketed(n), false) == [Bracketed(s), Bracketed(n)]
  {
    var tail := "." + Bracketed(n);
    assert Bracketed(s) + "." + Bracketed(n) == "[" + s + "]" + tail;
    TokenizeEnd(n);
    TokenizeDot(Bracketed(n));
    TokenizeBracketed(s, tail);
    assert Tokenize(tail, false) == ["", Bracketed(n)];
    assert Bracketed(s) + "" == Bracketed(s);
  }

  lemma TokenizeThreeParts(d: string, s: string, n: string)
    requires NoEnclosing(d) && NoEnclosing(s) && NoEnclosing(n)
    ensures Tokenize(Bracketed(d) + "." + Bracketed(s) + "." + Bracketed(n), false) == [Bracketed(d), Bracketed(s), Bracketed(n)]
  {
    var tail := "." + (Bracketed(s) + "." + Bracketed(n));
    assert Bracketed(d) + "." + Bracketed(s) + "." + Bracketed(n) == "[" + d + "]" + tail;
    TokenizeTwoParts(s, n);
    TokenizeDot(Bracketed(s) + "." + Bracketed(n));
    TokenizeBracketed(d, tail);
    assert Tokenize(tail, false) == ["", Bracketed(s), Bracketed(n)];
    assert Bracketed(d) + "" == Bracketed(d);
  }

  lemma TokenizeSkippedSchema(d: string, n: string)
    requires NoEnclosing(d) && NoEnclosing(n)
    ensures Tokenize(Bracketed(d) + ".." + Bracketed(n), false) == [Bracketed(d), "", Bracketed(n)]
  {
    var tail := "." + ("." + Bracketed(n));
    assert Bracketed(d) + ".." + Bracketed(n) == "[" + d + "]" + tail;
    TokenizeEnd(n);
    TokenizeDot(Bracketed(n));
    TokenizeDot("." + Bracketed(n));
    TokenizeBracketed(d, tail);
    assert Tokenize(tail, false) == ["", "", Bracketed(n)];
    assert Bracketed(d) + "" == Bracketed(d);
  }

  /** The segments the split finds in rendered text: one per bracketed part. */
  lemma SplitRendered(q: QualifiedName)
    requires IsCleanName(q)
    ensures var db := Bracketed(Text(q.database));
            var sch := Bracketed(Text(q.schema));
            var nm := Bracketed(Text(q.name));
            var noDatabase := IsNullOrWhiteSpace(q.database);
            var noSchema := IsNullOrWhiteSpace(q.schema);
            Split(FullName(q))
              == if noDatabase && noSchema then [nm]
                 else if !noDatabase && !noSchema then [db, sch, nm]
                 else if noDatabase then [sch, nm]
                 else [db, "", nm]
  {
    var d, s, n := Text(q.database), Text(q.schema), Text(q.name);
    CleanHasNoEnclosing(d);
    CleanHasNoEnclosing(s);
    CleanHasNoEnclosing(n);
    RenderedHasNoApostrophe(q);
    SplitIsTokenize(FullName(q));
    var noDatabase := IsNullOrWhiteSpace(q.database);
    var noSchema := IsNullOrWhiteSpace(q.schema);
    if noDatabase && noSchema {
      TokenizeOnePart(n);
    } else if !noDatabase && !noSchema {
      TokenizeThreeParts(d, s, n);
    } else if noDatabase {
      TokenizeTwoParts(s, n);
    } else {
      TokenizeSkippedSchema(d, n);
    }
  }

  /**
   * Parsing rendered text gives back the name, and the database and schema
   * whenever they were rendered. An absent field parses back as `null`,
   * except the schema of the `[D]..[N]` form, which parses back as empty.
   */
  lemma ParseRendered(q: QualifiedName)
    requires IsCleanName(q)
    ensures var noDatabase := IsNullOrWhiteSpace(q.database);
            var noSchema := IsNullOrWhiteSpace(q.schema);
            Parse(FullName(q)) == QualifiedName(
              if noDatabase then None else q.database,
              if !noSchema then q.schema else if noDatabase then None else Some(""),
              Some(Text(q.name)))
  {
    var d, s, n := Text(q.database), Text(q.schema), Text(q.name);
    var noDatabase := IsNullOrWhiteSpace(q.database);
    var noSchema := IsNullOrWhiteSpace(q.schema);
    CleanBracketed(d);
    CleanBracketed(s);
    CleanBracketed(n);
    SplitRendered(q);
    var text := FullName(q);
    if noDatabase && noSchema {
      assert Parse(text) == Assemble([Bracketed(n)]);
    } else if !noDatabase && !noSchema {
      assert Parse(text) == Assemble([Bracketed(d), Bracketed(s), Bracketed(n)]);
    } else if noDatabase {
      assert Parse(text) == Assemble([Bracketed(s), Bracketed(n)]);
    } else {
      assert Parse(text) == Assemble([Bracketed(d), "", Bracketed(n)]);
    }
    assert CleanSqlName(Some("")) == Some("") by {
      assert KeepUnquoted("") == "";
    }
  }

  /** Render, parse, render again: the same text as rendering once. */
  lemma RenderParseRender(q: QualifiedName)
    requires IsCleanName(q)
    ensures FullName(Parse(FullName(q))) == FullName(q)
  {
    ParseRendered(q);
    var p := Parse(FullName(q));
    assert Bracketed(Text(p.name)) == Bracketed(Text(q.name));
    assert IsNullOrWhiteSpace(p.database) == IsNullOrWhiteSpace(q.database);
    assert IsNullOrWhiteSpace(p.schema) == IsNullOrWhiteSpace(q.schema);
  }
}
