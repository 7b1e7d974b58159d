/**
 * `SqlObjectName`: a database / schema / name triple, parsed from a
 * multi-part name or built from its parts, and rendered back as text.
 */
module SqlObjectNames {
  import opened Wrappers
  import Splitter
  import opened Cleaner
  import opened Formatter

  /** Every field, as interpolation writes it, is free of quoting characters. */
  predicate IsCleanName(q: QualifiedName) {
    IsClean(Text(q.database)) && IsClean(Text(q.schema)) && IsClean(Text(q.name))
  }

  /**
   * The assembly step of the parsing constructor: the segments are cleaned
   * and assigned from the right. The name is always set; a database is only
   * ever set together with a schema; no field keeps a quoting character.
   */
  function Assemble(parts: seq<string>): (q: QualifiedName)
    requires |parts| >= 1
    ensures q.name.Some?
    ensures q.database.Some? ==> q.schema.Some?
    ensures IsCleanName(q)
  {
    var n := |parts|;
    QualifiedName(
      if n >= 3 then CleanSqlName(Some(parts[n - 3])) else None,
      if n >= 2 then CleanSqlName(Some(parts[n - 2])) else None,
      CleanSqlName(Some(parts[n - 1])))
  }

  /** The triple the parsing constructor builds from `text`. */
  function Parse(text: string): QualifiedName {
    Assemble(Splitter.Split(text))
  }

  /** Segments before the third from last are ignored. */
  lemma LeadingSegmentsIgnored(ignored: seq<string>, parts: seq<string>)
    requires |parts| == 3
    ensures Assemble(ignored + parts) == Assemble(parts)
  {
    var all := ignored + parts;
    var n := |all|;
    assert all[n - 3] == parts[0] && all[n - 2] == parts[1] && all[n - 1] == parts[2];
  }

  /**
   * Without a sentinel collision the schema is set exactly when the text has
   * a dot outside every literal section, and the database exactly when it has
   * two.
   */
  lemma ParsePresence(text: string)
    requires Splitter.Sentinel(text) !in text
    ensures Parse(text).schema.Some? <==> Splitter.OutsideDotCount(text) >= 1
    ensures Parse(text).database.Some? <==> Splitter.OutsideDotCount(text) >= 2
  {
    Splitter.SplitCount(text);
  }

  /** A clean segment that is also free of dots. */
  predicate IsPlainClean(s: string) {
    IsClean(s) && '.' !in s
  }

  lemma PlainCleanIsPlain(s: string)
    requires IsPlainClean(s)
    ensures Splitter.IsPlain(s) && Splitter.Apostrophe !in s
  {
  }

  /**
   * A dot inside brackets is not a separator: `[My.db].dbo.proc` parses as
   * database `My.db`, schema `dbo`, name `proc`.
   */
  lemma ParseBracketedDatabase(database: string, schema: string, name: string)
    requires IsClean(database) && IsPlainClean(schema) && IsPlainClean(name)
    ensures Parse("[" + database + "]" + ("." + (schema + ("." + name))))
         == QualifiedName(Some(database), Some(schema), Some(name))
  {
    var text := "[" + database + "]" + ("." + (schema + ("." + name)));
    PlainCleanIsPlain(schema);
    PlainCleanIsPlain(name);
    Splitter.TokenizePlainLast(name);
    Splitter.TokenizePlainThenDot(schema, name);
    Splitter.TokenizeBracketedThenDot(database, schema + ("." + name));
    assert Splitter.Apostrophe !in text;
    Splitter.SplitIsTokenize(text);
    CleanBracketed(database);
    KeepUnquotedOfClean(schema);
    KeepUnquotedOfClean(name);
  }

  /**
   * Over-qualified input drops its leading segments: `a.b.c.d` parses as
   * database `b`, schema `c`, name `d`.
   */
  lemma ParseOverQualified(a: string, b: string, c: string, d: string)
    requires IsPlainClean(a) && IsPlainClean(b) && IsPlainClean(c) && IsPlainClean(d)
    ensures Parse(a + ("." + (b + ("." + (c + ("." + d))))))
         == QualifiedName(Some(b), Some(c), Some(d))
  {
    var tailC := c + ("." + d);
    var tailB := b + ("." + tailC);
    var text := a + ("." + tailB);
    PlainCleanIsPlain(a);
    PlainCleanIsPlain(b);
    PlainCleanIsPlain(c);
    PlainCleanIsPlain(d);
    Splitter.TokenizePlainLast(d);
    Splitter.TokenizePlainThenDot(c, d);
    Splitter.TokenizePlainThenDot(b, tailC);
    Splitter.TokenizePlainThenDot(a, tailB);
    assert Splitter.Apostrophe !in text;
    Splitter.SplitIsTokenize(text);
    KeepUnquotedOfClean(b);
    KeepUnquotedOfClean(c);
    KeepUnquotedOfClean(d);
  }

  class SqlObjectName {
    var Database: Option<string>
    var Schema: Option<string>
    var Name: Option<string>

    /** The three-argument constructor stores its arguments as they are. */
    constructor (database: Option<string>, schema: Option<string>, name: Option<string>)
      ensures Database == database && Schema == schema && Name == name
    {
      Database := database;
      Schema := schema;
      Name := name;
    }

    /**
     * The parsing constructor: splits the text, then sets the name from the
     * last segment, the schema from the second to last and the database from
     * the third to last, each cleaned; a field with no segment stays `null`.
     */
    constructor FromText(text: string)
      ensures var parts := Splitter.Split(text);
              var n := |parts|;
              && Name == CleanSqlName(Some(parts[n - 1]))
              && Schema == (if n >= 2 then CleanSqlName(Some(parts[n - 2])) else None)
              && Database == (if n >= 3 then CleanSqlName(Some(parts[n - 3])) else None)
      ensures Value() == Parse(text)
    {
      var nameParts := Splitter.SplitName(text);
      var numElements := |nameParts|;
      Database := None;
      Schema := None;
      Name := CleanSqlName(Some(nameParts[numElements - 1]));
      if numElements >= 2 {
        Schema := CleanSqlName(Some(nameParts[numElements - 2]));
      }
      if numElements >= 3 {
        Database := CleanSqlName(Some(nameParts[numElements - 3]));
      }
    }

    /** The fields as one value. */
    function Value(): QualifiedName
      reads this
    {
      QualifiedName(Database, Schema, Name)
    }

    /**
     * `GetFullNameAsString`: never empty; starts with `[` and ends with the
     * bracketed name.
     */
    function GetFullNameAsString(): (r: string)
      reads this
      ensures r != "" && r[0] == '['
      ensures EndsWith(r, Bracketed(Text(Name)))
    {
      FullName(Value())
    }
  }
}
