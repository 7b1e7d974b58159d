/**
 * `SqlObjectName.GetFullNameAsString`: renders a database / schema / name
 * triple as a bracketed multi-part name.
 */
module Formatter {
  import opened Wrappers

  /** The three parts of a multi-part object name; `None` is a `null` field. */
  datatype QualifiedName = QualifiedName(database: Option<string>, schema: Option<string>, name: Option<string>)

  /**
   * The characters `Char.IsWhiteSpace` accepts: the Unicode space separators,
   * the line and paragraph separators, U+0009 to U+000D and U+0085.
   */
  predicate IsWhiteSpace(c: char) {
    ('\U{0009}' <= c <= '\U{000D}') || c == ' ' || c == '\U{0085}' || c == '\U{00A0}'
    || c == '\U{1680}' || ('\U{2000}' <= c <= '\U{200A}') || c == '\U{2028}' || c == '\U{2029}'
    || c == '\U{202F}' || c == '\U{205F}' || c == '\U{3000}'
  }

  /** `IsNullOrWhiteSpace`: `null`, empty, or white space only. */
  predicate IsNullOrWhiteSpace(s: Option<string>) {
    s.None? || forall i :: 0 <= i < |s.value| ==> IsWhiteSpace(s.value[i])
  }

  /** What string interpolation writes for a field: `null` writes nothing. */
  function Text(s: Option<string>): string {
    s.GetOr("")
  }

  /** `[s]`: one part as the formatter writes it. */
  function Bracketed(s: string): string {
    "[" + s + "]"
  }

  predicate EndsWith(s: string, suffix: string) {
    |suffix| <= |s| && s[|s| - |suffix|..] == suffix
  }

  /**
   * `GetFullNameAsString`. The four branches of the source, tried in its
   * order, cover every combination of present and absent database and schema,
   * so the initial empty string is never returned: the result always starts
   * with `[` and ends with the bracketed name. It is the bracketed name alone
   * exactly when both database and schema are absent; a present database
   * opens it and a present schema stands just before the name.
   */
  function FullName(q: QualifiedName): (r: string)
    ensures |r| >= 2 && r[0] == '['
    ensures EndsWith(r, Bracketed(Text(q.name)))
    ensures r == Bracketed(Text(q.name)) <==> IsNullOrWhiteSpace(q.database) && IsNullOrWhiteSpace(q.schema)
    ensures !IsNullOrWhiteSpace(q.database) ==> Bracketed(Text(q.database)) + "." <= r
    ensures !IsNullOrWhiteSpace(q.schema) ==> EndsWith(r, Bracketed(Text(q.schema)) + "." + Bracketed(Text(q.name)))
  {
    var noDatabase := IsNullOrWhiteSpace(q.database);
    var noSchema := IsNullOrWhiteSpace(q.schema);
    if noDatabase && noSchema then
      Bracketed(Text(q.name))
    else if !noDatabase && !noSchema then
      Bracketed(Text(q.database)) + "." + Bracketed(Text(q.schema)) + "." + Bracketed(Text(q.name))
    else if noDatabase && !noSchema then
      Bracketed(Text(q.schema)) + "." + Bracketed(Text(q.name))
    else if !noDatabase && noSchema then
      Bracketed(Text(q.database)) + ".." + Bracketed(Text(q.name))
    else
      ""
  }
}
