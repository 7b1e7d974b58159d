# SqlObjectName in Dafny

A verified model of `SqlObjectName`, the helper of Insight.Database's default
provider that takes a multi-part SQL Server object name such as
`MyDb.dbo.MyProc` or `[My.db].dbo.MyProc` apart into database, schema and
name, and renders such a triple back as `[MyDb].[dbo].[MyProc]`.

The model follows the class piece by piece:

- `Splitter` (`splitter.dfy`) is `SplitName` and `IsEnclosingChar`. The
  method `SplitName` copies the text into a `char` array. It scans the array
  with the literal flag, which `[`, `]` and `"` flip without matching, and
  overwrites every dot met with the flag off with the sentinel (`'`, or `⨁`
  when the text already holds `'`). It then splits the array on the sentinel.
  The loop invariant ties the flag to the parity of the enclosing characters
  read so far. `Split` is the function the method is proved against.
  `Tokenize` is an independent reference tokenizer that needs no sentinel:
  the split equals it whenever the sentinel is absent from the text. The
  lemmas give the segment count, losslessness and the single-segment case,
  and `SentinelCollision` shows what happens when a text holds both `'` and
  `⨁`.
- `Cleaner` (`cleaner.dfy`) is `CleanSqlName`: the four `Replace` calls of
  the source, one per quoting character in the source's order, proved equal to a one-pass filter that keeps, in order, every
  character other than `"`, `'`, `[` and `]`; idempotent; `null` passes
  through.
- `Formatter` (`formatter.dfy`) is `GetFullNameAsString` over a value triple
  `QualifiedName`, with its four branches in the source's order and the
  source's empty-string fallback, proved unreachable.
- `SqlObjectNames` (`sql_object_name.dfy`) holds the class `SqlObjectName`
  with its three fields and both constructors. The parsing constructor
  assigns the cleaned segments from the right. `Assemble` and `Parse` are
  the same steps as functions, used by the lemmas.
- `RoundTrip` (`round_trip.dfy`) proves that parsing rendered text recovers
  the parts, and that render, parse, render is the same as one render.

A `null` string is `None` of `Option<string>`. String interpolation writes
`null` as nothing (`Formatter.Text`).

`RoundTrip.RenderParseRender` needs no restriction on dots: a dot inside
brackets is kept, so its only condition is that no part holds a quoting
character. A part that is present but white space only is rendered as
absent, and the round trip still holds.

Empty input: `""` gives the single segment `""`, so the name is `""` and both
other fields stay `null`.

## Model

| member | source | states |
|---|---|---|
| `Splitter.InLiteralStep` | Insight.Database.Providers.Default/DeriveParameters/SqlObjectName.cs:106-109 | reading one more character flips the literal flag exactly when it is `[`, `]` or `"`, so the flag after a prefix is the parity of those characters in it |
| `Splitter.Sentinel` | Insight.Database.Providers.Default/DeriveParameters/SqlObjectName.cs:83-85 | the delimiter is neither a dot nor an enclosing character, and it is absent from the text unless the text holds both `'` and `⨁` |
| `Splitter.Mark` | Insight.Database.Providers.Default/DeriveParameters/SqlObjectName.cs:87-99 | the rewritten array has the text's length and differs from it only where a dot was replaced by the delimiter |
| `Splitter.SplitOn` | Insight.Database.Providers.Default/DeriveParameters/SqlObjectName.cs:101 | `String.Split(char)` gives one segment more than there are delimiters, no segment holds the delimiter, and joining the segments with the delimiter gives back the text |
| `Splitter.SplitOnOneDelimiter` | Insight.Database.Providers.Default/DeriveParameters/SqlObjectName.cs:101 | a text with exactly one delimiter splits into what precedes it and what follows it |
| `Splitter.SplitJoin` | Insight.Database.Providers.Default/DeriveParameters/SqlObjectName.cs:83-101 | for every text, collisions included, joining the segments with the chosen delimiter gives back the rewritten array |
| `Splitter.Split` | Insight.Database.Providers.Default/DeriveParameters/SqlObjectName.cs:77-103 | the split always returns at least one segment |
| `Splitter.SplitName` | Insight.Database.Providers.Default/DeriveParameters/SqlObjectName.cs:77-103 | the array loop returns exactly `Split(text)`; its invariants keep the flag equal to the parity of enclosing characters read and the array equal to the text with the split points read so far replaced |
| `Splitter.Tokenize` | Insight.Database.Providers.Default/DeriveParameters/SqlObjectName.cs:87-101 | the sentinel-free reference tokenizer always yields at least one segment |
| `Splitter.TokenizeLossless` | Insight.Database.Providers.Default/DeriveParameters/SqlObjectName.cs:87-101 | joining the tokens with `.` gives back the scanned text, for either initial flag |
| `Splitter.TokenizeRun` | Insight.Database.Providers.Default/DeriveParameters/SqlObjectName.cs:91-98 | a run with no enclosing character, and no dot unless the flag is on, only extends the current segment |
| `Splitter.TokenizeBracketed` | Insight.Database.Providers.Default/DeriveParameters/SqlObjectName.cs:91-98 | a bracketed run is never split, whatever dots it holds |
| `Splitter.SplitIsTokenize` | Insight.Database.Providers.Default/DeriveParameters/SqlObjectName.cs:83-101 | when the sentinel is absent from the text, the sentinel split equals the direct tokenizer |
| `Splitter.MarkCount` | Insight.Database.Providers.Default/DeriveParameters/SqlObjectName.cs:87-99 | for any delimiter other than `.`, the rewritten array holds it once per dot met with the flag off plus once per occurrence already in the text |
| `Splitter.SplitCountAny` | Insight.Database.Providers.Default/DeriveParameters/SqlObjectName.cs:83-101 | for every text, collisions included, the number of segments is 1 plus the dots met with the flag off plus the occurrences of the chosen delimiter already in the text |
| `Splitter.SplitCount` | Insight.Database.Providers.Default/DeriveParameters/SqlObjectName.cs:87-101 | without a sentinel collision the number of segments is 1 plus the number of dots met with the flag off; a dot after an odd number of enclosing characters never counts |
| `Splitter.SplitLossless` | Insight.Database.Providers.Default/DeriveParameters/SqlObjectName.cs:89-101 | without a sentinel collision, joining the segments with `.` gives back the text: only split-point dots are removed, and enclosing and all other characters stay |
| `Splitter.SplitWithoutSplitPoint` | Insight.Database.Providers.Default/DeriveParameters/SqlObjectName.cs:77-103 | a text with no dot outside a literal section, the empty text included, is returned whole as the only segment |
| `Splitter.SentinelCollision` | Insight.Database.Providers.Default/DeriveParameters/SqlObjectName.cs:83-85 | an instance of `Splitter.SplitCountAny`: for any characters `a` and `b` other than `.` and `⨁`, the dot-free text `a'⨁b` is still split at the `⨁`, into `a'` and `b` |
| `Cleaner.RemoveAll` | Insight.Database.Providers.Default/DeriveParameters/SqlObjectName.cs:70 | `Replace(c, "")` leaves no `c` and keeps the count of every other character |
| `Cleaner.KeepUnquoted` | Insight.Database.Providers.Default/DeriveParameters/SqlObjectName.cs:70 | the one-pass reference filter leaves no quoting character and never lengthens the text |
| `Cleaner.RemoveQuoteCharsIsKeepUnquoted` | Insight.Database.Providers.Default/DeriveParameters/SqlObjectName.cs:70 | the four successive `Replace` calls equal the one-pass filter that keeps every other character in its order |
| `Cleaner.CleanSqlName` | Insight.Database.Providers.Default/DeriveParameters/SqlObjectName.cs:66-71 | `null` maps to `null` and only `null` does; otherwise the result is the filtered segment, with no `"`, `'`, `[` or `]` |
| `Cleaner.CleanIdempotent` | Insight.Database.Providers.Default/DeriveParameters/SqlObjectName.cs:66-71 | cleaning twice gives the same result as cleaning once |
| `Cleaner.CleanBracketed` | Insight.Database.Providers.Default/DeriveParameters/SqlObjectName.cs:66-71 | cleaning `[s]` for a clean `s` gives `s` |
| `Formatter.FullName` | Insight.Database.Providers.Default/DeriveParameters/SqlObjectName.cs:50-64 | the four cases cover every presence combination, so the result is never the initial empty string; it starts with `[` and ends with `[Name]`; it is `[Name]` alone exactly when database and schema are both null or white space; a present database opens it with `[Database].`; a present schema stands as `[Schema].` just before `[Name]` |
| `SqlObjectNames.Assemble` | Insight.Database.Providers.Default/DeriveParameters/SqlObjectName.cs:33-41 | right-to-left assignment always sets the name, sets a database only together with a schema, and leaves no quoting character in any field |
| `SqlObjectNames.LeadingSegmentsIgnored` | Insight.Database.Providers.Default/DeriveParameters/SqlObjectName.cs:37-41 | segments before the third from last do not change the result |
| `SqlObjectNames.ParsePresence` | Insight.Database.Providers.Default/DeriveParameters/SqlObjectName.cs:31-41 | without a sentinel collision, the schema is set iff the text has at least one dot outside literal sections, and the database iff it has at least two |
| `SqlObjectNames.ParseBracketedDatabase` | Insight.Database.Providers.Default/DeriveParameters/SqlObjectName.cs:29-42 | `[My.db].dbo.proc`-shaped text parses as database `My.db`, schema `dbo`, name `proc`: the dot inside brackets is no separator |
| `SqlObjectNames.ParseOverQualified` | Insight.Database.Providers.Default/DeriveParameters/SqlObjectName.cs:29-42 | `a.b.c.d`-shaped text parses as database `b`, schema `c`, name `d` |
| `SqlObjectNames.SqlObjectName.constructor` | Insight.Database.Providers.Default/DeriveParameters/SqlObjectName.cs:22-27 | the three-argument constructor stores its arguments unchanged |
| `SqlObjectNames.SqlObjectName.FromText` | Insight.Database.Providers.Default/DeriveParameters/SqlObjectName.cs:29-42 | `Name` is the cleaned last segment; `Schema` is the cleaned second to last iff there are at least two segments, else null; `Database` is the cleaned third to last iff there are at least three, else null |
| `SqlObjectNames.SqlObjectName.GetFullNameAsString` | Insight.Database.Providers.Default/DeriveParameters/SqlObjectName.cs:50-64 | the rendered name of the object's fields is never empty, starts with `[` and ends with `[Name]` |
| `RoundTrip.SplitRendered` | Insight.Database.Providers.Default/DeriveParameters/SqlObjectName.cs:77-103 | rendered text with clean fields splits into one segment per bracketed part, and an empty middle segment for `[D]..[N]` |
| `RoundTrip.ParseRendered` | Insight.Database.Providers.Default/DeriveParameters/SqlObjectName.cs:29-64 | parsing rendered text gives back the name and every rendered database and schema; absent parts come back null, except the schema of `[D]..[N]`, which comes back empty |
| `RoundTrip.RenderParseRender` | Insight.Database.Providers.Default/DeriveParameters/SqlObjectName.cs:50-64 | for fields with no quoting character, rendering, parsing and rendering again gives the text of one rendering |

## Left out

- The `#if NO_COMMAND_BUILDER` guard and the `SuppressMessage` attribute do not change behaviour.
- `IsNullOrWhiteSpace` comes from `Insight.Database.MissingExtensions`, which is not part of this model. `Formatter.IsNullOrWhiteSpace` treats `null`, empty and white-space-only text as absent. Its white-space test is the documented `Char.IsWhiteSpace` set, and no proof depends on which characters that set holds.
- A `null` argument to the parsing constructor throws `NullReferenceException` in the source; here the text is always a string.
- The public property setters are plain field writes: the fields are public `var`s of the class.
- `SplitName` returns a sequence rather than a `string[]`. The array it rewrites in place is modelled.
- Splitter.SplitCount, Splitter.SplitLossless and Splitter.SplitWithoutSplitPoint: stated only for texts that do not contain the chosen sentinel, because a text holding both `'` and `⨁` is also split at each `⨁`. `Splitter.SplitCountAny` and `Splitter.SplitJoin` state the count and the join for every text.
- .NET strings are UTF-16 code units while Dafny characters are Unicode scalar values; surrogate pairs are not modelled.
