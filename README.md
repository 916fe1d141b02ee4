# InspectCode log reader, modelled in Dafny

This project models the core of `Cake.Prca.Issues.InspectCode`: the reader
that turns a JetBrains InspectCode XML report into code analysis issues,
`InspectCodeProvider.ReadIssues` with its four field readers `TryGetFile`,
`TryGetLine`, `TryGetRule` and `TryGetMessage`.

The reader requires exactly one `Solution` element and takes the directory of
its path once. It then walks the `Issue` elements in document order. For each
one it checks, in this order, the `File`, `Line`, `TypeId` and `Message`
attributes. It emits a record `(file, line, message, priority 0, rule)` only
when all four pass. A missing or blank attribute skips the issue. A `Line` that
is present and not blank but is no Int32 makes `int.Parse` throw, and that
aborts the whole read.

Files:

- `wrappers.dfy`: `Option` and `Result`.
- `text.dfy`: `char.IsWhiteSpace`, `string.IsNullOrWhiteSpace` and the
  character classes of the number parser.
- `int32_parse.dfy`: `int.Parse(s, CultureInfo.InvariantCulture)` as a lexer
  into a `Numeral` (leading white space, sign, digits, trailing white space),
  with the round trip between lexing and rendering proved both ways.
- `paths.dfy`: `Path.GetDirectoryName` and `Path.Combine`, simplified to
  scanning for the Windows separators `\` and `/` and the drive colon, without
  the path normalisation .NET applies first.
- `inspect_code_provider.dfy`: the field readers, one loop turn (`ReadIssue`),
  the filter-map of the loop (`Collect`), the specification `ReadLog`, and the
  imperative `ReadIssues` proved equal to it.
- `inspect_code_provider_tests.dfy`: the expectation of the provider test,
  plus three cases that pin down check order and abort behaviour.

The report arrives already parsed: `LogDocument(solutions, issues)` holds the
text of every `Solution` element and the attribute map of every `Issue` element.
Exceptions become `Failure(ReadError)`:

- `SolutionNotSingle`: `.Single()` found no `Solution` element, or several.
- `SolutionDirectoryNull`: `Path.Combine` got a null directory.
- `LineNotNumber`: `int.Parse` threw `FormatException`.
- `LineOutOfRange`: `int.Parse` threw `OverflowException`.

Every function here is deterministic, so reading the same report twice gives
the same result.

The doc comment of `TryGetLine` says it returns false when the line could not
be parsed (src/Cake.Prca.Issues.InspectCode/InspectCodeProvider.cs:115). The
model follows the code instead: a missing or blank `Line` returns false and
skips the issue (lines 122-126), but any other `Line` goes straight to
`int.Parse` (line 128), whose exception aborts the whole read.

## Model

| member | source | states |
|---|---|---|
| `InspectCodeProvider.ReadIssues` | src/Cake.Prca.Issues.InspectCode/InspectCodeProvider.cs:31-79 | The imperative loop (with `continue` and an early exception) returns exactly `ReadLog(doc)`; its invariant is that the records built so far are the filter-map of the issues visited so far |
| `InspectCodeProvider.ReadLog` | src/Cake.Prca.Issues.InspectCode/InspectCodeProvider.cs:37 | With zero or several `Solution` elements the read fails with `SolutionNotSingle(count)` and produces nothing; a successful read has at most one record per `Issue` element |
| `InspectCodeProvider.TryGetFile` | src/Cake.Prca.Issues.InspectCode/InspectCodeProvider.cs:88-108 | Skips exactly when `File` is absent or blank; throws exactly when `File` has text but the solution directory is null; otherwise yields `Combine(directory, File)`, which is never blank |
| `InspectCodeProvider.TryGetLine` | src/Cake.Prca.Issues.InspectCode/InspectCodeProvider.cs:116-131 | Skips exactly when `Line` is absent or blank; throws exactly when `Line` has text and `int.Parse` fails, with the format or overflow error that `int.Parse` raised; otherwise yields the parsed value |
| `InspectCodeProvider.TryGetText` | src/Cake.Prca.Issues.InspectCode/InspectCodeProvider.cs:143-155 | The shared guard of the rule and message readers: some value exactly when the attribute is present and not blank, and then the attribute text unchanged |
| `InspectCodeProvider.TryGetRule` | src/Cake.Prca.Issues.InspectCode/InspectCodeProvider.cs:139-156 | The rule is the `TypeId` text unchanged, and is there exactly when `TypeId` is present and not blank |
| `InspectCodeProvider.TryGetMessage` | src/Cake.Prca.Issues.InspectCode/InspectCodeProvider.cs:164-181 | The message is the `Message` text unchanged, and is there exactly when `Message` is present and not blank |
| `InspectCodeProvider.ReadIssue` | src/Cake.Prca.Issues.InspectCode/InspectCodeProvider.cs:42-75 | One issue yields a record if and only if all four checks pass; the record is `(Combine(dir, File), parsed Line, Message, 0, TypeId)` and is well formed (non-blank file, rule and message, Int32 line, priority 0); it throws if and only if `File` has text and either the directory is null or `Line` has text that does not parse, and the error is `SolutionDirectoryNull` when the directory is null, else `LineNotNumber(Line)` for a format error and `LineOutOfRange(Line)` for an overflow; without `File` it is skipped whatever `Line` holds |
| `InspectCodeProvider.Collect` | src/Cake.Prca.Issues.InspectCode/InspectCodeProvider.cs:33-78 | The loop's accumulation over check outcomes never yields more records than outcomes |
| `InspectCodeProvider.FailureIsFinal` | src/Cake.Prca.Issues.InspectCode/InspectCodeProvider.cs:40-76 | An exception raised by some issue ends the read: later issues do not change the result |
| `InspectCodeProvider.CollectIsFilterMap` | src/Cake.Prca.Issues.InspectCode/InspectCodeProvider.cs:40-76 | A read without an exception is an order-preserving filter-map: the k-th record is the value of the k-th passing check, with no sorting and no deduplication |
| `InspectCodeProvider.CollectFailsAtFirstThrow` | src/Cake.Prca.Issues.InspectCode/InspectCodeProvider.cs:40-76 | The read fails if and only if some check throws, and then with the error of the first one that throws |
| `InspectCodeProvider.SkipIsInvisible` | src/Cake.Prca.Issues.InspectCode/InspectCodeProvider.cs:44-68 | Removing a skipped outcome from anywhere in the sequence leaves the result unchanged |
| `InspectCodeProvider.CollectAllPassed` | src/Cake.Prca.Issues.InspectCode/InspectCodeProvider.cs:70-75 | When every check passes, the result has exactly one record per check, in order |
| `InspectCodeProvider.ReadLogIsFilterMap` | src/Cake.Prca.Issues.InspectCode/InspectCodeProvider.cs:33-78 | A successful read had one `Solution` element and yields exactly one well-formed record per accepted `Issue` element, in document order, and nothing for any other element |
| `InspectCodeProvider.ReadLogFailsAtFirstThrow` | src/Cake.Prca.Issues.InspectCode/InspectCodeProvider.cs:40-76 | With one `Solution` element, the read fails if and only if some `Issue` element throws, and then with the exception of the first such element |
| `InspectCodeProvider.ReadLogIgnoresSkipped` | src/Cake.Prca.Issues.InspectCode/InspectCodeProvider.cs:44-68 | Deleting a skipped `Issue` element from a report does not change what the report reads as |
| `InspectCodeProvider.ReadLogKeepsAllAccepted` | src/Cake.Prca.Issues.InspectCode/InspectCodeProvider.cs:40-78 | A report whose N `Issue` elements all pass reads as exactly N records, the k-th from the k-th element |
| `Text.IsWhiteSpace` | src/Cake.Prca.Issues.InspectCode/InspectCodeProvider.cs:123 | `char.IsWhiteSpace`, the test `string.IsNullOrWhiteSpace` applies to each character: true exactly for the 25 characters of the table, U+0009-U+000D, U+0020, U+0085, U+00A0 and the Unicode 8 Zs, Zl and Zp characters |
| `Text.IsBlank` | src/Cake.Prca.Issues.InspectCode/InspectCodeProvider.cs:99 | `string.IsNullOrWhiteSpace` on an attribute value that is not null, the guard at lines 99, 123, 150 and 175: true exactly when every character is white space by `char.IsWhiteSpace`, the empty string included |
| `Int32Parse.ParseInt32` | src/Cake.Prca.Issues.InspectCode/InspectCodeProvider.cs:128 | A successful parse is in Int32 range and is the value of a well-formed numeral written exactly as the input |
| `Int32Parse.Lex` | src/Cake.Prca.Issues.InspectCode/InspectCodeProvider.cs:128 | Whatever the scan of `int.Parse` splits out is a well-formed numeral (white space, optional sign, at least one digit, white space) whose text is exactly the input |
| `Int32Parse.NumeralNotBlank` | src/Cake.Prca.Issues.InspectCode/InspectCodeProvider.cs:122-128 | The text of any well-formed numeral holds a digit, so `string.IsNullOrWhiteSpace` is false for it |
| `Int32Parse.LexRender` | src/Cake.Prca.Issues.InspectCode/InspectCodeProvider.cs:128 | Lexing the text of any well-formed numeral gives that numeral back, so the split into white space, sign, digits and white space is unique |
| `Int32Parse.ParseRendered` | src/Cake.Prca.Issues.InspectCode/InspectCodeProvider.cs:128 | Every well-formed numeral, padded or signed, parses to its value, or throws the overflow error when the value is outside Int32 |
| `Int32Parse.ParseFormatError` | src/Cake.Prca.Issues.InspectCode/InspectCodeProvider.cs:128 | The format error is raised if and only if the input is the text of no well-formed numeral |
| `Int32Parse.BlankDoesNotParse` | src/Cake.Prca.Issues.InspectCode/InspectCodeProvider.cs:122-128 | A blank string never parses, so the blank check before `int.Parse` is what turns those values into skips |
| `Int32Parse.DecimalDigitsValue` | src/Cake.Prca.Issues.InspectCode/InspectCodeProvider.cs:128 | The canonical decimal digits of k have the value k |
| `Int32Parse.ParseFormat` | src/Cake.Prca.Issues.InspectCode/InspectCodeProvider.cs:128 | Parsing the invariant-culture decimal text of any Int32 gives that number back |
| `Paths.DirectoryName` | src/Cake.Prca.Issues.InspectCode/InspectCodeProvider.cs:37 | The directory is null exactly for an empty path or a bare root; otherwise it is a strict prefix of the path that keeps the root and drops the last segment together with the separator before it |
| `Paths.Combine` | src/Cake.Prca.Issues.InspectCode/InspectCodeProvider.cs:105 | The combined path ends with the file path; a rooted file path or an empty directory gives the file path alone, an empty file path the directory alone; otherwise it is the directory, then one `\` unless the directory already ends in `\`, `/` or the drive colon `:` (so `C:` and `a` give `C:a`), then the file path |
| `Paths.CombineDirectoryName` | src/Cake.Prca.Issues.InspectCode/InspectCodeProvider.cs:105 | Combining the directory of a path with its last segment rebuilds the path, for paths written the way `Combine` writes them |
| `InspectCodeProviderTests.ShouldReadIssueCorrect` | src/Cake.Prca.Issues.InspectCode.Tests/InspectCodeProviderTests.cs:40-57 | The fixture report reads as exactly one issue: the file under the repository root, line 16, rule `UnusedMember.Global`, priority 0, and the test's message |
| `InspectCodeProviderTests.MissingFileSkipsBadLine` | src/Cake.Prca.Issues.InspectCode/InspectCodeProvider.cs:44-54 | An issue without `File` is skipped before its non-numeric `Line` is parsed |
| `InspectCodeProviderTests.BadLineAbortsRead` | src/Cake.Prca.Issues.InspectCode/InspectCodeProvider.cs:116-131 | The same non-numeric `Line` behind a valid `File` aborts the whole read, and the valid issue after it is not returned |
| `InspectCodeProviderTests.TwoSolutionsAbortRead` | src/Cake.Prca.Issues.InspectCode/InspectCodeProvider.cs:37 | A report with two `Solution` elements fails with `SolutionNotSingle(2)` |

## Left out

- XML parsing (`XDocument.Parse`) is left out. The model starts from the parsed document, so malformed XML is not modelled.
- `Descendants` is left out. The model takes the `Solution` texts and the `Issue` attributes already collected in document order.
- The `CodeAnalysisIssue` constructor and its `CodeAnalysisProvider` base class are not part of this model. That covers turning the file path into one relative to the repository root (which the test checks), logging and `Initialize`. A record is taken to be exactly the five values passed in.
- The settings class is left out. Its file-reading constructor is I/O. The other constructor only stores its arguments, and the non-blank check it makes on the log content is a precondition on text the model never sees.
- The Cake alias classes are left out. They are host wiring that null-checks arguments and builds providers.
- The provider constructor's null checks are left out, because the model has no null settings.
- Int32Parse.ParseInt32: the .NET number parser also accepts trailing U+0000 characters after the number. XML 1.0 does not allow U+0000 in attribute values, so the model leaves this out.
- Paths.DirectoryName: .NET Framework throws `ArgumentException` for an empty or all-white-space path and for invalid path characters. The model returns null for an empty path and accepts the rest.
- Paths.DirectoryName: on Windows, .NET normalises the path before it scans it. It turns `/` into `\`, collapses runs of separators, trims white space before a rooted path and handles UNC roots (`\\server\share`). The model does none of this and scans the path as written. So for `C:/a/b.sln` it returns `C:/a` where .NET returns `C:\a`, and its result is always a prefix of the path, which .NET's need not be.
- Paths.Combine: the check for invalid path characters, which throws `ArgumentException`, is left out.
- Text.IsWhiteSpace follows the Unicode 8 separator categories. Later .NET versions may classify a few characters differently.
- The report file used by the provider test is not part of this model. The fixture document is rebuilt from the test's expected values and the repository root `c:\Source\Cake.Prca` that the test fixture sets.
