# bug: issue-URL template engine, modelled in Dafny

The Rust crate `bug` reports an internal bug by pointing the user at a
pre-filled GitHub "new issue" page. The application registers named issue
templates. Each one is either an inline template (title, body, labels) or a
template file, whose first line is the title and whose remaining lines are the
body. Templates may hold `{name}` placeholders. To report a bug, the crate
looks up a template by name, checks the parameters against its placeholders,
substitutes them, and percent-encodes the title, body and labels into the
query of `https://github.com/<owner>/<repo>/issues/new`. It then writes a short
notice to an output sink, with the address shown as an OSC 8 terminal hyperlink
or spelled out, and returns the address.

This project models that core and proves what it promises.

| file | module | what it models |
|---|---|---|
| `wrappers.dfy` | `Wrappers` | `Option` and `Result` |
| `strings.dfy` | `Strings` | the parts of Rust's `str` the engine uses: `char::is_whitespace` (the Unicode White_Space set), `trim`, `lines` (line feed, with a preceding carriage return dropped), `join`, `replace`, and decimal formatting |
| `url_encode.dfy` | `UrlEncode` | `url_encode::encode`: the UTF-8 bytes of the input, each byte copied (unreserved, section 2.3 of RFC 3986), turned into `+` (space) or written as `%XX` in upper-case hex (section 2.1 of RFC 3986). There is a decoder as its inverse. |
| `template.dfy` | `Template` | `extract_placeholders` (a loop, proved against a scanner function), `TemplateFile::parse`, `validate_params`, `IssueTemplate::fill_params` (a loop, proved against a fold of `replace`), and `from_template_file` |
| `config.dfy` | `Config` | `BugReportConfig`, `generate_url` as a function, and `create_terminal_hyperlink` with a parser as its inverse |
| `report.dfy` | `Reporting` | the classes: the builder returned by `init`, the set-once global configuration cell, the handle returned by `init_handle`, and the sink-writing reporter `report_bug_with_output` |

Parameters (an `FxHashMap<String, String>` in the source) are a sequence of
(key, value) pairs. Their order stands for the hash map's iteration order,
which the source does not fix. Every property below holds for any order.

The crate-level documentation (`src/lib.rs:151`) shows spaces in the address
as `%20`. The encoder writes `+` for a space (`src/url_encode.rs:55-57`). The
model follows the encoder.

## Model

| member | source | states |
|---|---|---|
| `Strings.Trim` | src/lib.rs:261 | the result is a slice of the input with only whitespace before and after it, and has no whitespace at either end; a trimmed string is left alone, and the result is empty exactly when the input is all whitespace |
| `Strings.Lines` | src/lib.rs:255 | `str::lines`: no lines exactly for empty text, and no line contains a line feed |
| `Strings.JoinLines` | src/lib.rs:255-267 | joining the lines with line feeds gives back text that has no carriage return and does not end in a line feed |
| `Strings.LinesCons` | src/lib.rs:255 | a first line without a line feed or trailing carriage return, followed by a line feed, is the first of the lines |
| `Strings.LinesCRLF` | src/lib.rs:255 | a first line ended by a carriage return and a line feed is the first of the lines, without the carriage return |
| `Strings.Join` | src/lib.rs:267 | `[&str]::join`, a specification function with no contract of its own: `Strings.SplitJoin`, `Strings.JoinLines` and `Strings.JoinAvoids` state its properties |
| `Strings.ReplaceAll` | src/lib.rs:324-325 | `str::replace`: replacing a pattern by itself changes nothing. Each step of the left-to-right scan is stated by `Strings.ReplaceFront` (the pattern at the front) and `Strings.ReplaceStep` (no pattern at the front); `Strings.ReplaceAbsent` and `Strings.ReplaceSkip` state longer stretches at once |
| `Strings.ReplaceAbsent` | src/lib.rs:324-325 | `replace` with a pattern that does not occur changes nothing |
| `Strings.ReplaceSkip` | src/lib.rs:324-325 | text without the pattern's first character is copied and replacement continues after it |
| `Strings.ReplaceFront` | src/lib.rs:324-325 | where the text starts with the pattern, the value takes its place and replacement resumes after the whole pattern, so matches do not overlap |
| `Strings.ReplaceStep` | src/lib.rs:324-325 | where the pattern does not start the text, the first character is kept and replacement resumes at the next one |
| `Strings.SplitJoin` | src/lib.rs:492-498 | splitting on a separator undoes joining with it when no part contains the separator |
| `Strings.Decimal` | src/lib.rs:516 | a line number is written as a non-empty string of decimal digits |
| `Strings.DecimalRoundTrip` | src/lib.rs:516 | the digits of a line number read back, most significant first, to that number, and start with `0` only for the number 0 |
| `UrlEncode.CharUtf8` | src/url_encode.rs:48 | the shortest form: one byte below U+0080, two below U+0800, three below U+10000, four above, as many as the lead byte announces; an ASCII character is its own byte; a longer sequence starts with a lead byte in 0xC2..0xF4 followed by continuation bytes in 0x80..0xBF; the scalar value the bytes carry is the character's |
| `UrlEncode.Utf8` | src/url_encode.rs:48 | `str::bytes`, a specification function with no contract of its own: the lemmas below state its properties |
| `UrlEncode.Utf8RoundTrip` | src/url_encode.rs:48 | decoding the UTF-8 bytes of a string gives the string back |
| `UrlEncode.CharOfBytes` | src/url_encode.rs:48 | bytes that are well formed under RFC 3629 (right length, continuation bytes, scalar value, no overlong form) are exactly the encoding of the character they carry |
| `UrlEncode.DecodeUtf8Exact` | src/url_encode.rs:48 | whatever the reader accepts is the UTF-8 encoding of what it returns, so each string has exactly one accepted byte form |
| `UrlEncode.ExampleOverlong` | src/url_encode.rs:48 | the overlong bytes E0 83 A9 are refused, and C3 A9 reads as `é` |
| `UrlEncode.Utf8Injective` | src/url_encode.rs:48 | different strings have different UTF-8 bytes |
| `UrlEncode.Utf8Concat` | src/url_encode.rs:48 | the bytes of a concatenation are the concatenation of the bytes |
| `UrlEncode.HexRoundTrip` | src/url_encode.rs:60 | the upper-case hex digit of each value below 16 reads back as that value |
| `UrlEncode.Encode` | src/url_encode.rs:45-66 | the loop's output is the per-byte encoding of the input's bytes, in input order |
| `UrlEncode.EncodeConcat` | src/url_encode.rs:48-63 | encoding distributes over concatenation of byte sequences |
| `UrlEncode.EncodedConcat` | src/url_encode.rs:48-63 | encoding distributes over concatenation of strings |
| `UrlEncode.EncodeLength` | src/url_encode.rs:48-63 | output length is one per unreserved byte, one per space and three per other byte |
| `UrlEncode.EncodeAlphabet` | src/url_encode.rs:51-61 | every output character is unreserved, `+` or `%` (the hex digits are unreserved) |
| `UrlEncode.DecodeByte` | src/url_encode.rs:49-62 | each arm's output (copied byte, `+`, `%XX`) decodes back to its byte |
| `UrlEncode.DecodeEncode` | src/url_encode.rs:48-63 | decoding the output gives back the input bytes: `+` only comes from a space, since a literal `+` is written `%2B` |
| `UrlEncode.EncodeInjective` | src/url_encode.rs:51-61 | different byte sequences never encode to the same text |
| `UrlEncode.EncodedInjective` | src/url_encode.rs:46-61 | different strings never encode to the same text |
| `UrlEncode.EncodeUnreservedIdentity` | src/url_encode.rs:51-53 | text made only of unreserved characters is left unchanged |
| `UrlEncode.NonAsciiPercentEncoded` | src/url_encode.rs:42-43 | a non-ASCII character is written as its UTF-8 bytes, each as `%XX` |
| `UrlEncode.CountOthers` | src/url_encode.rs:59-61 | a run of bytes that are neither unreserved nor space counts only in the percent arm |
| `UrlEncode.ExampleSpace` | src/url_encode.rs:34 | `hello world` becomes `hello+world` |
| `UrlEncode.ExampleAt` | src/url_encode.rs:37 | `hello@world.com` becomes `hello%40world.com` |
| `UrlEncode.ExampleUnreserved` | src/url_encode.rs:40 | `hello-world_123.txt~` is unchanged |
| `UrlEncode.ExampleMultiByte` | src/url_encode.rs:42-43 | `café` becomes `caf%C3%A9` |
| `UrlEncode.DocExampleAsWritten` | src/url_encode.rs:43 | the example's text as spelled in the source encodes to `caf%C3%83%C2%A9`, not `caf%C3%A9` |
| `UrlEncode.ExampleReserved` | src/url_encode.rs:59-61 | `a/b?c` becomes `a%2Fb%3Fc` |
| `Template.Parse` | src/lib.rs:254-277 | "Template file is empty" exactly for empty content; the title error exactly when the first line is all whitespace; on success labels copied, title non-empty, trimmed and one line, body trimmed |
| `Template.ParseRoundTrip` | src/lib.rs:254-277 | a trimmed one-line title, a line feed and a trimmed body parse back to that title, body and labels |
| `Template.ReadName` | src/lib.rs:345-355 | everything the inner loop skips before its stopping character is a name character; the token is closed exactly when that character is `}`; when it stops before the end of the text the stopping character is not a name character; a closed token's name is exactly the text skipped |
| `Template.ScanFrom` | src/lib.rs:340-361 | everything the scanner collects is a non-empty name |
| `Template.ExtractPlaceholders` | src/lib.rs:336-364 | the nested loops return the scanner's names at their first occurrence, with no duplicates, all names, exactly the names in the text |
| `Template.ReadPlaceholder` | src/lib.rs:342-355 | the inner loop stops where the name reader stops, reports `}` exactly when the reader found it, and then holds the name it read |
| `Template.FirstsMembers` | src/lib.rs:357 | dropping repeats keeps exactly the same elements |
| `Template.FirstsNoDuplicates` | src/lib.rs:357 | dropping repeats leaves no duplicates |
| `Template.FirstsOrder` | src/lib.rs:357-358 | the kept elements appear in the order of their first occurrence |
| `Template.PlaceholdersProperties` | src/lib.rs:336-364 | the extracted names: no duplicates, each a name, exactly those in the text, in first-occurrence order |
| `Template.ReadNameChars` | src/lib.rs:349-350 | name characters are collected one by one in front of what follows |
| `Template.ScanPlaceholder` | src/lib.rs:346-348 | `{name}` contributes its name (`{}` contributes nothing) and scanning resumes after the `}` |
| `Template.ScanAborted` | src/lib.rs:351-354 | a `{` cut short by another character contributes nothing, and scanning resumes after that character, not after the `{` |
| `Template.ScanUnterminated` | src/lib.rs:345-357 | a `{` never closed contributes nothing |
| `Template.ScanShift` | src/lib.rs:340-361 | what the scanner collects from a point on does not depend on the text before that point |
| `Template.ScanBraced` | src/lib.rs:345-359 | a text opening with `{name}` yields that name, then what the rest yields |
| `Template.ScanPlain` | src/lib.rs:340-341 | text holding no `{` yields no name, so a text yields what the part after it yields |
| `Template.ExampleSpaceInBraces` | src/lib.rs:351-354 | `{a b}` gives no placeholder |
| `Template.ExampleEmptyBraces` | src/lib.rs:357 | `{}` gives no placeholder |
| `Template.ExampleRepeated` | src/lib.rs:357 | `{a}{b}{a}` gives `a`, `b` |
| `Template.ExampleResumeAfterAbort` | src/lib.rs:351-354 | `{a {b}` gives `b` |
| `Template.ExampleBraceAborts` | src/lib.rs:351-354 | `{a{b}` gives nothing: the second `{` aborts the first and is consumed |
| `Template.FirstMissing` | src/lib.rs:282-286 | none exactly when every placeholder is a key; otherwise a placeholder that is not a key |
| `Template.FirstUnused` | src/lib.rs:288-292 | none exactly when every key is a placeholder; otherwise a key that is not a placeholder |
| `Template.Validate` | src/lib.rs:279-295 | Ok exactly when the set of placeholders equals the set of keys |
| `Template.ValidateReportsMissing` | src/lib.rs:282-286 | the first placeholder without a value, in scan order, is the one reported |
| `Template.FirstMissingIs` | src/lib.rs:282-286 | the first placeholder not among the keys is the one found |
| `Template.ValidateReportsUnused` | src/lib.rs:288-292 | with every placeholder supplied, the first extra key in map order is reported |
| `Template.FirstUnusedIs` | src/lib.rs:288-292 | the first key that is not a placeholder is the one found |
| `Template.Pattern` | src/lib.rs:323 | `{key}` starts with `{` and is not empty |
| `Template.FillParams` | src/lib.rs:318-333 | the loop yields the fold of `replace` over the map in its order, and the labels are unchanged |
| `Template.FillUnchanged` | src/lib.rs:318-333 | title or body text in which no key's `{key}` occurs is unchanged, in particular with no parameters |
| `Template.NoBraceNotContains` | src/lib.rs:323-325 | text without `{` contains no placeholder pattern |
| `Template.FillOne` | src/lib.rs:322-326 | one placeholder after brace-free text gets its value, and the other keys do not touch the result when no value holds `{` |
| `Template.FillExample` | src/lib.rs:322-326 | `Application Crash: {error_type}` with three parameters becomes `Application Crash: NullPointerException` |
| `Template.ValueOf` | src/lib.rs:322-326 | a key has a value exactly when it is one of the map's keys, and that value is paired with it in the map |
| `Template.OtherPattern` | src/lib.rs:323-325 | the placeholder of one name never starts where the placeholder of a different name stands |
| `Template.ReplaceOther` | src/lib.rs:323-325 | replacing one name's `{key}` leaves another name's placeholder in place and goes on after it |
| `Template.ReplacePieces` | src/lib.rs:323-325 | in text made of brace-free runs and name placeholders, one `replace` with a brace-free value turns every occurrence of that key's placeholder, wherever it stands, into the value and leaves everything else as it was |
| `Template.FillPieces` | src/lib.rs:318-331 | in text made of brace-free runs and name placeholders, with name keys and brace-free values, filling gives each placeholder that has a key its value (any position, any number of repeats) and keeps the other placeholders and all literal text, in every map order |
| `Template.FillMid` | src/lib.rs:322-326 | a placeholder between brace-free texts becomes the value the map gives it, wherever its key sits in the map |
| `Template.FillExampleMid` | examples/basic_usage.rs:13 | `Performance Issue: {operation} is too slow`, with `operation` second in the map, becomes `Performance Issue: save is too slow` |
| `Template.FromTemplateFile` | src/lib.rs:307-311 | a validation error is returned as is; a parse error is returned only after validation passes; Ok exactly when both pass, and then the value is the parsed template filled with the parameters, with the file's labels |
| `Template.FromFileOne` | src/lib.rs:307-311 | a file whose only placeholder is the only key gives its parsed template filled with that key's value |
| `Template.ExampleFromFile` | src/lib.rs:307-311 | the file `Crash {x}`, line feed, `At {x}` with `x` = `y` gives title `Crash y` and body `At y` |
| `Template.ValidationBeforeParse` | src/lib.rs:307-309 | an empty file with parameters reports the first key as unused, not the file as empty |
| `Config.Lookup` | src/lib.rs:468-474 | "Template '<name>' not found" exactly when the name is in neither map |
| `Config.NotFoundDistinct` | src/lib.rs:470-473 | no error of a template file equals the not-found message |
| `Config.BaseUrl` | src/lib.rs:476-479 | the address is `https://github.com/`, owner, `/`, repo and `/issues/new`, so its length is 31 plus theirs |
| `Config.QueryParamsOrder` | src/lib.rs:481-494 | the parameters are `title=`, `body=`, `labels=`, each only for a non-empty field, in that order, values encoded, labels joined with commas |
| `Config.GenerateUrl` | src/lib.rs:467-502 | Ok exactly when lookup and filling succeed, with the lookup's error otherwise; every address starts with the base address |
| `Config.InlineShadowsFile` | src/lib.rs:468-471 | with an inline template of that name, any file of the same name is irrelevant, and the call succeeds |
| `Config.NotFoundIff` | src/lib.rs:472-474 | the not-found error is returned exactly for names in neither map |
| `Config.FileErrorsPropagate` | src/lib.rs:470-471 | a template file's validation or parse error is returned unchanged |
| `Config.NoQueryIff` | src/lib.rs:496-499 | no `?` is added exactly when title, body and labels are all empty |
| `Config.QueryRoundTrip` | src/lib.rs:481-499 | after `?`, splitting on `&` and `=` and decoding gives back the non-empty fields in order with their UTF-8 bytes |
| `Config.JoinedQueryRoundTrip` | src/lib.rs:496-498 | the `&`-joined parameters decode back to the fields |
| `Config.ParamRoundTrip` | src/lib.rs:484-493 | one `name=value` parameter splits and decodes back to its name and bytes |
| `Config.EncodedNoSeparator` | src/lib.rs:484-498 | an encoded value holds neither `&` nor `=`, so it cannot end its parameter early |
| `Config.AddedTemplateUsed` | src/lib.rs:452-455 | after `add_template`, the name gives the address of that template filled |
| `Config.AddedFileUsed` | src/lib.rs:457-460 | after `add_template_file`, a name without an inline template gives the file's outcome |
| `Config.OtherNamesUnchanged` | src/lib.rs:452-465 | adding under one name, or setting the hyperlink mode, changes no other name's address |
| `Config.OnlyLabels` | src/lib.rs:491-494 | a template with only labels gives one `labels` parameter: the labels joined with commas, encoded |
| `Config.LabelsExample` | src/lib.rs:492-493 | labels `bug` and `crash` give `?labels=bug%2Ccrash` |
| `Config.CreateTerminalHyperlink` | src/lib.rs:594-596 | the link is 14 characters longer than the address and the text together |
| `Config.HyperlinkRoundTrip` | src/lib.rs:594-596 | an address and a text without escape characters are read back from their hyperlink |
| `Config.EncodedHasNoEscape` | src/lib.rs:484-493 | encoded values hold no escape character, so they cannot break the hyperlink |
| `Config.AddressNoEscape` | src/lib.rs:476-499 | when owner and repository hold no escape character, neither does the address: the values are encoded and the rest is fixed text |
| `Config.OwnerEscapeReachesAddress` | src/lib.rs:476-479 | the owner is copied into the address unencoded, so an escape character in it reaches the address |
| `Config.GenerateUrlNoEscape` | src/lib.rs:467-502 | every address generated for an escape-free owner and repository is escape-free |
| `Config.OnlyTitle` | src/lib.rs:483-499 | a template with only a title gives just `?title=` and the encoded title |
| `Config.GenerateTitleOnly` | src/lib.rs:467-502 | generating from a registered title-only template fills the title, encodes it and leaves out the empty body and labels |
| `Config.GenerateUrlExample` | src/lib.rs:467-502 | owner `octocat`, repository `Hello-World`, title `Bug: {x}` with `x` = `A B` give exactly `https://github.com/octocat/Hello-World/issues/new?title=Bug%3A+A+B` |
| `Reporting.ReportResult` | src/lib.rs:536-542 | specification function with no contract of its own: the report's return value, the address on success and the empty string on error; `Reporting.ReportResultIff` states its promise |
| `Reporting.ReportResultIff` | src/lib.rs:514-544 | the returned string is non-empty exactly when an address was generated, and then it is that address |
| `Reporting.ErrorReport` | src/lib.rs:538-543 | on error exactly the header, the error line and a blank line are written, and the empty string is returned |
| `Reporting.ParametersBlockIff` | src/lib.rs:518-523 | on success the `Parameters:` line is written exactly when there are parameters |
| `Reporting.SuccessEnding` | src/lib.rs:516-535 | a successful report writes four pieces plus the parameter block, and ends with the address line and a blank line |
| `Reporting.LinkLineCarriesUrl` | src/lib.rs:530-534 | the address line ends with the address, or holds a hyperlink that reads back to the address and "File a bug report" |
| `Reporting.ReportedLinkReadsBack` | src/lib.rs:512-534 | for an escape-free owner and repository, the line printed for a generated address reads back to that address |
| `Reporting.Sink.Write` | src/lib.rs:186-187 | writing appends one piece to the sink's log |
| `Reporting.Global.GenerateGithubUrl` | src/lib.rs:553-590 | "Bug reporting not initialized. Call bug_rs::init() first." before a commit; afterwards the same result as `generate_url` on the committed configuration |
| `Reporting.Global.HyperlinkModeOf` | src/lib.rs:600-604 | `Never` before a commit, the committed mode afterwards |
| `Reporting.Builder.constructor` | src/lib.rs:390-400 | a new builder holds the owner and repository, no templates and `Auto` mode |
| `Reporting.Builder.AddTemplate` | src/lib.rs:402-405 | the name now maps to the template; nothing else changes |
| `Reporting.Builder.AddTemplateFile` | src/lib.rs:407-410 | the name now maps to the file; nothing else changes |
| `Reporting.Builder.Hyperlinks` | src/lib.rs:412-415 | only the hyperlink mode changes |
| `Reporting.Builder.Build` | src/lib.rs:417-431 | the first commit stores the configuration and succeeds; a later one returns "Bug reporting already initialized" and leaves the stored configuration as it was |
| `Reporting.InitTwice` | src/lib.rs:417-431 | two commits in a row: the first succeeds, the second is refused, the first configuration stays |
| `Reporting.AssembleUrl` | src/lib.rs:476-501 | pushing the parameters and joining them yields the address function's result |
| `Reporting.WriteParams` | src/lib.rs:518-523 | the `Parameters:` line and one `key: value` line per parameter in map order, only when there are parameters |
| `Reporting.WriteSuccess` | src/lib.rs:515-536 | the success branch writes the header, template name, parameters, address line and blank line, in that order |
| `Reporting.Handle.constructor` | src/lib.rs:440-450 | a new handle holds the owner and repository, no templates and `Auto` mode |
| `Reporting.Handle.Clone` | src/lib.rs:434-435 | a clone is a separate handle with an equal configuration |
| `Reporting.Handle.AddTemplate` | src/lib.rs:452-455 | the name now maps to the template; nothing else changes |
| `Reporting.Handle.AddTemplateFile` | src/lib.rs:457-460 | the name now maps to the file; nothing else changes |
| `Reporting.Handle.Hyperlinks` | src/lib.rs:462-465 | only the hyperlink mode changes |
| `Reporting.Handle.FilledTemplate` | src/lib.rs:468-474 | the lookup and filling steps return what `Config.Lookup` specifies |
| `Reporting.Handle.GenerateUrl` | src/lib.rs:467-502 | the method returns exactly `Config.GenerateUrl` of the handle's configuration |
| `Reporting.Handle.ReportBugWithOutput` | src/lib.rs:513-545 | the sink receives exactly the specified pieces after what it held, and the result is the address or the empty string |
| `Reporting.Handle.ReportBug` | src/lib.rs:504-506 | the same result as writing the report to a sink nobody reads |
| `Reporting.CloneIndependent` | src/lib.rs:434-455 | adding a template to a clone leaves the original handle's configuration unchanged |

## Left out

- `supports_hyperlinks` (`src/lib.rs:619-649`) reads environment variables. Its answer is the `probe` parameter of `Reporting.Handle.ReportBugWithOutput`, and `Auto` mode uses it as is.
- `Reporting.Handle.ReportBug`: it passes `false` for the probe. Its result does not depend on the probe, and what it writes is thrown away, as with `NoOutput`.
- Standard error and the `Output` implementations (`src/lib.rs:184-207`, `report_bug_stderr` at `src/lib.rs:508-511`) are not modelled. A sink is `Reporting.Sink`, whose log records every `write_str` and `write_fmt` call as one piece of text.
- The configuration cell's thread safety (`OnceCell`) and the `unsafe` global of the no-std build are left out. `Reporting.Global` has only the sequential set-once behaviour.
- The macros `bug!`, `bug_with_handle!` and `template_file!` are left out. They rely on `include_str!`, `file!`, `line!` and `stringify!`, and `bug!` repeats the reporter inline.
- Hash-map iteration order is not fixed. Parameters are a sequence in one possible iteration order, so the order of `Parameters:` lines and of substitution follows it. Keys are not required to be distinct.
- `Template.FillOne`: it covers only a single placeholder at the end of brace-free text, with a brace-free value. Placeholders anywhere else, repeated or several, are covered by `Template.FillPieces`, under the limits on the next line.
- `Template.FillPieces`: the filled text is not stated when a value contains `{` or a key is not a name. A value holding another key's `{key}` is then replaced or not depending on the map order. A key with other characters can make its `{key}` overlap another placeholder.
- `Template.IsNameChar` (`src/lib.rs:349`) uses ASCII letters and digits only. `char::is_alphanumeric` also accepts non-ASCII letters and digits, whose Unicode tables are not part of this model.
- `Config.AddressNoEscape`: owner and repository are copied into the address unencoded, as the source does, so the address is escape-free only when they are; `Config.OwnerEscapeReachesAddress` shows the other case.
- The constructors `IssueTemplate::new`, `IssueTemplate::with_labels`, `TemplateFile::new` and `TemplateFile::with_labels` are the datatype constructors `Template.IssueTemplate` and `Template.TemplateFile`. The builder methods are modelled as methods that update the object; the source instead consumes it and returns it by value.
- The `config()` accessor (`src/lib.rs:547-549`) is the `config` field of `Reporting.Handle`.
- `generate_github_url` is not modelled line by line. `Reporting.Global.GenerateGithubUrl` delegates to `Config.GenerateUrl` on the committed configuration, since the source repeats `generate_url` line for line.
- The line number is a `u32` (`Reporting.U32`); the file name is any string.
- The example programs under `examples/` are only demonstrations and have no logic of their own.

## Findings

| source | as written | input that shows it | evidently intended | confidence | as-written member | corrected member |
|---|---|---|---|---|---|---|
| src/url_encode.rs:43 | the documentation's multi-byte example passes the two characters U+00C3 U+00A9 ("é" double-encoded) and expects `caf%C3%A9` | `encode("caf\u{C3}\u{A9}")` gives `caf%C3%83%C2%A9` | `encode("café") == "caf%C3%A9"` | medium: the source text holds the double-encoded characters; not executed | `UrlEncode.DocExampleAsWritten` | `UrlEncode.ExampleMultiByte` |
