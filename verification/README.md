# Upload classification and health status of the code-analysis web server

This project models the pure logic of the code-analysis server's HTTP front end,
`Web_API/fastapi_server.py`. The analysis engine that the server calls is not part
of this model. Three pieces of that front end are pure computations, and they are
modelled here as Dafny functions with proved contracts:

- **Language classifier** (`_detect_language_from_filename`). It takes the
  extension of the final component of an uploaded file's name, as pathlib's
  `Path(name).suffix` defines it, lower-cases it, and looks it up in a fixed
  table of fifteen extensions. The answer is `'unknown'` when there is no entry.
  pathlib's rules are written out: a POSIX path is split on `/`, empty and `.`
  components are dropped, and the name is the last component left. The suffix
  is the text from the name's last dot, and only when that dot is neither the
  first nor the last character.
- **Upload summary** (the body of `analyze_uploaded_files`). Each upload with a
  non-empty file name gets a report, in upload order. The report holds the
  name, the language, `len(content.split('\n'))` lines and `len(content)`
  characters. The response counts all uploads received (`total_files`) and the
  reports made (`analyzed_files`).
- **Health status** (`health_check`). The status is `"healthy"` when all four
  optional components are present. Otherwise it is `"degraded"`, with a
  one-element `warnings` list.

Modules:

- `Wrappers`: the `Option` type.
- `Text`: `str.split` on one separator character, and ASCII `str.lower`.
- `PathSuffix`: pathlib's `name` and `suffix`.
- `Language`: the extension table and the classifier.
- `Uploads`: the upload summary.
- `Health`: the health response.

One `Split` serves two purposes. It splits paths into components, and it splits
upload text into lines.

The table has fifteen extensions and twelve distinct languages.

The supported-languages endpoint lists `.c` under `cpp`. The classifier maps
`.c` to `c`. The model follows the classifier and does not relate the two.

## Model

| member | source | states |
|---|---|---|
| Language.DetectLanguage | Web_API/fastapi_server.py:514-523 | The classifier is total: every file name gets one of the thirteen tags. The tag is `unknown` exactly when the lower-cased suffix of the name's final component is not a key of the table. Otherwise the tag is the table's entry for that suffix. |
| Language.LookupExtension | Web_API/fastapi_server.py:516-523 | Looking up an extension gives a tag from the fixed set. It gives `unknown` exactly when the lower-cased extension is absent from the table. Otherwise it gives the table's entry for that extension. |
| Language.TableTags | Web_API/fastapi_server.py:516-523 | The table's values plus the default `unknown` are exactly the thirteen tags. `unknown` is not itself a table value, so an `unknown` answer always means no entry matched. |
| Language.TableKeysAreSuffixes | Web_API/fastapi_server.py:516-522 | Every key is already lower case. Every key is a dot followed by text free of dots and slashes, so each entry can be reached by some file name. |
| Language.DetectIgnoresCase | Web_API/fastapi_server.py:522 | Two file names that differ only in ASCII letter case get the same tag. |
| Language.DetectUsesLastExtension | Web_API/fastapi_server.py:522-523 | For a file `stem + ext`, on its own or under any directory, the tag is decided by `ext` alone. This holds whatever dots the stem or the directories contain, so `a.test.ts` is TypeScript. |
| Language.NoSuffixIsUnknown | Web_API/fastapi_server.py:522-523 | A final component with no dot is `unknown`. So is a dotfile such as `.py`, and so is a name ending in a dot. |
| Language.TableLookups | Web_API/fastapi_server.py:516-523 | `.h`, `.hpp` and `.cpp` give `cpp`. `.c` gives `c`. `.mq5` and `.mqh` give `mql5`. Upper-case `.C` and `.PY` are found. `.txt` gives `unknown`. |
| Language.DetectPlainName | Web_API/fastapi_server.py:522-523 | A table lookup holds for every plain file name that ends in that extension. |
| Language.CFamilyEntries | Web_API/fastapi_server.py:518 | Through the classifier, `.h` and `.hpp` files are `cpp`, while `.c` files are `c` and not `cpp`. |
| Language.Mql5Entries | Web_API/fastapi_server.py:519 | Through the classifier, `.mq5` and `.mqh` files are `mql5`. |
| Language.CaseAndMissingEntries | Web_API/fastapi_server.py:522-523 | Through the classifier, an upper-case `.C` file is `c`, and a `.txt` file is `unknown`. |
| Language.MissingExtensionIsUnknown | Web_API/fastapi_server.py:522-523 | Through the classifier, any extension whose lower-cased form is not a table key gives `unknown`, for every plain stem. |
| PathSuffix.Suffix | Web_API/fastapi_server.py:522 | The suffix is empty exactly when the name is empty, ends in a dot, or has no dot after its first character. Otherwise the suffix is the name's tail from its last dot. That tail is at least two characters long and shorter than the name. |
| PathSuffix.LastDot | Web_API/fastapi_server.py:522 | The result is the index of a dot with no dot after it, or -1 when the name has no dot. |
| PathSuffix.LastComponent | Web_API/fastapi_server.py:522 | The result is a component of the path, or empty. It is never `.`. It is empty exactly when every component is empty or `.`. |
| PathSuffix.LastComponentIsLast | Web_API/fastapi_server.py:522 | A component that is neither empty nor `.`, followed only by empty or `.` components, is the one chosen. |
| PathSuffix.Name | Web_API/fastapi_server.py:522 | The final path component contains no `/`, is never `.`, and is no longer than the path. It is empty exactly when every `/`-separated component is empty or `.`. |
| PathSuffix.NameOfChild | Web_API/fastapi_server.py:522 | Directories in front of the final component do not change the name. |
| PathSuffix.TrailingSeparatorIgnored | Web_API/fastapi_server.py:522 | A trailing `/` or `/.` does not change the name, so `src/a.py/` and `src/a.py/.` are still classified as `a.py`. |
| PathSuffix.SuffixOfStem | Web_API/fastapi_server.py:522 | The suffix of `stem + ext` is `ext`, for any non-empty stem and any extension with one leading dot. |
| Text.Split | Web_API/fastapi_server.py:238 | Splitting always gives at least one piece, and no piece contains the separator. |
| Text.SplitCount | Web_API/fastapi_server.py:238 | Splitting on `'\n'` gives one more piece than there are `'\n'` characters. |
| Text.JoinSplit | Web_API/fastapi_server.py:238 | Joining the pieces with the separator restores the original text. |
| Text.SplitJoin | Web_API/fastapi_server.py:238 | Splitting a join of separator-free pieces gives back those pieces. |
| Text.SplitConcat | Web_API/fastapi_server.py:238 | A separator splits a text into the pieces before it followed by the pieces after it. |
| Text.Lower | Web_API/fastapi_server.py:522 | The result has no upper-case ASCII letter. Each character is either unchanged or a capital replaced by its small form, whose code is 32 higher. |
| Text.LowerCaseVariant | Web_API/fastapi_server.py:522 | Two strings lower to the same string exactly when they are equal up to ASCII case. |
| Uploads.LineCount | Web_API/fastapi_server.py:238 | The line count is the number of `'\n'` characters plus one, so it is at least 1 even for empty text. |
| Uploads.Report | Web_API/fastapi_server.py:235-242 | A report carries the file's name and the classifier's tag for that name. Its line count is the number of newlines plus one, and its character count is the text's length. Its status is `completed` and its warnings are empty. |
| Uploads.Named | Web_API/fastapi_server.py:222-223 | Selection keeps no more uploads than it was given, and every upload it keeps has a non-empty file name. |
| Uploads.AnalyzeUploadedFiles | Web_API/fastapi_server.py:219-252 | `total_files` is the number of uploads received. The results are the reports of the named uploads, in upload order. `analyzed_files` is their number, which never exceeds `total_files` and equals it exactly when every upload has a file name. |
| Uploads.NamedConcat | Web_API/fastapi_server.py:222-244 | Selection distributes over concatenation, so it keeps upload order. |
| Uploads.NamedMembers | Web_API/fastapi_server.py:222-244 | An upload is summarised exactly when it was received and has a non-empty file name. |
| Uploads.NamedAll | Web_API/fastapi_server.py:220-249 | Every upload is summarised exactly when every upload has a non-empty file name. |
| Health.All | Web_API/fastapi_server.py:299 | `all(...)` holds exactly when every flag holds. |
| Health.HealthCheck | Web_API/fastapi_server.py:286-302 | The status is `healthy` with no `warnings` key exactly when all four components are present. Otherwise the status is `degraded` with the single warning "Some components not available". The version is `1.0.0` and the component flags are echoed. |

## Left out

- HTTP routing, request and response models, CORS, the HTML dashboard and `uvicorn` startup (lines 38-184, 525-532): framework I/O.
- WebSocket endpoints and `ConnectionManager` (lines 374-512): asynchronous, concurrent and stateful per connection. The simulated progress percentages are floating point.
- `analyze_codebase`, `ide_context_analysis` and the metrics endpoint (lines 186-213, 257-281, 306-325): their results come from imported analysis, IDE and GraphRag modules. Those modules are not part of this model.
- The webhook endpoint (lines 351-372): it logs the payload and echoes parts of it back with a timestamp.
- The supported-languages listing (lines 327-346): a constant response. It also disagrees with the classifier about `.c`.
- Reading an upload and decoding it as UTF-8 with errors ignored (lines 224-225). The model receives each upload's decoded text. The unused `file_analysis` dictionary and its byte size (lines 228-232) are left out.
- The timestamp in the health response (`time.time()`): a clock.
- The HTTP 500 raised when summarising fails (lines 254-255). The pure summary cannot fail.
- Uploads.AnalyzeUploadedFiles: the per-file `warnings` list is always empty here, as in the source. The analysis that would fill it is not visible.
- PathSuffix.Name: follows `PurePosixPath`. Windows `\` separators and drive letters are not modelled.
- PathSuffix.Suffix: follows pathlib's rule up to Python 3.13: the last dot starts the suffix when it is neither the first nor the last character. Newer releases are reported to change the rule for names with leading or trailing dots. Under such a change, `..py` may get no suffix and so be `unknown` rather than `python`. That later rule is not modelled.
- Text.Lower: ASCII only, not Unicode `str.lower`. Two non-ASCII characters lower into ASCII: KELVIN SIGN to `k`, and LATIN CAPITAL LETTER I WITH DOT ABOVE to `i` plus a combining dot. No table key contains `k` or `i`, so this rule is argued to give the same tags as Unicode lowering. It is argued, not proved.
