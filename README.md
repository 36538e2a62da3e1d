# Script Include normalizer — a Dafny model

`scripts/normalize-script-includes.js` reads ServiceNow update-set XML exports.
For each Script Include record it finds, it writes one annotated JavaScript file.
The program works in four steps:

1. It lists `<sourceDir>/update` and keeps the names that start with
   `sys_script_include_` and end with `.xml`.
2. It parses each kept file and looks for the record. It tries two shapes in
   order: first the update-set envelope `record_update` → `sys_script_include`,
   then a top-level `sys_script_include`.
3. It reads the record's `name`, `script`, `api_name` and `active` fields. A
   missing `api_name` becomes `''` and a missing `active` becomes `'true'`.
   A record without a `name` or a `script` is skipped. JavaScript falsiness
   applies throughout, so an empty string counts as missing.
4. It writes `<name>.js` into the output directory. The file holds a fixed
   six-field comment header, a blank line, the trimmed script and a final
   line feed. The files are processed one after another, so a later file with
   the same `name` overwrites an earlier one.

The model follows that structure:

- `parsed_tree.dfy` (`ParsedTree`) holds the parsed document. A `Tree` maps
  top-level tags to a `Node`. A node is either a list of `Record`s or a nested
  `Element` whose tags map to lists of records. A record maps each field tag
  to its text values. The module also has optional-chaining lookup and
  JavaScript truthiness (`FirstValue`, `Truthy`, `OrElse`).
- `js_string.dfy` (`JsString`) has `String.prototype.trim` over the exact
  ECMAScript whitespace and line-terminator set, plus `startsWith`,
  `endsWith` and `split('\n')`.
- `extractor.dfy` (`Extractor`) has the shape dispatch (`ExtractScriptInclude`)
  and the field reads with their defaults (`ReadScriptInclude`).
- `emitter.dfy` (`Emitter`) has the header, the rendered file, the output
  name, and what one document writes (`Emission`).
- `normalizer.dfy` (`Normalizer`) has the name filter and the per-file step.
  It models the loop of `main` as a method (`NormalizeScriptIncludes`) that
  updates a map from file name to content. The function `Run` specifies that
  method, and the last-write-wins and re-run lemmas are proved about `Run`.

Three edge cases follow the code:

- The extraction result tells apart `undefined` (`NoFirst`) and `null`
  (`NoShape`). An envelope whose Script Include list is empty gives
  `NoFirst` and does not fall back to the top-level shape, because the code
  tests whether the key is present, not whether its list is empty.
- A top-level `sys_script_include` that is an element rather than a list also
  gives `NoFirst`. Indexing an object with `[0]` finds nothing, since no XML
  tag can be named `0`. With the parser's default settings the root element
  is not wrapped in a list, so a document whose root element is
  `<sys_script_include>` produces no output.
- A file that cannot be read or parsed (`Unreadable`) throws inside the
  awaited call in `main`. This includes a file the parser turns into `null`
  (such as an empty one), since the shape lookup then reads a property of
  `null`. The run stops at the first such file (`Aborted`). The files after
  it are not processed, and the files written before it stay written
  (`RunStopsAtFailure`).

Files are processed in listing order. When two files processed before any
unreadable one give the same `name`, the later one's content stays (`RunKeepsLastWrite`).

## Model

| member | source | states |
|---|---|---|
| `JsString.Trim` | scripts/normalize-script-includes.js:75 | `script.trim()`: the result is the part of the script that starts right after its leading whitespace; only whitespace follows it; it has no whitespace at either end |
| `JsString.TrimOfPadded` | scripts/normalize-script-includes.js:75 | trimming a string with whitespace padding on both sides gives back the unpadded string, provided it has no whitespace at its ends; with `Trim`'s own contract this pins the trimmed body down uniquely |
| `JsString.TrimIdempotent` | scripts/normalize-script-includes.js:75 | trimming twice equals trimming once |
| `Extractor.ExtractScriptInclude` | scripts/normalize-script-includes.js:31-43 | when the envelope has a Script Include list, the result comes from that list alone: its first record, or no record when the list is empty, even if a top-level list exists; otherwise the top-level key decides: its list's first record, no record for an empty list or an element, and `null` exactly when the key is absent |
| `Extractor.ReadScriptInclude` | scripts/normalize-script-includes.js:54-61 | a record gives fields exactly when `name` and `script` each have a non-empty first value; name and script are those values; the API name is the first `api_name` value when that is non-empty, else `""`; the Active flag is the first `active` value when that is non-empty, else `"true"`, so `"false"` passes through |
| `Emitter.HeaderLayout` | scripts/normalize-script-includes.js:65-73 | the header's length is 89 characters plus the lengths of the five values; when no value contains a line feed, the header is exactly the lines `/**`, ` * App: …`, ` * Type: Script Include`, ` * Name: …`, ` * API Name: …`, ` * Active: …`, ` * Source: …`, ` */`, each ended by a line feed |
| `Emitter.HeaderThen` | scripts/normalize-script-includes.js:65-75 | when no header value contains a line feed, the header followed by any text splits into the eight header lines followed by the lines of that text |
| `Emitter.RenderParts` | scripts/normalize-script-includes.js:75 | the written text is the header, then a line feed, then the script without its leading and trailing whitespace, then a final line feed; the middle part has no whitespace at either end |
| `Emitter.OutputName` | scripts/normalize-script-includes.js:63 | the output file name is the record's name followed by `.js`, exactly three characters longer |
| `Emitter.OutputNameInjective` | scripts/normalize-script-includes.js:63 | two records give the same output key exactly when their names are equal; the key is `name + ".js"` before any path normalisation |
| `Emitter.Emission` | scripts/normalize-script-includes.js:52-75 | a parsed document writes nothing exactly when no record is found or the record's first `name` or `script` value is missing or empty; otherwise it writes the file named by the record's first `name` value plus `.js`, holding the rendered record |
| `Emitter.RenderLayout` | scripts/normalize-script-includes.js:65-75 | when no header value contains a line feed, the written text splits into exactly the lines `/**`, ` * App: …`, ` * Type: Script Include`, ` * Name: …`, ` * API Name: …`, ` * Active: …`, ` * Source: …`, ` */`, then one empty line, then the lines of the trimmed script followed by the line feed |
| `Emitter.RenderEnding` | scripts/normalize-script-includes.js:75 | the written text ends in a line feed, and when the trimmed script is not empty the character before that line feed is not whitespace, so the body is followed by exactly one line feed |
| `Emitter.EnvelopeRecordOutput` | scripts/normalize-script-includes.js:33-75 | for an application name, source file name, record name and API name without line feeds: an update-set document whose record has a non-empty name, a non-empty script and an API name but no `active` field writes `<name>.js`; its header shows that API name and `Active: true`, then a blank line and the trimmed script |
| `Emitter.ExampleTrim` | scripts/normalize-script-includes.js:75 | the script `  var x = 1;  ` is written as the body `var x = 1;` |
| `Normalizer.IsScriptIncludeFile` | scripts/normalize-script-includes.js:88 | a name is selected exactly when it is `sys_script_include_`, then any text (possibly empty), then `.xml`; the prefix and the suffix never overlap |
| `Normalizer.SelectFiles` | scripts/normalize-script-includes.js:87-88 | the selected entries are exactly the listed entries whose names start with `sys_script_include_` and end with `.xml`, and there are no more of them than entries listed |
| `Normalizer.SelectFilesAppend` | scripts/normalize-script-includes.js:87-88 | filtering a concatenated listing gives the concatenation of the filtered parts, so the listing order is kept |
| `Normalizer.Step` | scripts/normalize-script-includes.js:61-75 | one file changes the output directory by at most one entry: nothing when it writes nothing; otherwise its output name now holds its content, the set of names grows by that name alone, and every other name keeps its content |
| `Normalizer.Run` | scripts/normalize-script-includes.js:90-92 | the loop over the selected files never removes a file from the output directory; it completes exactly when every file parses, and otherwise ends `Aborted`, naming the first file that cannot be read or parsed |
| `Normalizer.NormalizeScriptIncludes` | scripts/normalize-script-includes.js:81-92 | a missing update directory leaves the output directory unchanged and reports it; otherwise the loop's final directory and status are those of `Run` over the selected entries in listing order |
| `Normalizer.RunStopsAtFailure` | scripts/normalize-script-includes.js:90-92 | a run leaves the directory exactly as the files before the first unreadable one leave it; it completes exactly when no file fails, and otherwise names the failing file |
| `Normalizer.RunAllParsed` | scripts/normalize-script-includes.js:90-92 | when every file parses, the run completes and its directory is the files' writes applied in listing order, each write replacing what its name held |
| `Normalizer.RunUntouched` | scripts/normalize-script-includes.js:90-92 | when every file parses: a name that no file writes keeps its earlier content, or stays absent |
| `Normalizer.RunLastWriteWins` | scripts/normalize-script-includes.js:75-92 | when every file parses: the name a file writes holds that file's content at the end of the run, provided no later file writes the same name |
| `Normalizer.RunKeepsUnwritten` | scripts/normalize-script-includes.js:90-92 | for any listing: a name that no file before the first failing one writes keeps its earlier content, or stays absent |
| `Normalizer.RunKeepsLastWrite` | scripts/normalize-script-includes.js:75-92 | for any listing: a file before the first failing one leaves its content under the name it writes, provided no file between it and the failure writes the same name; files from the failure on are never processed |
| `Normalizer.RunIdempotent` | scripts/normalize-script-includes.js:87-92 | running again over the same input gives the same directory, byte for byte, and the same status |

## Left out

- XML parsing (`xml2js`) is taken as given. The model starts from the parsed tree and treats every field value as a plain string. Field values in the parser's attribute form (`{_: …, $: …}`) are not modelled.
- File-system calls (`readFileSync`, `writeFileSync`, `mkdirSync`, `existsSync`, `readdirSync`) are replaced by values. The update directory is an optional listing of entries, each with its parse result. The output directory is an initial map from file name to content. Creating the output directory, which the code does even when the update directory turns out to be missing, has no counterpart in the map.
- Failures of `fs.writeFileSync` are not modelled: in the model every write succeeds. In the program a write throws, and the run stops as it does for an unreadable input, when the output name points into a subdirectory that does not exist (a `name` such as `a/b`) or names an existing directory.
- `readdirSync` throws when `update` exists but is not a directory. The model's update directory is either missing or a listing, so this case is not modelled.
- The argument check and usage message, `process.exit(1)`, and the console messages are not modelled. They affect only the process, not the files.
- `path.join` and `path.basename` are not modelled. The application base name and the source file name are given strings, and the output key is `name + ".js"` as it stands. `path.join` would normalise a `name` that holds separators or `..`, so two different names could reach the same file; the model keys them apart.
- JavaScript strings are sequences of UTF-16 code units, while Dafny strings are sequences of Unicode scalar values. A lone surrogate in a field value cannot be represented. No whitespace character that `trim` removes lies outside the Basic Multilingual Plane, so trimming is unaffected.
- `async`/`await` is modelled as a sequential loop, which is how the code runs: each awaited call finishes before the next begins.
- `Emitter.RenderLayout`: its line-by-line statement needs header values without line feeds. A value that contains one splits a header line, and the lemma says nothing about that case. `Emitter.RenderEnding` and `Emitter.Emission` still cover such input.
- `Emitter.HeaderThen`: like `RenderLayout`, it needs header values without line feeds.
- `Emitter.EnvelopeRecordOutput`: like `RenderLayout`, it needs the header values and the name without line feeds.
- `Emitter.HeaderLayout`: like `RenderLayout`, its line-by-line statement needs values without line feeds. Its length statement holds for every input.
