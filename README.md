# mermaid-validate, modelled in Dafny

mermaid-validate is a command-line tool. It finds Mermaid diagrams and checks
each one with the Mermaid parser: the whole text of a `.mmd`/`.mermaid` file,
or every ```` ```mermaid ```` fenced block of a Markdown file. It reports each
diagram, prints a summary (or a JSON document) and exits with 1 when any
diagram is invalid. This project models the logic around the parser:

- `wrappers.dfy` (module `Wrappers`): an `Option` type for TypeScript's
  optional fields.
- `builtins.dfy` (module `Builtins`): the JavaScript built-ins the code relies
  on, defined exactly.
  - `trim` strips an explicit whitespace set: ECMAScript WhiteSpace and
    LineTerminator.
  - `split("\n")` turns k newlines into k + 1 pieces, and `""` into `[""]`.
  - Also `join`, `startsWith`, `endsWith`, `slice(0, n)`, `filter` and the
    decimal rendering of an integer.
- `fences.dfy` (module `Fences`): the fenced-block scanner
  `extractMermaidBlocks`.
  - It is an imperative loop over the lines, keeping the scanner's three
    variables.
  - It is proved equal to a stateless description: a closing line yields a
    block exactly when the nearest fence line before it is an opening one.
  - Lemmas state ordering, count, origin, completeness, and the dropping of
    restarted and unterminated blocks.
- `validator.dfy` (module `Validator`): `validateDiagram`, `validateFile` (a
  loop) and `validateMmdFile`.
  - `mermaid.parse` is a function-valued parameter. It maps a diagram's text
    to "resolves" or "throws this value".
- `cli.dfy` (module `Cli`): the decision logic of `main` in `src/main.ts`.
  - Flag and path filtering.
  - Input resolution.
  - The `.mmd`/`.mermaid` dispatch.
  - The aggregation loop over files and blocks (a method with loops).
  - The five-line error truncation.
  - Quiet and JSON suppression.
  - Exit codes.

The environment is a value (`Cli.Env`): the parser, the package version,
standard input, path existence, the directory test, glob expansion, and file
contents as a map. What main prints is returned as a sequence of `Message`
values, one per console line or group of lines, together with the exit code.

## Model

| member | source | states |
|---|---|---|
| Validator.ValidateDiagram | src/validator.ts:37-47 | valid exactly when the parser resolves; no error when valid; when the parser throws, the error is the thrown Error's message or the thrown value's string form |
| Validator.ValidateFile | src/validator.ts:86-113 | results are exactly the per-block results of the extracted blocks, in order; totalBlocks is the number of extracted blocks; validBlocks and invalidBlocks are the numbers of valid and invalid results and add up to totalBlocks |
| Validator.FileResultsNumbered | src/validator.ts:94-104 | the i-th result is numbered i + 1, carries the i-th block's start line, is valid exactly when the parser accepts that block's code, and carries the parser's error text otherwise |
| Validator.ValidateMmdFile | src/validator.ts:118-130 | a diagram file is one result, numbered 1 at line 1, valid exactly when the parser accepts the whole text, with validateDiagram's error |
| Fences.ExtractMermaidBlocks | src/validator.ts:52-81 | the scanning loop returns exactly the blocks of the stateless description (each closing line whose nearest preceding fence line is an opening line closes a block) |
| Fences.KindOfSpec | src/validator.ts:65-69 | a line opens exactly when its trim starts with "```mermaid" and closes exactly when its trim is "```"; the opening test wins, and no line passes both |
| Fences.ExtractEmpty | src/validator.ts:56-80 | the empty text (one empty line) has no blocks |
| Fences.ExtractOrdered | src/validator.ts:62-78 | blocks come in source order: start lines are strictly increasing and lie between 2 and the number of lines |
| Fences.ExtractCountBound | src/validator.ts:62-78 | there are never more blocks than lines whose trim is exactly "```" |
| Fences.BlockOrigin | src/validator.ts:65-76 | every block comes from an opening line o and a later closing line c with only non-fence lines between; its code is the trimmed "\n"-join of the lines strictly between, and its start line is o + 2 |
| Fences.FencePairYieldsBlock | src/validator.ts:65-76 | conversely, every opening line followed by a closing line with no fence line between yields that block |
| Fences.NoOpenerNoBlocks | src/validator.ts:65-69 | a text with no line whose trim starts with "```mermaid" has no blocks, whatever other fences it holds |
| Fences.ReopenedBlockDropped | src/validator.ts:65-68 | an opening line followed by another opening line before any closing line starts no block |
| Fences.UnterminatedBlockDropped | src/validator.ts:75-80 | an opening line with no closing line after it starts no block |
| Builtins.Split | src/validator.ts:56 | split("\n") gives one more piece than there are separators, none containing a separator |
| Builtins.JoinSplit | src/validator.ts:56 | joining the pieces of a split with the separator gives back the text |
| Builtins.SplitJoin | src/validator.ts:72 | splitting a join of separator-free pieces gives back the pieces |
| Builtins.TrimIsInfix | src/validator.ts:65 | trim keeps a contiguous piece of the string, drops only whitespace before and after it, and leaves no whitespace at either end |
| Builtins.TrimFixesUnpadded | src/validator.ts:72 | a string is its own trim exactly when it is empty or has no whitespace at either end |
| Builtins.TrimIdempotent | src/validator.ts:72 | trimming twice is trimming once |
| Builtins.IntToStringInjective | src/main.ts:180 | different integers render as different decimal strings |
| Cli.ParseArgs | src/main.ts:38-62 | help exactly when there are no arguments or -h/--help is present; version exactly when not help and -v/--version is present; no input exactly when no argument is "-" or lacks a leading "-"; otherwise the input is such an argument, and quiet and json are set by their flags anywhere |
| Cli.InputIsFirstPathArg | src/main.ts:55-62 | the input is the first argument that is "-" or does not start with "-" |
| Cli.Resolve | src/main.ts:84-112 | a path that does not exist is a glob and is not found only when it matches nothing; an existing path that cannot be read as text is a directory searched with the Markdown/diagram pattern; any other existing path is the single file |
| Cli.ErrorLines | src/main.ts:139 | the shown error is at most five lines: the first min(5, k + 1) pieces of the message split on "\n", and nothing when there is no message |
| Cli.ShortErrorShownWhole | src/main.ts:172 | a message of at most five lines is shown in full |
| Cli.BlockNamesDistinct | src/main.ts:179-183 | different block numbers of one file give different entry names |
| Cli.FileItemsSpec | src/main.ts:124-184 | a path ending in ".mmd" or ".mermaid" contributes one entry named by the path, valid exactly when the parser accepts the whole text; any other file contributes one entry per extracted block, the k-th named `path:block(k+1)` with the block's start line, valid exactly when the parser accepts its code |
| Cli.BlocklessFileSkipped | src/main.ts:154-155 | a Markdown file without blocks adds no entry |
| Cli.AllItemsAppend | src/main.ts:124-186 | entries follow file order: the entries of two lists of files are those of the first, then those of the second |
| Cli.TallyOfSpec | src/main.ts:119-186 | counting diagrams one at a time ends with totalValid = the number of valid diagrams, totalInvalid = the number of invalid ones, one results entry per diagram in order, and each diagram's printed lines in order |
| Cli.CheckFiles | src/main.ts:119-207 | the loop over files ends with the exit code of BatchExitCode and the lines of BatchMessages: per-diagram lines, then the JSON document or summary line, or the read error of the first unreadable file |
| Cli.Record | src/main.ts:130-150 | one diagram's bookkeeping: count it as valid or invalid, print its success line unless quiet or json, or its failure lines unless json, and append its entry |
| Cli.RecordBlocks | src/main.ts:158-184 | the inner loop over a Markdown file's block results leaves the running state of counting those blocks' entries after the ones so far |
| Cli.Run | src/main.ts:35-213 | help and version exit 0; no input exits 1; stdin is one diagram and exits 0 exactly when it is valid; an unresolved input exits 1; an empty file list exits 0; otherwise the exit code and output are those of checking the files |
| Cli.CountsPartition | src/main.ts:119-186 | totalValid + totalInvalid is the number of entries in the results |
| Cli.ExitZeroIffAllValid | src/main.ts:207 | the exit code is 0 exactly when every diagram is valid |
| Cli.BatchExitCodeSpec | src/main.ts:207-213 | checking files exits 0 or 1, and 0 exactly when every file can be read and every diagram in them is valid |
| Cli.BatchJsonSingle | src/main.ts:188-199 | in json mode a check prints exactly one thing |
| Cli.JsonPrintsNoItemLines | src/main.ts:132-176 | in json mode no per-diagram line is printed |
| Cli.LinesPerItem | src/main.ts:132-176 | one success line per valid diagram unless quiet or json, and one failure line per invalid diagram unless json |

## Left out

- File and standard-input reading, the package.json lookup, path existence, the directory test and glob expansion are fields of `Cli.Env`, not behaviour. Glob matching and ordering are whatever `Env.glob` returns.
- A read failure is a path missing from `Env.files`. It ends the run like main's catch handler: exit 1 and one error message (`ReadError`). Other exceptions reaching that handler are not modelled.
- The grammar of `mermaid.parse` and the JSDOM/mermaid initialisation in src/validator.ts:1-17 are an external library; the parser is a parameter.
- `String(e)` for a thrown non-Error value is taken as given (`Thrown.OtherValue`), not computed.
- Console text, ANSI colours, the usage text and `JSON.stringify` layout are abstracted into `Message` values; `process.exit` is the returned exit code.
- `async`/`await` is not modelled; execution is sequential.
- Builtins.Trim: whitespace is the ECMAScript WhiteSpace and LineTerminator set listed in `Builtins.IsWhitespace`; it is taken to include the whole Unicode Space_Separator category as of Unicode 15.
- Strings are sequences of Dafny characters (Unicode scalar values), not UTF-16 code units.
- Validator.ValidateFile: its per-block facts (numbering, line, validity, error) are stated in `Validator.FileResultsNumbered` rather than in its own postcondition.
- Fences.ExtractMermaidBlocks: ordering, count and origin of the blocks are stated in the lemmas after it rather than in its own postcondition.
- Cli.CheckFiles: the link from its result to the number of valid and invalid diagrams is stated through `Cli.TallyOfSpec` and `Cli.BatchExitCodeSpec`.
- The concrete diagram examples in src/validator.test.ts depend on Mermaid's grammar and are not modelled.
- src/index.ts only re-exports names and is not part of this model.
