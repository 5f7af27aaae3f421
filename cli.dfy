/**
 * The decision logic of `main` in src/main.ts. Reading files and standard
 * input, path existence, directory detection and glob expansion are inputs
 * (an Env); what main prints is returned as a sequence of Messages instead
 * of text, together with the exit code.
 */
module Cli {
  import opened Wrappers
  import opened Builtins
  import opened Fences
  import opened Validator

  // ---- Arguments ----

  datatype Command =
    | Help
    | Version
    | NoInput
    | Check(input: string, quiet: bool, json: bool)

  /** An argument that names the input: "-" for standard input, or anything not starting with "-". */
  predicate IsPathArg(a: string) {
    a == "-" || !StartsWith(a, "-")
  }

  /**
   * The flag scan at the top of main: help wins over everything, then
   * version; otherwise the first path argument is the input, and the quiet
   * and json options are set by the presence of their flags anywhere.
   */
  function ParseArgs(args: seq<string>): (c: Command)
    ensures c.Help? <==> (|args| == 0 || "-h" in args || "--help" in args)
    ensures c.Version? <==> (!c.Help? && ("-v" in args || "--version" in args))
    ensures c.NoInput? <==> (!c.Help? && !c.Version? && forall i :: 0 <= i < |args| ==> !IsPathArg(args[i]))
    ensures c.Check? ==> c.input in args && IsPathArg(c.input)
    ensures c.Check? ==> c.quiet == ("-q" in args || "--quiet" in args) && c.json == ("--json" in args)
  {
    if |args| == 0 || "-h" in args || "--help" in args then Help
    else if "-v" in args || "--version" in args then Version
    else
      var quiet := "-q" in args || "--quiet" in args;
      var json := "--json" in args;
      var paths := Filter(args, IsPathArg);
      FilterMembers(args, IsPathArg);
      if |paths| == 0 then
        assert forall i :: 0 <= i < |args| ==> !IsPathArg(args[i]);
        NoInput
      else
        assert paths[0] in paths;
        Check(paths[0], quiet, json)
  }

  /** The input is the FIRST path argument, whatever flags surround it. */
  lemma InputIsFirstPathArg(args: seq<string>, k: nat)
    requires k < |args| && IsPathArg(args[k])
    requires forall j :: 0 <= j < k ==> !IsPathArg(args[j])
    ensures ParseArgs(args).Help? || ParseArgs(args).Version? || ParseArgs(args).input == args[k]
  {
    FilterHead(args, IsPathArg, k);
  }

  // ---- The environment main runs in ----

  /** The outcome of resolving the input path to a list of files. */
  datatype Resolution = NotFound | Found(files: seq<string>)

  /**
   * What main reads from outside: the parser, the package version, standard
   * input, whether a path exists, whether reading an existing path as text
   * fails (main's test for a directory), glob expansion, and file contents
   * (a path missing from `files` cannot be read).
   */
  datatype Env = Env(
    parse: Parser,
    version: string,
    stdin: string,
    pathExists: string -> bool,
    readFails: string -> bool,
    glob: string -> seq<string>,
    files: map<string, string>)

  const MarkdownGlobSuffix: string := "/**/*.{md,mmd,markdown,mdx}"

  /**
   * Input resolution, in main's order: a path that does not exist is tried
   * as a glob pattern and is an error only when that matches nothing; an
   * existing path that cannot be read as text is taken for a directory and
   * searched for Markdown and diagram files; any other existing path is the
   * one file.
   */
  function Resolve(env: Env, input: string): (r: Resolution)
    ensures r.NotFound? <==> (!env.pathExists(input) && env.glob(input) == [])
    ensures !env.pathExists(input) && r.Found? ==> r.files == env.glob(input)
    ensures env.pathExists(input) && env.readFails(input) ==> r == Found(env.glob(input + MarkdownGlobSuffix))
    ensures env.pathExists(input) && !env.readFails(input) ==> r == Found([input])
  {
    if !env.pathExists(input) then
      var matched := env.glob(input);
      if |matched| == 0 then NotFound else Found(matched)
    else if env.readFails(input) then
      Found(env.glob(input + MarkdownGlobSuffix))
    else
      Found([input])
  }

  // ---- What main reports ----

  /** One entry of the JSON results list. */
  datatype Entry = Entry(file: string, valid: bool, error: Option<string>)

  /** One checked diagram: its entry name, outcome, and the line shown when it fails (markdown blocks only). */
  datatype Item = Item(name: string, valid: bool, error: Option<string>, shownLine: Option<int>) {
    function ToEntry(): Entry {
      Entry(name, valid, error)
    }
  }

  /** What main prints, one value per console line or group of lines. */
  datatype Message =
    | Usage
    | VersionText(version: string)
    | NoInputError
    | NotFoundError(input: string)
    | NoFilesFound
    | StdinJson(valid: bool, error: Option<string>)
    | StdinValid
    | StdinInvalid(error: Option<string>)
    | Passed(name: string)
    | Failed(name: string, line: Option<int>, detail: seq<string>)
    | Summary(totalValid: int, totalInvalid: int)
    | JsonSummary(totalValid: int, totalInvalid: int, results: seq<Entry>)
    | ReadError(path: string)

  /** A file is a standalone diagram exactly when its path ends with ".mmd" or ".mermaid". */
  predicate IsStandalone(path: string) {
    EndsWith(path, ".mmd") || EndsWith(path, ".mermaid")
  }

  /** The entry name of a Markdown block: `path:blockN`. */
  function BlockName(path: string, index: int): string {
    path + ":block" + IntToString(index)
  }

  /** Different blocks of one file get different entry names. */
  lemma BlockNamesDistinct(path: string, i: int, j: int)
    ensures BlockName(path, i) == BlockName(path, j) ==> i == j
  {
    if BlockName(path, i) == BlockName(path, j) {
      var prefix := path + ":block";
      assert BlockName(path, i)[|prefix|..] == IntToString(i);
      assert BlockName(path, j)[|prefix|..] == IntToString(j);
      IntToStringInjective(i, j);
    }
  }

  /**
   * The error text shown under a failure: at most the first five lines of
   * the message, and nothing when there is no message.
   */
  function ErrorLines(error: Option<string>): (lines: seq<string>)
    ensures |lines| <= 5
    ensures error.None? ==> lines == []
    ensures error.Some? ==> |lines| == if Occurrences(error.value, '\n') < 5 then Occurrences(error.value, '\n') + 1 else 5
    ensures error.Some? ==> lines == Split(error.value, '\n')[..|lines|]
  {
    match error
    case None => []
    case Some(e) => Take(Split(e, '\n'), 5)
  }

  /** A message of at most five lines is shown whole. */
  lemma ShortErrorShownWhole(e: string)
    requires Occurrences(e, '\n') < 5
    ensures Join(ErrorLines(Some(e)), '\n') == e
  {
    JoinSplit(e, '\n');
  }

  /** The diagrams a file contributes, in order. */
  function FileItems(parse: Parser, path: string, content: string): seq<Item> {
    if IsStandalone(path) then
      var result := ValidateMmdFile(parse, content);
      [Item(path, result.valid, result.error, None)]
    else
      BlockItems(path, FileResults(parse, content))
  }

  /**
   * A diagram file contributes one entry, named by its path and valid exactly
   * when the parser accepts the whole text; a Markdown file contributes one
   * entry per extracted block, in order, the k-th named `path:block(k+1)`,
   * shown with the block's start line, valid exactly when the parser accepts
   * the block's code.
   */
  lemma FileItemsSpec(parse: Parser, path: string, content: string)
    ensures IsStandalone(path) ==>
      FileItems(parse, path, content) == [Item(path, parse(content).Resolved?, ValidateDiagram(parse, content).error, None)]
    ensures !IsStandalone(path) ==> |FileItems(parse, path, content)| == |ExtractBlocks(content)|
    ensures !IsStandalone(path) ==> forall k :: 0 <= k < |FileItems(parse, path, content)| ==>
      var it := FileItems(parse, path, content)[k];
      var block := ExtractBlocks(content)[k];
      it.name == BlockName(path, k + 1) && it.shownLine == Some(block.startLine)
      && (it.valid <==> parse(block.code).Resolved?) && it.error == ValidateDiagram(parse, block.code).error
  {
  }

  /** The items of a Markdown file's block results, each named after its block number. */
  function BlockItems(path: string, results: seq<ValidationResult>): (items: seq<Item>)
    ensures |items| == |results|
  {
    seq(|results|, k requires 0 <= k < |results| =>
      var r := results[k];
      Item(BlockName(path, r.blockIndex), r.valid, r.error, r.lineNumber))
  }

  /** The diagrams of a list of readable files, file after file. */
  function AllItems(parse: Parser, fs: map<string, string>, files: seq<string>): seq<Item>
    requires forall f :: f in files ==> f in fs
  {
    if |files| == 0 then []
    else
      var last := files[|files| - 1];
      AllItems(parse, fs, files[..|files| - 1]) + FileItems(parse, last, fs[last])
  }

  /** Items follow file order: the items of two lists of files are the items of the first, then of the second. */
  lemma {:induction false} AllItemsAppend(parse: Parser, fs: map<string, string>, a: seq<string>, b: seq<string>)
    requires forall f :: f in a + b ==> f in fs
    ensures AllItems(parse, fs, a + b) == AllItems(parse, fs, a) + AllItems(parse, fs, b)
  {
    if |b| > 0 {
      var front := b[..|b| - 1];
      assert (a + b)[..|a + b| - 1] == a + front;
      AllItemsAppend(parse, fs, a, front);
    } else {
      assert a + b == a;
    }
  }

  /** A Markdown file without blocks adds no entry: main skips it. */
  lemma BlocklessFileSkipped(parse: Parser, fs: map<string, string>, files: seq<string>, path: string)
    requires forall f :: f in files + [path] ==> f in fs
    requires !IsStandalone(path) && ExtractBlocks(fs[path]) == []
    ensures AllItems(parse, fs, files + [path]) == AllItems(parse, fs, files)
  {
    assert (files + [path])[..|files|] == files;
  }

  predicate ItemValid(it: Item) {
    it.valid
  }

  predicate ItemInvalid(it: Item) {
    !it.valid
  }

  function ValidCount(items: seq<Item>): nat {
    |Filter(items, ItemValid)|
  }

  function InvalidCount(items: seq<Item>): nat {
    |Filter(items, ItemInvalid)|
  }

  /** The results list of the JSON summary. */
  function Entries(items: seq<Item>): (entries: seq<Entry>)
    ensures |entries| == |items|
  {
    seq(|items|, i requires 0 <= i < |items| => items[i].ToEntry())
  }

  /** The lines main prints for one diagram while scanning. */
  function ItemMessages(quiet: bool, json: bool, it: Item): seq<Message> {
    if it.valid then
      if !quiet && !json then [Passed(it.name)] else []
    else
      if !json then [Failed(it.name, it.shownLine, ErrorLines(it.error))] else []
  }

  function MessagesFor(quiet: bool, json: bool, items: seq<Item>): seq<Message> {
    if |items| == 0 then []
    else MessagesFor(quiet, json, items[..|items| - 1]) + ItemMessages(quiet, json, items[|items| - 1])
  }

  /** The closing summary: a JSON document in json mode, a summary line otherwise. */
  function Final(json: bool, items: seq<Item>): Message {
    if json then JsonSummary(ValidCount(items), InvalidCount(items), Entries(items))
    else Summary(ValidCount(items), InvalidCount(items))
  }

  function ExitCodeFor(totalInvalid: int): int {
    if totalInvalid > 0 then 1 else 0
  }

  /** The position of the first file that cannot be read, or the number of files when all can. */
  function FirstUnreadable(fs: map<string, string>, files: seq<string>): (k: nat)
    ensures k <= |files|
    ensures forall j :: 0 <= j < k ==> files[j] in fs
    ensures k < |files| ==> files[k] !in fs
  {
    if |files| == 0 || files[0] !in fs then 0 else 1 + FirstUnreadable(fs, files[1..])
  }

  // ---- The aggregation loop ----

  /** main's running state: the two totals, the results list and the lines printed so far. */
  datatype Tally = Tally(totalValid: int, totalInvalid: int, allResults: seq<Entry>, messages: seq<Message>)

  /** The running state after one more diagram. */
  function Count(quiet: bool, json: bool, t: Tally, it: Item): Tally {
    Tally(t.totalValid + (if it.valid then 1 else 0), t.totalInvalid + (if it.valid then 0 else 1),
          t.allResults + [it.ToEntry()], t.messages + ItemMessages(quiet, json, it))
  }

  /** The running state after a sequence of diagrams, counted one at a time from the start. */
  function TallyOf(quiet: bool, json: bool, items: seq<Item>): Tally {
    if |items| == 0 then Tally(0, 0, [], [])
    else Count(quiet, json, TallyOf(quiet, json, items[..|items| - 1]), items[|items| - 1])
  }

  /**
   * Counting diagrams one at a time ends with the number of valid and of
   * invalid diagrams, one entry per diagram in order, and the printed lines
   * of every diagram in order.
   */
  lemma {:induction false} TallyOfSpec(quiet: bool, json: bool, items: seq<Item>)
    ensures TallyOf(quiet, json, items)
      == Tally(ValidCount(items), InvalidCount(items), Entries(items), MessagesFor(quiet, json, items))
  {
    if |items| > 0 {
      var front := items[..|items| - 1];
      TallyOfSpec(quiet, json, front);
      assert Entries(items) == Entries(front) + [items[|items| - 1].ToEntry()];
    }
  }

  /** The running state after the diagrams so far and one more is that of one more count. */
  lemma TallyOfSnoc(quiet: bool, json: bool, items: seq<Item>, it: Item)
    ensures TallyOf(quiet, json, items + [it]) == Count(quiet, json, TallyOf(quiet, json, items), it)
  {
    assert (items + [it])[..|items|] == items;
  }

  /** The items of the first i + 1 files are those of the first i, then those of file i. */
  lemma AllItemsStep(parse: Parser, fs: map<string, string>, files: seq<string>, i: nat)
    requires i < |files| && forall j :: 0 <= j <= i ==> files[j] in fs
    ensures AllItems(parse, fs, files[..i + 1]) == AllItems(parse, fs, files[..i]) + FileItems(parse, files[i], fs[files[i]])
  {
    assert files[..i + 1][..i] == files[..i];
  }

  /**
   * The exit code of checking a list of files: 1 when a file cannot be
   * read, otherwise 1 exactly when some diagram is invalid.
   */
  function BatchExitCode(parse: Parser, fs: map<string, string>, files: seq<string>): int {
    var k := FirstUnreadable(fs, files);
    if k == |files| then ExitCodeFor(InvalidCount(AllItems(parse, fs, files[..k]))) else 1
  }

  /**
   * The lines printed while checking a list of files: every diagram's lines
   * up to the first file that cannot be read, then that file's error, or the
   * summary when all could be read.
   */
  function BatchMessages(parse: Parser, fs: map<string, string>, files: seq<string>, quiet: bool, json: bool): seq<Message> {
    var k := FirstUnreadable(fs, files);
    var items := AllItems(parse, fs, files[..k]);
    MessagesFor(quiet, json, items) + [if k == |files| then Final(json, items) else ReadError(files[k])]
  }

  /**
   * main's loop over the resolved files: each standalone diagram file adds
   * one entry, each Markdown file one entry per block (a file without blocks
   * is skipped), totals and printed lines kept as it goes, then the summary.
   * A file that cannot be read ends the run with exit code 1.
   */
  method CheckFiles(parse: Parser, fs: map<string, string>, files: seq<string>, quiet: bool, json: bool)
    returns (exitCode: int, messages: seq<Message>)
    ensures exitCode == BatchExitCode(parse, fs, files)
    ensures messages == BatchMessages(parse, fs, files, quiet, json)
  {
    var totalValid := 0;
    var totalInvalid := 0;
    var allResults: seq<Entry> := [];
    messages := [];
    ghost var items: seq<Item> := [];
    for i := 0 to |files|
      invariant forall j :: 0 <= j < i ==> files[j] in fs
      invariant items == AllItems(parse, fs, files[..i])
      invariant Tally(totalValid, totalInvalid, allResults, messages) == TallyOf(quiet, json, items)
    {
      var filePath := files[i];
      if filePath !in fs {
        assert FirstUnreadable(fs, files) == i by { FirstUnreadableAt(fs, files, i); }
        TallyOfSpec(quiet, json, items);
        messages := messages + [ReadError(filePath)];
        exitCode := 1;
        return;
      }
      var content := fs[filePath];
      AllItemsStep(parse, fs, files, i);
      ghost var fileItems := FileItems(parse, filePath, content);
      var isMmd := EndsWith(filePath, ".mmd") || EndsWith(filePath, ".mermaid");
      if isMmd {
        var result := ValidateMmdFile(parse, content);
        var it := Item(filePath, result.valid, result.error, None);
        TallyOfSnoc(quiet, json, items, it);
        totalValid, totalInvalid, allResults, messages :=
          Record(quiet, json, it, totalValid, totalInvalid, allResults, messages);
        items := items + [it];
        assert fileItems == [it];
      } else {
        var result := ValidateFile(parse, filePath, content);
        if result.totalBlocks == 0 {
          assert fileItems == [];
          assert items + fileItems == items;
          continue;
        }
        assert fileItems == BlockItems(filePath, result.blocks);
        totalValid, totalInvalid, allResults, messages :=
          RecordBlocks(quiet, json, filePath, result.blocks, items, totalValid, totalInvalid, allResults, messages);
        items := items + fileItems;
      }
    }
    assert files[..|files|] == files;
    FirstUnreadableAll(fs, files);
    TallyOfSpec(quiet, json, items);
    messages := messages + [if json then JsonSummary(totalValid, totalInvalid, allResults) else Summary(totalValid, totalInvalid)];
    exitCode := if totalInvalid > 0 then 1 else 0;
  }

  /**
   * main's bookkeeping for one diagram, the same for a diagram file and for
   * a block: count it, print its success line (unless quiet or json) or its
   * failure lines (unless json), and add its entry to the results.
   */
  method Record(quiet: bool, json: bool, it: Item,
                totalValid: int, totalInvalid: int, allResults: seq<Entry>, messages: seq<Message>)
    returns (newValid: int, newInvalid: int, newResults: seq<Entry>, newMessages: seq<Message>)
    ensures Tally(newValid, newInvalid, newResults, newMessages)
      == Count(quiet, json, Tally(totalValid, totalInvalid, allResults, messages), it)
  {
    newValid, newInvalid, newMessages := totalValid, totalInvalid, messages;
    if it.valid {
      newValid := totalValid + 1;
      if !quiet && !json {
        newMessages := messages + [Passed(it.name)];
      }
    } else {
      newInvalid := totalInvalid + 1;
      if !json {
        newMessages := messages + [Failed(it.name, it.shownLine, ErrorLines(it.error))];
      }
    }
    newResults := allResults + [Entry(it.name, it.valid, it.error)];
  }

  /** main's inner loop over the block results of a Markdown file, one Record per block, in order. */
  method RecordBlocks(quiet: bool, json: bool, filePath: string, blocks: seq<ValidationResult>, ghost items: seq<Item>,
                      totalValid: int, totalInvalid: int, allResults: seq<Entry>, messages: seq<Message>)
    returns (newValid: int, newInvalid: int, newResults: seq<Entry>, newMessages: seq<Message>)
    requires Tally(totalValid, totalInvalid, allResults, messages) == TallyOf(quiet, json, items)
    ensures Tally(newValid, newInvalid, newResults, newMessages) == TallyOf(quiet, json, items + BlockItems(filePath, blocks))
  {
    newValid, newInvalid, newResults, newMessages := totalValid, totalInvalid, allResults, messages;
    ghost var expected := BlockItems(filePath, blocks);
    ghost var done := items;
    for j := 0 to |blocks|
      invariant done == items + expected[..j]
      invariant Tally(newValid, newInvalid, newResults, newMessages) == TallyOf(quiet, json, done)
    {
      var block := blocks[j];
      var it := Item(filePath + ":block" + IntToString(block.blockIndex), block.valid, block.error, block.lineNumber);
      assert it == expected[j];
      TallyOfSnoc(quiet, json, done, it);
      newValid, newInvalid, newResults, newMessages :=
        Record(quiet, json, it, newValid, newInvalid, newResults, newMessages);
      PrefixExtend(expected, j);
      assert done + [it] == items + expected[..j + 1];
      done := done + [it];
    }
    assert expected[..|blocks|] == expected;
  }

  lemma PrefixExtend<T>(s: seq<T>, j: nat)
    requires j < |s|
    ensures s[..j + 1] == s[..j] + [s[j]]
  {
  }

  lemma {:induction false} FirstUnreadableAt(fs: map<string, string>, files: seq<string>, i: nat)
    requires i < |files| && files[i] !in fs
    requires forall j :: 0 <= j < i ==> files[j] in fs
    ensures FirstUnreadable(fs, files) == i
  {
    if i > 0 {
      FirstUnreadableAt(fs, files[1..], i - 1);
    }
  }

  lemma {:induction false} FirstUnreadableAll(fs: map<string, string>, files: seq<string>)
    requires forall j :: 0 <= j < |files| ==> files[j] in fs
    ensures FirstUnreadable(fs, files) == |files|
  {
    if |files| > 0 {
      FirstUnreadableAll(fs, files[1..]);
    }
  }

  // ---- main ----

  /**
   * main: help and version exit 0; a missing input exits 1; standard input
   * is one diagram and exits 0 exactly when it is valid; an input that
   * resolves to nothing exits 1, to an empty list of files 0; otherwise the
   * files are checked and the run exits 1 exactly when some diagram is
   * invalid or a file cannot be read.
   */
  method Run(args: seq<string>, env: Env) returns (exitCode: int, messages: seq<Message>)
    ensures exitCode == 0 || exitCode == 1
    ensures ParseArgs(args).Help? ==> exitCode == 0 && messages == [Usage]
    ensures ParseArgs(args).Version? ==> exitCode == 0 && messages == [VersionText(env.version)]
    ensures ParseArgs(args).NoInput? ==> exitCode == 1 && messages == [NoInputError]
    ensures ParseArgs(args).Check? && ParseArgs(args).input == "-" ==>
      var outcome := ValidateDiagram(env.parse, env.stdin);
      (exitCode == 0 <==> outcome.valid)
      && messages == if ParseArgs(args).json then [StdinJson(outcome.valid, outcome.error)]
                     else if outcome.valid then [StdinValid] else [StdinInvalid(outcome.error)]
    ensures ParseArgs(args).Check? && ParseArgs(args).input != "-" ==>
      var input := ParseArgs(args).input;
      match Resolve(env, input)
      case NotFound => exitCode == 1 && messages == [NotFoundError(input)]
      case Found(files) =>
        if files == [] then exitCode == 0 && messages == [NoFilesFound]
        else exitCode == BatchExitCode(env.parse, env.files, files)
             && messages == BatchMessages(env.parse, env.files, files, ParseArgs(args).quiet, ParseArgs(args).json)
  {
    var command := ParseArgs(args);
    match command
    case Help =>
      exitCode, messages := 0, [Usage];
    case Version =>
      exitCode, messages := 0, [VersionText(env.version)];
    case NoInput =>
      exitCode, messages := 1, [NoInputError];
    case Check(input, quiet, json) =>
      if input == "-" {
        var result := ValidateDiagram(env.parse, env.stdin);
        if json {
          messages := [StdinJson(result.valid, result.error)];
        } else if result.valid {
          messages := [StdinValid];
        } else {
          messages := [StdinInvalid(result.error)];
        }
        exitCode := if result.valid then 0 else 1;
      } else {
        match Resolve(env, input)
        case NotFound =>
          exitCode, messages := 1, [NotFoundError(input)];
        case Found(files) =>
          if |files| == 0 {
            exitCode, messages := 0, [NoFilesFound];
          } else {
            exitCode, messages := CheckFiles(env.parse, env.files, files, quiet, json);
          }
      }
  }

  // ---- Properties of the report ----

  /** The totals partition the results: totalValid + totalInvalid is the number of entries. */
  lemma CountsPartition(items: seq<Item>)
    ensures ValidCount(items) + InvalidCount(items) == |Entries(items)|
  {
    FilterPartition(items, ItemValid, ItemInvalid);
  }

  /** The exit code is 0 exactly when every diagram checked is valid. */
  predicate AllValid(items: seq<Item>) {
    forall j :: 0 <= j < |items| ==> items[j].valid
  }

  lemma ExitZeroIffAllValid(items: seq<Item>)
    ensures ExitCodeFor(InvalidCount(items)) == 0 <==> AllValid(items)
  {
    if AllValid(items) {
      FilterNone(items, ItemInvalid);
    } else {
      var j :| 0 <= j < |items| && !items[j].valid;
      FilterMembers(items, ItemInvalid);
      assert items[j] in Filter(items, ItemInvalid);
    }
  }

  /**
   * The exit code of a check is 0 exactly when every file can be read and
   * every diagram in them is valid, and 1 otherwise.
   */
  lemma BatchExitCodeSpec(parse: Parser, fs: map<string, string>, files: seq<string>)
    ensures BatchExitCode(parse, fs, files) == 0 || BatchExitCode(parse, fs, files) == 1
    ensures BatchExitCode(parse, fs, files) == 0 <==>
      (FirstUnreadable(fs, files) == |files|
       && AllValid(AllItems(parse, fs, files)))
  {
    if FirstUnreadable(fs, files) == |files| {
      assert files[..FirstUnreadable(fs, files)] == files;
      var items := AllItems(parse, fs, files);
      assert BatchExitCode(parse, fs, files) == ExitCodeFor(InvalidCount(items));
      ExitZeroIffAllValid(items);
    } else {
      assert BatchExitCode(parse, fs, files) == 1;
    }
  }

  /** In json mode a check prints exactly one thing: the JSON document, or the error for an unreadable file. */
  lemma BatchJsonSingle(parse: Parser, fs: map<string, string>, files: seq<string>, quiet: bool)
    ensures |BatchMessages(parse, fs, files, quiet, true)| == 1
  {
    var k := FirstUnreadable(fs, files);
    JsonPrintsNoItemLines(quiet, AllItems(parse, fs, files[..k]));
  }

  /** In json mode nothing is printed while scanning: only the final document. */
  lemma {:induction false} JsonPrintsNoItemLines(quiet: bool, items: seq<Item>)
    ensures MessagesFor(quiet, true, items) == []
  {
    if |items| > 0 {
      JsonPrintsNoItemLines(quiet, items[..|items| - 1]);
    }
  }

  predicate IsPassedLine(m: Message) {
    m.Passed?
  }

  predicate IsFailedLine(m: Message) {
    m.Failed?
  }

  /** What one diagram adds to the line counts and to the tallies. */
  lemma ItemLineCounts(quiet: bool, json: bool, it: Item)
    ensures |Filter(ItemMessages(quiet, json, it), IsPassedLine)| == if !quiet && !json && it.valid then 1 else 0
    ensures |Filter(ItemMessages(quiet, json, it), IsFailedLine)| == if !json && !it.valid then 1 else 0
    ensures |Filter([it], ItemValid)| == if it.valid then 1 else 0
    ensures |Filter([it], ItemInvalid)| == if it.valid then 0 else 1
  {
    assert [it][..0] == [];
    var ms := ItemMessages(quiet, json, it);
    if |ms| == 1 {
      assert ms[..0] == [];
    }
  }

  /**
   * Quiet mode drops exactly the success lines: one failure line per
   * invalid diagram unless in json mode, one success line per valid diagram
   * unless quiet or json.
   */
  lemma {:induction false} LinesPerItem(quiet: bool, json: bool, items: seq<Item>)
    ensures |Filter(MessagesFor(quiet, json, items), IsPassedLine)| == if quiet || json then 0 else ValidCount(items)
    ensures |Filter(MessagesFor(quiet, json, items), IsFailedLine)| == if json then 0 else InvalidCount(items)
  {
    if |items| > 0 {
      var front := items[..|items| - 1];
      var it := items[|items| - 1];
      LinesPerItem(quiet, json, front);
      ItemLineCounts(quiet, json, it);
      FilterAppend(MessagesFor(quiet, json, front), ItemMessages(quiet, json, it), IsPassedLine);
      FilterAppend(MessagesFor(quiet, json, front), ItemMessages(quiet, json, it), IsFailedLine);
      assert items == front + [it];
      FilterAppend(front, [it], ItemValid);
      FilterAppend(front, [it], ItemInvalid);
    }
  }
}
