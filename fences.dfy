/**
 * The fenced-block scanner of src/validator.ts (extractMermaidBlocks): a
 * line whose trim starts with "```mermaid" opens a block (and restarts one
 * already open), a line whose trim is exactly "```" closes an open block,
 * and the lines in between, joined with "\n" and trimmed, are the block's
 * code. Only this simplified subset of CommonMark fenced code blocks
 * (section 4.5 of the CommonMark specification) is modelled, as the code
 * implements it: no tildes, no fence-length matching, no nesting.
 *
 * The loop is specified against a stateless description: a closing line
 * yields a block exactly when the nearest fence line before it is an
 * opening one.
 */
module Fences {
  import opened Wrappers
  import opened Builtins

  /** A diagram block: its trimmed code and the 1-indexed line of its first content line. */
  datatype Block = Block(code: string, startLine: int)

  const OpeningFence: string := "```mermaid"
  const ClosingFence: string := "```"

  /** How the scanner reads a line: an opening fence, a closing fence, or anything else. */
  datatype LineKind = Opening | Closing | Other

  function KindOf(line: string): LineKind {
    var t := Trim(line);
    if StartsWith(t, OpeningFence) then Opening
    else if t == ClosingFence then Closing
    else Other
  }

  /**
   * The classification matches the scanner's two tests: the opening test is
   * made first, and no line passes both, since "```" is shorter than "```mermaid".
   */
  lemma KindOfSpec(line: string)
    ensures KindOf(line) == Opening <==> StartsWith(Trim(line), OpeningFence)
    ensures KindOf(line) == Closing <==> Trim(line) == ClosingFence
  {
  }

  /** The lines of a text, as content.split("\n") gives them. */
  function Lines(content: string): seq<string> {
    Split(content, '\n')
  }

  /** The kind of every line, in order. */
  function Kinds(lines: seq<string>): (kinds: seq<LineKind>)
    ensures |kinds| == |lines|
  {
    if |lines| == 0 then [] else Kinds(lines[..|lines| - 1]) + [KindOf(lines[|lines| - 1])]
  }

  lemma {:induction false} KindsAt(lines: seq<string>, j: nat)
    requires j < |lines|
    ensures Kinds(lines)[j] == KindOf(lines[j])
  {
    if j < |lines| - 1 {
      KindsAt(lines[..|lines| - 1], j);
    }
  }

  /** The index of the last fence line among the first n lines, if there is one. */
  function LastFence(kinds: seq<LineKind>, n: nat): (r: Option<nat>)
    requires n <= |kinds|
    ensures r.Some? ==> r.value < n && kinds[r.value] != Other
    ensures r.Some? ==> forall j :: r.value < j < n ==> kinds[j] == Other
    ensures r.None? ==> forall j :: 0 <= j < n ==> kinds[j] == Other
  {
    if n == 0 then None
    else if kinds[n - 1] != Other then Some(n - 1)
    else LastFence(kinds, n - 1)
  }

  /** The opening line of the block still open after the first n lines, if one is. */
  function OpenBlock(kinds: seq<LineKind>, n: nat): Option<nat>
    requires n <= |kinds|
  {
    match LastFence(kinds, n)
    case Some(o) => if kinds[o] == Opening then Some(o) else None
    case None => None
  }

  /** Lines o and c enclose a block: o opens, c closes, and no fence line lies between them. */
  predicate IsFencePair(kinds: seq<LineKind>, o: nat, c: nat) {
    o < c < |kinds| && kinds[o] == Opening && kinds[c] == Closing
    && forall j :: o < j < c ==> kinds[j] == Other
  }

  /** The opening line that line c closes, if it closes a block. */
  function OpenerFor(kinds: seq<LineKind>, c: nat): (r: Option<nat>)
    requires c < |kinds|
    ensures r.Some? ==> r.value < c
  {
    if kinds[c] == Closing then OpenBlock(kinds, c) else None
  }

  /** The fence lines of a block: its opening line and its closing line, counted from 0. */
  datatype Span = Span(open: nat, close: nat)

  /** The spans of the blocks closed among the first n lines, in order. */
  function SpansUpTo(kinds: seq<LineKind>, n: nat): (spans: seq<Span>)
    requires n <= |kinds|
    ensures forall k :: 0 <= k < |spans| ==> spans[k].open < spans[k].close < n
  {
    if n == 0 then []
    else
      SpansUpTo(kinds, n - 1) +
      match OpenerFor(kinds, n - 1)
      case Some(o) => [Span(o, n - 1)]
      case None => []
  }

  /** The code of a block: its content lines joined with "\n", then trimmed. */
  function BlockCode(contentLines: seq<string>): string {
    Trim(Join(contentLines, '\n'))
  }

  /** The block a span encloses; its start line is the 1-indexed number of its first content line. */
  function BlockAt(lines: seq<string>, sp: Span): Block
    requires sp.open < sp.close <= |lines|
  {
    Block(BlockCode(lines[sp.open + 1..sp.close]), sp.open + 2)
  }

  /** The blocks enclosed by a sequence of spans, in order. */
  function BlocksOf(lines: seq<string>, spans: seq<Span>): (blocks: seq<Block>)
    requires forall k :: 0 <= k < |spans| ==> spans[k].open < spans[k].close <= |lines|
    ensures |blocks| == |spans|
  {
    seq(|spans|, k requires 0 <= k < |spans| => BlockAt(lines, spans[k]))
  }

  /** The blocks of a text: every closing line whose nearest preceding fence line is an opening one closes a block. */
  function ExtractBlocks(content: string): seq<Block> {
    var lines := Lines(content);
    BlocksOf(lines, SpansUpTo(Kinds(lines), |lines|))
  }

  /** The number of lines among the first n whose trim is exactly "```". */
  function ClosingLineCount(kinds: seq<LineKind>, n: nat): nat
    requires n <= |kinds|
  {
    if n == 0 then 0 else ClosingLineCount(kinds, n - 1) + (if kinds[n - 1] == Closing then 1 else 0)
  }

  /**
   * What the scanner's variables hold after the first i lines: the blocks
   * closed so far, whether a block is open, and, if one is, the line after
   * its opening line and the lines gathered since.
   */
  ghost predicate ScanInvariant(lines: seq<string>, kinds: seq<LineKind>, i: nat,
                                blocks: seq<Block>, inBlock: bool, blockStart: nat, blockLines: seq<string>)
  {
    |kinds| == |lines| && i <= |lines|
    && blocks == BlocksOf(lines, SpansUpTo(kinds, i))
    && (inBlock <==> OpenBlock(kinds, i).Some?)
    && (inBlock ==> blockStart == OpenBlock(kinds, i).value + 1 <= i && blockLines == lines[blockStart..i])
  }

  /** extractMermaidBlocks: one pass over the lines with the scanner's three variables. */
  method ExtractMermaidBlocks(content: string) returns (blocks: seq<Block>)
    ensures blocks == ExtractBlocks(content)
  {
    var lines := Lines(content);
    ghost var kinds := Kinds(lines);
    blocks := [];
    var inBlock := false;
    var blockStart := 0;
    var blockLines: seq<string> := [];
    for i := 0 to |lines|
      invariant ScanInvariant(lines, kinds, i, blocks, inBlock, blockStart, blockLines)
    {
      var line := lines[i];
      var kind := KindOf(line);
      KindsAt(lines, i);
      if kind == Opening {
        OpeningStep(lines, kinds, i, blocks, inBlock, blockStart, blockLines);
        inBlock := true;
        blockStart := i + 1;
        blockLines := [];
      } else if inBlock && kind == Closing {
        ClosingStep(lines, kinds, i, blocks, blockStart, blockLines);
        inBlock := false;
        blocks := blocks + [Block(BlockCode(blockLines), blockStart + 1)];
      } else {
        OtherStep(lines, kinds, i, blocks, inBlock, blockStart, blockLines);
        if inBlock {
          blockLines := blockLines + [line];
        }
      }
    }
    assert kinds == Kinds(Lines(content));
  }

  /** An opening line opens a block, whether or not one was open, and starts its lines afresh. */
  lemma OpeningStep(lines: seq<string>, kinds: seq<LineKind>, i: nat,
                    blocks: seq<Block>, inBlock: bool, blockStart: nat, blockLines: seq<string>)
    requires ScanInvariant(lines, kinds, i, blocks, inBlock, blockStart, blockLines)
    requires i < |lines| && kinds[i] == Opening
    ensures ScanInvariant(lines, kinds, i + 1, blocks, true, i + 1, [])
  {
    assert SpansUpTo(kinds, i + 1) == SpansUpTo(kinds, i);
  }

  /** A closing line inside a block closes it and emits it. */
  lemma ClosingStep(lines: seq<string>, kinds: seq<LineKind>, i: nat,
                    blocks: seq<Block>, blockStart: nat, blockLines: seq<string>)
    requires ScanInvariant(lines, kinds, i, blocks, true, blockStart, blockLines)
    requires i < |lines| && kinds[i] == Closing
    ensures ScanInvariant(lines, kinds, i + 1, blocks + [Block(BlockCode(blockLines), blockStart + 1)],
                          false, blockStart, blockLines)
  {
    var sp := Span(blockStart - 1, i);
    assert SpansUpTo(kinds, i + 1) == SpansUpTo(kinds, i) + [sp];
    BlocksOfSnoc(lines, SpansUpTo(kinds, i), sp);
  }

  /** Any other line is gathered inside a block and ignored outside one. */
  lemma OtherStep(lines: seq<string>, kinds: seq<LineKind>, i: nat,
                  blocks: seq<Block>, inBlock: bool, blockStart: nat, blockLines: seq<string>)
    requires ScanInvariant(lines, kinds, i, blocks, inBlock, blockStart, blockLines)
    requires i < |lines| && (kinds[i] == Other || (kinds[i] == Closing && !inBlock))
    ensures ScanInvariant(lines, kinds, i + 1, blocks, inBlock, blockStart,
                          if inBlock then blockLines + [lines[i]] else blockLines)
  {
    assert SpansUpTo(kinds, i + 1) == SpansUpTo(kinds, i);
  }

  lemma BlocksOfSnoc(lines: seq<string>, spans: seq<Span>, sp: Span)
    requires forall k :: 0 <= k < |spans| ==> spans[k].open < spans[k].close <= |lines|
    requires sp.open < sp.close <= |lines|
    ensures BlocksOf(lines, spans + [sp]) == BlocksOf(lines, spans) + [BlockAt(lines, sp)]
  {
  }

  // ---- Properties of the spans, on line kinds alone ----

  /** Without a closing line among lines m..n-1, no block is closed there. */
  lemma {:induction false} NoSpansClosedBetween(kinds: seq<LineKind>, m: nat, n: nat)
    requires m <= n <= |kinds|
    requires forall j :: m <= j < n ==> kinds[j] != Closing
    ensures SpansUpTo(kinds, n) == SpansUpTo(kinds, m)
  {
    if m < n {
      NoSpansClosedBetween(kinds, m, n - 1);
    }
  }

  /** A span closed among the first m lines keeps its position among the first n >= m. */
  lemma {:induction false} SpanKept(kinds: seq<LineKind>, m: nat, n: nat, k: nat)
    requires m <= n <= |kinds| && k < |SpansUpTo(kinds, m)|
    ensures k < |SpansUpTo(kinds, n)| && SpansUpTo(kinds, n)[k] == SpansUpTo(kinds, m)[k]
    decreases n - m
  {
    if m < n {
      SpanKept(kinds, m, n - 1, k);
    }
  }

  /** A closing line's opener is the opening line of a fence pair ending there. */
  lemma OpenerIsFencePair(kinds: seq<LineKind>, c: nat)
    requires c < |kinds| && OpenerFor(kinds, c).Some?
    ensures IsFencePair(kinds, OpenerFor(kinds, c).value, c)
  {
  }

  /** Every span is a fence pair. */
  lemma {:induction false} SpansAreFencePairs(kinds: seq<LineKind>, n: nat, k: nat)
    requires n <= |kinds| && k < |SpansUpTo(kinds, n)|
    ensures IsFencePair(kinds, SpansUpTo(kinds, n)[k].open, SpansUpTo(kinds, n)[k].close)
  {
    if k < |SpansUpTo(kinds, n - 1)| {
      SpansAreFencePairs(kinds, n - 1, k);
    } else {
      OpenerIsFencePair(kinds, n - 1);
    }
  }

  /** Every fence pair closed among the first n lines is a span. */
  lemma FencePairSpan(kinds: seq<LineKind>, o: nat, c: nat, n: nat) returns (k: nat)
    requires IsFencePair(kinds, o, c) && c < n <= |kinds|
    ensures k < |SpansUpTo(kinds, n)| && SpansUpTo(kinds, n)[k] == Span(o, c)
  {
    LastFenceOfPair(kinds, o, c);
    k := |SpansUpTo(kinds, c)|;
    SpanKept(kinds, c + 1, n, k);
  }

  /** The nearest fence line before the closing line of a fence pair is its opening line. */
  lemma LastFenceOfPair(kinds: seq<LineKind>, o: nat, c: nat)
    requires IsFencePair(kinds, o, c)
    ensures OpenerFor(kinds, c) == Some(o)
  {
  }

  /** Spans do not overlap: each closes before the next one opens. */
  lemma {:induction false} SpansOrdered(kinds: seq<LineKind>, n: nat)
    requires n <= |kinds|
    ensures forall k, m :: 0 <= k < m < |SpansUpTo(kinds, n)| ==>
              SpansUpTo(kinds, n)[k].close < SpansUpTo(kinds, n)[m].open
  {
    if n > 0 {
      var c := n - 1;
      match OpenerFor(kinds, c)
      case None =>
        SpansOrdered(kinds, c);
      case Some(o) =>
        // every earlier span was closed before the opening line o
        OpenerIsFencePair(kinds, c);
        NoSpansClosedBetween(kinds, o, c);
        SpansOrdered(kinds, o);
    }
  }

  /** Each span consumes one closing line, so there are at most as many spans as such lines. */
  lemma {:induction false} SpanCountBound(kinds: seq<LineKind>, n: nat)
    requires n <= |kinds|
    ensures |SpansUpTo(kinds, n)| <= ClosingLineCount(kinds, n)
  {
    if n > 0 {
      SpanCountBound(kinds, n - 1);
    }
  }

  // ---- The scanner's properties, stated on texts ----

  /** Empty content (a single empty line) has no blocks. */
  lemma ExtractEmpty()
    ensures ExtractBlocks("") == []
  {
    assert Lines("") == [""];
    assert Trim("") == "";
    assert Kinds([""])[0] == Other;
  }

  /** Blocks come in source order: start lines strictly increase and lie between 2 and the number of lines. */
  lemma ExtractOrdered(content: string)
    ensures forall k :: 0 <= k < |ExtractBlocks(content)| ==> 2 <= ExtractBlocks(content)[k].startLine <= |Lines(content)|
    ensures forall k, m :: 0 <= k < m < |ExtractBlocks(content)| ==>
              ExtractBlocks(content)[k].startLine < ExtractBlocks(content)[m].startLine
  {
    var lines := Lines(content);
    var spans := SpansUpTo(Kinds(lines), |lines|);
    SpansOrdered(Kinds(lines), |lines|);
  }

  /** There are never more blocks than lines whose trim is exactly "```". */
  lemma ExtractCountBound(content: string)
    ensures |ExtractBlocks(content)| <= ClosingLineCount(Kinds(Lines(content)), |Lines(content)|)
  {
    var lines := Lines(content);
    SpanCountBound(Kinds(lines), |lines|);
  }

  /**
   * Every block comes from an opening line o and a closing line c with no
   * fence line between them: its code is the trimmed join of the lines
   * strictly between, and its start line is o + 2. So no content line of a
   * block is a fence line, and fence lines never reach the code.
   */
  lemma BlockOrigin(content: string, k: nat) returns (o: nat, c: nat)
    requires k < |ExtractBlocks(content)|
    ensures IsFencePair(Kinds(Lines(content)), o, c)
    ensures ExtractBlocks(content)[k] == Block(BlockCode(Lines(content)[o + 1..c]), o + 2)
  {
    var lines := Lines(content);
    var kinds := Kinds(lines);
    SpansAreFencePairs(kinds, |lines|, k);
    var sp := SpansUpTo(kinds, |lines|)[k];
    o, c := sp.open, sp.close;
  }

  /** Conversely, every opening line followed by a closing line with no fence line between yields a block. */
  lemma FencePairYieldsBlock(content: string, o: nat, c: nat)
    requires IsFencePair(Kinds(Lines(content)), o, c)
    ensures Block(BlockCode(Lines(content)[o + 1..c]), o + 2) in ExtractBlocks(content)
  {
    var lines := Lines(content);
    var k := FencePairSpan(Kinds(lines), o, c, |lines|);
    assert ExtractBlocks(content)[k] == BlockAt(lines, Span(o, c));
  }

  /** A text with no line whose trim starts with "```mermaid" has no blocks, whatever other fences it holds. */
  lemma NoOpenerNoBlocks(content: string)
    requires forall j :: 0 <= j < |Kinds(Lines(content))| ==> Kinds(Lines(content))[j] != Opening
    ensures ExtractBlocks(content) == []
  {
    if ExtractBlocks(content) != [] {
      var o, c := BlockOrigin(content, 0);
    }
  }

  /**
   * An opening line followed by a second opening line before any closing
   * line starts no block: the second opening restarts the block and the
   * lines gathered since the first are discarded.
   */
  lemma ReopenedBlockDropped(content: string, o1: nat, o2: nat)
    requires o1 < o2 < |Lines(content)|
    requires Kinds(Lines(content))[o2] == Opening
    requires forall j :: o1 < j < o2 ==> Kinds(Lines(content))[j] != Closing
    ensures forall k :: 0 <= k < |ExtractBlocks(content)| ==> ExtractBlocks(content)[k].startLine != o1 + 2
  {
    forall k | 0 <= k < |ExtractBlocks(content)|
      ensures ExtractBlocks(content)[k].startLine != o1 + 2
    {
      var o, c := BlockOrigin(content, k);
      ReopenedNotPair(Kinds(Lines(content)), o1, o2, c);
    }
  }

  /** An opening line reopened before any closing line pairs with no closing line. */
  lemma ReopenedNotPair(kinds: seq<LineKind>, o1: nat, o2: nat, c: nat)
    requires o1 < o2 < |kinds| && kinds[o2] == Opening
    requires forall j :: o1 < j < o2 ==> kinds[j] != Closing
    ensures !IsFencePair(kinds, o1, c)
  {
  }

  /** An opening line with no closing line after it starts no block: an unterminated block is dropped. */
  lemma UnterminatedBlockDropped(content: string, o: nat)
    requires o < |Lines(content)|
    requires forall j :: o < j < |Lines(content)| ==> Kinds(Lines(content))[j] != Closing
    ensures forall k :: 0 <= k < |ExtractBlocks(content)| ==> ExtractBlocks(content)[k].startLine != o + 2
  {
    forall k | 0 <= k < |ExtractBlocks(content)|
      ensures ExtractBlocks(content)[k].startLine != o + 2
    {
      var o', c := BlockOrigin(content, k);
    }
  }
}
