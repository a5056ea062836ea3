/** `extract_code_blocks`: cutting one decoded source file into function and class
    blocks, with the whole-file fallback. The Python parser is not modelled: its
    answer for a text is an input, either a failure or the nodes `ast.walk` visits,
    in visiting order, with their reported line numbers. */
module Extractor {

  import opened Wrappers
  import opened Text
  import Seqs

  /** The node classes the walk can meet; only `FunctionDef` and `ClassDef` are
      definitions here, so `async def` functions never become blocks. */
  datatype NodeKind = FunctionDef | AsyncFunctionDef | ClassDef | OtherNode

  /** A syntax-tree node: its 1-based first line and its inclusive last line, which the
      parser may leave out. */
  datatype Node = Node(kind: NodeKind, lineno: nat, endLineno: Option<nat>)

  /** The parser's answer: a syntax error, or every node of the tree in walk order. */
  datatype ParseOutcome = ParseFailure | Parsed(walk: seq<Node>)

  const PYTHON: string := "python"

  /** A definition block must span at least this many lines. */
  const MIN_BLOCK_LINES := 3

  /** A file without definition blocks is kept whole when `split('\n')` gives at
      least this many pieces. */
  const MIN_FALLBACK_LINES := 10

  /** `lang.lower() == 'python'`: only then is the text parsed at all. */
  predicate IsPython(lang: string) {
    Lower(lang) == PYTHON
  }

  /** The crawler's own tag is recognised. */
  lemma PythonTagRecognised()
    ensures IsPython(PYTHON)
  {
    assert Lower(PYTHON) == PYTHON by {
      forall i | 0 <= i < |PYTHON| ensures Lower(PYTHON)[i] == PYTHON[i] {
        assert 'a' <= PYTHON[i] <= 'z';
      }
    }
  }

  predicate IsDefinition(n: Node) {
    n.kind == FunctionDef || n.kind == ClassDef
  }

  /** The span filter: the end line is present and non-zero (Python truthiness) and
      `end_lineno - (lineno - 1)` is at least the minimum block size. */
  predicate Accepted(n: Node) {
    && IsDefinition(n)
    && n.endLineno.Some?
    && n.endLineno.value != 0
    && n.endLineno.value - (n.lineno - 1) >= MIN_BLOCK_LINES
  }

  /** The text of a node's block: `splitlines()[lineno - 1 : end_lineno]`, joined with
      '\n' and stripped. The slice has Python's semantics, so it never fails. */
  function BlockText(content: string, n: Node): string
    requires n.endLineno.Some?
  {
    Strip(Join(Seqs.PySlice(SplitLines(content), n.lineno - 1, n.endLineno.value), '\n'))
  }

  /** The blocks of the accepted definition nodes, appended in walk order. */
  function DefinitionBlocks(content: string, walk: seq<Node>): (r: seq<string>)
    ensures |r| <= |walk|
    ensures forall k :: 0 <= k < |r| ==> Trimmed(r[k])
  {
    if walk == [] then []
    else
      var last := walk[|walk| - 1];
      DefinitionBlocks(content, walk[..|walk| - 1])
        + (if Accepted(last) then [BlockText(content, last)] else [])
  }

  /** The definition blocks a text and language tag give before the fallback: none
      when the tag is not Python (the parser is never asked) or the parse failed. */
  function Definitions(content: string, lang: string, parse: string -> ParseOutcome): seq<string> {
    if IsPython(lang) && parse(content).Parsed? then DefinitionBlocks(content, parse(content).walk)
    else []
  }

  /** The parse failure that ends extraction before the fallback is considered. */
  predicate ParseFailed(content: string, lang: string, parse: string -> ParseOutcome) {
    IsPython(lang) && parse(content).ParseFailure?
  }

  /** `extract_code_blocks(code_content, lang)`. */
  function ExtractCodeBlocks(content: string, lang: string, parse: string -> ParseOutcome): (r: seq<string>)
    ensures ParseFailed(content, lang, parse) ==> r == []
    ensures forall k :: 0 <= k < |r| ==> Trimmed(r[k])
    ensures !ParseFailed(content, lang, parse) && Definitions(content, lang, parse) != [] ==>
      r == Definitions(content, lang, parse)
    ensures !ParseFailed(content, lang, parse) && Definitions(content, lang, parse) == [] ==>
      (r != [] <==> Occurrences(content, '\n') + 1 >= MIN_FALLBACK_LINES)
    ensures !ParseFailed(content, lang, parse) && Definitions(content, lang, parse) == [] && r != [] ==>
      r == [Strip(content)]
  {
    if IsPython(lang) && parse(content).ParseFailure? then []
    else
      var blocks := Definitions(content, lang, parse);
      if blocks == [] && |Split(content, '\n')| >= MIN_FALLBACK_LINES then [Strip(content)]
      else blocks
  }

  /** The definition blocks are exactly one block per accepted node, in walk order:
      nothing else is a block, no accepted node is skipped, and nested definitions
      give overlapping blocks that are kept side by side. */
  lemma {:induction false} DefinitionBlocksInWalkOrder(content: string, walk: seq<Node>)
    ensures |DefinitionBlocks(content, walk)| == |Seqs.Selected(walk, Accepted)|
    ensures forall k :: 0 <= k < |Seqs.Selected(walk, Accepted)| ==>
      DefinitionBlocks(content, walk)[k] == BlockText(content, walk[Seqs.Selected(walk, Accepted)[k]])
  {
    if walk != [] {
      var init := walk[..|walk| - 1];
      DefinitionBlocksInWalkOrder(content, init);
      var idx := Seqs.Selected(init, Accepted);
      var blocks := DefinitionBlocks(content, init);
      var last := walk[|walk| - 1];
      forall k | 0 <= k < |idx| ensures walk[idx[k]] == init[idx[k]] { }
      if Accepted(last) {
        assert Seqs.Selected(walk, Accepted) == idx + [|walk| - 1];
        assert DefinitionBlocks(content, walk) == blocks + [BlockText(content, last)];
      } else {
        assert Seqs.Selected(walk, Accepted) == idx;
        assert DefinitionBlocks(content, walk) == blocks;
      }
    }
  }

  /** A block taken from a node covers at least three source lines, and when the node
      lies inside the file and '\n' is the file's only line boundary, the block is the
      stripped '\n'-join of exactly the lines `lineno .. end_lineno`, a run of lines that
      occurs unchanged in the file. */
  lemma BlockIsSourceLines(content: string, n: Node)
    requires Accepted(n)
    requires 1 <= n.lineno && n.endLineno.value <= |SplitLines(content)|
    requires OnlyNewlineBreaks(content)
    ensures n.endLineno.value - n.lineno + 1 >= MIN_BLOCK_LINES
    ensures n.endLineno.value <= |Split(content, '\n')|
    ensures BlockText(content, n) == Strip(Join(Split(content, '\n')[n.lineno - 1..n.endLineno.value], '\n'))
    ensures exists i :: (0 <= i <= |content| &&
      StartsWith(content[i..], Join(Split(content, '\n')[n.lineno - 1..n.endLineno.value], '\n')))
  {
    var a := n.lineno - 1;
    var b := n.endLineno.value;
    LinesAreSplitPieces(content, a, b);
    assert Seqs.PySlice(SplitLines(content), a, b) == SplitLines(content)[a..b];
    JoinedPiecesOccur(content, '\n', a, b);
  }

  /** A five-line function followed by a two-line one gives one block, the five-line
      function's; the short one is dropped. */
  lemma ShortDefinitionDropped(content: string, parse: string -> ParseOutcome)
    requires parse(content) == Parsed([Node(FunctionDef, 1, Some(5)), Node(FunctionDef, 6, Some(7))])
    ensures ExtractCodeBlocks(content, PYTHON, parse) == [BlockText(content, Node(FunctionDef, 1, Some(5)))]
  {
    var long := Node(FunctionDef, 1, Some(5));
    var walk := [long, Node(FunctionDef, 6, Some(7))];
    PythonTagRecognised();
    assert walk[..1] == [long] && [long][..0] == [];
    assert DefinitionBlocks(content, [long]) == [BlockText(content, long)];
    assert DefinitionBlocks(content, walk) == [BlockText(content, long)];
  }

  /** The fallback counts `split('\n')` pieces, not lines: a nine-line file whose last
      line ends in '\n' has ten pieces, so without definitions it is kept whole. */
  lemma NineLinesWithFinalNewlineKeptWhole(content: string, parse: string -> ParseOutcome)
    requires parse(content) == Parsed([])
    requires OnlyNewlineBreaks(content) && content != [] && content[|content| - 1] == '\n'
    requires Occurrences(content, '\n') == 9
    ensures |SplitLines(content)| == 9
    ensures ExtractCodeBlocks(content, PYTHON, parse) == [Strip(content)]
  {
    PythonTagRecognised();
    SplitLinesByNewline(content);
    SplitEndingInSeparator(content, '\n');
  }
}
