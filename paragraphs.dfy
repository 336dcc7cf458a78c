/** The `paragraphs` strategy: walk the lines of the text with an accumulator.
    A blank line closes the open block; a short line (fewer than 30
    characters once stripped) is glued onto a non-empty open block after one
    space; any other line closes the open block and opens a new one. */
module ParagraphSplit {
  import opened Text

  /** Lines shorter than this are continuations. */
  const ShortLine: nat := 30

  /** The loop state: the closed blocks and the open one (`current_block`). */
  datatype Acc = Acc(blocks: seq<string>, current: string)

  /** `if current_block: blocks.append(current_block.strip())`. */
  function Flush(acc: Acc): seq<string> {
    if acc.current != [] then acc.blocks + [Strip(acc.current)] else acc.blocks
  }

  /** One iteration of the loop, given the line after `line.strip()`. */
  function Step(acc: Acc, line: string): Acc {
    if line == [] then Acc(Flush(acc), [])
    else if |line| < ShortLine && acc.current != [] then Acc(acc.blocks, acc.current + [' '] + line)
    else Acc(Flush(acc), line)
  }

  /** The state after the loop has consumed `lines`. */
  function Fold(lines: seq<string>): Acc {
    if lines == [] then Acc([], []) else Step(Fold(lines[..|lines| - 1]), Strip(lines[|lines| - 1]))
  }

  /** The `paragraphs` branch, as a function of the text. */
  function Blocks(text: string): seq<string> {
    Flush(Fold(Lines(text)))
  }

  /** The loop of the `paragraphs` branch. */
  method Split(text: string) returns (blocks: seq<string>)
    ensures blocks == Blocks(text)
  {
    var lines := Lines(text);
    blocks := [];
    var current: string := [];
    for i := 0 to |lines|
      invariant Acc(blocks, current) == Fold(lines[..i])
    {
      assert lines[..i + 1][..i] == lines[..i];
      var line := Strip(lines[i]);
      if line == [] {
        if current != [] {
          blocks := blocks + [Strip(current)];
          current := [];
        }
        continue;
      }
      if |line| < ShortLine && current != [] {
        current := current + [' '] + line;
      } else {
        if current != [] {
          blocks := blocks + [Strip(current)];
        }
        current := line;
      }
    }
    assert lines[..|lines|] == lines;
    if current != [] {
      blocks := blocks + [Strip(current)];
    }
  }

  /** Line i opens a block: it is not blank, and it is the first line, follows
      a blank line, or is too long to be a continuation. */
  predicate IsStart(lines: seq<string>, i: nat)
    requires i < |lines|
  {
    Strip(lines[i]) != [] && (i == 0 || Strip(lines[i - 1]) == [] || |Strip(lines[i])| >= ShortLine)
  }

  /** Number of lines that open a block. */
  function CountStarts(lines: seq<string>): nat {
    if lines == [] then 0
    else CountStarts(lines[..|lines| - 1]) + (if IsStart(lines, |lines| - 1) then 1 else 0)
  }

  /** The blocks closed so far plus the open one. */
  function Open(acc: Acc): seq<string> {
    acc.blocks + (if acc.current != [] then [acc.current] else [])
  }

  /** Shape of the state: the closed blocks are non-empty and trimmed, the
      open one is trimmed (and empty when no block is open). */
  predicate WellFormed(acc: Acc) {
    (forall j :: 0 <= j < |acc.blocks| ==> acc.blocks[j] != [] && IsTrimmed(acc.blocks[j]))
    && IsTrimmed(acc.current)
  }

  /** No newline anywhere in the state. */
  predicate NewlineFree(acc: Acc) {
    (forall j :: 0 <= j < |acc.blocks| ==> NoneIn(acc.blocks[j], NewLine))
    && NoneIn(acc.current, NewLine)
  }

  /** With the open block trimmed, flushing it strips nothing. */
  lemma FlushOpen(acc: Acc)
    requires IsTrimmed(acc.current)
    ensures Flush(acc) == Open(acc)
  {
    if acc.current != [] {
      StripTrimmed(acc.current);
    }
  }

  /** One step keeps the shape of the state, and leaves a block open exactly
      when the line is not empty. */
  lemma StepWellFormed(acc: Acc, line: string)
    requires WellFormed(acc) && IsTrimmed(line)
    ensures WellFormed(Step(acc, line))
    ensures Step(acc, line).current == [] <==> line == []
  {
    FlushOpen(acc);
    if line != [] && |line| < ShortLine && acc.current != [] {
      var c := acc.current + [' '] + line;
      assert c[0] == acc.current[0] && c[|c| - 1] == line[|line| - 1];
    }
  }

  /** One step over a line without newline adds none. */
  lemma StepNewlineFree(acc: Acc, line: string)
    requires IsTrimmed(acc.current) && NewlineFree(acc) && NoneIn(line, NewLine)
    ensures NewlineFree(Step(acc, line))
  {
    FlushOpen(acc);
    if line != [] && |line| < ShortLine && acc.current != [] {
      assert NoneIn(acc.current + [' '] + line, NewLine);
    }
  }

  /** The loop state keeps its shape; a block is open exactly when the last
      line was not blank. */
  lemma {:induction false} FoldWellFormed(lines: seq<string>)
    ensures WellFormed(Fold(lines))
    ensures Fold(lines).current == [] <==> lines == [] || Strip(lines[|lines| - 1]) == []
  {
    if lines != [] {
      FoldWellFormed(lines[..|lines| - 1]);
      StepWellFormed(Fold(lines[..|lines| - 1]), Strip(lines[|lines| - 1]));
    }
  }

  lemma {:induction false} FoldNewlineFree(lines: seq<string>)
    requires forall j :: 0 <= j < |lines| ==> NoneIn(lines[j], NewLine)
    ensures NewlineFree(Fold(lines))
  {
    if lines != [] {
      var init := lines[..|lines| - 1];
      assert forall j :: 0 <= j < |init| ==> init[j] == lines[j];
      FoldNewlineFree(init);
      FoldWellFormed(init);
      StripNoneIn(lines[|lines| - 1], NewLine);
      StepNewlineFree(Fold(init), Strip(lines[|lines| - 1]));
    }
  }

  /** The result is the open state: the last flush strips nothing. */
  lemma BlocksOpen(text: string)
    ensures Blocks(text) == Open(Fold(Lines(text)))
  {
    FoldWellFormed(Lines(text));
    FlushOpen(Fold(Lines(text)));
  }

  /** Blocks are trimmed, non-empty and hold no newline. */
  lemma BlocksShape(text: string)
    ensures forall j :: 0 <= j < |Blocks(text)| ==>
      Blocks(text)[j] != [] && IsTrimmed(Blocks(text)[j]) && NoneIn(Blocks(text)[j], NewLine)
  {
    BlocksOpen(text);
    FoldWellFormed(Lines(text));
    FoldNewlineFree(Lines(text));
  }

  /** One step adds a block exactly when the line is not empty and either no
      block is open or the line is too long to be glued on. */
  lemma StepCount(acc: Acc, line: string)
    requires IsTrimmed(acc.current)
    ensures |Open(Step(acc, line))| ==
      |Open(acc)| + (if line != [] && (acc.current == [] || |line| >= ShortLine) then 1 else 0)
  {
    FlushOpen(acc);
  }

  /** One block per line that opens one. */
  lemma {:induction false} FoldCount(lines: seq<string>)
    ensures |Open(Fold(lines))| == CountStarts(lines)
  {
    if lines != [] {
      var n := |lines|;
      var init := lines[..n - 1];
      FoldCount(init);
      FoldWellFormed(init);
      StepCount(Fold(init), Strip(lines[n - 1]));
      assert n > 1 ==> init[n - 2] == lines[n - 2];
    }
  }

  /** No more lines open a block than there are non-blank lines. */
  lemma {:induction false} CountStartsBound(lines: seq<string>)
    ensures CountStarts(lines) <= |StripEach(lines)|
  {
    if lines != [] {
      var init := lines[..|lines| - 1];
      CountStartsBound(init);
      StripEachSnoc(init, lines[|lines| - 1]);
      assert init + [lines[|lines| - 1]] == lines;
    }
  }

  /** The number of blocks is the number of lines that open one, which is at
      most the number of non-blank lines. */
  lemma BlockCount(text: string)
    ensures |Blocks(text)| == CountStarts(Lines(text))
    ensures |Blocks(text)| <= |StripEach(Lines(text))|
  {
    BlocksOpen(text);
    FoldCount(Lines(text));
    CountStartsBound(Lines(text));
  }

  /** One step extends the spaced-out open state exactly as appending the
      line, when not empty, extends the spaced-out non-blank lines. */
  lemma StepContent(acc: Acc, line: string, done: seq<string>)
    requires WellFormed(acc)
    requires forall j :: 0 <= j < |done| ==> done[j] != []
    requires JoinSpace(Open(acc)) == JoinSpace(done)
    ensures JoinSpace(Open(Step(acc, line))) == JoinSpace(done + (if line != [] then [line] else []))
  {
    FlushOpen(acc);
    if line == [] {
      assert done + [] == done;
      assert Open(Step(acc, line)) == Open(acc);
    } else {
      JoinSpaceEmpty(Open(acc));
      JoinSpaceEmpty(done);
      JoinSpaceSnoc(done, line);
      if |line| < ShortLine && acc.current != [] {
        GlueContent(acc.blocks, acc.current, line);
        assert Open(acc) == acc.blocks + [acc.current];
      } else {
        assert Open(Step(acc, line)) == Open(acc) + [line];
        JoinSpaceSnoc(Open(acc), line);
      }
    }
  }

  /** Gluing a line onto the last block after one space is, once joined with
      spaces, the same as appending it as a block of its own. */
  lemma GlueContent(blocks: seq<string>, current: string, line: string)
    ensures JoinSpace(blocks + [current + [' '] + line]) == JoinSpace(blocks + [current]) + [' '] + line
  {
    JoinSpaceSnoc(blocks, current);
    JoinSpaceSnoc(blocks, current + [' '] + line);
  }

  /** Joined with spaces, the open state spells the stripped non-blank lines
      joined with spaces: lines are only ever glued with one space. */
  lemma {:induction false} FoldContent(lines: seq<string>)
    ensures JoinSpace(Open(Fold(lines))) == JoinSpace(StripEach(lines))
  {
    if lines != [] {
      var init := lines[..|lines| - 1];
      var raw := lines[|lines| - 1];
      assert init + [raw] == lines;
      FoldContent(init);
      FoldWellFormed(init);
      StripEachSnoc(init, raw);
      StepContent(Fold(init), Strip(raw), StripEach(init));
    }
  }

  /** The blocks, joined with spaces, are the stripped non-blank lines joined
      with spaces: nothing is dropped, reordered or duplicated. */
  lemma BlocksContent(text: string)
    ensures JoinSpace(Blocks(text)) == JoinSpace(StripEach(Lines(text)))
  {
    BlocksOpen(text);
    FoldContent(Lines(text));
  }
}
