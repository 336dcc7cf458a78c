/** smart_split_text: dispatch on the method name, with the blank-line density
    heuristic for "auto" and for every name it does not recognise, then drop
    whitespace-only blocks. */
module Splitter {
  import opened Text
  import BlankLineSplit
  import SentenceSplit
  import ParagraphSplit
  import LengthSplit

  /** The names with a branch of their own; any other name means auto. */
  const Named: set<string> := {"blank_lines", "sentences", "paragraphs", "length"}

  /** The final `[block for block in blocks if block.strip()]`. */
  function KeepNonBlank(blocks: seq<string>): (r: seq<string>)
    ensures forall j :: 0 <= j < |r| ==> !IsBlank(r[j])
    ensures |r| <= |blocks|
  {
    if blocks == [] then []
    else (if Strip(blocks[0]) != [] then [blocks[0]] else []) + KeepNonBlank(blocks[1..])
  }

  /** The filter keeps a list with no blank block as it is. */
  lemma {:induction false} KeepNonBlankKeepsAll(blocks: seq<string>)
    requires forall j :: 0 <= j < |blocks| ==> !IsBlank(blocks[j])
    ensures KeepNonBlank(blocks) == blocks
  {
    if blocks != [] {
      KeepNonBlankKeepsAll(blocks[1..]);
    }
  }

  /** Filtering twice is filtering once. */
  lemma KeepNonBlankIdempotent(blocks: seq<string>)
    ensures KeepNonBlank(KeepNonBlank(blocks)) == KeepNonBlank(blocks)
  {
    KeepNonBlankKeepsAll(KeepNonBlank(blocks));
  }

  /** `blank_lines > total_lines * 0.1`, in integers. With k separators over
      n lines and m = n div 10, both hold exactly when k > m as long as the
      rounded product n * 0.1 lies in [m, m + 1), which is so for n < 2^52. */
  predicate Dense(text: string) {
    10 * BlankLineSplit.SeparatorCount(text) > |Lines(text)|
  }

  /** Result of smart_split_text(text, splitMethod). */
  function Blocks(text: string, splitMethod: string): (r: seq<string>)
    ensures forall j :: 0 <= j < |r| ==> !IsBlank(r[j])
    decreases if splitMethod in Named then 0 else 1
  {
    var blocks :=
      if splitMethod == "blank_lines" then BlankLineSplit.Blocks(text)
      else if splitMethod == "sentences" then SentenceSplit.Blocks(text)
      else if splitMethod == "paragraphs" then ParagraphSplit.Blocks(text)
      else if splitMethod == "length" then LengthSplit.Blocks(text)
      else if Dense(text) then Blocks(text, "blank_lines")
      else Blocks(text, "paragraphs");
    KeepNonBlank(blocks)
  }

  /** smart_split_text, with the loops of the `paragraphs` and `length`
      branches run as written. */
  method SmartSplit(text: string, splitMethod: string) returns (blocks: seq<string>)
    ensures blocks == Blocks(text, splitMethod)
    decreases if splitMethod in Named then 0 else 1
  {
    if splitMethod == "blank_lines" {
      blocks := BlankLineSplit.Blocks(text);
    } else if splitMethod == "sentences" {
      blocks := SentenceSplit.Blocks(text);
    } else if splitMethod == "paragraphs" {
      blocks := ParagraphSplit.Split(text);
    } else if splitMethod == "length" {
      blocks := LengthSplit.Split(text);
    } else {
      var blankLines := |BlankLineSplit.Separators(text, 0)|;
      var totalLines := |Lines(text)|;
      if 10 * blankLines > totalLines {
        blocks := SmartSplit(text, "blank_lines");
      } else {
        blocks := SmartSplit(text, "paragraphs");
      }
    }
    blocks := KeepNonBlank(blocks);
  }

  /** "auto", like any name without a branch, gives exactly the `blank_lines`
      result when blank-line separators are dense (10 * k > n) and the
      `paragraphs` result otherwise. */
  lemma AutoDelegates(text: string, splitMethod: string)
    requires splitMethod !in Named
    ensures Dense(text) ==> Blocks(text, splitMethod) == Blocks(text, "blank_lines")
    ensures !Dense(text) ==> Blocks(text, splitMethod) == Blocks(text, "paragraphs")
  {
    assert splitMethod != "blank_lines" && splitMethod != "sentences";
    assert splitMethod != "paragraphs" && splitMethod != "length";
    var inner := if Dense(text) then Blocks(text, "blank_lines") else Blocks(text, "paragraphs");
    assert Blocks(text, splitMethod) == KeepNonBlank(inner);
    KeepNonBlankKeepsAll(inner);
  }

  /** In each named branch every block already has a non-whitespace
      character, so the final filter removes nothing. */
  lemma FilterRemovesNothing(text: string)
    ensures Blocks(text, "blank_lines") == BlankLineSplit.Blocks(text)
    ensures Blocks(text, "sentences") == SentenceSplit.Blocks(text)
    ensures Blocks(text, "paragraphs") == ParagraphSplit.Blocks(text)
    ensures Blocks(text, "length") == LengthSplit.Blocks(text)
  {
    TrimmedNonEmptyNotBlank(BlankLineSplit.Blocks(text));
    KeepNonBlankKeepsAll(BlankLineSplit.Blocks(text));
    SentenceSplit.BlocksShape(text);
    var ss := SentenceSplit.Blocks(text);
    forall j | 0 <= j < |ss| ensures !IsBlank(ss[j]) {
      assert !IsWs(ss[j][|ss[j]| - 1]);
    }
    KeepNonBlankKeepsAll(ss);
    ParagraphSplit.BlocksShape(text);
    TrimmedNonEmptyNotBlank(ParagraphSplit.Blocks(text));
    KeepNonBlankKeepsAll(ParagraphSplit.Blocks(text));
    TrimmedNonEmptyNotBlank(LengthSplit.Blocks(text));
    KeepNonBlankKeepsAll(LengthSplit.Blocks(text));
  }

  lemma TrimmedNonEmptyNotBlank(bs: seq<string>)
    requires forall j :: 0 <= j < |bs| ==> bs[j] != [] && IsTrimmed(bs[j])
    ensures forall j :: 0 <= j < |bs| ==> !IsBlank(bs[j])
  {
    forall j | 0 <= j < |bs| ensures !IsBlank(bs[j]) {
      assert !IsWs(bs[j][0]);
    }
  }

  /** Empty text gives no block, whatever the method. */
  lemma EmptyText(splitMethod: string)
    ensures Blocks([], splitMethod) == []
  {
    assert Lines([]) == [[]];
    assert BlankLineSplit.Pieces([], 0, 0) == [[]];
    assert BlankLineSplit.Blocks([]) == [];
    assert SentenceSplit.Blocks([]) == [];
    var lines: seq<string> := [[]];
    assert lines[..0] == [];
    assert ParagraphSplit.Fold(lines) == ParagraphSplit.Acc([], []);
    assert ParagraphSplit.Blocks([]) == [];
    assert LengthSplit.Blocks([]) == [];
  }
}
