/** The `sentences` strategy: re.split('[。！？]', text), strip every piece,
    drop the empty ones and end each kept one with a full stop. */
module SentenceSplit {
  import opened Text

  /** sentence.endswith(('。', '！', '？')). */
  predicate EndsWithTerminator(s: string) {
    |s| > 0 && s[|s| - 1] in Terminators
  }

  /** The loop over the split pieces: strip, skip empty, restore a terminator
      unless the sentence already ends in one. */
  function Restore(pieces: seq<string>): seq<string> {
    if pieces == [] then []
    else
      var sentence := Strip(pieces[0]);
      (if sentence != [] then [if EndsWithTerminator(sentence) then sentence else sentence + [FullStop]] else [])
      + Restore(pieces[1..])
  }

  /** The pieces between terminators. */
  function Pieces(text: string): seq<string> {
    SplitAt(text, Terminators)
  }

  /** The `sentences` branch. */
  function Blocks(text: string): seq<string> {
    Restore(Pieces(text))
  }

  /** Since the split removes every terminator, the endswith test never holds:
      each kept sentence is its stripped piece followed by a full stop, whatever
      terminator the text had there. */
  lemma {:induction false} RestoreAppendsFullStop(pieces: seq<string>)
    requires forall j :: 0 <= j < |pieces| ==> NoneIn(pieces[j], Terminators)
    ensures |Restore(pieces)| == |StripEach(pieces)|
    ensures forall j :: 0 <= j < |Restore(pieces)| ==> Restore(pieces)[j] == StripEach(pieces)[j] + [FullStop]
  {
    if pieces != [] {
      var sentence := Strip(pieces[0]);
      StripNoneIn(pieces[0], Terminators);
      assert !EndsWithTerminator(sentence);
      RestoreAppendsFullStop(pieces[1..]);
    }
  }

  /** The blocks are the non-blank pieces between terminators, in order, each
      stripped and closed with a full stop. */
  lemma BlocksArePieces(text: string)
    ensures |Blocks(text)| == |StripEach(Pieces(text))|
    ensures forall j :: 0 <= j < |Blocks(text)| ==> Blocks(text)[j] == StripEach(Pieces(text))[j] + [FullStop]
  {
    RestoreAppendsFullStop(Pieces(text));
  }

  /** Every block ends with a full stop and contains no other terminator;
      before the full stop there is a trimmed, non-empty sentence. */
  lemma BlocksShape(text: string)
    ensures forall j :: 0 <= j < |Blocks(text)| ==>
      var b := Blocks(text)[j];
      |b| >= 2 && b[|b| - 1] == FullStop && NoneIn(b[..|b| - 1], Terminators) && IsTrimmed(b[..|b| - 1])
  {
    BlocksArePieces(text);
    StripEachNoneIn(Pieces(text), Terminators);
    forall j | 0 <= j < |Blocks(text)|
      ensures var b := Blocks(text)[j];
        |b| >= 2 && b[|b| - 1] == FullStop && NoneIn(b[..|b| - 1], Terminators) && IsTrimmed(b[..|b| - 1])
    {
      var b := Blocks(text)[j];
      var t := StripEach(Pieces(text))[j];
      assert b == t + [FullStop];
      assert b[..|b| - 1] == t;
    }
  }

  /** "a！ b" splits into "a" and " b". */
  lemma ExamplePieces()
    ensures Pieces("a\U{FF01} b") == ["a", " b"]
  {
    var e: seq<string> := [[]];
    assert SplitAt([], Terminators) == e;
    assert SplitAt("b", Terminators) == ["b"] by {
      assert 'b' !in Terminators;
      assert "b"[1..] == [];
      assert e[1..] == [];
      assert ['b'] + e[0] == "b";
    }
    assert SplitAt(" b", Terminators) == [" b"] by {
      assert ' ' !in Terminators;
      assert " b"[1..] == "b";
      assert [' '] + "b" == " b";
    }
    assert SplitAt("\U{FF01} b", Terminators) == [[], " b"] by {
      assert "\U{FF01} b"[1..] == " b";
    }
    var t := "a\U{FF01} b";
    assert 'a' !in Terminators;
    assert t[1..] == "\U{FF01} b";
    assert ['a'] + [] == "a";
  }

  /** Stripping keeps "a" and trims " b". */
  lemma ExampleStrip()
    ensures StripEach(["a", " b"]) == ["a", "b"]
  {
    assert Strip(" b") == "b" by { assert LeadWs(" b") == 1; }
    assert Strip("a") == "a" by { StripTrimmed("a"); }
    var ps := ["a", " b"];
    assert ps[1..] == [" b"] && ps[1..][1..] == [];
  }

  /** "a！ b" gives "a。" and "b。": the exclamation mark comes back as a
      full stop. */
  lemma Example()
    ensures Blocks("a\U{FF01} b") == ["a\U{3002}", "b\U{3002}"]
  {
    ExamplePieces();
    ExampleStrip();
    var b := Blocks("a\U{FF01} b");
    BlocksArePieces("a\U{FF01} b");
    assert |b| == 2;
    assert b[0] == "a" + [FullStop] && b[1] == "b" + [FullStop];
    assert "a" + [FullStop] == "a\U{3002}" && "b" + [FullStop] == "b\U{3002}";
  }
}
