/** The `length` strategy: chunks of about 200 characters. A chunk that does
    not reach the end of the text is extended up to and including the next
    stop character (。！？ or a newline); if there is none, up to the end of
    the text. Every chunk is stripped and the empty ones dropped. */
module LengthSplit {
  import opened Text

  const BlockSize: nat := 200

  /** The characters `'。！？\n'` a chunk may be extended to. */
  const Stops: set<char> := {FullStop, Exclamation, Question, '\n'}

  /** The inner loop: the first stop at or after e, or the end of s. */
  function ExtendToStop(s: string, e: nat): (r: nat)
    requires e <= |s|
    ensures e <= r <= |s|
    ensures forall k :: e <= k < r ==> s[k] !in Stops
    ensures r < |s| ==> s[r] in Stops
    decreases |s| - e
  {
    if e < |s| && s[e] !in Stops then ExtendToStop(s, e + 1) else e
  }

  /** Where the chunk starting at pos ends (exclusive). The chunk is never
      empty, is at least BlockSize characters or the rest of the text, ends
      with a stop unless it reaches the end, and holds no stop between the
      200-character mark and its last character. A chunk that stops short of
      the end reaches past the mark: it ends just after the first stop at or
      after the mark. */
  function ChunkEnd(s: string, pos: nat): (e: nat)
    requires pos < |s|
    ensures pos < e <= |s|
    ensures e - pos >= Min(BlockSize, |s| - pos)
    ensures e < |s| ==> s[e - 1] in Stops && e > pos + BlockSize
    ensures forall k :: pos + BlockSize <= k < e - 1 ==> s[k] !in Stops
  {
    var e := Min(pos + BlockSize, |s|);
    if e < |s| then
      var f := ExtendToStop(s, e);
      if f < |s| then f + 1 else f
    else e
  }

  /** The raw chunks `text[current_pos:end_pos]` from pos on. */
  function RawChunks(s: string, pos: nat): seq<string>
    requires pos <= |s|
    decreases |s| - pos
  {
    if pos < |s| then [s[pos..ChunkEnd(s, pos)]] + RawChunks(s, ChunkEnd(s, pos)) else []
  }

  /** The `length` branch, as a function of the text. */
  function Blocks(text: string): seq<string> {
    StripEach(RawChunks(text, 0))
  }

  /** Lines 170-178 of streamlit_app.py: propose the 200-character mark
      and, short of the end of the text, walk forward to the next stop and
      take it in. */
  method FindChunkEnd(text: string, pos: nat) returns (endPos: nat)
    requires pos < |text|
    ensures endPos == ChunkEnd(text, pos)
  {
    endPos := Min(pos + BlockSize, |text|);
    if endPos < |text| {
      while endPos < |text| && text[endPos] !in Stops
        invariant pos + BlockSize <= endPos <= |text|
        invariant ExtendToStop(text, endPos) == ExtendToStop(text, pos + BlockSize)
        decreases |text| - endPos
      {
        endPos := endPos + 1;
      }
      if endPos < |text| {
        endPos := endPos + 1;
      }
    }
  }

  /** The outer loop of the `length` branch. */
  method Split(text: string) returns (blocks: seq<string>)
    ensures blocks == Blocks(text)
  {
    blocks := [];
    var pos := 0;
    while pos < |text|
      invariant pos <= |text|
      invariant blocks + StripEach(RawChunks(text, pos)) == Blocks(text)
      decreases |text| - pos
    {
      var endPos := FindChunkEnd(text, pos);
      var block := Strip(text[pos..endPos]);
      NextChunk(text, pos, endPos, block);
      ghost var rest := StripEach(RawChunks(text, endPos));
      if block != [] {
        assert blocks + ([block] + rest) == (blocks + [block]) + rest;
        blocks := blocks + [block];
      } else {
        assert [] + rest == rest;
      }
      pos := endPos;
    }
  }

  /** Emitting the stripped chunk at pos and moving on to its end. */
  lemma NextChunk(s: string, pos: nat, e: nat, block: string)
    requires pos < |s| && e == ChunkEnd(s, pos) && block == Strip(s[pos..e])
    ensures StripEach(RawChunks(s, pos)) == (if block != [] then [block] else []) + StripEach(RawChunks(s, e))
  {
    assert RawChunks(s, pos) == [s[pos..e]] + RawChunks(s, e);
    assert (RawChunks(s, pos))[1..] == RawChunks(s, e);
  }

  /** The raw chunks tile the text exactly and in order. */
  lemma {:induction false} RawChunksTile(s: string, pos: nat)
    requires pos <= |s|
    ensures Concat(RawChunks(s, pos)) == s[pos..]
    decreases |s| - pos
  {
    if pos < |s| {
      var e := ChunkEnd(s, pos);
      RawChunksTile(s, e);
      assert s[pos..] == s[pos..e] + s[e..];
    }
  }

  /** No chunk is empty; every chunk but the last is at least BlockSize long
      and ends with a stop character. */
  lemma {:induction false} RawChunksShape(s: string, pos: nat)
    requires pos <= |s|
    ensures forall j :: 0 <= j < |RawChunks(s, pos)| ==> RawChunks(s, pos)[j] != []
    ensures forall j :: 0 <= j < |RawChunks(s, pos)| - 1 ==>
      var c := RawChunks(s, pos)[j]; |c| >= BlockSize && c[|c| - 1] in Stops
    decreases |s| - pos
  {
    if pos < |s| {
      var e := ChunkEnd(s, pos);
      RawChunksShape(s, e);
      if e == |s| {
        assert RawChunks(s, e) == [];
      }
    }
  }

  /** A text without any stop character gives at most one block, whatever
      its length. */
  lemma NoStopOneBlock(text: string)
    requires NoneIn(text, Stops)
    ensures |RawChunks(text, 0)| <= 1
    ensures |Blocks(text)| <= 1
  {
    if text != [] {
      assert ChunkEnd(text, 0) == |text|;
    }
  }
}
