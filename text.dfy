/** Characters, trimming and splitting: the string vocabulary shared by every
    splitting strategy and by the whitespace normalizer. */
module Text {

  datatype Option<T> = None | Some(value: T)

  /** Full-width sentence terminators: U+3002 (。), U+FF01 (！), U+FF1F (？). */
  const FullStop: char := '\U{3002}'
  const Exclamation: char := '\U{FF01}'
  const Question: char := '\U{FF1F}'
  const Terminators: set<char> := {FullStop, Exclamation, Question}
  const NewLine: set<char> := {'\n'}

  /** Python's notion of whitespace: the characters for which str.isspace()
      holds. The same set is matched by `\s` in a str regular expression and
      removed by str.strip(), so one predicate serves all three. */
  predicate IsWs(c: char) {
    ('\t' <= c <= '\r') || ('\U{1C}' <= c <= '\U{1F}') || c == ' '
    || c == '\U{85}' || c == '\U{A0}' || c == '\U{1680}'
    || ('\U{2000}' <= c <= '\U{200A}') || c == '\U{2028}' || c == '\U{2029}'
    || c == '\U{202F}' || c == '\U{205F}' || c == '\U{3000}'
  }

  /** `not s.strip()`: s holds nothing but whitespace. */
  predicate IsBlank(s: string) {
    forall i :: 0 <= i < |s| ==> IsWs(s[i])
  }

  /** s neither starts nor ends with whitespace. */
  predicate IsTrimmed(s: string) {
    s == [] || (!IsWs(s[0]) && !IsWs(s[|s| - 1]))
  }

  /** No character of s belongs to d. */
  predicate NoneIn(s: string, d: set<char>) {
    forall i :: 0 <= i < |s| ==> s[i] !in d
  }

  function Min(a: int, b: int): int { if a <= b then a else b }

  /** Length of the leading whitespace run. */
  function LeadWs(s: string): (k: nat)
    ensures k <= |s|
    ensures forall i :: 0 <= i < k ==> IsWs(s[i])
    ensures k < |s| ==> !IsWs(s[k])
  {
    if |s| > 0 && IsWs(s[0]) then 1 + LeadWs(s[1..]) else 0
  }

  /** Length of the trailing whitespace run. */
  function TrailWs(s: string): (k: nat)
    ensures k <= |s|
    ensures forall i :: |s| - k <= i < |s| ==> IsWs(s[i])
    ensures k < |s| ==> !IsWs(s[|s| - 1 - k])
  {
    if |s| > 0 && IsWs(s[|s| - 1]) then 1 + TrailWs(s[..|s| - 1]) else 0
  }

  /** The slice s[lo..hi] that str.strip() keeps: everything outside it is
      whitespace, and when it is non-empty it starts and ends on a
      non-whitespace character. */
  function StripBounds(s: string): (b: (nat, nat))
    ensures b.0 <= b.1 <= |s|
    ensures IsBlank(s[..b.0]) && IsBlank(s[b.1..])
    ensures b.0 < b.1 ==> !IsWs(s[b.0]) && !IsWs(s[b.1 - 1])
    ensures b.0 == b.1 ==> IsBlank(s)
  {
    var lo := LeadWs(s);
    if lo == |s| then (lo, lo) else (lo, |s| - TrailWs(s))
  }

  /** str.strip() with no argument. */
  function Strip(s: string): (r: string)
    ensures IsTrimmed(r)
    ensures r == [] <==> IsBlank(s)
  {
    s[StripBounds(s).0..StripBounds(s).1]
  }

  /** Stripping a string that is already trimmed changes nothing. */
  lemma StripTrimmed(s: string)
    requires IsTrimmed(s)
    ensures Strip(s) == s
  {
    if s != [] {
      assert LeadWs(s) == 0;
      assert TrailWs(s) == 0;
    }
  }

  /** A property of single characters survives stripping. */
  lemma StripNoneIn(s: string, d: set<char>)
    requires NoneIn(s, d)
    ensures NoneIn(Strip(s), d)
  {
  }

  /** Python's split on every occurrence of a delimiter character: s.split(c)
      when d == {c}, re.split('[...]', s) for a character class d. Empty pieces
      are kept, so there is one more piece than there are delimiters. */
  function SplitAt(s: string, d: set<char>): (r: seq<string>)
    ensures |r| == |Delims(s, d)| + 1
    ensures forall j :: 0 <= j < |r| ==> NoneIn(r[j], d)
  {
    if s == [] then [[]]
    else
      var rest := SplitAt(s[1..], d);
      if s[0] in d then [[]] + rest else [[s[0]] + rest[0]] + rest[1..]
  }

  /** The delimiters of s, in order, each as a one-character string. */
  function Delims(s: string, d: set<char>): seq<string> {
    if s == [] then []
    else (if s[0] in d then [[s[0]]] else []) + Delims(s[1..], d)
  }

  /** pieces[0] + seps[0] + pieces[1] + ... + pieces[|seps|]. */
  function JoinWith(pieces: seq<string>, seps: seq<string>): string
    requires |pieces| == |seps| + 1
  {
    if seps == [] then pieces[0] else pieces[0] + seps[0] + JoinWith(pieces[1..], seps[1..])
  }

  /** Splitting loses nothing: putting the delimiters back between the pieces
      gives the input again. With NoneIn on every piece this pins SplitAt down. */
  lemma {:induction false} SplitAtJoin(s: string, d: set<char>)
    ensures JoinWith(SplitAt(s, d), Delims(s, d)) == s
  {
    if s != [] {
      var rest := SplitAt(s[1..], d);
      var ds := Delims(s[1..], d);
      SplitAtJoin(s[1..], d);
      assert s == [s[0]] + s[1..];
      if s[0] in d {
        var r := [[]] + rest;
        assert SplitAt(s, d) == r && Delims(s, d) == [[s[0]]] + ds;
        assert r[1..] == rest;
        assert ([[s[0]]] + ds)[1..] == ds;
      } else {
        var r := [[s[0]] + rest[0]] + rest[1..];
        assert SplitAt(s, d) == r && Delims(s, d) == ds;
        JoinWithHead(rest, ds, [s[0]]);
        assert r == [[s[0]] + rest[0]] + rest[1..];
      }
    }
  }

  /** Prefixing the first piece prefixes the joined string. */
  lemma JoinWithHead(pieces: seq<string>, seps: seq<string>, x: string)
    requires |pieces| == |seps| + 1
    ensures JoinWith([x + pieces[0]] + pieces[1..], seps) == x + JoinWith(pieces, seps)
  {
    var r := [x + pieces[0]] + pieces[1..];
    assert r[1..] == pieces[1..];
  }

  /** text.split('\n'). */
  function Lines(text: string): seq<string> {
    SplitAt(text, NewLine)
  }

  /** `[p.strip() for p in ps if p.strip()]`. */
  function StripEach(ps: seq<string>): (r: seq<string>)
    ensures |r| <= |ps|
    ensures forall j :: 0 <= j < |r| ==> r[j] != [] && IsTrimmed(r[j])
  {
    if ps == [] then []
    else
      var b := Strip(ps[0]);
      (if b != [] then [b] else []) + StripEach(ps[1..])
  }

  /** StripEach works piece by piece, so it can be extended at the end. */
  lemma {:induction false} StripEachSnoc(ps: seq<string>, p: string)
    ensures StripEach(ps + [p]) == StripEach(ps) + (if Strip(p) != [] then [Strip(p)] else [])
  {
    if ps == [] {
      assert StripEach([p]) == (if Strip(p) != [] then [Strip(p)] else []) + StripEach([]);
    } else {
      assert (ps + [p])[1..] == ps[1..] + [p];
      StripEachSnoc(ps[1..], p);
    }
  }

  /** A character that no piece contains is in no stripped piece either. */
  lemma {:induction false} StripEachNoneIn(ps: seq<string>, d: set<char>)
    requires forall j :: 0 <= j < |ps| ==> NoneIn(ps[j], d)
    ensures forall j :: 0 <= j < |StripEach(ps)| ==> NoneIn(StripEach(ps)[j], d)
  {
    if ps != [] {
      StripNoneIn(ps[0], d);
      StripEachNoneIn(ps[1..], d);
    }
  }

  /** Concatenation of all strings in ps. */
  function Concat(ps: seq<string>): string {
    if ps == [] then [] else ps[0] + Concat(ps[1..])
  }

  /** " ".join(xs). */
  function JoinSpace(xs: seq<string>): string {
    if |xs| == 0 then []
    else if |xs| == 1 then xs[0]
    else JoinSpace(xs[..|xs| - 1]) + [' '] + xs[|xs| - 1]
  }

  lemma JoinSpaceSnoc(xs: seq<string>, x: string)
    ensures JoinSpace(xs + [x]) == if xs == [] then x else JoinSpace(xs) + [' '] + x
  {
    assert (xs + [x])[..|xs|] == xs;
  }

  /** Joining non-empty strings gives the empty string only for no strings. */
  lemma {:induction false} JoinSpaceEmpty(xs: seq<string>)
    requires forall j :: 0 <= j < |xs| ==> xs[j] != []
    ensures JoinSpace(xs) == [] <==> xs == []
  {
  }
}
