/** The `blank_lines` strategy: re.split(r'\n\s*\n+', text), then strip every
    piece and drop the empty ones. The regular expression is modelled as a
    direct scan over the characters. */
module BlankLineSplit {
  import opened Text

  /** s[q..r+1] is a blank-line separator: a newline, whitespace only, and a
      second newline at r. Exactly the places where `\n\s*\n` can match. */
  predicate IsSepAt(s: string, q: int, r: int) {
    0 <= q < r < |s| && s[q] == '\n' && s[r] == '\n'
    && forall m :: q < m < r ==> IsWs(s[m])
  }

  /** Some separator lies inside s. */
  predicate HasSeparator(s: string) {
    exists q, r :: 0 <= q < r < |s| && IsSepAt(s, q, r)
  }

  /** A newline at j that can be reached from k over whitespace only. */
  predicate NlReach(s: string, k: int, j: int) {
    0 <= k <= j < |s| && s[j] == '\n' && forall m :: k <= m < j ==> IsWs(s[m])
  }

  /** The last newline of the whitespace run that starts at k, if the run
      holds one. This is where the greedy `\s*\n+` stops after backtracking. */
  function LastNlInRun(s: string, k: nat): (r: Option<nat>)
    requires k <= |s|
    ensures r.Some? ==> NlReach(s, k, r.value) && forall j :: NlReach(s, k, j) ==> j <= r.value
    ensures r.None? ==> forall j :: !NlReach(s, k, j)
    decreases |s| - k
  {
    if k == |s| || !IsWs(s[k]) then None
    else
      var rest := LastNlInRun(s, k + 1);
      assert forall j :: NlReach(s, k, j) && j != k ==> NlReach(s, k + 1, j);
      if rest.Some? then rest
      else if s[k] == '\n' then Some(k)
      else None
  }

  /** End (exclusive) of the match of `\n\s*\n+` that starts at s[q], if one
      starts there: it runs to the last newline reachable over whitespace. */
  function SepEnd(s: string, q: nat): (r: Option<nat>)
    requires q < |s|
    ensures r.None? ==> forall j :: !IsSepAt(s, q, j)
    ensures r.Some? ==> q + 2 <= r.value <= |s| && IsSepAt(s, q, r.value - 1)
    ensures r.Some? ==> forall j :: IsSepAt(s, q, j) ==> j < r.value
  {
    if s[q] != '\n' then None
    else
      assert forall j :: IsSepAt(s, q, j) ==> NlReach(s, q + 1, j);
      match LastNlInRun(s, q + 1)
      case Some(p) => Some(p + 1)
      case None => None
  }

  /** The texts matched by `\n\s*\n+` in s[i..], leftmost first and without
      overlap: what re.findall returns. Each is whitespace only and begins
      and ends with a newline. */
  function Separators(s: string, i: nat): (seps: seq<string>)
    requires i <= |s|
    ensures forall j :: 0 <= j < |seps| ==>
      |seps[j]| >= 2 && seps[j][0] == '\n' && seps[j][|seps[j]| - 1] == '\n' && IsBlank(seps[j])
    decreases |s| - i
  {
    if i == |s| then []
    else match SepEnd(s, i)
      case Some(e) => [s[i..e]] + Separators(s, e)
      case None => Separators(s, i + 1)
  }

  /** The pieces re.split leaves between the separators of s[i..]; `start` is
      where the current piece began. */
  function Pieces(s: string, start: nat, i: nat): (ps: seq<string>)
    requires start <= i <= |s|
    ensures |ps| == |Separators(s, i)| + 1
    decreases |s| - i
  {
    if i == |s| then [s[start..]]
    else match SepEnd(s, i)
      case Some(e) => [s[start..i]] + Pieces(s, e, e)
      case None => Pieces(s, start, i + 1)
  }

  /** Number of blank-line separators, `len(re.findall(r'\n\s*\n+', text))`. */
  function SeparatorCount(text: string): nat {
    |Separators(text, 0)|
  }

  /** The `blank_lines` branch: split, strip, drop empty pieces. */
  function Blocks(text: string): seq<string> {
    StripEach(Pieces(text, 0, 0))
  }

  /** The pieces and the separators between them rebuild the text: nothing is
      lost, nothing reordered. */
  lemma {:induction false} PiecesTile(s: string, start: nat, i: nat)
    requires start <= i <= |s|
    ensures JoinWith(Pieces(s, start, i), Separators(s, i)) == s[start..]
    decreases |s| - i
  {
    if i < |s| {
      match SepEnd(s, i)
      case Some(e) =>
        PiecesTile(s, e, e);
        assert Pieces(s, start, i)[1..] == Pieces(s, e, e);
        assert Separators(s, i)[1..] == Separators(s, e);
        assert s[start..] == s[start..i] + s[i..e] + s[e..];
      case None =>
        PiecesTile(s, start, i + 1);
    }
  }

  /** A separator inside a slice is a separator of the whole string. */
  lemma SepInSlice(s: string, a: nat, b: nat, q: int, r: int)
    requires a <= b <= |s| && IsSepAt(s[a..b], q, r)
    ensures IsSepAt(s, a + q, a + r) && a + q < b
  {
    forall m | a + q < m < a + r ensures IsWs(s[m]) {
      assert s[a..b][m - a] == s[m];
    }
  }

  /** No piece holds a separator, provided none starts in the part of the
      current piece already scanned. */
  lemma {:induction false} PiecesHaveNoSeparator(s: string, start: nat, i: nat)
    requires start <= i <= |s|
    requires forall q, r :: start <= q < i ==> !IsSepAt(s, q, r)
    ensures forall j :: 0 <= j < |Pieces(s, start, i)| ==> !HasSeparator(Pieces(s, start, i)[j])
    decreases |s| - i
  {
    if i == |s| {
      NoSeparatorBefore(s, start, |s|);
      assert s[start..|s|] == s[start..];
      assert Pieces(s, start, i) == [s[start..]];
    } else {
      match SepEnd(s, i)
      case Some(e) =>
        NoSeparatorBefore(s, start, i);
        PiecesHaveNoSeparator(s, e, e);
        assert Pieces(s, start, i) == [s[start..i]] + Pieces(s, e, e);
      case None =>
        PiecesHaveNoSeparator(s, start, i + 1);
    }
  }

  /** A slice in which no separator of s starts holds no separator. */
  lemma NoSeparatorBefore(s: string, start: nat, end: nat)
    requires start <= end <= |s|
    requires forall q, r :: start <= q < end ==> !IsSepAt(s, q, r)
    ensures !HasSeparator(s[start..end])
  {
    forall q, r | IsSepAt(s[start..end], q, r) ensures false {
      SepInSlice(s, start, end, q, r);
    }
  }

  /** Stripping cannot create a separator. */
  lemma StripNoSeparator(p: string)
    requires !HasSeparator(p)
    ensures !HasSeparator(Strip(p))
  {
    var (lo, hi) := StripBounds(p);
    forall q, r | IsSepAt(p[lo..hi], q, r) ensures false {
      SepInSlice(p, lo, hi, q, r);
    }
  }

  lemma {:induction false} StripEachNoSeparator(ps: seq<string>)
    requires forall j :: 0 <= j < |ps| ==> !HasSeparator(ps[j])
    ensures forall j :: 0 <= j < |StripEach(ps)| ==> !HasSeparator(StripEach(ps)[j])
  {
    if ps != [] {
      StripNoSeparator(ps[0]);
      StripEachNoSeparator(ps[1..]);
    }
  }

  /** Every `blank_lines` block is trimmed and non-empty, and no block holds
      two newlines with only whitespace between them. */
  lemma BlocksShape(text: string)
    ensures forall j :: 0 <= j < |Blocks(text)| ==>
      var b := Blocks(text)[j]; b != [] && IsTrimmed(b) && !HasSeparator(b)
  {
    PiecesHaveNoSeparator(text, 0, 0);
    StripEachNoSeparator(Pieces(text, 0, 0));
  }
}
