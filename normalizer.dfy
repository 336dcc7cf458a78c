/** remove_newlines: delete line breaks (`\r?\n`), then every remaining
    whitespace character (`\s`). */
module Normalizer {
  import opened Text

  /** s holds no whitespace character. */
  predicate WsFree(s: string) {
    forall i :: 0 <= i < |s| ==> !IsWs(s[i])
  }

  /** re.sub(r'\r?\n', '', s): every newline goes, together with a carriage
      return right before it; a carriage return on its own stays. */
  function DropLineBreaks(s: string): (r: string)
    ensures |r| <= |s|
    ensures NoneIn(r, NewLine)
    decreases |s|
  {
    if s == [] then []
    else if s[0] == '\n' then DropLineBreaks(s[1..])
    else if |s| >= 2 && s[0] == '\r' && s[1] == '\n' then DropLineBreaks(s[2..])
    else [s[0]] + DropLineBreaks(s[1..])
  }

  /** re.sub(r'\s', '', s): the characters of s that are not whitespace, in
      their order. */
  function DropWs(s: string): (r: string)
    ensures WsFree(r)
    ensures |r| <= |s|
  {
    if s == [] then [] else (if IsWs(s[0]) then [] else [s[0]]) + DropWs(s[1..])
  }

  /** The `remove_newlines` transform. */
  function RemoveNewlines(text: string): string {
    DropWs(DropLineBreaks(text))
  }

  /** DropWs filters piecewise: the whitespace-free part of a concatenation
      is the concatenation of the whitespace-free parts. */
  lemma {:induction false} DropWsAppend(a: string, b: string)
    ensures DropWs(a + b) == DropWs(a) + DropWs(b)
  {
    if a == [] {
      assert a + b == b;
    } else {
      assert (a + b)[1..] == a[1..] + b;
      DropWsAppend(a[1..], b);
    }
  }

  /** A string without whitespace passes the filter unchanged. */
  lemma {:induction false} DropWsKeeps(s: string)
    requires WsFree(s)
    ensures DropWs(s) == s
  {
    if s != [] {
      DropWsKeeps(s[1..]);
    }
  }

  /** A blank string is filtered out entirely. */
  lemma {:induction false} DropWsBlank(s: string)
    requires IsBlank(s)
    ensures DropWs(s) == []
  {
    if s != [] {
      DropWsBlank(s[1..]);
    }
  }

  /** Removing the line breaks first changes nothing: the two substitutions
      together delete exactly the whitespace characters of the text. */
  lemma {:induction false} RemoveNewlinesDropsWs(text: string)
    ensures RemoveNewlines(text) == DropWs(text)
    decreases |text|
  {
    if text != [] {
      if text[0] == '\n' {
        RemoveNewlinesDropsWs(text[1..]);
      } else if |text| >= 2 && text[0] == '\r' && text[1] == '\n' {
        RemoveNewlinesDropsWs(text[2..]);
        assert text[1..][1..] == text[2..];
      } else {
        RemoveNewlinesDropsWs(text[1..]);
        var rest := DropLineBreaks(text[1..]);
        assert ([text[0]] + rest)[1..] == rest;
      }
    }
  }

  /** The result has no whitespace at all. */
  lemma RemoveNewlinesWsFree(text: string)
    ensures WsFree(RemoveNewlines(text))
    ensures |RemoveNewlines(text)| <= |text|
  {
  }

  /** Applying the transform twice is applying it once. */
  lemma RemoveNewlinesIdempotent(text: string)
    ensures RemoveNewlines(RemoveNewlines(text)) == RemoveNewlines(text)
  {
    var once := RemoveNewlines(text);
    RemoveNewlinesDropsWs(once);
    DropWsKeeps(once);
  }

  /** "a \t\nb\r\nc" becomes "abc". */
  lemma Example()
    ensures RemoveNewlines("a \t\nb\r\nc") == "abc"
  {
    RemoveNewlinesDropsWs("a \t\nb\r\nc");
  }
}
