/** Wildcard matching: '*' stands for any run of characters and '?' for one. */
module StrMatch {
  import opened CText

  function Concat(pieces: seq<string>): string {
    if pieces == [] then "" else pieces[0] + Concat(pieces[1..])
  }

  /** What one character of a pattern stands for. */
  predicate Fits(piece: string, c: char) {
    c == '*' || (|piece| == 1 && (c == '?' || piece[0] == c))
  }

  ghost predicate FitAll(pieces: seq<string>, pattern: string) {
    |pieces| == |pattern| && forall i :: 0 <= i < |pattern| ==> Fits(pieces[i], pattern[i])
  }

  /** The language of a pattern: the strings that can be cut into one piece for each of its
      characters. */
  ghost predicate InLanguage(s: string, pattern: string) {
    exists pieces :: FitAll(pieces, pattern) && Concat(pieces) == s
  }

  lemma EmptyPattern(s: string)
    ensures InLanguage(s, "") <==> s == ""
  {
    assert FitAll([], "") && Concat([]) == "";
  }

  /** A pattern that starts with a letter or '?' takes one character. */
  lemma OneCharacter(s: string, p: string)
    requires p != "" && p[0] != '*'
    ensures InLanguage(s, p) <==> s != "" && (p[0] == '?' || p[0] == s[0]) && InLanguage(s[1..], p[1..])
  {
    if InLanguage(s, p) {
      var pieces :| FitAll(pieces, p) && Concat(pieces) == s;
      assert Fits(pieces[0], p[0]);
      assert FitAll(pieces[1..], p[1..]) && Concat(pieces[1..]) == s[1..];
    }
    if s != "" && (p[0] == '?' || p[0] == s[0]) && InLanguage(s[1..], p[1..]) {
      var pieces :| FitAll(pieces, p[1..]) && Concat(pieces) == s[1..];
      var all := [[s[0]]] + pieces;
      assert all[1..] == pieces && FitAll(all, p) && Concat(all) == s;
    }
  }

  /** A pattern that starts with '*' takes any prefix. */
  lemma AnyRun(s: string, p: string)
    requires p != "" && p[0] == '*'
    ensures InLanguage(s, p) <==> exists k :: 0 <= k <= |s| && InLanguage(s[k..], p[1..])
  {
    if InLanguage(s, p) {
      var pieces :| FitAll(pieces, p) && Concat(pieces) == s;
      var k := |pieces[0]|;
      assert FitAll(pieces[1..], p[1..]) && Concat(pieces[1..]) == s[k..];
    }
    if k :| 0 <= k <= |s| && InLanguage(s[k..], p[1..]) {
      var pieces :| FitAll(pieces, p[1..]) && Concat(pieces) == s[k..];
      var all := [s[..k]] + pieces;
      assert all[1..] == pieces && FitAll(all, p) && Concat(all) == s;
    }
  }

  /** Two stars are one. */
  lemma StarsCollapse(s: string, p: string)
    requires |p| > 1 && p[0] == '*' && p[1] == '*'
    ensures InLanguage(s, p) <==> InLanguage(s, p[1..])
  {
    AnyRun(s, p);
    AnyRun(s, p[1..]);
    if InLanguage(s, p) {
      var k :| 0 <= k <= |s| && InLanguage(s[k..], p[1..]);
      AnyRun(s[k..], p[1..]);
      var l :| 0 <= l <= |s[k..]| && InLanguage(s[k..][l..], p[1..][1..]);
      assert s[k..][l..] == s[k + l..];
    }
    if InLanguage(s, p[1..]) {
      assert s[0..] == s;
    }
  }

  /** The case-sensitive matcher decides the language. */
  method StrMatchCase(s: string, p: string) returns (found: bool)
    ensures found <==> InLanguage(s, p)
    decreases |p|
  {
    var text, pattern := s, p;
    while pattern == "" || pattern[0] != '*'
      invariant InLanguage(s, p) <==> InLanguage(text, pattern)
      invariant |pattern| <= |p|
      decreases |text|
    {
      if pattern == "" {
        EmptyPattern(text);
      } else {
        OneCharacter(text, pattern);
      }
      if text == "" {
        return pattern == "";
      }
      if pattern == "" || (text[0] != pattern[0] && '?' != pattern[0]) {
        return false;
      }
      pattern, text := pattern[1..], text[1..];
    }
    while |pattern| > 1 && pattern[1] == '*'
      invariant pattern != "" && pattern[0] == '*' && |pattern| <= |p|
      invariant InLanguage(s, p) <==> InLanguage(text, pattern)
    {
      StarsCollapse(text, pattern);
      pattern := pattern[1..];
    }
    AnyRun(text, pattern);
    var k := 0;
    while true
      invariant 0 <= k <= |text|
      invariant forall i :: 0 <= i < k ==> !InLanguage(text[i..], pattern[1..])
      decreases |text| - k
    {
      found := StrMatchCase(text[k..], pattern[1..]);
      if found || k == |text| {
        return;
      }
      k := k + 1;
    }
  }

  lemma ToUpperTail(s: string, k: nat)
    requires k <= |s|
    ensures ToUpperAll(s)[k..] == ToUpperAll(s[k..])
  {
  }

  /** The matcher that ignores case decides the language of the upper-case pattern. */
  method StrMatch(s: string, p: string) returns (found: bool)
    ensures found <==> InLanguage(ToUpperAll(s), ToUpperAll(p))
    decreases |p|
  {
    var text, pattern := s, p;
    while pattern == "" || pattern[0] != '*'
      invariant InLanguage(ToUpperAll(s), ToUpperAll(p)) <==> InLanguage(ToUpperAll(text), ToUpperAll(pattern))
      invariant |pattern| <= |p|
      decreases |text|
    {
      if pattern == "" {
        EmptyPattern(ToUpperAll(text));
      } else {
        OneCharacter(ToUpperAll(text), ToUpperAll(pattern));
      }
      if text == "" {
        return pattern == "";
      }
      if pattern == "" || (ToUpper(text[0]) != ToUpper(pattern[0]) && '?' != pattern[0]) {
        return false;
      }
      ToUpperTail(text, 1);
      ToUpperTail(pattern, 1);
      pattern, text := pattern[1..], text[1..];
    }
    while |pattern| > 1 && pattern[1] == '*'
      invariant pattern != "" && pattern[0] == '*' && |pattern| <= |p|
      invariant InLanguage(ToUpperAll(s), ToUpperAll(p)) <==> InLanguage(ToUpperAll(text), ToUpperAll(pattern))
    {
      StarsCollapse(ToUpperAll(text), ToUpperAll(pattern));
      ToUpperTail(pattern, 1);
      pattern := pattern[1..];
    }
    AnyRun(ToUpperAll(text), ToUpperAll(pattern));
    ToUpperTail(pattern, 1);
    var k := 0;
    while true
      invariant 0 <= k <= |text|
      invariant forall i :: 0 <= i < k ==> !InLanguage(ToUpperAll(text)[i..], ToUpperAll(pattern)[1..])
      decreases |text| - k
    {
      ToUpperTail(text, k);
      found := StrMatch(text[k..], pattern[1..]);
      if found || k == |text| {
        return;
      }
      k := k + 1;
    }
  }

  function ToUpperPieces(pieces: seq<string>): (r: seq<string>)
    ensures |r| == |pieces| && forall i :: 0 <= i < |r| ==> r[i] == ToUpperAll(pieces[i])
  {
    seq(|pieces|, i requires 0 <= i < |pieces| => ToUpperAll(pieces[i]))
  }

  lemma {:induction false} ConcatUpper(pieces: seq<string>)
    ensures Concat(ToUpperPieces(pieces)) == ToUpperAll(Concat(pieces))
  {
    if pieces != [] {
      ConcatUpper(pieces[1..]);
      assert ToUpperPieces(pieces)[1..] == ToUpperPieces(pieces[1..]);
      assert ToUpperAll(pieces[0] + Concat(pieces[1..])) == ToUpperAll(pieces[0]) + ToUpperAll(Concat(pieces[1..]));
    }
  }

  /** What matches with its case also matches without. */
  lemma CaseImpliesNoCase(s: string, p: string)
    requires InLanguage(s, p)
    ensures InLanguage(ToUpperAll(s), ToUpperAll(p))
  {
    var pieces :| FitAll(pieces, p) && Concat(pieces) == s;
    ConcatUpper(pieces);
    assert FitAll(ToUpperPieces(pieces), ToUpperAll(p));
  }
}
