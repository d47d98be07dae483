/** The key=value messages of the proxy-renewal protocol. */
module Tokens {
  import opened CText
  import opened Numerals

  /** The only separator that is used. */
  const SEPARATORS := "\n"
  const BUF_SIZE := 4096
  const LINE_SIZE := 2048

  datatype Token = Token(key: string, value: string)

  /** What a call of edg_wlpr_GetToken returns. */
  datatype Found = Value(text: string) | NotFound | ParseError

  // ----- Reading

  predicate StartsWith(s: string, key: string) {
    |key| <= |s| && s[..|key|] == key
  }

  /** strstr(): the rest of s from the first occurrence of key on. */
  function StrStr(s: string, key: string): (r: Option<string>)
    ensures r.Some? ==> |r.value| <= |s| && StartsWith(r.value, key)
  {
    if StartsWith(s, key) then Some(s)
    else if s == "" then None
    else StrStr(s[1..], key)
  }

  /** The rest of s from occurrence n of key on, when each search starts after the last occurrence. */
  function Nth(s: string, key: string, n: nat): (r: Option<string>)
    ensures r.Some? ==> StartsWith(r.value, key)
    decreases n
  {
    var p := StrStr(s, key);
    if p == None || n == 0 then p else Nth(p.value[|key|..], key, n - 1)
  }

  /** strcspn(): the length of the longest prefix without a separator. */
  function SpanWithout(s: string, separators: string): (r: nat)
    ensures r <= |s| && (r < |s| ==> s[r] in separators)
    ensures forall i :: 0 <= i < r ==> s[i] !in separators
  {
    if s == "" || s[0] in separators then 0 else 1 + SpanWithout(s[1..], separators)
  }

  /** The value after the first '=' of p, up to a separator. */
  function ValueIn(p: string, separators: string): Found {
    var eq := IndexOf(p, '=');
    if eq == |p| then ParseError
    else
      var len := SpanWithout(p[eq + 1..], separators);
      if len == 0 then ParseError else Value(p[eq + 1..][..len])
  }

  function TokenAt(msg: string, key: string, separators: string, index: nat): Found {
    var p := Nth(msg, key, index);
    if p == None then NotFound else ValueIn(p.value, separators)
  }

  method FindString(s: string, key: string) returns (p: Option<string>)
    ensures p == StrStr(s, key)
  {
    var i := 0;
    assert s[0..] == s;
    while true
      invariant 0 <= i <= |s| && StrStr(s, key) == StrStr(s[i..], key)
      decreases |s| - i
    {
      if StartsWith(s[i..], key) {
        return Some(s[i..]);
      }
      if i == |s| {
        return None;
      }
      assert s[i..][1..] == s[i + 1..];
      i := i + 1;
    }
  }

  /** edg_wlpr_GetToken. */
  method GetToken(msg: string, key: string, separators: string, reqIndex: nat) returns (r: Found)
    ensures r == TokenAt(msg, key, separators, reqIndex)
  {
    hide StrStr, ValueIn;
    var index := 0;
    var p := FindString(msg, key);
    while p.Some? && index != reqIndex
      invariant 0 <= index <= reqIndex && (p.Some? ==> StartsWith(p.value, key))
      invariant Nth(msg, key, reqIndex)
                == if p == None || index == reqIndex then p else Nth(p.value[|key|..], key, reqIndex - index - 1)
      decreases reqIndex - index
    {
      index := index + 1;
      p := FindString(p.value[|key|..], key);
    }
    if p == None {
      return NotFound;
    }
    r := ReadValue(p.value, separators);
  }

  method ReadValue(p: string, separators: string) returns (r: Found)
    ensures r == ValueIn(p, separators)
  {
    var eq := IndexOf(p, '=');
    if eq == |p| {
      return ParseError;
    }
    var len := SpanWithout(p[eq + 1..], separators);
    if len == 0 {
      return ParseError;
    }
    var value := new char[len](i requires 0 <= i < len => p[eq + 1 + i]);
    assert value[..] == p[eq + 1..][..len];
    r := Value(value[..]);
  }

  // ----- A message made of tokens

  function Line(t: Token): string {
    t.key + t.value + SEPARATORS
  }

  function Text(tokens: seq<Token>): string {
    if tokens == [] then "" else Line(tokens[0]) + Text(tokens[1..])
  }

  function Values(tokens: seq<Token>, key: string): seq<string> {
    if tokens == [] then []
    else (if tokens[0].key == key then [tokens[0].value] else []) + Values(tokens[1..], key)
  }

  /** A key ends in its only '=' and has no separator in it. */
  predicate IsKey(key: string) {
    key != "" && IndexOf(key, '=') == |key| - 1 && '\n' !in key
  }

  predicate IsToken(t: Token) {
    IsKey(t.key) && t.value != "" && '\n' !in t.value
  }

  predicate IsSuffix(a: string, b: string) {
    |a| <= |b| && b[|b| - |a|..] == a
  }

  /** Keys that a reader of one of them cannot mistake for it. */
  predicate KeysApart(tokens: seq<Token>, key: string) {
    forall t :: t in tokens ==> IsToken(t) && (t.key != key ==> !IsSuffix(key, t.key))
  }

  predicate Contains(s: string, key: string) {
    StrStr(s, key).Some?
  }

  /** How often key occurs, when each search starts after the last occurrence. */
  function Count(s: string, key: string): nat
    requires key != ""
    decreases |s|
  {
    var p := StrStr(s, key);
    if p == None then 0 else 1 + Count(p.value[|key|..], key)
  }

  lemma {:induction false} NthExists(s: string, key: string, n: nat)
    requires key != ""
    ensures Nth(s, key, n).Some? <==> n < Count(s, key)
    decreases n
  {
    var p := StrStr(s, key);
    if p.Some? && n > 0 {
      NthExists(p.value[|key|..], key, n - 1);
    }
  }

  /** No occurrence of a key crosses the end of a line. */
  lemma {:induction false} StrStrLine(line: string, rest: string, key: string)
    requires IsKey(key) && (line == "" || line[|line| - 1] == '\n')
    ensures StrStr(line + rest, key)
            == if StrStr(line, key).Some? then Some(StrStr(line, key).value + rest) else StrStr(rest, key)
  {
    if line == "" {
      assert line + rest == rest;
    } else {
      if |key| <= |line| {
        assert (line + rest)[..|key|] == line[..|key|];
      } else if |key| <= |line + rest| {
        assert (line + rest)[..|key|][|line| - 1] == '\n';
      }
      assert (line + rest)[1..] == line[1..] + rest;
      StrStrLine(line[1..], rest, key);
    }
  }

  lemma {:induction false} StrStrEnd(s: string, key: string)
    requires IsKey(key) && s != "" && s[|s| - 1] == '\n' && StrStr(s, key).Some?
    ensures var rest := StrStr(s, key).value[|key|..]; rest != "" && rest[|rest| - 1] == '\n'
  {
    if StartsWith(s, key) {
      assert s[..|key|][|key| - 1] == '=';
    } else {
      StrStrEnd(s[1..], key);
    }
  }

  /** The occurrences in a line come before those in the rest. */
  lemma {:induction false} CountLine(line: string, rest: string, key: string, n: nat)
    requires IsKey(key) && (line == "" || line[|line| - 1] == '\n')
    ensures Count(line + rest, key) == Count(line, key) + Count(rest, key)
    ensures n >= Count(line, key) ==> Nth(line + rest, key, n) == Nth(rest, key, n - Count(line, key))
    decreases |line|
  {
    StrStrLine(line, rest, key);
    var p := StrStr(line, key);
    if p.Some? {
      StrStrEnd(line, key);
      assert (p.value + rest)[|key|..] == p.value[|key|..] + rest;
      CountLine(p.value[|key|..], rest, key, if n > 0 then n - 1 else 0);
    }
  }

  /** A key does not occur from inside another one on. */
  lemma KeyIsOver(own: string, after: string, key: string, a: nat)
    requires IsKey(own) && IsKey(key) && a < |own| && (own == key ==> a > 0) && (own != key ==> !IsSuffix(key, own))
    ensures !StartsWith((own + after)[a..], key)
  {
    var s := (own + after)[a..];
    if |key| <= |s| {
      var last := |own| - 1 - a;
      assert own[|own| - 1] == '=' && key[|key| - 1] == '=';
      if |key| - 1 > last {
        assert s[..|key|][last] == own[|own| - 1];
      } else if |key| - 1 == last {
        assert s[..|key|] == own[a..];
      } else {
        assert s[..|key|][|key| - 1] == own[a + |key| - 1] != '=';
      }
    }
  }

  lemma {:induction false} SkipKey(own: string, after: string, key: string, a: nat)
    requires IsKey(own) && IsKey(key) && a <= |own| && (own == key ==> a > 0) && (own != key ==> !IsSuffix(key, own))
    ensures StrStr((own + after)[a..], key) == StrStr(after, key)
    decreases |own| - a
  {
    if a == |own| {
      assert (own + after)[a..] == after;
    } else {
      KeyIsOver(own, after, key, a);
      assert (own + after)[a..][1..] == (own + after)[a + 1..];
      SkipKey(own, after, key, a + 1);
    }
  }

  /** A line has its own key, if that is the one, and what is in its value. */
  lemma LineCount(t: Token, key: string)
    requires IsKey(key) && IsToken(t) && (t.key != key ==> !IsSuffix(key, t.key))
    ensures var own := if t.key == key then 1 else 0;
            && Count(Line(t), key) == own + Count(t.value + SEPARATORS, key)
            && (Count(t.value + SEPARATORS, key) > 0 <==> Contains(t.value, key))
    ensures t.key == key ==> Nth(Line(t), key, 0) == Some(Line(t))
  {
    var after := t.value + SEPARATORS;
    assert Line(t) == t.key + after;
    if t.key == key {
      assert Line(t)[..|key|] == key && Line(t)[|key|..] == after;
    } else {
      assert Line(t)[0..] == Line(t);
      SkipKey(t.key, after, key, 0);
    }
    ValueEnds(t.value, key);
  }

  /** The separator after a value is not part of an occurrence. */
  lemma {:induction false} ValueEnds(value: string, key: string)
    requires IsKey(key)
    ensures Contains(value + "\n", key) <==> Contains(value, key)
  {
    var s := value + "\n";
    assert s[|value|] == '\n';
    if |key| == |s| {
      assert key[|value|] != s[|value|];
    } else if |key| <= |value| {
      assert s[..|key|] == value[..|key|];
    }
    if value != "" {
      assert s[1..] == value[1..] + "\n";
      ValueEnds(value[1..], key);
    } else {
      assert s[1..] == "";
    }
  }

  /** The value of a token is read from its key on, whatever follows its line. */
  lemma ValueOfLine(t: Token, rest: string)
    requires IsToken(t)
    ensures ValueIn(Line(t) + rest, SEPARATORS) == Value(t.value)
  {
    var p := Line(t) + rest;
    var eq := |t.key| - 1;
    assert forall i :: 0 <= i <= eq ==> p[i] == t.key[i];
    IndexOfIs(p, '=', eq);
    var after := p[eq + 1..];
    assert after == t.value + (SEPARATORS + rest);
    SpanIs(after, SEPARATORS, |t.value|);
  }

  lemma SpanIs(s: string, separators: string, k: nat)
    requires k < |s| && s[k] in separators && forall i :: 0 <= i < k ==> s[i] !in separators
    ensures SpanWithout(s, separators) == k
  {
    var r := SpanWithout(s, separators);
  }

  lemma {:induction false} CountText(tokens: seq<Token>, key: string)
    requires IsKey(key) && KeysApart(tokens, key)
    ensures Count(Text(tokens), key) >= |Values(tokens, key)|
    ensures Count(Text(tokens), key) == |Values(tokens, key)| <==> forall t :: t in tokens ==> !Contains(t.value, key)
  {
    if tokens != [] {
      var t := tokens[0];
      LineCount(t, key);
      CountLine(Line(t), Text(tokens[1..]), key, 0);
      CountText(tokens[1..], key);
      assert forall u :: u in tokens <==> u == t || u in tokens[1..];
    }
  }

  /** Clean values: occurrence i is the i-th token of the key. */
  lemma {:induction false} ReadsBack(tokens: seq<Token>, key: string, i: nat)
    requires IsKey(key) && KeysApart(tokens, key) && forall t :: t in tokens ==> !Contains(t.value, key)
    ensures TokenAt(Text(tokens), key, SEPARATORS, i)
            == if i < |Values(tokens, key)| then Value(Values(tokens, key)[i]) else NotFound
    decreases |tokens|
  {
    hide StrStr, ValueIn, IsSuffix, Count;
    if tokens == [] {
      EmptyText(key, i);
    } else {
      var t, rest := tokens[0], Text(tokens[1..]);
      LineCount(t, key);
      CountLine(Line(t), rest, key, i);
      if t.key == key && i == 0 {
        OwnLine(t, rest);
      } else {
        ReadsBack(tokens[1..], key, if t.key == key then i - 1 else i);
      }
    }
  }

  lemma EmptyText(key: string, i: nat)
    requires IsKey(key)
    ensures TokenAt("", key, SEPARATORS, i) == NotFound
  {
  }

  lemma OwnLine(t: Token, rest: string)
    requires IsToken(t)
    ensures TokenAt(Line(t) + rest, t.key, SEPARATORS, 0) == Value(t.value)
  {
    hide ValueIn;
    assert (Line(t) + rest)[..|t.key|] == t.key;
    ValueOfLine(t, rest);
  }

  /** Reading a key gives the values stored under it, in order and then none, for every index,
      exactly when no value contains the key. */
  lemma TokensReadBack(tokens: seq<Token>, key: string)
    requires IsKey(key) && KeysApart(tokens, key)
    ensures (forall t :: t in tokens ==> !Contains(t.value, key))
            <==> forall i: nat :: TokenAt(Text(tokens), key, SEPARATORS, i)
                                  == if i < |Values(tokens, key)| then Value(Values(tokens, key)[i]) else NotFound
  {
    hide Contains, KeysApart, IsKey, ValueIn, Nth, Count;
    var values := Values(tokens, key);
    if forall t :: t in tokens ==> !Contains(t.value, key) {
      forall i: nat
        ensures TokenAt(Text(tokens), key, SEPARATORS, i) == if i < |values| then Value(values[i]) else NotFound
      {
        ReadsBack(tokens, key, i);
      }
    } else {
      KeyNotEmpty(key);
      CountText(tokens, key);
      NthExists(Text(tokens), key, |values|);
      OneTooMany(Text(tokens), key, |values|);
    }
  }

  lemma KeyNotEmpty(key: string)
    requires IsKey(key)
    ensures key != ""
  {
  }

  lemma OneTooMany(msg: string, key: string, n: nat)
    requires Nth(msg, key, n).Some?
    ensures TokenAt(msg, key, SEPARATORS, n) != NotFound
  {
    hide Nth;
  }
}
