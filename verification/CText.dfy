/** C strings as the modelled files use them. A C string is the sequence of its characters
    before the terminating NUL; the end of the sequence stands for that NUL. */
module CText {
  /** A pointer that may be NULL. */
  datatype Option<+T> = None | Some(value: T)

  const TWO32: int := 0x1_0000_0000
  const TWO64: int := 0x1_0000_0000_0000_0000

  /** An unsigned 64-bit machine word. */
  type uint64 = n: int | 0 <= n < TWO64

  type byte = n: int | 0 <= n < 256

  function Max(a: int, b: int): int { if a < b then b else a }

  function Min(a: int, b: int): int { if a < b then a else b }

  /** Conversion of an integer to the signed 32-bit type int. */
  function ToInt32(n: int): int {
    var r := n % TWO32;
    if r < TWO32 / 2 then r else r - TWO32
  }

  /** isspace() in the C locale. */
  predicate IsSpace(c: char) {
    c == ' ' || 9 <= c as int <= 13
  }

  predicate IsDigit(c: char) {
    '0' <= c <= '9'
  }

  /** toupper() in the C locale. */
  function ToUpper(c: char): char {
    if 'a' <= c <= 'z' then (c as int - 32) as char else c
  }

  function ToUpperAll(s: string): (r: string)
    ensures |r| == |s| && forall i :: 0 <= i < |s| ==> r[i] == ToUpper(s[i])
  {
    seq(|s|, i requires 0 <= i < |s| => ToUpper(s[i]))
  }

  /** strchr(): the index of the first c in s, or |s| when there is none. */
  function IndexOf(s: string, c: char): (r: nat)
    ensures r <= |s|
    ensures r < |s| ==> s[r] == c
    ensures forall i :: 0 <= i < r ==> s[i] != c
  {
    if s == [] || s[0] == c then 0 else 1 + IndexOf(s[1..], c)
  }

  /** The index found by IndexOf is determined by what its contract says of it. */
  lemma IndexOfIs(s: string, c: char, k: nat)
    requires k <= |s| && (k < |s| ==> s[k] == c)
    requires forall i :: 0 <= i < k ==> s[i] != c
    ensures IndexOf(s, c) == k
  {
    var r := IndexOf(s, c);
  }

  /** n copies of c. */
  function Fill(c: char, n: int): (r: string)
    ensures |r| == Max(n, 0)
    ensures forall i :: 0 <= i < |r| ==> r[i] == c
  {
    seq(Max(n, 0), _ => c)
  }

  /** The length of the longest prefix of white space. */
  function SpaceRun(s: string): (r: nat)
    ensures r <= |s| && (r < |s| ==> !IsSpace(s[r]))
    ensures forall i :: 0 <= i < r ==> IsSpace(s[i])
  {
    if s == [] || !IsSpace(s[0]) then 0 else 1 + SpaceRun(s[1..])
  }

  lemma SpaceRunIs(s: string, k: nat)
    requires k <= |s| && (k < |s| ==> !IsSpace(s[k])) && forall i :: 0 <= i < k ==> IsSpace(s[i])
    ensures SpaceRun(s) == k
  {
    var r := SpaceRun(s);
  }

  /** The length of the longest prefix of decimal digits. */
  function DigitRun(s: string): (r: nat)
    ensures r <= |s| && (r < |s| ==> !IsDigit(s[r]))
    ensures forall i :: 0 <= i < r ==> IsDigit(s[i])
  {
    if s == [] || !IsDigit(s[0]) then 0 else 1 + DigitRun(s[1..])
  }

  lemma DigitRunIs(s: string, k: nat)
    requires k <= |s| && (k < |s| ==> !IsDigit(s[k]))
    requires forall i :: 0 <= i < k ==> IsDigit(s[i])
    ensures DigitRun(s) == k
  {
    var r := DigitRun(s);
  }

  /** The C string at the start of s: what comes before its first NUL. */
  function UpToNul(s: string): (r: string)
    ensures '\0' !in r && r <= s && (|r| < |s| ==> s[|r|] == '\0')
  {
    s[..IndexOf(s, '\0')]
  }

  /** A buffer that holds a C string. */
  ghost predicate IsCString(a: array<char>, text: string)
    reads a
  {
    |text| < a.Length && a[..|text|] == text && a[|text|] == '\0'
  }

  /** The characters of s, each replaced by what u makes of it. */
  function Expand(s: string, u: char -> string): string {
    if s == [] then "" else Expand(s[..|s| - 1], u) + u(s[|s| - 1])
  }

  lemma {:induction false} ExpandFirst(s: string, u: char -> string)
    requires s != []
    ensures Expand(s, u) == u(s[0]) + Expand(s[1..], u)
  {
    if |s| > 1 {
      var init := s[..|s| - 1];
      ExpandFirst(init, u);
      assert s[1..][..|s| - 2] == init[1..];
      assert u(s[0]) + Expand(init[1..], u) + u(s[|s| - 1]) == u(s[0]) + (Expand(init[1..], u) + u(s[|s| - 1]));
    }
  }
}
