/** Job identifiers: https://host:port/unique?info. */
module JobId {
  import opened CText
  import opened Numerals
  import Base64

  const DEFAULT_PORT := 9000
  const PROTO_PREFIX := "https://"

  type uint32 = n: int | 0 <= n < TWO32

  datatype Job = Job(id: string, host: string, port: uint32, info: Option<string>)

  predicate HasPrefix(s: string) {
    |s| >= |PROTO_PREFIX| && s[..|PROTO_PREFIX|] == PROTO_PREFIX
  }

  predicate NoSpace(s: string) {
    forall i :: 0 <= i < |s| ==> !IsSpace(s[i])
  }

  /** glite_lbu_JobIdUnparse. The port is printed as a signed int, and 0 not at all. */
  function Unparse(j: Job): string {
    var port := if j.port != 0 then ":" + SignedDecimal(ToInt32(j.port)) else "";
    PROTO_PREFIX + j.host + port + "/" + j.id + (if j.info.Some? then "?" + j.info.value else "")
  }

  /** The job in the text after the prefix, or None for EINVAL. */
  function ParseRest(rest: string): Option<Job> {
    var slash, colon := IndexOf(rest, '/'), IndexOf(rest, ':');
    if slash == |rest| then None
    else
      var path := rest[slash + 1..];
      var query := IndexOf(path, '?');
      var host := if colon < slash then rest[..colon] else rest[..slash];
      var port := if colon < slash then StrToULong(rest[colon + 1..slash]) % TWO32 else DEFAULT_PORT;
      var info := if query < |path| then Some(path[query + 1..]) else None;
      if NoSpace(host) && NoSpace(path[..query]) then Some(Job(path[..query], host, port, info)) else None
  }

  /** What glite_lbu_JobIdParse makes of a text. */
  function ParseText(s: string): Option<Job> {
    if HasPrefix(s) then ParseRest(s[|PROTO_PREFIX|..]) else None
  }

  /** glite_lbu_JobIdGetServer. */
  function GetServer(j: Job): string {
    j.host + ":" + Decimal(if j.port != 0 then j.port else DEFAULT_PORT)
  }

  /** A host and a unique part that the separators of the text do not cut. */
  predicate Separable(j: Job) {
    '/' !in j.host && ':' !in j.host && NoSpace(j.host) && '?' !in j.id && NoSpace(j.id)
  }

  /** Port 0 stands for the default port. */
  function Normal(j: Job): Job {
    if j.port == 0 then j.(port := DEFAULT_PORT) else j
  }

  lemma PortIsRead(port: uint32)
    ensures StrToULong(SignedDecimal(ToInt32(port))) % TWO32 == port
  {
    hide StrToULong, SignedDecimal;
    StrToULongOfDecimal(ToInt32(port));
    assert ToInt32(port) == if port < TWO32 / 2 then port else port - TWO32;
  }

  lemma NotInDecimal(n: int, c: char)
    requires !IsDigit(c) && c != '-'
    ensures c !in SignedDecimal(n)
  {
  }

  /** A separable job is read back, up to the default port. */
  lemma UnparseThenParse(j: Job)
    requires Separable(j)
    ensures ParseText(Unparse(j)) == Some(Normal(j))
  {
    hide SignedDecimal, ParseRest, Separable, Normal;
    var port := if j.port != 0 then ":" + SignedDecimal(ToInt32(j.port)) else "";
    var path := j.id + (if j.info.Some? then "?" + j.info.value else "");
    var rest := j.host + port + "/" + path;
    assert Unparse(j) == PROTO_PREFIX + rest;
    assert Unparse(j)[|PROTO_PREFIX|..] == rest && HasPrefix(Unparse(j));
    RestIsParsed(j, port, path, rest);
  }

  lemma RestIsParsed(j: Job, port: string, path: string, rest: string)
    requires Separable(j) && path == j.id + (if j.info.Some? then "?" + j.info.value else "")
    requires port == (if j.port != 0 then ":" + SignedDecimal(ToInt32(j.port)) else "")
    requires rest == j.host + port + "/" + path
    ensures ParseRest(rest) == Some(Normal(j))
  {
    hide SignedDecimal, StrToULong, IndexOf, NoSpace;
    PathParts(j, path);
    HostParts(j, port, path, rest);
  }

  lemma PathParts(j: Job, path: string)
    requires path == j.id + (if j.info.Some? then "?" + j.info.value else "") && '?' !in j.id
    ensures IndexOf(path, '?') == |j.id| && path[..|j.id|] == j.id
    ensures j.info.Some? ==> |j.id| < |path| && path[|j.id| + 1..] == j.info.value
    ensures j.info == None ==> |j.id| == |path|
  {
    IndexOfIs(path, '?', |j.id|);
  }

  lemma HostParts(j: Job, port: string, path: string, rest: string)
    requires port == (if j.port != 0 then ":" + SignedDecimal(ToInt32(j.port)) else "")
    requires rest == j.host + port + "/" + path && '/' !in j.host && ':' !in j.host
    ensures var slash, colon := IndexOf(rest, '/'), IndexOf(rest, ':');
            && slash < |rest| && rest[slash + 1..] == path
            && (colon < slash <==> j.port != 0)
            && (colon < slash ==> rest[..colon] == j.host
                                  && StrToULong(rest[colon + 1..slash]) % TWO32 == j.port)
            && (colon >= slash ==> rest[..slash] == j.host)
  {
    hide SignedDecimal, StrToULong, IndexOf;
    var slash := |j.host| + |port|;
    NotInDecimal(ToInt32(j.port), '/');
    assert '/' !in port;
    IndexOfIs(rest, '/', slash);
    if j.port != 0 {
      PortIsRead(j.port);
      IndexOfIs(rest, ':', |j.host|);
      assert rest[|j.host| + 1..slash] == SignedDecimal(ToInt32(j.port));
    } else {
      assert forall i :: 0 <= i < slash ==> rest[i] == j.host[i];
    }
  }

  /** What parsing gives is separable. */
  lemma ParsedIsSeparable(s: string)
    requires ParseText(s).Some?
    ensures Separable(ParseText(s).value)
  {
    hide StrToULong;
    var rest := s[|PROTO_PREFIX|..];
    var slash, colon := IndexOf(rest, '/'), IndexOf(rest, ':');
    assert forall i :: 0 <= i < slash && i < colon ==> rest[i] != '/' && rest[i] != ':';
  }

  /** A job survives printing and parsing exactly when its port is not 0 and it is separable. */
  lemma RoundTrip(j: Job)
    ensures ParseText(Unparse(j)) == Some(j) <==> j.port != 0 && Separable(j)
  {
    if Separable(j) {
      UnparseThenParse(j);
    } else if ParseText(Unparse(j)) == Some(j) {
      ParsedIsSeparable(Unparse(j));
    }
  }

  /** Every text that parses is printed as one that parses to the same job, with the default port in
      place of 0, and both name the same server. */
  lemma ParseUnparseParse(s: string)
    requires ParseText(s).Some?
    ensures var j := ParseText(s).value;
            && ParseText(Unparse(j)) == Some(Normal(j)) && GetServer(Normal(j)) == GetServer(j)
            && Unparse(Normal(Normal(j))) == Unparse(Normal(j))
  {
    ParsedIsSeparable(s);
    UnparseThenParse(ParseText(s).value);
  }

  /** The server's name is in the text of a job as it is: with the unique part behind it, it reads as the
      job, with its port or the default one, and without the information. */
  lemma ServerIsRead(j: Job)
    requires Separable(j)
    ensures ParseText(PROTO_PREFIX + GetServer(j) + "/" + j.id) == Some(Normal(j).(info := None))
  {
    hide ParseRest, Decimal, StrToULong, IndexOf, NoSpace;
    var port := if j.port != 0 then j.port else DEFAULT_PORT;
    var rest := j.host + ":" + Decimal(port) + "/" + j.id;
    PortDigits(port);
    ServerParts(j.host, Decimal(port), j.id, rest);
    IndexOfIs(j.id, '?', |j.id|);
    assert j.id[..|j.id|] == j.id;
    RestParts(rest, j.host, port, j.id, None);
    var text := PROTO_PREFIX + GetServer(j) + "/" + j.id;
    assert text == PROTO_PREFIX + rest && text[|PROTO_PREFIX|..] == rest && HasPrefix(text);
  }

  lemma ServerParts(host: string, digits: string, id: string, rest: string)
    requires rest == host + ":" + digits + "/" + id && '/' !in host && ':' !in host && '/' !in digits
    ensures IndexOf(rest, ':') == |host| < |host| + 1 + |digits| == IndexOf(rest, '/') < |rest|
    ensures rest[..|host|] == host && rest[|host| + 1..|host| + 1 + |digits|] == digits
    ensures rest[|host| + 2 + |digits|..] == id
  {
    hide IndexOf;
    IndexOfIs(rest, ':', |host|);
    IndexOfIs(rest, '/', |host| + 1 + |digits|);
  }

  lemma PortDigits(port: uint32)
    ensures StrToULong(Decimal(port)) == port && '/' !in Decimal(port) && ':' !in Decimal(port)
  {
    hide StrToULong;
    StrToULongOfDecimal(port);
  }

  // ----- Creation

  /** atoi(). */
  function Atoi(s: string): int {
    ToInt32(StrToLong(s).0)
  }

  /** glite_lbu_JobIdRecreate for a server and a unique part; None for EINVAL. */
  function Recreate(server: string, port: int, unique: string): Option<Job> {
    if HasPrefix(server) then None
    else
      var colon := IndexOf(server, ':');
      var named := if port == 0 && colon < |server| then Atoi(server[colon + 1..]) else port;
      Some(Job(unique, server[..colon], (if named == 0 then DEFAULT_PORT else named) % TWO32, None))
  }

  /** From the name of a job's server and its unique part the same job is made again, unless a port is
      given, which is taken then. */
  lemma RecreateServer(j: Job, port: int)
    requires ':' !in j.host && !HasPrefix(GetServer(j))
    ensures Recreate(GetServer(j), port, j.id)
            == Some(if port == 0 then Normal(j).(info := None) else Job(j.id, j.host, port % TWO32, None))
  {
    hide Decimal, StrToLong, IndexOf;
    var number := if j.port != 0 then j.port else DEFAULT_PORT;
    var server := GetServer(j);
    IndexOfIs(server, ':', |j.host|);
    assert server[|j.host| + 1..] == Decimal(number) && server[..|j.host|] == j.host;
    assert Decimal(number) + "" == Decimal(number);
    StrToLongOfDecimal(number, "");
    assert ToInt32(number) % TWO32 == number;
  }

  /** Without a port in the server's name and without another one it is the default port. */
  lemma RecreateHost(host: string, unique: string)
    requires ':' !in host && !HasPrefix(host)
    ensures Recreate(host, 0, unique) == Some(Job(unique, host, 9000, None))
  {
    IndexOfIs(host, ':', |host|);
    assert host[..|host|] == host;
  }

  /** The digits of a digest need no escape in a job's text. */
  lemma {:induction false} DigestIsSafe(bits: seq<Base64.bit>)
    ensures var text := Base64.EncodeBits(bits); '?' !in text && NoSpace(text)
  {
    hide Base64.Digit;
    if bits == [] {
    } else if |bits| < 6 {
      DigitIsSafe(bits + Base64.Zeros(6 - |bits|));
    } else {
      DigitIsSafe(bits[..6]);
      DigestIsSafe(bits[6..]);
    }
  }

  lemma DigitIsSafe(bits: seq<Base64.bit>)
    requires |bits| == 6
    ensures Base64.Digit(bits) != '?' && !IsSpace(Base64.Digit(bits))
  {
    Base64.Pow2Of6();
    Base64.LetterAt(Base64.Num(bits));
  }

  /** A created job is read back exactly when its host has no slash and no white space in it. */
  lemma CreatedRoundTrip(server: string, port: int, digest: seq<byte>)
    requires -TWO32 / 2 <= port < TWO32 / 2 && Recreate(server, port, Base64.EncodeText(digest)).Some?
    ensures var j := Recreate(server, port, Base64.EncodeText(digest)).value;
            && (ParseText(Unparse(j)) == Some(j) <==> '/' !in j.host && NoSpace(j.host))
            && (port != 0 ==> j.port == port % TWO32)
  {
    hide StrToLong;
    DigestIsSafe(Base64.AllBits(digest));
    RoundTrip(Recreate(server, port, Base64.EncodeText(digest)).value);
  }

  // ----- The parser on its copy of the text

  /** The C string that starts at an index of a buffer. */
  ghost predicate StringAt(a: array<char>, from: int, text: string)
    reads a
  {
    && 0 <= from && from + |text| < a.Length && '\0' !in text
    && (forall i :: from <= i < from + |text| ==> a[i] == text[i - from]) && a[from + |text|] == '\0'
  }

  /** strdup(), of a text that is not in memory that changes. */
  method Copy(text: string) returns (a: array<char>)
    requires '\0' !in text
    ensures fresh(a) && a.Length == |text| + 1 && StringAt(a, 0, text)
  {
    a := new char[|text| + 1](i requires 0 <= i <= |text| => if i < |text| then text[i] else '\0');
  }

  /** strchr(): the index in the buffer, or -1. */
  method StrChr(a: array<char>, from: nat, c: char, ghost text: string) returns (at: int)
    requires StringAt(a, from, text) && c != '\0'
    ensures at == if IndexOf(text, c) < |text| then from + IndexOf(text, c) else -1
  {
    at := from;
    while a[at] != c
      invariant from <= at <= from + |text|
      invariant forall i :: 0 <= i < at - from ==> text[i] != c
      decreases from + |text| - at
    {
      if a[at] == '\0' {
        IndexOfIs(text, c, |text|);
        return -1;
      }
      at := at + 1;
    }
    IndexOfIs(text, c, at - from);
  }

  /** strdup() of a part of the buffer. */
  method StrDup(a: array<char>, from: nat, ghost text: string) returns (s: string)
    requires StringAt(a, from, text)
    ensures s == text
  {
    s := "";
    var at := from;
    while a[at] != '\0'
      invariant from <= at <= from + |text| && s == text[..at - from]
      decreases from + |text| - at
    {
      s := s + [a[at]];
      at := at + 1;
    }
  }

  /** Writing a NUL cuts a string in two. */
  method Cut(a: array<char>, from: nat, at: nat, ghost text: string)
    requires StringAt(a, from, text) && from <= at < from + |text|
    modifies a
    ensures StringAt(a, from, text[..at - from]) && StringAt(a, at + 1, text[at - from + 1..])
    ensures a[..at] == old(a[..at]) && a[at] == '\0'
  {
    a[at] := '\0';
  }

  method AnySpace(s: string) returns (found: bool)
    ensures found <==> !NoSpace(s)
  {
    for i := 0 to |s|
      invariant forall k :: 0 <= k < i ==> !IsSpace(s[k])
    {
      if IsSpace(s[i]) {
        return true;
      }
    }
    return false;
  }

  /** The server in front of the slash at pom1; the colon at pom2, if there is one before it, starts
      the port. */
  method SplitServer(pom: array<char>, pom1: int, pom2: int, ghost rest: string) returns (host: string, port: uint32)
    requires StringAt(pom, 0, rest) && 0 <= pom1 < |rest| && pom2 < |rest|
    modifies pom
    ensures StringAt(pom, pom1 + 1, rest[pom1 + 1..])
    ensures host == if 0 <= pom2 < pom1 then rest[..pom2] else rest[..pom1]
    ensures port == if 0 <= pom2 < pom1 then StrToULong(rest[pom2 + 1..pom1]) % TWO32 else DEFAULT_PORT
  {
    hide StrToULong;
    if pom2 >= 0 && pom1 > pom2 {
      Cut(pom, 0, pom2, rest);
      host := StrDup(pom, 0, rest[..pom2]);
      Cut(pom, pom2 + 1, pom1, rest[pom2 + 1..]);
      assert rest[pom2 + 1..][..pom1 - pom2 - 1] == rest[pom2 + 1..pom1];
      assert rest[pom2 + 1..][pom1 - pom2..] == rest[pom1 + 1..];
      var digits := StrDup(pom, pom2 + 1, rest[pom2 + 1..pom1]);
      port := StrToULong(digits) % TWO32;
    } else {
      Cut(pom, 0, pom1, rest);
      host := StrDup(pom, 0, rest[..pom1]);
      port := DEFAULT_PORT;
    }
  }

  /** The unique part and what follows a question mark. */
  method SplitPath(pom: array<char>, from: nat, ghost path: string) returns (id: string, info: Option<string>)
    requires StringAt(pom, from, path)
    modifies pom
    ensures var query := IndexOf(path, '?');
            id == path[..query] && info == if query < |path| then Some(path[query + 1..]) else None
  {
    hide IndexOf;
    var pom2 := StrChr(pom, from, '?', path);
    if pom2 >= 0 {
      Cut(pom, from, pom2, path);
      var text := StrDup(pom, pom2 + 1, path[pom2 - from + 1..]);
      info := Some(text);
      id := StrDup(pom, from, path[..pom2 - from]);
    } else {
      info := None;
      assert path[..|path|] == path;
      id := StrDup(pom, from, path);
    }
  }

  lemma NoSlash(rest: string)
    requires IndexOf(rest, '/') == |rest|
    ensures ParseRest(rest) == None
  {
  }

  lemma RestParts(rest: string, host: string, port: uint32, id: string, info: Option<string>)
    requires IndexOf(rest, '/') < |rest|
    requires var slash, colon := IndexOf(rest, '/'), IndexOf(rest, ':');
             var path := rest[slash + 1..];
             var query := IndexOf(path, '?');
             && host == (if colon < slash then rest[..colon] else rest[..slash])
             && port == (if colon < slash then StrToULong(rest[colon + 1..slash]) % TWO32 else DEFAULT_PORT)
             && id == path[..query] && info == (if query < |path| then Some(path[query + 1..]) else None)
    ensures ParseRest(rest) == if NoSpace(host) && NoSpace(id) then Some(Job(id, host, port, info)) else None
  {
    hide IndexOf, StrToULong, NoSpace;
  }

  /** glite_lbu_JobIdParse; None stands for EINVAL. */
  method Parse(idString: string) returns (job: Option<Job>)
    requires '\0' !in idString
    ensures job == ParseText(idString)
  {
    hide IndexOf, StrToULong, NoSpace, StringAt, ParseRest;
    if !HasPrefix(idString) {
      return None;
    }
    ghost var rest := idString[|PROTO_PREFIX|..];
    var pom := Copy(idString[|PROTO_PREFIX|..]);
    var pom1 := StrChr(pom, 0, '/', rest);
    var pom2 := StrChr(pom, 0, ':', rest);
    if pom1 < 0 {
      NoSlash(rest);
      return None;
    }
    var host, port := SplitServer(pom, pom1, pom2, rest);
    var id, info := SplitPath(pom, pom1 + 1, rest[pom1 + 1..]);
    RestParts(rest, host, port, id, info);
    var inHost := AnySpace(host);
    var inId := AnySpace(id);
    if inHost || inId {
      return None;
    }
    job := Some(Job(id, host, port, info));
  }
}
