/** The master of a bones server: the counters that limit the connections in its queue. */
module Master {
  import opened CText
  import opened Numerals

  /** The test of dispatchit(). A dispatch counter below the other one has wrapped around. */
  predicate Admits(dispatched: uint64, accepted: uint64, window: nat) {
    dispatched < accepted || dispatched - accepted < window
  }

  /** clnt_accepted after an acknowledgement. */
  function AfterAck(dispatched: uint64, accepted: uint64, a: uint64): uint64 {
    if a <= dispatched && (a > accepted || accepted > dispatched) then a else accepted
  }

  datatype Verdict = Dispatched(seqNo: uint64) | Rejected

  /** The global counters, and the product of the slave count and the overload per slave. */
  class Counters {
    var clntDispatched: uint64
    var clntAccepted: uint64
    const window: nat

    constructor (slavesCt: nat, slaveOverload: nat)
      ensures clntDispatched == clntAccepted == 0 && window == slavesCt * slaveOverload
    {
      clntDispatched, clntAccepted, window := 0, 0, slavesCt * slaveOverload;
    }

    /** An acknowledgement read from the slaves' socket. Before the counters wrap around it can only
        raise the accepted counter, and not above the dispatched one. */
    method ReceiveAck(a: uint64)
      modifies this`clntAccepted
      ensures clntAccepted == AfterAck(clntDispatched, old(clntAccepted), a)
      ensures old(clntAccepted) <= clntDispatched ==> old(clntAccepted) <= clntAccepted <= clntDispatched
    {
      if a <= clntDispatched && (a > clntAccepted || clntAccepted > clntDispatched) {
        clntAccepted := a;
      }
    }

    /** dispatchit() for an accepted connection. The number is used up even when sendmsg() fails. */
    method Dispatch(sent: bool) returns (verdict: Verdict)
      modifies this`clntDispatched
      ensures verdict == if Admits(old(clntDispatched), clntAccepted, window) && sent
                         then Dispatched(old(clntDispatched)) else Rejected
      ensures clntDispatched == if Admits(old(clntDispatched), clntAccepted, window)
                                then (old(clntDispatched) + 1) % TWO64 else old(clntDispatched)
    {
      verdict := Rejected;
      if clntDispatched < clntAccepted || clntDispatched - clntAccepted < window {
        var seqNo := clntDispatched;
        clntDispatched := (clntDispatched + 1) % TWO64;
        if sent {
          verdict := Dispatched(seqNo);
        }
      }
    }
  }

  // ----- The text that goes with a connection

  const MSG_BUFSIZ := 30

  /** do_sendmsg(): "%u %lu" cut to what leaves room for a terminator. */
  function Payload(srv: nat, seqNo: nat): string {
    var text := Decimal(srv) + " " + Decimal(seqNo);
    text[..Min(MSG_BUFSIZ - 1, |text|)]
  }

  /** A number at the start of a text, as sscanf() converts it, and the rest. None without digits. */
  function ScanNumber(s: string): Option<(nat, string)> {
    var sp := SpaceRun(s);
    var n := DigitRun(s[sp..]);
    if n == 0 then None else Some((Value(s[sp..][..n], 10), s[sp + n..]))
  }

  /** do_recvmsg(): "%u %lu". */
  function ScanPayload(s: string): Option<(nat, nat)> {
    var first := ScanNumber(s);
    if first == None then None
    else
      var second := ScanNumber(first.value.1);
      if second == None then None else Some((first.value.0, second.value.0))
  }

  lemma DigitsAreDigits(digits: string)
    ensures AllDigits(digits, 10) <==> forall i :: 0 <= i < |digits| ==> IsDigit(digits[i])
  {
  }

  lemma ScanDecimal(lead: string, digits: string, rest: string)
    requires lead in {"", " "} && digits != "" && AllDigits(digits, 10)
    requires rest == "" || !IsDigit(rest[0])
    ensures ScanNumber(lead + digits + rest) == Some((Value(digits, 10), rest))
  {
    hide Value, SpaceRun, DigitRun;
    DigitsAreDigits(digits);
    var s := lead + digits + rest;
    var sp := |lead|;
    assert s[sp] == digits[0] && !IsSpace(s[sp]);
    SpaceRunIs(s, sp);
    assert s[sp..] == digits + rest;
    DigitRunIs(s[sp..], |digits|);
    assert s[sp..][..|digits|] == digits && s[sp + |digits|..] == rest;
  }

  /** A numeral that lost digits at its end has a smaller value. */
  lemma {:induction false} ShorterIsLess(digits: string, k: nat)
    requires k <= |digits| && AllDigits(digits, 10)
    ensures Value(digits[..k], 10) <= Value(digits, 10)
    ensures k < |digits| && Value(digits, 10) > 0 ==> Value(digits[..k], 10) < Value(digits, 10)
  {
    if k == |digits| {
      assert digits[..k] == digits;
    } else {
      var init := digits[..|digits| - 1];
      ShorterIsLess(init, k);
      assert init[..k] == digits[..k];
    }
  }

  /** The service and the number come through exactly when their text fits. */
  lemma PayloadRoundTrip(srv: nat, seqNo: nat)
    requires srv < TWO32 && seqNo < TWO64
    ensures ScanPayload(Payload(srv, seqNo)) == Some((srv, seqNo))
            <==> |Decimal(srv)| + 1 + |Decimal(seqNo)| < MSG_BUFSIZ
  {
    hide Value, ScanNumber, Digits;
    var first, second := Decimal(srv), Decimal(seqNo);
    var text := first + " " + second;
    AtMost10Digits(srv);
    DigitsAreDigits(first);
    DigitsAreDigits(second);
    ValueOfDigits(srv, 10, false);
    ValueOfDigits(seqNo, 10, false);
    var kept := Min(MSG_BUFSIZ - 1, |text|) - |first| - 1;
    assert Payload(srv, seqNo) == "" + first + (" " + second[..kept]);
    ScanDecimal("", first, " " + second[..kept]);
    if kept > 0 {
      ScanDecimal(" ", second[..kept], "");
      assert " " + second[..kept] + "" == " " + second[..kept];
      ShorterIsLess(second, kept);
      assert second[..|second|] == second;
      if kept < |second| {
        LongIsPositive(seqNo, 10, false);
      }
    }
  }

  lemma {:induction false} AtMost10Digits(n: nat)
    requires n < TWO32
    ensures |Decimal(n)| <= 10
  {
    DigitsBelow(n, 10);
  }

  function Pow10(k: nat): nat {
    if k == 0 then 1 else 10 * Pow10(k - 1)
  }

  lemma {:induction false} DigitsBelow(n: nat, k: nat)
    requires k > 0 && n < Pow10(k)
    ensures |Digits(n, 10, false)| <= k
    decreases k
  {
    if n >= 10 {
      DigitsBelow(n / 10, k - 1);
    }
  }

  /** A server with fewer than a hundred million services never cuts the text. */
  lemma EveryNumberFits(srv: nat, seqNo: nat)
    requires srv < 100_000_000 && seqNo < TWO64
    ensures ScanPayload(Payload(srv, seqNo)) == Some((srv, seqNo))
  {
    assert Pow10(4) == 10_000 && Pow10(8) == 100_000_000;
    DigitsBelow(srv, 8);
    assert Pow10(20) > TWO64;
    DigitsBelow(seqNo, 20);
    PayloadRoundTrip(srv, seqNo);
  }
}
