/** The framing of the proxy-renewal protocol: a four-byte length and the message, sent and received
    in whatever pieces the socket allows. */
module Frames {
  import opened Clock
  import opened CText

  type positive = n: int | 1 <= n witness 1

  // ----- The header

  function Header(n: nat): (h: seq<byte>)
    ensures |h| == 4
  {
    [n / 0x100_0000 % 256, n / 0x1_0000 % 256, n / 0x100 % 256, n % 256]
  }

  function BigEndian(h: seq<byte>): int
    requires |h| == 4
  {
    0x100_0000 * (h[0] as int) + 0x1_0000 * (h[1] as int) + 0x100 * (h[2] as int) + h[3] as int
  }

  /** The length is put together in a signed int before it becomes a size_t. */
  function DecodeLength(h: seq<byte>): (n: uint64)
    requires |h| == 4
    ensures n < TWO32 / 2 || n >= TWO64 - TWO32 / 2
  {
    ToInt32(BigEndian(h)) % TWO64
  }

  lemma HeaderSum(n: nat)
    ensures BigEndian(Header(n)) == n % TWO32
  {
    var q1, q2, q3 := n / 0x100, n / 0x1_0000, n / 0x100_0000;
    assert q2 == q1 / 0x100 && q3 == q2 / 0x100;
    assert n / TWO32 == q3 / 0x100;
  }

  /** Four bytes in network order, the most significant first. */
  lemma NetworkOrder(n: nat)
    ensures var h := Header(n);
            n % 0x1_0000_0000 == ((h[0] as int * 256 + h[1] as int) * 256 + h[2] as int) * 256 + h[3] as int
  {
    HeaderSum(n);
  }

  /** The length comes back exactly when sign extension does not change it. */
  lemma HeaderRoundTrip(n: uint64)
    ensures DecodeLength(Header(n)) == n <==> n < TWO32 / 2 || n >= TWO64 - TWO32 / 2
  {
    hide BigEndian, Header;
    HeaderSum(n);
    var r := n % TWO32;
    assert DecodeLength(Header(n)) == if r < TWO32 / 2 then r else r - TWO32 + TWO64;
  }

  function Frame(msg: seq<byte>): seq<byte> {
    Header(|msg|) + msg
  }

  function FramesOf(msgs: seq<seq<byte>>): seq<byte> {
    if msgs == [] then [] else Frame(msgs[0]) + FramesOf(msgs[1..])
  }

  lemma {:induction false} FramesAppend(msgs: seq<seq<byte>>, msg: seq<byte>)
    ensures FramesOf(msgs + [msg]) == FramesOf(msgs) + Frame(msg)
  {
    if msgs == [] {
      assert [msg][1..] == [];
      assert msgs + [msg] == [msg];
    } else {
      FramesAppend(msgs[1..], msg);
      assert (msgs + [msg])[1..] == msgs[1..] + [msg];
    }
  }

  // ----- The socket

  /** What poll() and then read() or write() report in one round of a loop. Ready moves so
      many bytes or all there are; for a reader that finds nothing it is the end of the stream. */
  datatype Round = TimedOut | PollFailed | Interrupted | Failed | Ready(most: positive)

  /** The outcome of a call. Waiting: the rounds considered are over and the call has not returned. */
  datatype Status = Ok | Timeout | Errno | UnexpectedEof | NoMemory | Waiting

  predicate Fails(r: Round) {
    r.TimedOut? || r.PollFailed? || r.Failed?
  }

  /** The first round that fails. */
  function FirstFailure(rounds: seq<Round>): (k: nat)
    ensures k <= |rounds| && (k < |rounds| ==> Fails(rounds[k]))
    ensures forall i :: 0 <= i < k ==> !Fails(rounds[i])
  {
    if rounds == [] || Fails(rounds[0]) then 0 else 1 + FirstFailure(rounds[1..])
  }

  /** What the call returns when that round comes before it is through. */
  function Failure(rounds: seq<Round>): Status {
    var k := FirstFailure(rounds);
    if k == |rounds| then Waiting else if rounds[k].TimedOut? then Timeout else Errno
  }

  /** How many bytes the rounds can move. */
  function Capacity(rounds: seq<Round>): nat {
    if rounds == [] then 0
    else
      var last := rounds[|rounds| - 1];
      Capacity(rounds[..|rounds| - 1]) + if last.Ready? then last.most else 0
  }

  /** How many they can move before one of them fails. */
  function Movable(rounds: seq<Round>): nat {
    Capacity(rounds[..FirstFailure(rounds)])
  }

  lemma {:induction false} CapacityMonotone(rounds: seq<Round>, i: nat, k: nat)
    requires i <= k <= |rounds|
    ensures Capacity(rounds[..i]) <= Capacity(rounds[..k])
    decreases k - i
  {
    if i < k {
      assert rounds[..k][..k - 1] == rounds[..k - 1];
      CapacityMonotone(rounds, i, k - 1);
    }
  }

  lemma CapacityNext(rounds: seq<Round>, k: nat)
    requires k < |rounds|
    ensures Capacity(rounds[..k + 1]) == Capacity(rounds[..k]) + if rounds[k].Ready? then rounds[k].most else 0
  {
    assert rounds[..k + 1][..k] == rounds[..k];
  }

  function ReadyCount(rounds: seq<Round>): nat {
    if rounds == [] then 0 else ReadyCount(rounds[..|rounds| - 1]) + if rounds[|rounds| - 1].Ready? then 1 else 0
  }

  /** Without a failure, as many rounds that are ready as there are bytes are enough, whatever the
      interruptions between them. */
  lemma {:induction false} ReadyRoundsSuffice(rounds: seq<Round>)
    requires forall i :: 0 <= i < |rounds| ==> !Fails(rounds[i])
    ensures Movable(rounds) >= ReadyCount(rounds)
  {
    assert FirstFailure(rounds) == |rounds|;
    assert rounds[..|rounds|] == rounds;
    if rounds != [] {
      var init := rounds[..|rounds| - 1];
      ReadyRoundsSuffice(init);
      assert FirstFailure(init) == |init| && init[..|init|] == init;
    }
  }

  /** The stream ends after `available` more bytes, and a round finds out before one fails. */
  predicate AtEnd(rounds: seq<Round>, available: nat) {
    exists k :: 0 <= k < FirstFailure(rounds) && rounds[k].Ready? && Capacity(rounds[..k]) >= available
  }

  /** How nread() returns that wants n bytes of a stream with so many left: well when it gets them all,
      or finds the end of the stream. */
  function ReadStatus(rounds: seq<Round>, available: nat, n: nat): Status {
    if if n <= available then Movable(rounds) >= n else AtEnd(rounds, available) then Ok else Failure(rounds)
  }

  /** One direction of a socket: all bytes that its writer sends, and how many its reader has taken.
      When they arrive is the matter of the reader's rounds. */
  class Connection {
    var sent: seq<byte>
    var taken: nat

    ghost predicate Valid()
      reads this
    {
      taken <= |sent|
    }

    constructor ()
      ensures Valid() && sent == [] && taken == 0
    {
      sent, taken := [], 0;
    }

    /** write(): the first count bytes of what remains. */
    method Send(buf: seq<byte>, from: nat, most: positive) returns (count: nat)
      requires Valid() && from < |buf|
      modifies this`sent
      ensures Valid() && count == Min(most, |buf| - from) && sent == old(sent) + buf[from..from + count]
    {
      count := Min(most, |buf| - from);
      sent := sent + buf[from..from + count];
    }

    /** read(): the next bytes, none at the end. */
    method Receive(buf: array<byte>, from: nat, most: positive) returns (count: nat)
      requires Valid() && from < buf.Length
      modifies this`taken, buf
      ensures Valid() && count == Min(Min(most, buf.Length - from), |sent| - old(taken)) && taken == old(taken) + count
      ensures buf[..from] == old(buf[..from]) && buf[from..from + count] == sent[old(taken)..taken]
    {
      count := Min(Min(most, buf.Length - from), |sent| - taken);
      forall i | 0 <= i < count {
        buf[from + i] := sent[taken + i];
      }
      taken := taken + count;
    }
  }

  /** What the first k rounds leave of a call. */
  lemma FailsHere(rounds: seq<Round>, k: nat)
    requires k <= |rounds| && forall i :: 0 <= i < k ==> !Fails(rounds[i])
    ensures k < |rounds| && Fails(rounds[k]) ==> FirstFailure(rounds) == k
    ensures k == |rounds| ==> FirstFailure(rounds) == k
    ensures k <= FirstFailure(rounds) && Capacity(rounds[..k]) <= Movable(rounds)
  {
    CapacityMonotone(rounds, k, FirstFailure(rounds));
  }

  /** nwrite(): everything when the rounds can move it before one fails, and otherwise what they can. */
  method NWrite(sock: Connection, buf: seq<byte>, rounds: seq<Round>) returns (status: Status, ghost written: nat)
    requires sock.Valid()
    modifies sock`sent
    ensures sock.Valid() && written == Min(Movable(rounds), |buf|) && sock.sent == old(sock.sent) + buf[..written]
    ensures status == if Movable(rounds) >= |buf| then Ok else Failure(rounds)
  {
    hide Capacity, FirstFailure, Movable;
    var cbuf, k := 0, 0;
    NothingMoved(rounds);
    while cbuf < |buf|
      invariant 0 <= cbuf <= |buf| && 0 <= k <= |rounds| && sock.Valid()
      invariant sock.sent == old(sock.sent) + buf[..cbuf]
      invariant cbuf == Min(Capacity(rounds[..k]), |buf|) && forall i :: 0 <= i < k ==> !Fails(rounds[i])
      decreases |rounds| - k
    {
      FailsHere(rounds, k);
      MovedHere(rounds, k);
      if k == |rounds| {
        return Waiting, cbuf;
      }
      CapacityNext(rounds, k);
      match rounds[k] {
        case TimedOut =>
        return Timeout, cbuf;
        case PollFailed =>
        return Errno, cbuf;
        case Interrupted =>
        case Failed =>
        return Errno, cbuf;
        case Ready(most) =>
        var count := sock.Send(buf, cbuf, most);
        assert buf[..cbuf] + buf[cbuf..cbuf + count] == buf[..cbuf + count];
        cbuf := cbuf + count;
      }
      k := k + 1;
    }
    FailsHere(rounds, k);
    status, written := Ok, |buf|;
  }

  lemma NothingMoved(rounds: seq<Round>)
    ensures Capacity(rounds[..0]) == 0
  {
  }

  lemma MovedHere(rounds: seq<Round>, k: nat)
    requires k <= |rounds|
    ensures FirstFailure(rounds) == k ==> Movable(rounds) == Capacity(rounds[..k])
  {
  }

  /** One read() behind what was read since the stream was at `start`. */
  method ReceiveMore(sock: Connection, buf: array<byte>, from: nat, most: positive, ghost start: nat)
    returns (count: nat)
    requires sock.Valid() && from < buf.Length && start <= sock.taken && buf[..from] == sock.sent[start..sock.taken]
    modifies sock`taken, buf
    ensures sock.Valid() && count == Min(Min(most, buf.Length - from), |sock.sent| - old(sock.taken))
    ensures sock.taken == old(sock.taken) + count && buf[..from + count] == sock.sent[start..sock.taken]
  {
    count := sock.Receive(buf, from, most);
    assert buf[..from + count] == buf[..from] + buf[from..from + count];
    Adjoined(sock.sent, start, old(sock.taken), sock.taken);
  }

  /** nread(): the whole buffer, nothing at the end of the stream, or a failure. */
  method NRead(sock: Connection, buf: array<byte>, rounds: seq<Round>) returns (status: Status, readLen: nat)
    requires sock.Valid()
    modifies sock`taken, buf
    ensures sock.Valid()
    ensures var available := |sock.sent| - old(sock.taken);
            var count := Min(Movable(rounds), Min(available, buf.Length));
            && sock.taken == old(sock.taken) + count && buf[..count] == sock.sent[old(sock.taken)..sock.taken]
            && status == ReadStatus(rounds, available, buf.Length)
            && (status == Ok ==> readLen == if buf.Length <= available then buf.Length else 0)
  {
    hide Capacity, FirstFailure, Movable;
    var cbuf, k := 0, 0;
    ghost var available := |sock.sent| - sock.taken;
    readLen := 0;
    NothingMoved(rounds);
    while cbuf < buf.Length
      invariant 0 <= cbuf <= buf.Length && 0 <= k <= |rounds| && sock.Valid()
      invariant sock.taken == old(sock.taken) + cbuf && buf[..cbuf] == sock.sent[old(sock.taken)..sock.taken]
      invariant cbuf == Min(Capacity(rounds[..k]), Min(available, buf.Length)) && readLen == 0
      invariant forall i :: 0 <= i < k ==> !Fails(rounds[i])
      invariant forall i :: 0 <= i < k && rounds[i].Ready? ==> Capacity(rounds[..i]) < available
      decreases |rounds| - k
    {
      FailsHere(rounds, k);
      MovedHere(rounds, k);
      if k == |rounds| {
        status := Waiting;
        return;
      }
      CapacityNext(rounds, k);
      match rounds[k] {
        case TimedOut =>
        status := Timeout;
        return;
        case PollFailed =>
        status := Errno;
        return;
        case Interrupted =>
        case Failed =>
        status := Errno;
        return;
        case Ready(most) =>
        var count := ReceiveMore(sock, buf, cbuf, most, old(sock.taken));
        if count == 0 {
          EndHere(rounds, k, available);
          status := Ok;
          return;
        }
        cbuf := cbuf + count;
      }
      k := k + 1;
    }
    FailsHere(rounds, k);
    status, readLen := Ok, buf.Length;
    assert buf[..] == buf[..cbuf];
  }

  lemma Adjoined(s: seq<byte>, i: nat, j: nat, k: nat)
    requires i <= j <= k <= |s|
    ensures s[i..j] + s[j..k] == s[i..k]
  {
  }

  lemma EndHere(rounds: seq<Round>, k: nat, available: nat)
    requires k < |rounds| && rounds[k].Ready? && Capacity(rounds[..k]) >= available
    requires forall i :: 0 <= i <= k ==> !Fails(rounds[i])
    ensures AtEnd(rounds, available)
  {
    FailsHere(rounds, k + 1);
  }

  // ----- Whole messages

  /** The rounds of both parts of a message are enough for one of n bytes. */
  predicate Suffice(rounds: (seq<Round>, seq<Round>), n: nat) {
    Movable(rounds.0) >= 4 && Movable(rounds.1) >= n
  }

  /** edg_wlpr_Write. */
  method Write(sock: Connection, msg: seq<byte>, rounds: (seq<Round>, seq<Round>))
    returns (status: Status, ghost written: nat)
    requires sock.Valid()
    modifies sock`sent
    ensures sock.Valid() && written <= |Frame(msg)| && sock.sent == old(sock.sent) + Frame(msg)[..written]
    ensures written == if Movable(rounds.0) < 4 then Movable(rounds.0) else 4 + Min(Movable(rounds.1), |msg|)
    ensures status == if Suffice(rounds, |msg|) then Ok
                      else Failure(if Movable(rounds.0) < 4 then rounds.0 else rounds.1)
  {
    hide Movable, Failure, Header;
    status, written := NWrite(sock, Header(|msg|), rounds.0);
    assert Frame(msg)[..written] == Header(|msg|)[..written];
    NeverOk(rounds.0);
    if status != Ok {
      return;
    }
    ghost var more;
    status, more := NWrite(sock, msg, rounds.1);
    written := written + more;
    assert Frame(msg)[..written] == Header(|msg|) + msg[..more];
  }

  predicate FailsAt(rounds: seq<Round>, k: nat) {
    k < |rounds| && Fails(rounds[k]) && forall i :: 0 <= i < k ==> !Fails(rounds[i])
  }

  /** A call that is not through by then times out when poll() does, and reports errno when poll(), read()
      or write() fails; without either it still waits. */
  lemma FailureMeans(rounds: seq<Round>)
    ensures Failure(rounds) == Timeout <==> exists k: nat :: FailsAt(rounds, k) && rounds[k] == TimedOut
    ensures Failure(rounds) == Errno
            <==> exists k: nat :: FailsAt(rounds, k) && (rounds[k] == PollFailed || rounds[k] == Round.Failed)
    ensures Failure(rounds) == Waiting <==> forall r :: r in rounds ==> r == Interrupted || r.Ready?
  {
    var n := FirstFailure(rounds);
    if n < |rounds| {
      assert FailsAt(rounds, n) && rounds[n] in rounds;
    } else {
      assert forall r :: r in rounds ==> !Fails(r);
    }
  }

  lemma NeverOk(rounds: seq<Round>)
    ensures Failure(rounds) in {Timeout, Errno, Waiting}
  {
  }

  /** How edg_wlpr_Read returns at an index of the stream. No block is as large as a length that sign
      extension has made. */
  function ReadOutcome(sent: seq<byte>, at: nat, rounds: (seq<Round>, seq<Round>)): Status
    requires at <= |sent|
  {
    var header := ReadStatus(rounds.0, |sent| - at, 4);
    if header != Ok then header
    else if |sent| - at < 4 then UnexpectedEof
    else
      var n := DecodeLength(sent[at..at + 4]);
      if n >= TWO64 / 2 then NoMemory
      else
        var body := ReadStatus(rounds.1, |sent| - at - 4, n);
        if body != Ok then body else if |sent| - at - 4 < n then UnexpectedEof else Ok
  }

  /** edg_wlpr_Read. */
  method Read(sock: Connection, rounds: (seq<Round>, seq<Round>)) returns (status: Status, buf: array?<byte>)
    requires sock.Valid()
    modifies sock`taken
    ensures sock.Valid() && old(sock.taken) <= sock.taken
    ensures status == ReadOutcome(sock.sent, old(sock.taken), rounds)
    ensures status == Ok ==> buf != null && fresh(buf) && IsFrameAt(sock.sent, old(sock.taken), buf[..])
                             && sock.taken == old(sock.taken) + 4 + buf.Length
  {
    hide Movable, Failure, AtEnd, DecodeLength;
    buf := null;
    var length := new byte[4];
    var len;
    status, len := NRead(sock, length, rounds.0);
    NeverOk(rounds.0);
    NeverOk(rounds.1);
    if status != Ok {
      return;
    }
    if len != 4 {
      return UnexpectedEof, null;
    }
    assert length[..] == length[..4];
    var bufLen := DecodeLength(length[..]);
    if bufLen >= TWO64 / 2 {
      return NoMemory, null;
    }
    buf := new byte[bufLen];
    status, len := NRead(sock, buf, rounds.1);
    if status != Ok {
      return;
    }
    if len != bufLen {
      return UnexpectedEof, null;
    }
    assert buf[..] == buf[..bufLen];
  }

  /** A header at an index of the stream, and the message of the length it gives. */
  predicate IsFrameAt(sent: seq<byte>, at: nat, msg: seq<byte>) {
    && at + 4 + |msg| <= |sent| && DecodeLength(sent[at..at + 4]) == |msg|
    && sent[at + 4..at + 4 + |msg|] == msg
  }

  /** A message that a receiver can take: its length survives the header. */
  predicate Sendable(msg: seq<byte>) {
    |msg| < TWO32 / 2
  }

  /** At the start of a frame there is no other message than its own. */
  lemma FrameIsUnique(sent: seq<byte>, at: nat, msg: seq<byte>, got: seq<byte>)
    requires Sendable(msg) && at + |Frame(msg)| <= |sent| && sent[at..at + |Frame(msg)|] == Frame(msg)
    requires IsFrameAt(sent, at, got)
    ensures got == msg
  {
    HeaderRoundTrip(|msg|);
    assert sent[at..at + 4] == Frame(msg)[..4] == Header(|msg|);
    assert sent[at + 4..at + 4 + |msg|] == Frame(msg)[4..];
  }

  /** In the first part of a frame, without its end, there is no message at all. */
  lemma PartialFrame(sent: seq<byte>, at: nat, msg: seq<byte>, got: seq<byte>)
    requires Sendable(msg) && at <= |sent| && sent[at..] <= Frame(msg) && sent[at..] != Frame(msg)
    ensures !IsFrameAt(sent, at, got)
  {
    if at + 4 <= |sent| {
      HeaderRoundTrip(|msg|);
      assert sent[at..at + 4] == sent[at..][..4] == Frame(msg)[..4] == Header(|msg|);
    }
    assert sent[at..] == Frame(msg)[..|sent| - at];
  }

  // ----- Sequences of messages

  /** The number of calls in front whose rounds are enough for their messages. */
  function Sufficing(msgs: seq<seq<byte>>, schedule: seq<(seq<Round>, seq<Round>)>): (k: nat)
    ensures k <= |msgs| && k <= |schedule|
    ensures forall i :: 0 <= i < k ==> Suffice(schedule[i], |msgs[i]|)
    ensures k < |msgs| && k < |schedule| ==> !Suffice(schedule[k], |msgs[k]|)
  {
    if msgs == [] || schedule == [] || !Suffice(schedule[0], |msgs[0]|) then 0
    else 1 + Sufficing(msgs[1..], schedule[1..])
  }

  /** No round fails, and as many as there are bytes are ready. */
  predicate Calm(rounds: seq<Round>, n: nat) {
    ReadyCount(rounds) >= n && forall i :: 0 <= i < |rounds| ==> !Fails(rounds[i])
  }

  /** When nothing fails every call has enough rounds, so that a session delivers all messages. */
  lemma CalmSuffices(msgs: seq<seq<byte>>, schedule: seq<(seq<Round>, seq<Round>)>)
    requires |schedule| >= |msgs|
    requires forall i :: 0 <= i < |msgs| ==> Calm(schedule[i].0, 4) && Calm(schedule[i].1, |msgs[i]|)
    ensures Sufficing(msgs, schedule) == |msgs|
  {
    hide Movable, ReadyCount;
    var k := Sufficing(msgs, schedule);
    if k < |msgs| {
      ReadyRoundsSuffice(schedule[k].0);
      ReadyRoundsSuffice(schedule[k].1);
    }
  }

  /** The calls of a sender up to the first that fails; the stream then ends inside its message. */
  method WriteAll(sock: Connection, msgs: seq<seq<byte>>, schedule: seq<(seq<Round>, seq<Round>)>)
    returns (done: nat, ghost rest: nat)
    requires sock.Valid() && |schedule| >= |msgs|
    modifies sock`sent
    ensures sock.Valid() && done == Sufficing(msgs, schedule) && (done == |msgs| ==> rest == 0)
    ensures done < |msgs| ==> rest < |Frame(msgs[done])|
    ensures sock.sent == old(sock.sent) + FramesOf(msgs[..done])
                         + (if done < |msgs| then Frame(msgs[done])[..rest] else [])
  {
    hide FramesOf, Header, Movable, Failure, Suffice;
    done, rest := 0, 0;
    assert FramesOf(msgs[..0]) == [] by { NoFrames(); }
    while done < |msgs|
      invariant 0 <= done <= |msgs| && sock.Valid() && rest == 0
      invariant sock.sent == old(sock.sent) + FramesOf(msgs[..done])
      invariant forall i :: 0 <= i < done ==> Suffice(schedule[i], |msgs[i]|)
    {
      var status;
      status, rest := Write(sock, msgs[done], schedule[done]);
      NeverOk(schedule[done].0);
      NeverOk(schedule[done].1);
      WholeWhenSufficing(schedule[done], msgs[done]);
      if status != Ok {
        return;
      }
      assert Frame(msgs[done])[..rest] == Frame(msgs[done]);
      FramesAppend(msgs[..done], msgs[done]);
      assert msgs[..done] + [msgs[done]] == msgs[..done + 1];
      done, rest := done + 1, 0;
    }
    assert msgs[..|msgs|] == msgs;
  }

  lemma NoFrames()
    ensures FramesOf([]) == []
  {
  }

  lemma WholeWhenSufficing(rounds: (seq<Round>, seq<Round>), msg: seq<byte>)
    ensures var written := if Movable(rounds.0) < 4 then Movable(rounds.0) else 4 + Min(Movable(rounds.1), |msg|);
            Suffice(rounds, |msg|) <==> written == |Frame(msg)|
  {
  }

  /** The calls of a receiver up to the first that fails. */
  method ReadAll(sock: Connection, schedule: seq<(seq<Round>, seq<Round>)>) returns (got: seq<seq<byte>>)
    requires sock.Valid() && sock.taken == 0
    modifies sock`taken
    ensures sock.Valid() && Received(sock.sent, got) && TotalLength(got) <= |sock.sent| && |got| <= |schedule|
    ensures ReadsOk(sock.sent, got, schedule)
    ensures |got| < |schedule| ==> ReadOutcome(sock.sent, TotalLength(got), schedule[|got|]) != Ok
  {
    hide ReadOutcome, IsFrameAt;
    got := [];
    var k := 0;
    while k < |schedule|
      invariant 0 <= k <= |schedule| && k == |got| && sock.Valid() && Received(sock.sent, got)
      invariant sock.taken == TotalLength(got) && ReadsOk(sock.sent, got, schedule)
    {
      var status, buf := Read(sock, schedule[k]);
      if status != Ok {
        return;
      }
      assert (got + [buf[..]])[..|got|] == got;
      got := got + [buf[..]];
      k := k + 1;
    }
  }

  /** Each call returned well. */
  predicate ReadsOk(sent: seq<byte>, got: seq<seq<byte>>, schedule: seq<(seq<Round>, seq<Round>)>)
    requires |got| <= |schedule|
  {
    got == [] || (var init := got[..|got| - 1];
                  && ReadsOk(sent, init, schedule) && TotalLength(init) <= |sent|
                  && ReadOutcome(sent, TotalLength(init), schedule[|init|]) == Ok)
  }

  function TotalLength(msgs: seq<seq<byte>>): nat {
    if msgs == [] then 0 else TotalLength(msgs[..|msgs| - 1]) + 4 + |msgs[|msgs| - 1]|
  }

  /** Messages that successive successful calls of edg_wlpr_Read return on a stream. */
  predicate Received(sent: seq<byte>, got: seq<seq<byte>>) {
    got == [] || (var init := got[..|got| - 1];
                  Received(sent, init) && IsFrameAt(sent, TotalLength(init), got[|got| - 1]))
  }

  lemma {:induction false} FramesLength(msgs: seq<seq<byte>>)
    ensures |FramesOf(msgs)| == TotalLength(msgs)
  {
    if msgs != [] {
      var init := msgs[..|msgs| - 1];
      FramesLength(init);
      FramesAppend(init, msgs[|msgs| - 1]);
      assert init + [msgs[|msgs| - 1]] == msgs;
    }
  }

  lemma {:induction false} FramesSplit(msgs: seq<seq<byte>>, k: nat)
    requires k < |msgs|
    ensures FramesOf(msgs) == FramesOf(msgs[..k]) + Frame(msgs[k]) + FramesOf(msgs[k + 1..])
  {
    hide Frame;
    if k == 0 {
      assert msgs[..0] == [];
    } else {
      FramesSplit(msgs[1..], k - 1);
      assert msgs[1..][..k - 1] == msgs[..k][1..] && msgs[1..][k..] == msgs[k + 1..];
    }
  }

  /** Frames, and then at most a part of one more. */
  predicate IsStream(sent: seq<byte>, msgs: seq<seq<byte>>, last: seq<byte>, rest: nat) {
    rest < |Frame(last)| && sent == FramesOf(msgs) + Frame(last)[..rest]
  }

  /** After n messages of such a stream comes the next one. */
  lemma NextInOrder(sent: seq<byte>, msgs: seq<seq<byte>>, last: seq<byte>, rest: nat, n: nat, msg: seq<byte>)
    requires IsStream(sent, msgs, last, rest) && n <= |msgs| && (n < |msgs| ==> Sendable(msgs[n])) && Sendable(last)
    requires IsFrameAt(sent, TotalLength(msgs[..n]), msg)
    ensures n < |msgs| && msg == msgs[n]
  {
    hide FramesOf, Frame, IsFrameAt, Sendable, TotalLength;
    FramesLength(msgs[..n]);
    var at := |FramesOf(msgs[..n])|;
    if n == |msgs| {
      assert msgs[..n] == msgs;
      assert sent[at..] == Frame(last)[..rest];
      PartialFrame(sent, at, last, msg);
    } else {
      FramesSplit(msgs, n);
      var tail := FramesOf(msgs[n + 1..]) + Frame(last)[..rest];
      assert sent == FramesOf(msgs[..n]) + (Frame(msgs[n]) + tail);
      assert sent[at..at + |Frame(msgs[n])|] == Frame(msgs[n]);
      FrameIsUnique(sent, at, msgs[n], msg);
    }
  }

  /** What was received is a prefix of what was sent. */
  lemma {:induction false} ReceivedInOrder(sent: seq<byte>, msgs: seq<seq<byte>>, last: seq<byte>, rest: nat,
                                           got: seq<seq<byte>>)
    requires IsStream(sent, msgs, last, rest) && (forall m :: m in msgs ==> Sendable(m)) && Sendable(last)
    requires Received(sent, got)
    ensures |got| <= |msgs| && got == msgs[..|got|]
  {
    hide IsStream, IsFrameAt, Sendable, TotalLength;
    if got != [] {
      var n := |got| - 1;
      ReceivedInOrder(sent, msgs, last, rest, got[..n]);
      assert got[..n] == msgs[..n];
      NextInOrder(sent, msgs, last, rest, n, got[n]);
    }
  }

  /** At the start of a whole frame a read returns well exactly when its rounds are enough. */
  lemma ReadsWhole(sent: seq<byte>, at: nat, msg: seq<byte>, rounds: (seq<Round>, seq<Round>))
    requires Sendable(msg) && at + |Frame(msg)| <= |sent| && sent[at..at + |Frame(msg)|] == Frame(msg)
    ensures ReadOutcome(sent, at, rounds) == Ok <==> Suffice(rounds, |msg|)
  {
    hide Movable, Failure, AtEnd, DecodeLength, Header;
    HeaderRoundTrip(|msg|);
    assert sent[at..at + 4] == Frame(msg)[..4] == Header(|msg|);
    NeverOk(rounds.0);
    NeverOk(rounds.1);
  }

  lemma FrameAt(sent: seq<byte>, msgs: seq<seq<byte>>, last: seq<byte>, rest: nat, n: nat)
    requires IsStream(sent, msgs, last, rest) && n < |msgs|
    ensures var at := TotalLength(msgs[..n]);
            at + |Frame(msgs[n])| <= |sent| && sent[at..at + |Frame(msgs[n])|] == Frame(msgs[n])
  {
    hide FramesOf, Frame, TotalLength;
    FramesLength(msgs[..n]);
    FramesSplit(msgs, n);
    var at, tail := |FramesOf(msgs[..n])|, FramesOf(msgs[n + 1..]) + Frame(last)[..rest];
    assert sent == FramesOf(msgs[..n]) + (Frame(msgs[n]) + tail);
  }

  /** The reads that returned well had enough rounds. */
  lemma {:induction false} GotSuffices(sent: seq<byte>, msgs: seq<seq<byte>>, last: seq<byte>, rest: nat, n: nat,
                                       schedule: seq<(seq<Round>, seq<Round>)>)
    requires IsStream(sent, msgs, last, rest) && (forall m :: m in msgs ==> Sendable(m))
    requires n <= |msgs| && n <= |schedule| && ReadsOk(sent, msgs[..n], schedule)
    ensures forall i :: 0 <= i < n ==> Suffice(schedule[i], |msgs[i]|)
  {
    hide IsStream, ReadOutcome, TotalLength, Suffice, Sendable, Frame;
    if n > 0 {
      assert msgs[..n][..n - 1] == msgs[..n - 1];
      GotSuffices(sent, msgs, last, rest, n - 1, schedule);
      FrameAt(sent, msgs, last, rest, n - 1);
      ReadsWhole(sent, TotalLength(msgs[..n - 1]), msgs[n - 1], schedule[n - 1]);
    }
  }

  /** A session: whatever the two schedules, the messages received are the first ones sent, whole and in
      order, as many as have enough rounds on both sides. */
  method Session(msgs: seq<seq<byte>>, forWrites: seq<(seq<Round>, seq<Round>)>,
                 forReads: seq<(seq<Round>, seq<Round>)>)
    returns (got: seq<seq<byte>>)
    requires |forWrites| >= |msgs| && forall m :: m in msgs ==> Sendable(m)
    ensures got == msgs[..Min(Sufficing(msgs, forWrites), Sufficing(msgs, forReads))]
  {
    hide FramesOf, Frame, Received, ReadOutcome, ReadsOk, Suffice, Sendable;
    var sock := new Connection();
    var done;
    ghost var rest;
    done, rest := WriteAll(sock, msgs, forWrites);
    got := ReadAll(sock, forReads);
    SessionDelivers(sock.sent, msgs, done, rest, got, forReads);
  }

  lemma SessionDelivers(sent: seq<byte>, msgs: seq<seq<byte>>, done: nat, rest: nat, got: seq<seq<byte>>,
                        schedule: seq<(seq<Round>, seq<Round>)>)
    requires done <= |msgs| && (forall m :: m in msgs ==> Sendable(m))
    requires done < |msgs| ==> rest < |Frame(msgs[done])|
    requires sent == FramesOf(msgs[..done]) + (if done < |msgs| then Frame(msgs[done])[..rest] else [])
    requires Received(sent, got) && TotalLength(got) <= |sent| && |got| <= |schedule| && ReadsOk(sent, got, schedule)
    requires |got| < |schedule| ==> ReadOutcome(sent, TotalLength(got), schedule[|got|]) != Ok
    ensures got == msgs[..Min(done, Sufficing(msgs, schedule))]
  {
    hide FramesOf, Frame, Received, ReadOutcome, ReadsOk, Suffice, TotalLength, Sendable;
    var last, part := if done < |msgs| then msgs[done] else [], if done < |msgs| then rest else 0;
    EmptySendable();
    assert IsStream(sent, msgs[..done], last, part) by {
      assert Frame(last)[..part] == if done < |msgs| then Frame(msgs[done])[..rest] else [];
    }
    ReceivedInOrder(sent, msgs[..done], last, part, got);
    assert msgs[..done][..|got|] == msgs[..|got|];
    GotSuffices(sent, msgs[..done], last, part, |got|, schedule);
    if |got| < done && |got| < |schedule| {
      FrameAt(sent, msgs[..done], last, part, |got|);
      ReadsWhole(sent, TotalLength(got), msgs[|got|], schedule[|got|]);
    }
  }

  lemma EmptySendable()
    ensures Sendable([]) && |Frame([])| > 0
  {
  }

  // ----- Timeouts

  /** The timeout less the elapsed time; microseconds below 0 are borrowed from the seconds, and those
      above a million are not carried. */
  function Decremented(timeout: TimeVal, before: TimeVal, after: TimeVal): TimeVal {
    var sec, usec := timeout.sec - (after.sec - before.sec), timeout.usec - (after.usec - before.usec);
    if usec < 0 then TimeVal(sec - 1, usec + 1000000) else TimeVal(sec, usec)
  }

  predicate Over(left: TimeVal) {
    left.sec < 0 || (left.sec == 0 && left.usec == 0)
  }

  /** edg_wlpr_DecrementTimeout: takes the elapsed time away, and says whether nothing is left. The
      timeout may be one that earlier calls have left. */
  method DecrementTimeout(timeout: TimeVal, before: TimeVal, after: TimeVal) returns (left: TimeVal, expired: bool)
    requires 0 <= timeout.usec && before.Normal() && after.Normal()
    ensures left == Decremented(timeout, before, after)
    ensures left.Total() == timeout.Total() - Elapsed(before, after) && 0 <= left.usec
    ensures expired <==> Over(left)
    ensures expired <==> left.Total() <= 0 || ExpiresEarly(timeout, before, after)
  {
    left := TimeVal(timeout.sec - (after.sec - before.sec), timeout.usec - (after.usec - before.usec));
    ghost var first := left;
    while left.usec < 0
      invariant left == first || (left == TimeVal(first.sec - 1, first.usec + 1000000) && first.usec < 0)
      decreases -left.usec
    {
      left := TimeVal(left.sec - 1, left.usec + 1000000);
    }
    expired := left.sec < 0 || (left.sec == 0 && left.usec == 0);
  }

  /** The timeout is reported over although some of it is left: its seconds are used up, but not the
      microseconds above them. */
  predicate ExpiresEarly(timeout: TimeVal, before: TimeVal, after: TimeVal) {
    var sec, usec := timeout.sec - (after.sec - before.sec), timeout.usec - (after.usec - before.usec);
    sec < 0 && usec >= 0 && sec * 1000000 + usec > 0
  }

  /** What nread() and nwrite() leave of the timeout: 0 when its seconds are negative. */
  function AfterCall(timeout: TimeVal, before: TimeVal, after: TimeVal): TimeVal {
    var left := Decremented(timeout, before, after);
    if left.sec < 0 then TimeVal(0, 0) else left
  }

  function TimeoutAfter(timeout: TimeVal, calls: seq<(TimeVal, TimeVal)>): TimeVal {
    if calls == [] then timeout
    else
      var (before, after) := calls[|calls| - 1];
      AfterCall(TimeoutAfter(timeout, calls[..|calls| - 1]), before, after)
  }

  function TotalElapsed(calls: seq<(TimeVal, TimeVal)>): int {
    if calls == [] then 0
    else TotalElapsed(calls[..|calls| - 1]) + Elapsed(calls[|calls| - 1].0, calls[|calls| - 1].1)
  }

  ghost predicate ClockValues(calls: seq<(TimeVal, TimeVal)>) {
    forall i :: 0 <= i < |calls| ==> calls[i].0.Normal() && calls[i].1.Normal() && Elapsed(calls[i].0, calls[i].1) >= 0
  }

  /** The timeout is what remains of it, or it has been set to 0 when less than `lost` remained. */
  predicate LostLess(left: TimeVal, remaining: int, lost: int) {
    && 0 <= left.usec < lost + 1000000
    && (left.Total() == remaining || (left == TimeVal(0, 0) && remaining < lost))
  }

  /** However many calls share a timeout, they lose less than a second each. */
  lemma {:induction false} LossBounded(timeout: TimeVal, calls: seq<(TimeVal, TimeVal)>)
    requires timeout.Normal() && ClockValues(calls)
    ensures LostLess(TimeoutAfter(timeout, calls), timeout.Total() - TotalElapsed(calls), |calls| * 1000000)
  {
    hide AfterCall, LostLess, Elapsed, TimeVal.Total, TimeVal.Normal;
    if calls == [] {
      NothingLost(timeout);
    } else {
      var n, init := |calls|, calls[..|calls| - 1];
      assert ClockValues(init);
      LossBounded(timeout, init);
      var left, remaining := TimeoutAfter(timeout, init), timeout.Total() - TotalElapsed(init);
      LossOfOne(left, remaining, calls[n - 1].0, calls[n - 1].1, |init| * 1000000);
    }
  }

  lemma NothingLost(timeout: TimeVal)
    requires timeout.Normal()
    ensures LostLess(timeout, timeout.Total(), 0)
  {
  }

  lemma LossOfOne(left: TimeVal, remaining: int, before: TimeVal, after: TimeVal, lost: int)
    requires LostLess(left, remaining, lost) && before.Normal() && after.Normal() && Elapsed(before, after) >= 0
    ensures LostLess(AfterCall(left, before, after), remaining - Elapsed(before, after), lost + 1000000)
  {
    DecrementedTotal(left, before, after);
    hide Elapsed;
    var next := Decremented(left, before, after);
    if left == TimeVal(0, 0) {
      ZeroStays(before, after);
    } else if next.sec < 0 {
      assert next.Total() < lost + 1000000;
    }
  }

  lemma DecrementedTotal(left: TimeVal, before: TimeVal, after: TimeVal)
    requires 0 <= left.usec && before.Normal() && after.Normal()
    ensures var next := Decremented(left, before, after);
            next.Total() == left.Total() - Elapsed(before, after) && 0 <= next.usec < left.usec + 1000000
  {
  }

  lemma ZeroStays(before: TimeVal, after: TimeVal)
    requires before.Normal() && after.Normal() && Elapsed(before, after) >= 0
    ensures AfterCall(TimeVal(0, 0), before, after) == TimeVal(0, 0)
  {
  }

  /** A timeout of 3.9 seconds and two calls that take 1.1 seconds each: it is reported over with 1.7
      seconds left, which is more than one call alone can lose. */
  lemma TwoCallsLoseMore()
    ensures var first := Decremented(TimeVal(3, 900000), TimeVal(10, 900000), TimeVal(12, 0));
            && first == TimeVal(1, 1800000)
            && Decremented(first, TimeVal(12, 900000), TimeVal(14, 0)) == TimeVal(-1, 2700000)
            && TimeVal(-1, 2700000).Total() == 1700000
            && ExpiresEarly(first, TimeVal(12, 900000), TimeVal(14, 0))
  {
  }
}
