/** What one call of the client's `send` and `receive` does, result by result, and what it leads to, told from
    the results themselves. */
module ClientLoops {
  import opened Http
  import opened SocketCalls
  import RP = ResponseParser

  datatype SendEnd = AllSent | Blocked(offset: nat) | Broken(offset: nat)

  /** The results of `send` until all is sent, nothing more fits or the connection fails. */
  function SendLoop(offset: nat, total: nat, results: seq<SendResult>): (end: SendEnd)
    requires offset <= total
    ensures end.Blocked? ==> offset <= end.offset < total
    decreases |results|
  {
    if offset == total then AllSent
    else if results == [] then Blocked(offset)
    else
      match results[0]
      case Took(n) => SendLoop(offset + Clip(n, total - offset), total, results[1..])
      case SendWouldBlock => Blocked(offset)
      case SendIntr => SendLoop(offset, total, results[1..])
      case SendFailed => Broken(offset)
  }

  /** The results of `recv` until the response is whole, a read comes short or it fails. */
  function ReceiveLoop(buffer: string, results: seq<RecvResult>, order: Order): RP.Progress
    decreases |results|
  {
    if results == [] then RP.Progress.Receiving(buffer)
    else
      match results[0]
      case Bytes(chunk) =>
        var p := RP.ReceiveChunk(buffer, chunk, order);
        if p.Receiving? && |chunk| == READ_CHUNK then ReceiveLoop(p.buffer, results[1..], order) else p
      case RecvWouldBlock => RP.Progress.Receiving(buffer)
      case RecvIntr => ReceiveLoop(buffer, results[1..], order)
      case _ => RP.Progress.Failed
  }

  // ---------------------------------------------------------------- sending

  /** What the call number `k` of `send`, if the client gets there, leads to. */
  ghost predicate SendEnds(offset: nat, total: nat, results: seq<SendResult>, k: nat, end: SendEnd)
    requires k <= |results|
  {
    var sent := OffsetAfter(offset, total, results[..k]);
    if sent == total then end == AllSent
    else if k == |results| then end == Blocked(sent)
    else
      match results[k]
      case SendFailed => end == Broken(sent)
      case SendWouldBlock => end == Blocked(sent)
      case SendIntr => true
      case Took(_) => true
  }

  lemma {:induction false} SendPrefix(offset: nat, total: nat, results: seq<SendResult>, k: nat)
    requires offset <= total && WritesTo(offset, total, results, k)
    ensures var sent := OffsetAfter(offset, total, results[..k]);
            sent <= total && SendLoop(sent, total, results[k..]) == SendLoop(offset, total, results)
  {
    if k == 0 {
      assert results[0..] == results;
    } else {
      SendPrefix(offset, total, results, k - 1);
      SendStep(offset, total, results, k, OffsetAfter(offset, total, results[..k - 1]));
    }
  }

  lemma SendStep(offset: nat, total: nat, results: seq<SendResult>, k: nat, o: nat)
    requires 0 < k <= |results| && o == OffsetAfter(offset, total, results[..k - 1]) < total
    requires results[k - 1].Took? || results[k - 1].SendIntr?
    ensures var sent := OffsetAfter(offset, total, results[..k]);
            sent <= total && SendLoop(sent, total, results[k..]) == SendLoop(o, total, results[k - 1..])
  {
    assert results[..k] == results[..k - 1] + [results[k - 1]];
    OneMore(offset, total, results[..k - 1], results[k - 1]);
    SendsOn(o, total, results[k - 1..], results[k..]);
  }

  lemma SendsOn(offset: nat, total: nat, rest: seq<SendResult>, next: seq<SendResult>)
    requires offset < total && rest != [] && next == rest[1..] && (rest[0].Took? || rest[0].SendIntr?)
    ensures SendLoop(offset, total, rest) ==
            SendLoop(offset + if rest[0].Took? then Clip(rest[0].n, total - offset) else 0, total, next)
  {}

  lemma SendEffect(offset: nat, total: nat, results: seq<SendResult>, k: nat)
    requires offset <= total && WritesTo(offset, total, results, k)
    ensures SendEnds(offset, total, results, k, SendLoop(offset, total, results))
  {
    SendPrefix(offset, total, results, k);
    if k < |results| { assert results[k..][0] == results[k]; }
  }

  /** Whichever call the client gets to. */
  ghost predicate SendLeft(offset: nat, total: nat, results: seq<SendResult>, end: SendEnd) {
    forall k :: WritesTo(offset, total, results, k) ==> SendEnds(offset, total, results, k, end)
  }

  lemma SendLeftBehind(offset: nat, total: nat, results: seq<SendResult>)
    requires offset <= total
    ensures SendLeft(offset, total, results, SendLoop(offset, total, results))
  {
    forall k | WritesTo(offset, total, results, k)
      ensures SendEnds(offset, total, results, k, SendLoop(offset, total, results))
    {
      SendEffect(offset, total, results, k);
    }
  }

  // ---------------------------------------------------------------- receiving

  /** The bytes of the results. */
  function BytesOf(results: seq<RecvResult>): string {
    if results == [] then ""
    else
      var last := results[|results| - 1];
      BytesOf(results[..|results| - 1]) + if last.Bytes? then last.chunk else ""
  }

  /** After this result the client calls `recv` again: it was interrupted, or it filled its buffer with bytes that
      do not complete the response. */
  ghost predicate ReceivesOn(raw: string, r: RecvResult, order: Order) {
    r.RecvIntr? || (r.Bytes? && |r.chunk| == READ_CHUNK && Unfinished(raw + r.chunk, order))
  }

  ghost predicate Unfinished(raw: string, order: Order) {
    |raw| <= RP.MAX_RESPONSE && RP.TryParse(raw, order).Incomplete?
  }

  /** The client gets as far as the call number `k`. */
  ghost predicate ReceivesTo(buffer: string, results: seq<RecvResult>, order: Order, k: int) {
    0 <= k <= |results| && forall j :: 0 <= j < k ==> ReceivesOn(buffer + BytesOf(results[..j]), results[j], order)
  }

  /** What the call number `k` of `recv`, if the client gets there, leads to.  End of file and an error fail the
      client, as do too many bytes and malformed ones. */
  ghost predicate ReceiveEnds(buffer: string, results: seq<RecvResult>, order: Order, k: nat, p: RP.Progress)
    requires k <= |results|
  {
    var raw := buffer + BytesOf(results[..k]);
    if k == |results| then p == RP.Progress.Receiving(raw)
    else
      match results[k]
      case Eof => p == RP.Progress.Failed
      case RecvFailed => p == RP.Progress.Failed
      case RecvWouldBlock => p == RP.Progress.Receiving(raw)
      case RecvIntr => true
      case Bytes(chunk) => BytesEnd(raw + chunk, |chunk| < READ_CHUNK, order, p)
  }

  ghost predicate BytesEnd(raw: string, short: bool, order: Order, p: RP.Progress) {
    if |raw| > RP.MAX_RESPONSE then p == RP.Progress.Failed
    else
      match RP.TryParse(raw, order)
      case Malformed => p == RP.Progress.Failed
      case Complete(response) => p == RP.Done(response)
      case Incomplete => short ==> p == RP.Progress.Receiving(raw)
  }

  lemma {:induction false} ReceivePrefix(buffer: string, results: seq<RecvResult>, order: Order, k: nat)
    requires ReceivesTo(buffer, results, order, k)
    ensures ReceiveLoop(buffer + BytesOf(results[..k]), results[k..], order) == ReceiveLoop(buffer, results, order)
  {
    if k == 0 {
      assert results[0..] == results && buffer + "" == buffer;
    } else {
      var raw := buffer + BytesOf(results[..k - 1]);
      ReceivePrefix(buffer, results, order, k - 1);
      assert results[..k][..k - 1] == results[..k - 1];
      assert results[k - 1..][1..] == results[k..];
      GoesOn(raw, results[k - 1..], order);
      RP.Regroup(buffer, BytesOf(results[..k - 1]), if results[k - 1].Bytes? then results[k - 1].chunk else "");
    }
  }

  lemma GoesOn(raw: string, rest: seq<RecvResult>, order: Order)
    requires rest != [] && ReceivesOn(raw, rest[0], order)
    ensures ReceiveLoop(raw, rest, order) ==
            ReceiveLoop(raw + if rest[0].Bytes? then rest[0].chunk else "", rest[1..], order)
  {
    assert raw + "" == raw;
  }

  lemma ReceiveEffect(buffer: string, results: seq<RecvResult>, order: Order, k: nat)
    requires ReceivesTo(buffer, results, order, k)
    ensures ReceiveEnds(buffer, results, order, k, ReceiveLoop(buffer, results, order))
  {
    ReceivePrefix(buffer, results, order, k);
    LastReceived(buffer + BytesOf(results[..k]), results[k..], order);
  }

  lemma LastReceived(raw: string, rest: seq<RecvResult>, order: Order)
    ensures ReceiveEnds(raw, rest, order, 0, ReceiveLoop(raw, rest, order))
  {
    assert raw + "" == raw;
  }

  /** Whichever call the client gets to. */
  ghost predicate ReceiveLeft(buffer: string, results: seq<RecvResult>, order: Order, p: RP.Progress) {
    forall k :: ReceivesTo(buffer, results, order, k) ==> ReceiveEnds(buffer, results, order, k, p)
  }

  lemma ReceiveLeftBehind(buffer: string, results: seq<RecvResult>, order: Order)
    ensures ReceiveLeft(buffer, results, order, ReceiveLoop(buffer, results, order))
  {
    forall k | ReceivesTo(buffer, results, order, k)
      ensures ReceiveEnds(buffer, results, order, k, ReceiveLoop(buffer, results, order))
    {
      ReceiveEffect(buffer, results, order, k);
    }
  }
}
