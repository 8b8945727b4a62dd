/** What non-blocking socket calls return. */
module SocketCalls {
  /** The size of the buffer handed to `recv`. */
  const READ_CHUNK := 16 * 1024

  datatype RecvResult = Bytes(chunk: string) | Eof | RecvWouldBlock | RecvIntr | RecvFailed

  /** `send` takes some of the bytes left, at least one. */
  datatype SendResult = Took(n: nat) | SendWouldBlock | SendIntr | SendFailed

  predicate RecvOk(r: RecvResult) {
    r.Bytes? ==> 0 < |r.chunk| <= READ_CHUNK
  }

  ghost predicate AllRecvOk(results: seq<RecvResult>) {
    forall i :: 0 <= i < |results| ==> RecvOk(results[i])
  }

  /** How many bytes a call took: at least one, at most all that was left. */
  function Clip(n: nat, left: nat): (k: nat)
    requires left > 0
    ensures 0 < k <= left
  {
    if n == 0 then 1 else if n > left then left else n
  }

  /** How far `send` has got after the results, each of which takes at least one byte and at most what is left. */
  function OffsetAfter(offset: nat, total: nat, results: seq<SendResult>): nat {
    if results == [] then offset
    else
      var o, last := OffsetAfter(offset, total, results[..|results| - 1]), results[|results| - 1];
      if last.Took? && o < total then o + Clip(last.n, total - o) else o
  }

  /** The caller gets as far as the call number `k`: there is something to send before every earlier call, and
      none of them fails or would block. */
  ghost predicate WritesTo(offset: nat, total: nat, results: seq<SendResult>, k: int) {
    && 0 <= k <= |results|
    && forall j :: 0 <= j < k ==>
                     (results[j].Took? || results[j].SendIntr?) && OffsetAfter(offset, total, results[..j]) < total
  }

  lemma OneMore(offset: nat, total: nat, done: seq<SendResult>, r: SendResult)
    ensures var o := OffsetAfter(offset, total, done);
            OffsetAfter(offset, total, done + [r]) == if r.Took? && o < total then o + Clip(r.n, total - o) else o
  {
    assert (done + [r])[..|done|] == done;
  }
}
