/** The upstream client: its states, the request it sends and the response it collects. */
module HttpClient {
  import opened Http
  import opened SocketCalls
  import RP = ResponseParser
  import Proxy
  import opened ConnectionPool
  import opened PoolCode
  import opened SocketStream
  import opened ClientLoops

  datatype ClientState = NotConnected | Connecting | Connected | Sending | Receiving | Complete | Failed

  /** The progress that one more chunk makes, and what it says about everything received. */
  lemma Progressed(leftover: string, chunks: seq<string>, chunk: string, order: Order, raw: string)
    returns (p: RP.Progress)
    requires RP.ReceiveAll(leftover, chunks, order) == RP.Progress.Receiving(raw) && raw == leftover + RP.Concat(chunks)
    ensures p == RP.ReceiveChunk(raw, chunk, order) == RP.ReceiveAll(leftover, chunks + [chunk], order)
    ensures raw + chunk == leftover + RP.Concat(chunks + [chunk])
    ensures p == if |raw + chunk| > RP.MAX_RESPONSE then RP.Progress.Failed
                 else RP.ProgressOf(raw + chunk, RP.TryParse(raw + chunk, order))
  {
    p := ChunkMeans(raw, chunk, order);
    RP.ReceiveOneMore(leftover, chunks, chunk, order, raw);
    MoreReceived(leftover, chunks, chunk, raw);
  }

  /** One more read of a size `recv` can have, perhaps the one that completes the response. */
  lemma OneMoreRead(leftover: string, chunks: seq<string>, chunk: string, order: Order)
    requires RP.Reads(chunks) && 0 < |chunk| <= READ_CHUNK && RP.ReceiveAll(leftover, chunks, order).Receiving?
    ensures RP.Reads(chunks + [chunk])
    ensures leftover == "" && RP.ReceiveAll(leftover, chunks + [chunk], order).Done? ==>
              CallReads(chunks + [chunk], order)
  {
    assert (chunks + [chunk])[..|chunks|] == chunks;
  }

  lemma ChunkMeans(raw: string, chunk: string, order: Order) returns (p: RP.Progress)
    ensures p == RP.ReceiveChunk(raw, chunk, order)
    ensures p == if |raw + chunk| > RP.MAX_RESPONSE then RP.Progress.Failed
                 else RP.ProgressOf(raw + chunk, RP.TryParse(raw + chunk, order))
  {
    p := RP.ReceiveChunk(raw, chunk, order);
  }

  lemma MoreReceived(leftover: string, chunks: seq<string>, chunk: string, raw: string)
    requires raw == leftover + RP.Concat(chunks)
    ensures raw + chunk == leftover + RP.Concat(chunks + [chunk])
  {
    RP.ConcatLast(chunks, chunk);
    assert leftover + (RP.Concat(chunks) + chunk) == leftover + RP.Concat(chunks) + chunk;
  }

  class Client {
    const sockets: Sockets
    const order: Order
    var fd: int
    var state: ClientState
    var remoteHost: string
    var writeBuffer: string
    var writeOffset: nat
    var readBuffer: string
    var response: RP.Response

    /** The request prepared, what of it was sent, what was in the read buffer before, and what was
        received since. */
    ghost var request: string
    ghost var wire: string
    ghost var leftover: string
    ghost var chunks: seq<string>

    ghost predicate Valid()
      reads this, sockets
    {
      && (fd >= 0 ==> fd in sockets.open)
      && (state.Connecting? || state.Connected? || state.Sending? || state.Receiving? || state.Complete? ==> fd >= 0)
      && (state.Sending? ==> writeBuffer == request && writeOffset <= |request| && wire == request[..writeOffset])
      && (state.Receiving? || state.Complete? ==> wire == request)
      && (state.Receiving? ==>
            && RP.ReceiveAll(leftover, chunks, order) == RP.Progress.Receiving(readBuffer)
            && readBuffer == leftover + RP.Concat(chunks) && RP.Reads(chunks))
      && (state.Complete? ==>
            && RP.ReceiveAll(leftover, chunks, order) == RP.Done(response)
            && RP.TryParse(leftover + RP.Concat(chunks), order) == RP.Complete(response)
            && (leftover == "" ==> CallReads(chunks, order)))
    }

    constructor (sockets: Sockets, order: Order)
      ensures Valid() && fd == -1 && state.NotConnected? && readBuffer == ""
      ensures this.sockets == sockets && this.order == order
    {
      this.sockets, this.order := sockets, order;
      fd, state, remoteHost := -1, NotConnected, "";
      writeBuffer, writeOffset, readBuffer, response := "", 0, "", RP.Response(0, "", [], "");
      request, wire, leftover, chunks := "", "", "", [];
    }

    method Close()
      requires fd >= 0 ==> fd in sockets.open
      modifies this`fd, sockets
      ensures fd < 0
      ensures sockets.open == if old(fd) >= 0 then old(sockets.open) - {old(fd)} else old(sockets.open)
    {
      if fd >= 0 {
        sockets.CloseSocket(fd);
        fd := -1;
      }
    }

    /** False when the client is busy; a connection it still has is closed. */
    method AdoptConnection(newFd: Fd, host: string) returns (ok: bool)
      requires Valid() && newFd in sockets.open
      modifies this, sockets
      ensures Valid()
      ensures ok <==> old(state).NotConnected? || old(state).Complete? || old(state).Failed?
      ensures ok ==> state.Connected? && fd == newFd && remoteHost == host && readBuffer == ""
      ensures ok ==> sockets.open ==
                       if old(fd) >= 0 && old(fd) != newFd then old(sockets.open) - {old(fd)} else old(sockets.open)
      ensures !ok ==> unchanged(this) && unchanged(sockets)
    {
      if !state.NotConnected? && !state.Complete? && !state.Failed? {
        return false;
      }
      if fd >= 0 && fd != newFd {
        sockets.CloseSocket(fd);
      }
      fd, remoteHost := newFd, host;
      writeBuffer, writeOffset, readBuffer, response := "", 0, "", RP.Response(0, "", [], "");
      state := Connected;
      ok := true;
    }

    /** A descriptor that is not open yet, or nothing when the socket cannot be made; the source then
        throws.  False also when the state does not allow it. */
    method Connect(host: string, made: int) returns (ok: bool)
      requires Valid() && state.NotConnected? && fd == -1
      requires made >= 0 ==> made !in sockets.open
      modifies this, sockets
      ensures Valid() && ok == (made >= 0)
      ensures ok ==>
                && state.Connecting? && fd == made && remoteHost == host
                && sockets.open == old(sockets.open)[made := host]
      ensures !ok ==> state.Failed? && fd == -1 && sockets.open == old(sockets.open)
      ensures readBuffer == old(readBuffer)
    {
      if made < 0 {
        state := Failed;
        return false;
      }
      fd := made;
      sockets.open := sockets.open[made := host];
      remoteHost, state, ok := host, ClientState.Connecting, true;
    }

    method CompleteConnect(socketError: bool) returns (ok: bool)
      requires Valid()
      modifies this`state
      ensures Valid() && ok == (old(state).Connecting? && !socketError)
      ensures state == if !old(state).Connecting? then old(state) else if socketError then Failed else Connected
    {
      if !state.Connecting? {
        return false;
      }
      ok := !socketError;
      state := if socketError then Failed else Connected;
    }

    /** False when called from a state other than `Connected`; the source throws. */
    method PrepareRequest(verb: Method, target: string, fs: Fields, body: string) returns (ok: bool)
      requires Valid()
      modifies this`state, this`writeBuffer, this`writeOffset, this`request, this`wire
      ensures Valid() && ok == old(state).Connected?
      ensures ok ==>
                && state.Sending? && writeOffset == 0
                && request == Proxy.PrintRequest(verb, target, fs, remoteHost, body)
      ensures !ok ==> state == old(state) && request == old(request)
    {
      if !state.Connected? {
        return false;
      }
      writeBuffer := Proxy.PrepareRequest(verb, target, fs, remoteHost, body);
      writeOffset, state, ok := 0, ClientState.Sending, true;
      request, wire := writeBuffer, "";
    }

    method Send(results: seq<SendResult>) returns (ok: bool)
      requires Valid()
      modifies this`state, this`writeBuffer, this`writeOffset, this`wire, this`leftover, this`chunks
      ensures Valid()
      ensures !old(state).Sending? ==> state == old(state) && ok == (state.Receiving? || state.Complete?)
      ensures old(state).Sending? ==>
                var end := SendLoop(old(writeOffset), |request|, results);
                && SendLeft(old(writeOffset), |request|, results, end) && ok == !end.Broken?
                && (end.AllSent? ==> state.Receiving? && leftover == readBuffer && chunks == [])
                && (end.Blocked? ==> state.Sending? && writeOffset == end.offset)
                && (end.Broken? ==> state.Failed?)
    {
      if !state.Sending? {
        return state.Receiving? || state.Complete?;
      }
      SendLeftBehind(writeOffset, |request|, results);
      var k := 0;
      assert results[0..] == results;
      while writeOffset < |writeBuffer|
        invariant 0 <= k <= |results| && Valid() && state.Sending?
        invariant SendLoop(old(writeOffset), |request|, results) == SendLoop(writeOffset, |request|, results[k..])
        decreases |results| - k
      {
        if k == |results| {
          return true;
        }
        assert results[k..][1..] == results[k + 1..];
        match results[k] {
          case Took(n) =>
            Advance(n);
          case SendWouldBlock =>
            return true;
          case SendIntr =>
          case SendFailed =>
            state := Failed;
            return false;
        }
        k := k + 1;
      }
      BeginReceiving();
      ok := true;
    }

    /** The kernel has taken `n` bytes, or all that were left if they are fewer. */
    method Advance(n: nat)
      requires Valid() && state.Sending? && writeOffset < |writeBuffer|
      modifies this`writeOffset, this`wire
      ensures Valid() && writeOffset == old(writeOffset) + Clip(n, |writeBuffer| - old(writeOffset))
    {
      var sent := Clip(n, |writeBuffer| - writeOffset);
      wire := wire + writeBuffer[writeOffset..writeOffset + sent];
      writeOffset := writeOffset + sent;
    }

    /** From sending to receiving. */
    method BeginReceiving()
      requires Valid() && state.Sending? && writeOffset >= |writeBuffer|
      modifies this`state, this`writeBuffer, this`leftover, this`chunks
      ensures Valid() && state.Receiving? && leftover == readBuffer && chunks == []
    {
      writeBuffer := "";
      leftover, chunks := readBuffer, [];
      assert readBuffer == readBuffer + "";
      state := ClientState.Receiving;
    }

    /** The client stands where the progress says. */
    ghost predicate Reached(p: RP.Progress)
      reads this
    {
      match p
      case Receiving(raw) => state.Receiving? && readBuffer == raw
      case Done(r) => state.Complete? && response == r
      case Failed => state.Failed?
    }

    method Receive(results: seq<RecvResult>) returns (ok: bool)
      requires Valid() && AllRecvOk(results)
      modifies this`state, this`readBuffer, this`response, this`chunks
      ensures Valid()
      ensures !old(state).Receiving? ==> state == old(state) && ok == state.Complete?
      ensures old(state).Receiving? ==>
                var p := ReceiveLoop(old(readBuffer), results, order);
                Reached(p) && ok == !state.Failed? && ReceiveLeft(old(readBuffer), results, order, p)
      ensures !old(state).Receiving? ==> chunks == old(chunks) && response == old(response)
    {
      if !state.Receiving? {
        return state.Complete?;
      }
      ReceiveLeftBehind(readBuffer, results, order);
      var k := 0;
      assert results[0..] == results;
      while k < |results|
        invariant 0 <= k <= |results| && Valid() && state.Receiving?
        invariant ReceiveLoop(old(readBuffer), results, order) == ReceiveLoop(readBuffer, results[k..], order)
      {
        assert results[k..][1..] == results[k + 1..];
        match results[k] {
          case Bytes(chunk) =>
            OnBytes(chunk);
            if !state.Receiving? || |chunk| < READ_CHUNK {
              return !state.Failed?;
            }
          case RecvWouldBlock =>
            return true;
          case RecvIntr =>
          case _ =>
            state := Failed;
            return false;
        }
        k := k + 1;
      }
      ok := true;
    }

    method OnBytes(chunk: string)
      requires Valid() && state.Receiving? && 0 < |chunk| <= READ_CHUNK
      modifies this`state, this`readBuffer, this`response, this`chunks
      ensures Valid() && Reached(RP.ReceiveChunk(old(readBuffer), chunk, order))
      ensures chunks == old(chunks) + [chunk]
    {
      ghost var p := Progressed(leftover, chunks, chunk, order, readBuffer);
      OneMoreRead(leftover, chunks, chunk, order);
      chunks := chunks + [chunk];
      readBuffer := readBuffer + chunk;
      if |readBuffer| > RP.MAX_RESPONSE {
        state := Failed;
        return;
      }
      var parsed := RP.TryParseResponse(readBuffer, order);
      Store(parsed);
    }

    /** What the parser makes of all that was received. */
    method Store(parsed: RP.Outcome)
      requires fd >= 0 && fd in sockets.open && state.Receiving? && wire == request
      requires parsed == RP.TryParse(readBuffer, order)
      requires readBuffer == leftover + RP.Concat(chunks) && RP.Reads(chunks)
      requires RP.ReceiveAll(leftover, chunks, order) == RP.ProgressOf(readBuffer, parsed)
      requires leftover == "" && parsed.Complete? ==> CallReads(chunks, order)
      modifies this`state, this`readBuffer, this`response
      ensures Valid() && Reached(RP.ProgressOf(old(readBuffer), parsed))
    {
      match parsed {
        case Malformed =>
          state := Failed;
        case Incomplete =>
        case Complete(r) =>
          response, state, readBuffer := r, ClientState.Complete, "";
      }
    }

    /** Hands the descriptor over; closing it is no longer this client's business. */
    method ReleaseFd() returns (released: int)
      requires Valid()
      modifies this`fd, this`state
      ensures Valid() && released == (if old(fd) < 0 then -1 else old(fd)) && fd < 0
    {
      if fd < 0 {
        return -1;
      }
      released := fd;
      fd := -1;
      state := NotConnected;
    }
  }
}
