/** Sending requests and responses, and reassembling a request from whatever pieces the connection
    delivers. */
module ControlMessages {
  import opened ControlCodec

  // ---------------------------------------------------------------- the connection

  /** What the next calls of select() and recv() meet; the list ends where the remote shut down. */
  datatype Arrival = Data(bytes: seq<byte>) | SelectFails | RecvFails

  ghost predicate Flowing(arrivals: seq<Arrival>) {
    forall a | a in arrivals :: a.Data? ==> a.bytes != []
  }

  datatype Status = Whole | Shutdown | RecvError | SelectError
  datatype Gathered = Gathered(got: seq<byte>, rest: seq<Arrival>, status: Status)

  /** The reference for reading `left` bytes: the bytes in order, however they are cut up, and what is
      left for the next message. */
  ghost function Gather(arrivals: seq<Arrival>, left: nat): (g: Gathered)
    ensures g.status == Whole <==> |g.got| == left
    ensures |g.got| <= left
  {
    if left == 0 then Gathered([], arrivals, Whole)
    else if arrivals == [] then Gathered([], [], Shutdown)
    else
      match arrivals[0]
      case SelectFails => Gathered([], arrivals, SelectError)
      case RecvFails => Gathered([], arrivals, RecvError)
      case Data(bytes) =>
        if |bytes| > left then Gathered(bytes[..left], [Data(bytes[left..])] + arrivals[1..], Whole)
        else Prepended(bytes, Gather(arrivals[1..], left - |bytes|))
  }

  ghost function Prepended(bytes: seq<byte>, g: Gathered): Gathered {
    g.(got := bytes + g.got)
  }

  class ControlSocket {
    var arrivals: seq<Arrival>
    var open: bool

    constructor (arrivals: seq<Arrival>)
      ensures this.arrivals == arrivals && open
    {
      this.arrivals, open := arrivals, true;
    }

    /** False on an error or a timeout. */
    method Select() returns (ready: bool)
      ensures ready <==> !(arrivals != [] && arrivals[0].SelectFails?)
    {
      ready := arrivals == [] || !arrivals[0].SelectFails?;
    }

    /** A non-empty prefix of the pending bytes, 0 at the end and -1 on an error. */
    method Recv(max: nat) returns (received: int, bytes: seq<byte>)
      requires max > 0 && Flowing(arrivals) && !(arrivals != [] && arrivals[0].SelectFails?)
      modifies this`arrivals
      ensures Flowing(arrivals)
      ensures received == 0 <==> old(arrivals) == []
      ensures received < 0 <==> old(arrivals) != [] && old(arrivals)[0].RecvFails?
      ensures received <= 0 ==> bytes == [] && arrivals == old(arrivals)
      ensures received > 0 ==> received == |bytes| <= max
      ensures forall left: nat :: left >= max && received > 0 ==>
                Gather(old(arrivals), left) == Prepended(bytes, Gather(arrivals, left - received))
    {
      hide Gather, Prepended;
      if arrivals == [] {
        return 0, [];
      }
      if arrivals[0].RecvFails? {
        return -1, [];
      }
      var pending := arrivals[0].bytes;
      assert arrivals[0] in arrivals;
      assert arrivals == [Data(pending)] + arrivals[1..];
      if |pending| <= max {
        WholeChunk(pending, arrivals[1..]);
        bytes := pending;
        arrivals := arrivals[1..];
      } else {
        bytes := pending[..max];
        arrivals := [Data(pending[max..])] + arrivals[1..];
        RestartedChunk(pending, max, arrivals[1..]);
      }
      received := |bytes|;
    }
  }

  lemma WholeChunk(pending: seq<byte>, rest: seq<Arrival>)
    requires pending != []
    ensures forall left: nat :: left >= |pending| ==>
      Gather([Data(pending)] + rest, left) == Prepended(pending, Gather(rest, left - |pending|))
  {}

  lemma RestartedChunk(pending: seq<byte>, max: nat, rest: seq<Arrival>)
    requires 0 < max < |pending|
    ensures forall left: nat :: left >= max ==>
      Gather([Data(pending)] + rest, left)
        == Prepended(pending[..max], Gather([Data(pending[max..])] + rest, left - max))
  {}

  // ---------------------------------------------------------------- the two ends

  function Signed(v: int): int {
    if v < 0x8000_0000 then v else v - TWO32
  }

  /** The affinity of every 32-bit int, -1 for none among them, is what the receiver reads. */
  lemma AffinityArrives(s: ByteOrder, r: ByteOrder, m: seq<byte>, affinity: int, n: int)
    requires |m| == MESSAGE_BYTES && -0x8000_0000 <= affinity < 0x8000_0000
    ensures Signed(Load(r, Word(Converted(r, Sent(s, m, affinity, n), 0, WordCount(n)), 1))) == affinity
  {
    hide Load, Converted, Word, Sent, WordCount;
    RequestArrives(s, r, m, affinity, n);
  }

  class Endpoint {
    const order: ByteOrder
    const request: array<byte>
    const response: array<byte>
    var remoteProcAffinity: int
    var localProcAffinity: int

    constructor (order: ByteOrder)
      ensures this.order == order && Valid() && fresh(request) && fresh(response)
    {
      this.order := order;
      request, response := new byte[MESSAGE_BYTES], new byte[MESSAGE_BYTES];
      remoteProcAffinity, localProcAffinity := -1, -1;
    }

    ghost predicate Valid() {
      request.Length == response.Length == MESSAGE_BYTES && request != response
    }

    /** Returns what is handed to send(); the request stays converted in memory. */
    method SendRequestN(n: int) returns (wire: seq<byte>)
      requires Valid()
      modifies request
      ensures wire == request[..] == Sent(order, old(request[..]), remoteProcAffinity, n)
    {
      var count := if n < 0 then WORDS else 2 + n;
      if count > WORDS {
        count := WORDS;
      }
      var dummy := Store(order, remoteProcAffinity % TWO32);
      request[4], request[5], request[6], request[7] := dummy[0], dummy[1], dummy[2], dummy[3];
      assert request[..] == WithAffinity(order, old(request[..]), remoteProcAffinity);
      ConvertWords(order, request, 0, count);
      wire := request[..];
    }

    method SendResponseN(n: int) returns (wire: seq<byte>)
      requires Valid()
      modifies response
      ensures wire == response[..] == Converted(order, old(response[..]), 0, WordCount(n))
    {
      var count := if n < 0 then WORDS else 2 + n;
      if count > WORDS {
        count := WORDS;
      }
      ConvertWords(order, response, 0, count);
      wire := response[..];
    }

    /** Undoes on the words from n + 2 on what receiving everything converted. */
    method FixupRequestN(n: int)
      requires Valid() && n >= -2
      modifies request
      ensures request[..] == Converted(order, old(request[..]), n + 2, WORDS)
    {
      ConvertWords(order, request, n + 2, WORDS);
    }

    /** The receiving loop: bytes go to the front of a message until it is whole or something ends
        it.  `ready` is false when select() ended it. */
    method Receive(message: array<byte>, conn: ControlSocket) returns (ready: bool, received: int)
      requires message.Length == MESSAGE_BYTES && conn.open && Flowing(conn.arrivals)
      modifies message, conn
      ensures var g := Gather(old(conn.arrivals), MESSAGE_BYTES);
        && message[..] == Filled(g.got, old(message[..]))
        && conn.arrivals == g.rest && Flowing(conn.arrivals)
        && conn.open == ready == (g.status != SelectError)
        && (ready ==> (received > 0 <==> g.status == Whole) && (received == 0 <==> g.status == Shutdown))
    {
      hide Gather, Prepended, Filled;
      ghost var before, got := message[..], [];
      ghost var all := Gather(conn.arrivals, MESSAGE_BYTES);
      NothingYet(before, all);
      var total, left := 0, MESSAGE_BYTES;
      received := 0;
      var more := true;
      while more
        invariant |got| == total <= MESSAGE_BYTES && left == MESSAGE_BYTES - total
        invariant message[..] == Filled(got, before)
        invariant Flowing(conn.arrivals) && conn.open
        invariant all == Prepended(got, Gather(conn.arrivals, left))
        invariant more ==> left > 0
        invariant !more ==> (received > 0 <==> left == 0)
        invariant !more && left > 0 ==> (received == 0 <==> conn.arrivals == [])
        invariant !more && received < 0 ==> conn.arrivals != [] && conn.arrivals[0].RecvFails?
        decreases left, more
      {
        ready := conn.Select();
        if !ready {
          NothingMore(got, conn.arrivals, left);
          conn.open := false;
          return;
        }
        var bytes;
        received, bytes := conn.Recv(left);
        if received > 0 {
          PrependedTwice(got, bytes, Gather(conn.arrivals, left - received));
          CopyInto(message, bytes, total, got, before);
          got := got + bytes;
          total := total + received;
          left := left - received;
        }
        more := total != MESSAGE_BYTES && received > 0;
      }
      NothingMore(got, conn.arrivals, left);
      ready := true;
    }

    method CopyInto(message: array<byte>, bytes: seq<byte>, at: nat, ghost got: seq<byte>, ghost before: seq<byte>)
      requires at + |bytes| <= message.Length == |before|
      requires |got| == at && message[..] == Filled(got, before)
      modifies message
      ensures message[..] == Filled(got + bytes, before)
    {
      forall j | 0 <= j < |bytes| {
        message[at + j] := bytes[j];
      }
    }

    method RecvRequestTimedN(n: int, conn: ControlSocket) returns (code: int)
      requires Valid() && conn.open && Flowing(conn.arrivals)
      modifies this`localProcAffinity, request, conn
      ensures var g := Gather(old(conn.arrivals), MESSAGE_BYTES);
        var filled := Filled(g.got, old(request[..]));
        && conn.arrivals == g.rest && Flowing(conn.arrivals)
        && code == (if g.status == Whole then MESSAGE_BYTES else if g.status == Shutdown then 0 else -1)
        && conn.open == (g.status == Whole)
        && request[..] == (if g.status == SelectError then filled else Converted(order, filled, 0, WordCount(n)))
        && localProcAffinity == (if g.status == Whole then Signed(Load(order, Word(request[..], 1)))
                                 else old(localProcAffinity))
    {
      var count := if n < 0 then WORDS else 2 + n;
      if count > WORDS {
        count := WORDS;
      }
      var ready, received := Receive(request, conn);
      if !ready {
        return -1;
      }
      ConvertWords(order, request, 0, count);
      if received < 0 {
        conn.open := false;
        return -1;
      }
      if received == 0 {
        conn.open := false;
        return 0;
      }
      assert request[4..8] == Word(request[..], 1);
      localProcAffinity := Signed(Load(order, request[4..8]));
      code := MESSAGE_BYTES;
    }

    /** The loop around the receiving calls: until one of them does not return a request. */
    method ProcessRequests(n: int, conn: ControlSocket) returns (requests: seq<seq<byte>>)
      requires Valid() && conn.open && Flowing(conn.arrivals)
      modifies this`localProcAffinity, request, conn
      ensures requests == Decoded(order, n, old(conn.arrivals))
      ensures !conn.open && PendingBytes(conn.arrivals) == []
      ensures forall messages, tail :: Carries(old(conn.arrivals), messages, tail) ==>
        |requests| == |messages|
        && forall i :: 0 <= i < |messages| ==> requests[i] == Converted(order, messages[i], 0, WordCount(n))
    {
      hide Gather, Converted, PendingBytes, Filled, Load;
      forall messages, tail | Carries(conn.arrivals, messages, tail)
        ensures var requests := Decoded(order, n, conn.arrivals);
          |requests| == |messages|
          && forall i :: 0 <= i < |messages| ==> requests[i] == Converted(order, messages[i], 0, WordCount(n))
      {
        StreamDecodes(order, n, conn.arrivals, messages, tail);
      }
      hide Carries;
      requests := [];
      while true
        invariant conn.open && Flowing(conn.arrivals)
        invariant requests + Decoded(order, n, conn.arrivals) == Decoded(order, n, old(conn.arrivals))
        decreases |PendingBytes(conn.arrivals)|
      {
        ghost var arrivals, before := conn.arrivals, request[..];
        GatherTakesPrefix(arrivals, MESSAGE_BYTES);
        var code := RecvRequestTimedN(n, conn);
        if code <= 0 {
          return;
        }
        FilledWhole(Gather(arrivals, MESSAGE_BYTES).got, before);
        requests := requests + [request[..]];
      }
    }

    /** recv_response selects only once, before the first piece; `ready` is the outcome of that.  `ok` is
        false where the program exits. */
    method RecvResponseTimedN(n: int, ready: bool, conn: ControlSocket) returns (ok: bool)
      requires Valid() && conn.open && Flowing(conn.arrivals)
      requires forall a | a in conn.arrivals :: !a.SelectFails?
      modifies response, conn
      ensures var g := Gather(old(conn.arrivals), MESSAGE_BYTES);
        && (ok <==> ready && g.status == Whole)
        && (if ready then conn.arrivals == g.rest else forall j :: 0 <= j < MESSAGE_BYTES ==> response[j] == 0)
        && (ok ==> response[..] == Converted(order, g.got, 0, WordCount(n)))
    {
      var count := if n < 0 then WORDS else 2 + n;
      if count > WORDS {
        count := WORDS;
      }
      for i := 0 to MESSAGE_BYTES
        modifies response
        invariant forall j :: 0 <= j < i ==> response[j] == 0
      {
        response[i] := 0;
      }
      if !ready {
        return false;
      }
      NoSelectError(conn.arrivals, MESSAGE_BYTES);
      var _, received := Receive(response, conn);
      ConvertWords(order, response, 0, count);
      ok := received > 0;
    }
  }

  lemma {:induction false} NoSelectError(arrivals: seq<Arrival>, left: nat)
    requires forall a | a in arrivals :: !a.SelectFails?
    ensures Gather(arrivals, left).status != SelectError
  {
    if left > 0 && arrivals != [] {
      assert arrivals[0] in arrivals;
      if arrivals[0].Data? && |arrivals[0].bytes| <= left {
        NoSelectError(arrivals[1..], left - |arrivals[0].bytes|);
      }
    }
  }

  ghost function Filled(got: seq<byte>, before: seq<byte>): (m: seq<byte>)
    requires |got| <= |before|
    ensures |m| == |before|
  {
    got + before[|got|..]
  }

  lemma FilledWhole(got: seq<byte>, before: seq<byte>)
    requires |got| == |before|
    ensures Filled(got, before) == got
  {}

  /** Where the receiving loop starts. */
  lemma NothingYet(before: seq<byte>, g: Gathered)
    ensures Filled([], before) == before && Prepended([], g) == g
  {
    assert [] + before == before && [] + g.got == g.got;
  }

  /** Where it ends. */
  lemma NothingMore(got: seq<byte>, arrivals: seq<Arrival>, left: nat)
    ensures left == 0 ==> Prepended(got, Gather(arrivals, left)) == Gathered(got, arrivals, Whole)
    ensures left > 0 && arrivals == [] ==> Prepended(got, Gather(arrivals, left)) == Gathered(got, [], Shutdown)
    ensures left > 0 && arrivals != [] && arrivals[0].SelectFails? ==>
      Prepended(got, Gather(arrivals, left)) == Gathered(got, arrivals, SelectError)
    ensures left > 0 && arrivals != [] && arrivals[0].RecvFails? ==>
      Prepended(got, Gather(arrivals, left)) == Gathered(got, arrivals, RecvError)
  {
    assert got + [] == got;
  }

  lemma PrependedTwice(a: seq<byte>, b: seq<byte>, g: Gathered)
    ensures Prepended(a, Prepended(b, g)) == Prepended(a + b, g)
  {}

  // ---------------------------------------------------------------- whole streams

  /** The bytes of the stream up to the first failure. */
  ghost function PendingBytes(arrivals: seq<Arrival>): seq<byte> {
    if arrivals == [] || !arrivals[0].Data? then [] else arrivals[0].bytes + PendingBytes(arrivals[1..])
  }

  lemma DropConcat(a: seq<byte>, b: seq<byte>, n: nat)
    requires |a| <= n <= |a| + |b|
    ensures (a + b)[n..] == b[n - |a|..]
  {}

  /** What ends the stream after its bytes. */
  ghost function Ending(arrivals: seq<Arrival>): Status {
    if arrivals == [] then Shutdown
    else
      match arrivals[0]
      case Data(_) => Ending(arrivals[1..])
      case SelectFails => SelectError
      case RecvFails => RecvError
  }

  /** A message is whole exactly when the stream still holds enough bytes; it consists of the next
      bytes of the stream, and none of the bytes after it is taken. */
  lemma {:induction false} GatherTakesPrefix(arrivals: seq<Arrival>, left: nat)
    ensures var g := Gather(arrivals, left);
      && g.status == (if |PendingBytes(arrivals)| >= left then Whole else Ending(arrivals))
      && g.got <= PendingBytes(arrivals)
      && PendingBytes(g.rest) == (if g.status == Whole then PendingBytes(arrivals)[left..] else [])
  {
    if left == 0 || arrivals == [] || !arrivals[0].Data? {
      return;
    }
    var bytes, rest := arrivals[0].bytes, arrivals[1..];
    if |bytes| > left {
      var again := [Data(bytes[left..])] + rest;
      assert again[1..] == rest;
      assert bytes[left..] + PendingBytes(rest) == PendingBytes(arrivals)[left..];
    } else {
      GatherTakesPrefix(rest, left - |bytes|);
      var g := Gather(rest, left - |bytes|);
      assert PendingBytes(arrivals) == bytes + PendingBytes(rest);
      if g.status == Whole {
        DropConcat(bytes, PendingBytes(rest), left);
      }
    }
  }

  ghost function Flatten(messages: seq<seq<byte>>): seq<byte> {
    if messages == [] then [] else messages[0] + Flatten(messages[1..])
  }

  /** The bytes of a stream are those of whole messages and of an incomplete one. */
  ghost predicate Carries(arrivals: seq<Arrival>, messages: seq<seq<byte>>, tail: seq<byte>) {
    && (forall i :: 0 <= i < |messages| ==> |messages[i]| == MESSAGE_BYTES)
    && |tail| < MESSAGE_BYTES
    && PendingBytes(arrivals) == Flatten(messages) + tail
  }

  /** The requests that repeated receives return before one of them fails. */
  ghost function Decoded(order: ByteOrder, n: int, arrivals: seq<Arrival>): seq<seq<byte>>
    decreases |PendingBytes(arrivals)|
  {
    var g := Gather(arrivals, MESSAGE_BYTES);
    GatherTakesPrefix(arrivals, MESSAGE_BYTES);
    if g.status != Whole then []
    else [Converted(order, g.got, 0, WordCount(n))] + Decoded(order, n, g.rest)
  }

  /** However the bytes of a sequence of messages are cut up, and whatever incomplete message follows
      them, repeated receives return these messages in order and no other. */
  lemma {:induction false} StreamDecodes(order: ByteOrder, n: int, arrivals: seq<Arrival>,
                                         messages: seq<seq<byte>>, tail: seq<byte>)
    requires Carries(arrivals, messages, tail)
    ensures |Decoded(order, n, arrivals)| == |messages|
    ensures forall i :: 0 <= i < |messages| ==>
      Decoded(order, n, arrivals)[i] == Converted(order, messages[i], 0, WordCount(n))
    decreases |messages|
  {
    hide Converted, Gather, PendingBytes, Decoded;
    DecodedNext(order, n, arrivals);
    if messages != [] {
      var rest, later := Gather(arrivals, MESSAGE_BYTES).rest, Flatten(messages[1..]) + tail;
      assert PendingBytes(arrivals) == messages[0] + later;
      DropConcat(messages[0], later, MESSAGE_BYTES);
      StreamDecodes(order, n, rest, messages[1..], tail);
      forall i | 0 < i < |messages|
        ensures Decoded(order, n, arrivals)[i] == Converted(order, messages[i], 0, WordCount(n))
      {
        assert messages[1..][i - 1] == messages[i];
      }
    }
  }

  lemma DecodedNext(order: ByteOrder, n: int, arrivals: seq<Arrival>)
    ensures var pending, rest := PendingBytes(arrivals), Gather(arrivals, MESSAGE_BYTES).rest;
      if |pending| < MESSAGE_BYTES then Decoded(order, n, arrivals) == []
      else
        && PendingBytes(rest) == pending[MESSAGE_BYTES..]
        && Decoded(order, n, arrivals)
           == [Converted(order, pending[..MESSAGE_BYTES], 0, WordCount(n))] + Decoded(order, n, rest)
  {
    hide Converted, Gather, PendingBytes;
    GatherTakesPrefix(arrivals, MESSAGE_BYTES);
    var g := Gather(arrivals, MESSAGE_BYTES);
    assert g.status == Whole ==> g.got == PendingBytes(arrivals)[..MESSAGE_BYTES];
  }
}
