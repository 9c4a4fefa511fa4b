/** The request/response test as two processes over two byte streams, ended by a transaction count.
    Each loop of the source is cut at its calls of send() and recv(); every step may take place
    whenever it is possible, and a recv() returns any non-empty part of what is pending. */
module RequestResponse {

  /** `burst` is first_burst_size; without bursts it is zero or negative. */
  datatype Test = Test(transactions: nat, reqSize: nat, rspSize: nat, burst: int)

  const REQUEST_CWND_INITIAL := 2

  datatype ClientPc = Sending | Receiving | ClientDone
  datatype ServerPc = Serving | ServerDone

  /** `sent` counts the requests sent; the other fields are the client's variables. */
  datatype Client = Client(pc: ClientPc, requestsOutstanding: int, requestCwnd: int, transRemaining: int,
                           nummessages: int, rspBytesLeft: int, sent: int)

  datatype Server = Server(pc: ServerPc, requestBytesRemaining: int, transRemaining: int, transReceived: int)

  /** Both processes and the bytes pending in each direction. */
  datatype State = State(c: Client, s: Server, toServer: int, toClient: int)

  function Init(t: Test): State {
    State(Client(if t.transactions > 0 then Sending else ClientDone, 0, REQUEST_CWND_INITIAL, t.transactions, 0, 0, 0),
          Server(if t.transactions > 0 then Serving else ServerDone, t.reqSize, t.transactions, 0),
          0, 0)
  }

  datatype Action = Inject | Send | ClientRecv(bytes: int) | Complete | ServerRecv(bytes: int) | Respond

  /** The condition of the burst loop. */
  predicate MayInject(t: Test, c: Client) {
    t.burst > 0 && c.requestsOutstanding < c.requestCwnd && c.requestsOutstanding < t.burst
  }

  predicate Enabled(t: Test, x: State, a: Action) {
    match a
    case Inject => x.c.pc == Sending && MayInject(t, x.c)
    case Send => x.c.pc == Sending && !MayInject(t, x.c)
    case ClientRecv(bytes) => x.c.pc == Receiving && 1 <= bytes <= x.c.rspBytesLeft && bytes <= x.toClient
    case Complete => x.c.pc == Receiving && x.c.rspBytesLeft == 0
    case ServerRecv(bytes) => x.s.pc == Serving && 1 <= bytes <= x.s.requestBytesRemaining && bytes <= x.toServer
    case Respond => x.s.pc == Serving && x.s.requestBytesRemaining == 0
  }

  function Step(t: Test, x: State, a: Action): State
    requires Enabled(t, x, a)
  {
    match a
    case Inject =>
      x.(toServer := x.toServer + t.reqSize,
         c := x.c.(requestsOutstanding := x.c.requestsOutstanding + 1, sent := x.c.sent + 1))
    case Send =>
      x.(toServer := x.toServer + t.reqSize,
         c := x.c.(requestsOutstanding := x.c.requestsOutstanding + 1, sent := x.c.sent + 1,
                   rspBytesLeft := t.rspSize, pc := Receiving))
    case ClientRecv(bytes) =>
      x.(toClient := x.toClient - bytes, c := x.c.(rspBytesLeft := x.c.rspBytesLeft - bytes))
    case Complete =>
      var remaining := if x.c.transRemaining != 0 then x.c.transRemaining - 1 else 0;
      x.(c := x.c.(requestsOutstanding := x.c.requestsOutstanding - 1,
                   requestCwnd := if x.c.requestCwnd < t.burst then x.c.requestCwnd + 1 else x.c.requestCwnd,
                   nummessages := x.c.nummessages + 1,
                   transRemaining := remaining,
                   pc := if remaining > 0 then Sending else ClientDone))
    case ServerRecv(bytes) =>
      x.(toServer := x.toServer - bytes, s := x.s.(requestBytesRemaining := x.s.requestBytesRemaining - bytes))
    case Respond =>
      var remaining := if x.s.transRemaining != 0 then x.s.transRemaining - 1 else 0;
      x.(toClient := x.toClient + t.rspSize,
         s := Server(if remaining > 0 then Serving else ServerDone, t.reqSize, remaining, x.s.transReceived + 1))
  }

  /** A run: actions that are possible one after the other. */
  predicate Runs(t: Test, x: State, actions: seq<Action>)
    decreases |actions|
  {
    actions != [] ==> Enabled(t, x, actions[0]) && Runs(t, Step(t, x, actions[0]), actions[1..])
  }

  function After(t: Test, x: State, actions: seq<Action>): State
    requires Runs(t, x, actions)
    decreases |actions|
  {
    if actions == [] then x else After(t, Step(t, x, actions[0]), actions[1..])
  }

  // ---------------------------------------------------------------- the burst window in closed form

  function Min(a: int, b: int): int { if a < b then a else b }

  /** The congestion window after k completed transactions. */
  function Window(t: Test, k: int): int {
    if t.burst <= REQUEST_CWND_INITIAL then REQUEST_CWND_INITIAL else Min(k + 2, t.burst)
  }

  /** How many requests are outstanding when the burst loop of transaction k + 1 ends. */
  function InjectedTo(t: Test, k: int): int {
    if t.burst <= 0 then 0 else Min(Window(t, k), t.burst)
  }

  /** How many are outstanding at the head of the main loop after k transactions. */
  function AtHead(t: Test, k: int): int {
    if k == 0 then 0 else InjectedTo(t, k - 1)
  }

  // ---------------------------------------------------------------- invariant

  function ClientBytes(t: Test, c: Client): int {
    c.nummessages * t.rspSize + (if c.pc == Receiving then t.rspSize - c.rspBytesLeft else 0)
  }

  function ServerBytes(t: Test, s: Server): int {
    s.transReceived * t.reqSize + (if s.pc == Serving then t.reqSize - s.requestBytesRemaining else 0)
  }

  predicate ClientInv(t: Test, c: Client) {
    var k := c.nummessages;
    && 0 <= k <= t.transactions && c.transRemaining == t.transactions - k
    && (c.pc == ClientDone <==> k == t.transactions)
    && c.requestCwnd == Window(t, k)
    && c.requestsOutstanding == c.sent - k
    && (c.pc == Sending ==> AtHead(t, k) <= c.requestsOutstanding <= InjectedTo(t, k))
    && (c.pc == Receiving ==> c.requestsOutstanding == InjectedTo(t, k) + 1 && 0 <= c.rspBytesLeft <= t.rspSize)
    && (c.pc == ClientDone ==> c.requestsOutstanding == AtHead(t, k))
  }

  predicate ServerInv(t: Test, s: Server) {
    && 0 <= s.transReceived <= t.transactions && s.transRemaining == t.transactions - s.transReceived
    && (s.pc == ServerDone <==> s.transReceived == t.transactions)
    && 0 <= s.requestBytesRemaining <= t.reqSize
  }

  /** Bytes sent are bytes read or pending, in both directions. */
  predicate ChannelInv(t: Test, x: State) {
    && 0 <= x.toServer && x.c.sent * t.reqSize == ServerBytes(t, x.s) + x.toServer
    && 0 <= x.toClient && x.s.transReceived * t.rspSize == ClientBytes(t, x.c) + x.toClient
  }

  predicate Inv(t: Test, x: State) {
    ClientInv(t, x.c) && ServerInv(t, x.s) && ChannelInv(t, x)
  }

  lemma InitInv(t: Test)
    ensures Inv(t, Init(t))
  {}

  lemma ClientStep(t: Test, x: State, a: Action)
    requires Inv(t, x) && Enabled(t, x, a)
    ensures ClientInv(t, Step(t, x, a).c)
  {}

  lemma ServerStep(t: Test, x: State, a: Action)
    requires Inv(t, x) && Enabled(t, x, a)
    ensures ServerInv(t, Step(t, x, a).s)
  {}

  lemma ChannelStep(t: Test, x: State, a: Action)
    requires Inv(t, x) && Enabled(t, x, a)
    ensures ChannelInv(t, Step(t, x, a))
  {
    Next(x.c.sent, t.reqSize);
    Next(x.s.transReceived, t.reqSize);
    Next(x.s.transReceived, t.rspSize);
    Next(x.c.nummessages, t.rspSize);
  }

  lemma Next(k: int, size: int)
    ensures (k + 1) * size == k * size + size
  {}

  lemma {:induction false} RunKeepsInv(t: Test, x: State, actions: seq<Action>)
    requires Inv(t, x) && Runs(t, x, actions)
    ensures Inv(t, After(t, x, actions))
    decreases |actions|
  {
    if actions != [] {
      ClientStep(t, x, actions[0]);
      ServerStep(t, x, actions[0]);
      ChannelStep(t, x, actions[0]);
      RunKeepsInv(t, Step(t, x, actions[0]), actions[1..]);
    }
  }

  // ---------------------------------------------------------------- what every run keeps

  ghost predicate Reachable(t: Test, x: State) {
    exists actions: seq<Action> :: Runs(t, Init(t), actions) && x == After(t, Init(t), actions)
  }

  lemma ReachableInv(t: Test, x: State)
    requires Reachable(t, x)
    ensures Inv(t, x)
  {
    var actions: seq<Action> :| Runs(t, Init(t), actions) && x == After(t, Init(t), actions);
    InitInv(t);
    RunKeepsInv(t, Init(t), actions);
  }

  /** The burst window at the head of the main loop, exactly: with a burst of at least two, after k
      transactions min(k + 1, burst) requests are outstanding and the window is min(k + 2, burst); and
      for every burst the requests outstanding are those sent and not yet answered, and one above the
      window's limit at most. */
  lemma BurstWindow(t: Test, x: State)
    requires Reachable(t, x)
    ensures x.c.requestsOutstanding == x.c.sent - x.c.nummessages
    ensures 0 <= x.c.requestsOutstanding <= (if t.burst > 0 then t.burst else 0) + 1
    ensures t.burst >= 2 ==> x.c.requestCwnd == Min(x.c.nummessages + 2, t.burst)
    ensures x.c.pc == Sending ==>
      x.c.requestsOutstanding <= (if t.burst > 0 then Min(x.c.requestCwnd, t.burst) else 0)
    ensures x.c.pc == Receiving ==>
      x.c.requestsOutstanding == (if t.burst > 0 then Min(x.c.requestCwnd, t.burst) else 0) + 1
  {
    ReachableInv(t, x);
  }

  /** Right after a transaction completes. */
  lemma OutstandingAfterTransaction(t: Test, x: State)
    requires Reachable(t, x) && Enabled(t, x, Complete)
    ensures var y := Step(t, x, Complete);
      var k := y.c.nummessages;
      && k == x.c.nummessages + 1
      && (t.burst >= 2 ==> y.c.requestsOutstanding == Min(k + 1, t.burst) && y.c.requestCwnd == Min(k + 2, t.burst))
      && (t.burst == 1 ==> y.c.requestsOutstanding == 1 && y.c.requestCwnd == 2)
      && (t.burst <= 0 ==> y.c.requestsOutstanding == 0)
  {
    ReachableInv(t, x);
  }

  predicate Ordered(x: State) {
    x.c.nummessages <= x.s.transReceived <= x.c.sent
  }

  lemma LessByProduct(a: int, b: int, size: int, slack: int)
    requires size > 0 && slack >= 0 && b * size == a * size + slack
    ensures a <= b
  {}

  lemma OrderedIfSizesPositive(t: Test, x: State)
    requires Inv(t, x) && t.reqSize > 0 && t.rspSize > 0
    ensures Ordered(x)
  {
    LessByProduct(x.s.transReceived, x.c.sent, t.reqSize,
                  x.c.sent * t.reqSize - x.s.transReceived * t.reqSize);
    LessByProduct(x.c.nummessages, x.s.transReceived, t.rspSize,
                  x.s.transReceived * t.rspSize - x.c.nummessages * t.rspSize);
  }

  /** The client is never ahead of the server, nor the server of the requests, in any interleaving and
      any chunking, exactly when both message sizes are positive. */
  lemma OrderedIff(t: Test)
    requires t.transactions > 0
    ensures (forall x :: Reachable(t, x) ==> Ordered(x)) <==> t.reqSize > 0 && t.rspSize > 0
  {
    if t.reqSize > 0 && t.rspSize > 0 {
      forall x | Reachable(t, x) ensures Ordered(x) {
        ReachableInv(t, x);
        OrderedIfSizesPositive(t, x);
      }
    } else if t.reqSize == 0 {
      var run := [Respond];
      OneStep(t, Init(t), Respond);
      assert Reachable(t, After(t, Init(t), run));
    } else {
      var x, before := ClientSends(t);
      assert Enabled(t, x, Complete);
      RunThenStep(t, Init(t), before, Complete);
      assert Reachable(t, After(t, Init(t), before + [Complete]));
    }
  }

  lemma OneStep(t: Test, x: State, a: Action)
    requires Enabled(t, x, a)
    ensures Runs(t, x, [a]) && After(t, x, [a]) == Step(t, x, a)
  {}

  lemma {:induction false} RunThenStep(t: Test, x: State, actions: seq<Action>, a: Action)
    requires Runs(t, x, actions) && Enabled(t, After(t, x, actions), a)
    ensures Runs(t, x, actions + [a]) && After(t, x, actions + [a]) == Step(t, After(t, x, actions), a)
    decreases |actions|
  {
    if actions == [] {
      assert actions + [a] == [a];
      OneStep(t, x, a);
    } else {
      assert (actions + [a])[1..] == actions[1..] + [a];
      RunThenStep(t, Step(t, x, actions[0]), actions[1..], a);
    }
  }

  /** The client alone can send its first burst and its first request. */
  lemma ClientSends(t: Test) returns (x: State, actions: seq<Action>)
    requires t.transactions > 0
    ensures Runs(t, Init(t), actions) && x == After(t, Init(t), actions)
    ensures x.c.pc == Receiving && x.c.rspBytesLeft == t.rspSize
    ensures x.c.nummessages == 0 == x.s.transReceived
  {
    x, actions := Init(t), [];
    while MayInject(t, x.c)
      invariant Runs(t, Init(t), actions) && x == After(t, Init(t), actions)
      invariant x.c.pc == Sending && x.c.nummessages == 0 == x.s.transReceived
      decreases t.burst - x.c.requestsOutstanding
    {
      RunThenStep(t, Init(t), actions, Inject);
      x, actions := Step(t, x, Inject), actions + [Inject];
    }
    RunThenStep(t, Init(t), actions, Send);
    x, actions := Step(t, x, Send), actions + [Send];
  }

  // ---------------------------------------------------------------- progress, termination, outcome

  predicate Finished(x: State) {
    x.c.pc == ClientDone && x.s.pc == ServerDone
  }

  /** No reachable state is stuck before both sides finish, for any sizes, even empty messages. */
  lemma NeverStuck(t: Test, x: State)
    requires Reachable(t, x) && !Finished(x)
    ensures exists a :: Enabled(t, x, a)
  {
    ReachableInv(t, x);
    hide Reachable, Inv;
    if x.c.pc == Sending {
      assert Enabled(t, x, if MayInject(t, x.c) then Inject else Send);
    } else if x.c.pc == Receiving && x.c.rspBytesLeft == 0 {
      assert Enabled(t, x, Complete);
    } else if x.c.pc == Receiving && x.toClient > 0 {
      ClientWaits(t, x);
      assert Enabled(t, x, ClientRecv(1));
    } else {
      ServerMayStep(t, x);
    }
  }

  lemma ClientWaits(t: Test, x: State)
    requires Inv(t, x) && x.c.pc == Receiving
    ensures 0 <= x.c.rspBytesLeft && 0 <= x.toClient
  {}

  lemma ServerMayStep(t: Test, x: State)
    requires Inv(t, x) && !Finished(x)
    requires x.c.pc == ClientDone || (x.c.pc == Receiving && x.c.rspBytesLeft != 0 && x.toClient <= 0)
    ensures exists a :: Enabled(t, x, a)
  {
    ServerBehind(t, x);
    if x.s.requestBytesRemaining == 0 {
      assert Enabled(t, x, Respond);
    } else {
      Pending(x.c.sent, x.s.transReceived, t.reqSize);
      assert Enabled(t, x, ServerRecv(1));
    }
  }

  /** A client that waits with nothing pending, or is done, has sent a request the server still owes. */
  lemma ServerBehind(t: Test, x: State)
    requires Inv(t, x) && !Finished(x)
    requires x.c.pc == ClientDone || (x.c.pc == Receiving && x.c.rspBytesLeft != 0 && x.toClient <= 0)
    ensures x.s.pc == Serving && x.s.transReceived < x.c.sent
  {
    if x.c.pc == Receiving {
      if x.s.transReceived > x.c.nummessages {
        Pending(x.s.transReceived, x.c.nummessages, t.rspSize);
      }
    }
  }

  lemma Pending(a: int, b: int, size: int)
    requires a > b && size >= 0
    ensures a * size >= b * size + size
  {
    var d := a - b - 1;
    assert a * size == (b + 1 + d) * size == b * size + size + d * size;
  }

  /** The steps that remain at most. */
  function Remaining(t: Test, x: State): int {
    (t.transactions + (if t.burst > 0 then t.burst else 0) + 1 - x.c.sent)
    + (t.transactions * t.rspSize - ClientBytes(t, x.c)) + (t.transactions * t.reqSize - ServerBytes(t, x.s))
    + (t.transactions - x.c.nummessages) + (t.transactions - x.s.transReceived)
  }

  lemma StepDecreases(t: Test, x: State, a: Action)
    requires Inv(t, x) && Enabled(t, x, a)
    ensures Remaining(t, Step(t, x, a)) < Remaining(t, x)
  {
    Next(x.s.transReceived, t.reqSize);
    Next(x.c.nummessages, t.rspSize);
  }

  lemma RemainingNonNegative(t: Test, x: State)
    requires Inv(t, x)
    ensures Remaining(t, x) >= 0
  {
    if x.c.nummessages < t.transactions { Pending(t.transactions, x.c.nummessages, t.rspSize); }
    if x.s.transReceived < t.transactions { Pending(t.transactions, x.s.transReceived, t.reqSize); }
  }

  lemma {:induction false} RunBounded(t: Test, x: State, actions: seq<Action>)
    requires Inv(t, x) && Runs(t, x, actions)
    ensures |actions| <= Remaining(t, x)
    decreases |actions|
  {
    RemainingNonNegative(t, x);
    if actions != [] {
      var y := Step(t, x, actions[0]);
      RunKeepsInv(t, x, [actions[0]]);
      OneStep(t, x, actions[0]);
      StepDecreases(t, x, actions[0]);
      RunBounded(t, y, actions[1..]);
    }
  }

  /** Results the server reports. */
  function BytesReceived(t: Test, s: Server): int {
    s.transReceived * (t.reqSize + t.rspSize)
  }

  /** Every run is finite, and however it is scheduled it can only end with both counters at the number
      of transactions, all responses read, and the surplus requests of the burst unread. */
  lemma EveryRunFinishes(t: Test, actions: seq<Action>)
    requires Runs(t, Init(t), actions)
    ensures |actions| <= t.transactions * (t.reqSize + t.rspSize + 3) + (if t.burst > 0 then t.burst else 0) + 1
    ensures var x := After(t, Init(t), actions);
      (forall a :: !Enabled(t, x, a)) ==>
        && Finished(x)
        && x.c.nummessages == x.s.transReceived == t.transactions
        && BytesReceived(t, x.s) == t.transactions * (t.reqSize + t.rspSize)
        && x.toClient == 0
        && x.toServer == x.c.requestsOutstanding * t.reqSize
        && x.c.requestsOutstanding == AtHead(t, t.transactions)
  {
    InitInv(t);
    RunBounded(t, Init(t), actions);
    InitialBound(t);
    RunKeepsInv(t, Init(t), actions);
    var x := After(t, Init(t), actions);
    assert Reachable(t, x);
    hide Reachable, Inv, Enabled, Remaining, Runs, After;
    if forall a :: !Enabled(t, x, a) {
      if !Finished(x) {
        NeverStuck(t, x);
      }
      Outcome(t, x);
    }
  }

  lemma InitialBound(t: Test)
    ensures Remaining(t, Init(t))
         == t.transactions * (t.reqSize + t.rspSize + 3) + (if t.burst > 0 then t.burst else 0) + 1
  {}

  lemma Outcome(t: Test, x: State)
    requires Inv(t, x) && Finished(x)
    ensures x.c.nummessages == x.s.transReceived == t.transactions
    ensures x.toClient == 0 && x.toServer == x.c.requestsOutstanding * t.reqSize
    ensures x.c.requestsOutstanding == AtHead(t, t.transactions)
  {}
}
