/** The WebSocket hub: one goroutine owns the set of connections and pushes messages into bounded
    per-connection channels, while each connection's pumps run concurrently. A broadcast is not
    atomic: the hub visits the connections one by one and clients drain their channels meanwhile.
    `panicked` records what the Go runtime would panic on: sending on or closing a closed channel. */
module Hub {
  import opened Wrappers

  const CHANNEL_SIZE := 256

  datatype Request = Request(userID: int, msg: string)

  /** A connection: its channel, whether the hub was told of it and when (as a position in the
      broadcast log), and what its write pump has taken off the channel and written to the peer. */
  datatype Conn = Conn(
    user: int,
    queue: seq<Request>,
    closed: bool,
    registered: bool,
    since: nat,
    taken: seq<Request>,
    written: seq<Request>,
    writing: bool)

  /** A broadcast in progress: the message and the connections still to be visited. */
  datatype Pending = Pending(req: Request, todo: set<int>)

  datatype State = State(
    conns: map<int, Conn>,
    live: set<int>,
    pending: Option<Pending>,
    log: seq<Request>,
    panicked: bool)

  datatype Action =
    | Connect(c: int, user: int)
    | Register(c: int)
    | Unregister(c: int)
    | Broadcast(req: Request)
    | Visit(c: int)
    | EndBroadcast
    | Receive(c: int, ok: bool)
    | StopWriting(c: int)

  predicate Addressed(req: Request, user: int) {
    !(req.userID > 0 && req.userID != user)
  }

  function AddressedTo(log: seq<Request>, user: int): seq<Request> {
    if log == [] then []
    else
      var last := log[|log| - 1];
      AddressedTo(log[..|log| - 1], user) + if Addressed(last, user) then [last] else []
  }

  /** The hub handles one event at a time; a connection registers once, from the handler that made
      it, and unregisters from its read pump. */
  predicate Enabled(s: State, a: Action) {
    match a
    case Connect(c, _) => c !in s.conns
    case Register(c) => s.pending == None && c in s.conns && !s.conns[c].registered
    case Unregister(c) => s.pending == None && c in s.conns && s.conns[c].registered
    case Broadcast(_) => s.pending == None
    case Visit(c) => s.pending.Some? && c in s.pending.value.todo && c in s.conns
    case EndBroadcast => s.pending.Some? && s.pending.value.todo == {}
    case Receive(c, _) => c in s.conns && s.conns[c].registered && s.conns[c].writing && s.conns[c].queue != []
    case StopWriting(c) => c in s.conns
  }

  function CloseSend(s: State, c: int): State
    requires c in s.conns
  {
    if s.conns[c].closed then s.(panicked := true)
    else s.(conns := s.conns[c := s.conns[c].(closed := true)], live := s.live - {c})
  }

  function Send(s: State, c: int, req: Request): State
    requires c in s.conns
  {
    var conn := s.conns[c];
    if conn.closed then s.(panicked := true)
    else if |conn.queue| < CHANNEL_SIZE then s.(conns := s.conns[c := conn.(queue := conn.queue + [req])])
    else CloseSend(s, c)
  }

  function Apply(s: State, a: Action): State {
    match a
    case Connect(c, user) =>
      s.(conns := s.conns[c := Conn(user, [], false, false, 0, [], [], true)])
    case Register(c) =>
      if c !in s.conns then s
      else s.(live := s.live + {c}, conns := s.conns[c := s.conns[c].(registered := true, since := |s.log|)])
    case Unregister(c) =>
      if c !in s.live || c !in s.conns then s else CloseSend(s, c)
    case Broadcast(req) =>
      s.(log := s.log + [req], pending := Some(Pending(req, s.live)))
    case Visit(c) =>
      if s.pending == None || c !in s.conns then s
      else
        var p := s.pending.value;
        var s' := s.(pending := Some(p.(todo := p.todo - {c})));
        if Addressed(p.req, s.conns[c].user) then Send(s', c, p.req) else s'
    case EndBroadcast => s.(pending := None)
    case Receive(c, ok) =>
      if c !in s.conns || s.conns[c].queue == [] then s
      else
        var conn := s.conns[c];
        var m := conn.queue[0];
        var conn' := conn.(queue := conn.queue[1..], taken := conn.taken + [m]);
        s.(conns := s.conns[c := if ok then conn'.(written := conn.written + [m]) else conn'.(writing := false)])
    case StopWriting(c) =>
      if c !in s.conns then s else s.(conns := s.conns[c := s.conns[c].(writing := false)])
  }

  // --- the invariant ---

  /** Still to be visited by the broadcast in progress. */
  predicate Waiting(s: State, c: int) {
    s.pending.Some? && c in s.pending.value.todo
  }

  /** The broadcasts the hub has shown to connection c. */
  function Shown(s: State, c: int): seq<Request>
    requires c in s.conns && s.conns[c].since <= |s.log|
  {
    var all := s.log[s.conns[c].since..];
    if Waiting(s, c) && all != [] then all[..|all| - 1] else all
  }

  ghost predicate ConnOk(s: State, c: int)
    requires c in s.conns
  {
    var conn := s.conns[c];
    && |conn.queue| <= CHANNEL_SIZE
    && conn.since <= |s.log|
    && conn.written <= conn.taken
    && (conn.writing ==> conn.written == conn.taken)
    && (!conn.registered ==> !conn.closed && conn.queue == [] && conn.taken == [] && c !in s.live)
    && (c in s.live ==>
        conn.registered && !conn.closed && conn.taken + conn.queue == AddressedTo(Shown(s, c), conn.user))
    && (conn.registered ==> (conn.closed <==> c !in s.live))
    && (conn.registered ==> conn.taken + conn.queue <= AddressedTo(s.log[conn.since..], conn.user))
    && (Waiting(s, c) ==> conn.since < |s.log|)
  }

  ghost predicate Inv(s: State) {
    && !s.panicked
    && (forall c | c in s.live :: c in s.conns)
    && (s.pending.Some? ==> s.pending.value.todo <= s.live && s.log != [] && s.log[|s.log| - 1] == s.pending.value.req)
    && forall c | c in s.conns :: ConnOk(s, c)
  }

  lemma AddressedAppend(log: seq<Request>, req: Request, user: int)
    ensures AddressedTo(log + [req], user) == AddressedTo(log, user) + if Addressed(req, user) then [req] else []
  {
    assert (log + [req])[..|log|] == log;
  }

  /** What is unaffected by a step stays in order. */
  lemma OthersKeep(s: State, s': State, c: int)
    requires Inv(s) && c in s.conns && c in s'.conns && s'.conns[c] == s.conns[c]
    requires s'.log == s.log && (Waiting(s', c) <==> Waiting(s, c)) && (c in s'.live <==> c in s.live)
    ensures ConnOk(s', c)
  {
    assert ConnOk(s, c);
  }

  /** A step that changes one connection only has that one to account for. */
  lemma OneChanged(s: State, s': State, c: int)
    requires Inv(s) && c in s'.conns && ConnOk(s', c) && s'.log == s.log
    requires s'.conns.Keys == s.conns.Keys + {c}
    requires forall x | x in s.conns && x != c :: s'.conns[x] == s.conns[x]
    requires forall x | x in s.conns && x != c :: (Waiting(s', x) <==> Waiting(s, x)) && (x in s'.live <==> x in s.live)
    ensures forall x | x in s'.conns :: ConnOk(s', x)
  {
    forall x | x in s'.conns
      ensures ConnOk(s', x)
    {
      if x != c {
        assert x in s.conns.Keys + {c};
        OthersKeep(s, s', x);
      }
    }
  }

  lemma ConnectKeepsInv(s: State, c: int, user: int)
    requires Inv(s) && Enabled(s, Connect(c, user))
    ensures Inv(Apply(s, Connect(c, user)))
  {
    OneChanged(s, Apply(s, Connect(c, user)), c);
  }

  lemma EndBroadcastKeepsInv(s: State)
    requires Inv(s) && Enabled(s, EndBroadcast)
    ensures Inv(Apply(s, EndBroadcast))
  {
    var s' := Apply(s, EndBroadcast);
    forall x | x in s'.conns
      ensures ConnOk(s', x)
    {
      OthersKeep(s, s', x);
    }
  }

  lemma StopWritingKeepsInv(s: State, c: int)
    requires Inv(s) && Enabled(s, StopWriting(c))
    ensures Inv(Apply(s, StopWriting(c)))
  {
    var s' := Apply(s, StopWriting(c));
    assert ConnOk(s, c);
    assert Shown(s', c) == Shown(s, c);
    OneChanged(s, s', c);
  }

  lemma RegisterKeepsInv(s: State, c: int)
    requires Inv(s) && Enabled(s, Register(c))
    ensures Inv(Apply(s, Register(c)))
  {
    var s' := Apply(s, Register(c));
    assert ConnOk(s, c);
    assert s'.log[s'.conns[c].since..] == [];
    OneChanged(s, s', c);
  }

  lemma UnregisterKeepsInv(s: State, c: int)
    requires Inv(s) && Enabled(s, Unregister(c))
    ensures Inv(Apply(s, Unregister(c)))
  {
    var s' := Apply(s, Unregister(c));
    assert ConnOk(s, c);
    OneChanged(s, s', c);
  }

  lemma BroadcastKeepsInv(s: State, req: Request)
    requires Inv(s) && Enabled(s, Broadcast(req))
    ensures Inv(Apply(s, Broadcast(req)))
  {
    var s' := Apply(s, Broadcast(req));
    forall c | c in s'.conns
      ensures ConnOk(s', c)
    {
      BroadcastKeepsConn(s, req, c);
    }
  }

  lemma BroadcastKeepsConn(s: State, req: Request, c: int)
    requires Inv(s) && Enabled(s, Broadcast(req)) && c in s.conns
    ensures ConnOk(Apply(s, Broadcast(req)), c)
  {
    var s' := Apply(s, Broadcast(req));
    assert ConnOk(s, c);
    var since, user := s.conns[c].since, s.conns[c].user;
    assert s'.log[since..] == s.log[since..] + [req];
    AddressedAppend(s.log[since..], req, user);
    if c in s.live {
      assert Shown(s', c) == s.log[since..] == Shown(s, c);
    }
  }

  /** The pending message is what separates the log from what a waiting connection has been shown. */
  lemma WaitingShown(s: State, c: int)
    requires Inv(s) && c in s.conns && Waiting(s, c)
    ensures var conn := s.conns[c];
            s.log[conn.since..] == Shown(s, c) + [s.pending.value.req]
  {
    assert ConnOk(s, c);
    var all := s.log[s.conns[c].since..];
    assert all == all[..|all| - 1] + [all[|all| - 1]];
  }

  lemma VisitKeepsConn(s: State, c: int)
    requires Inv(s) && Enabled(s, Visit(c))
    ensures c in Apply(s, Visit(c)).conns && ConnOk(Apply(s, Visit(c)), c) && !Apply(s, Visit(c)).panicked
  {
    var s' := Apply(s, Visit(c));
    var conn, req := s.conns[c], s.pending.value.req;
    assert ConnOk(s, c);
    assert c in s.live;
    WaitingShown(s, c);
    AddressedAppend(Shown(s, c), req, conn.user);
    assert s'.conns[c].since == conn.since && s'.log == s.log && !Waiting(s', c);
    assert c in s'.live ==> Shown(s', c) == s.log[conn.since..];
    if Addressed(req, conn.user) && |conn.queue| < CHANNEL_SIZE {
      assert conn.taken + (conn.queue + [req]) == (conn.taken + conn.queue) + [req];
    }
  }

  lemma VisitKeepsInv(s: State, c: int)
    requires Inv(s) && Enabled(s, Visit(c))
    ensures Inv(Apply(s, Visit(c)))
  {
    var s' := Apply(s, Visit(c));
    VisitKeepsConn(s, c);
    VisitKeepsOthers(s, c);
    OneChanged(s, s', c);
  }

  lemma VisitKeepsOthers(s: State, c: int)
    requires Enabled(s, Visit(c))
    ensures var s' := Apply(s, Visit(c));
            && s'.log == s.log && s'.conns.Keys == s.conns.Keys
            && s'.pending == Some(s.pending.value.(todo := s.pending.value.todo - {c}))
            && (s'.live == s.live || s'.live == s.live - {c})
            && (c in s'.live ==> c in s.live) && (c !in s'.live && c in s.live ==> s'.live == s.live - {c})
            && forall x | x in s.conns && x != c :: s'.conns[x] == s.conns[x]
  {
  }

  lemma ReceiveKeepsInv(s: State, c: int, ok: bool)
    requires Inv(s) && Enabled(s, Receive(c, ok))
    ensures Inv(Apply(s, Receive(c, ok)))
  {
    var s' := Apply(s, Receive(c, ok));
    ReceiveKeepsConn(s, c, ok);
    OneChanged(s, s', c);
  }

  lemma ReceiveKeepsConn(s: State, c: int, ok: bool)
    requires Inv(s) && Enabled(s, Receive(c, ok))
    ensures c in Apply(s, Receive(c, ok)).conns && ConnOk(Apply(s, Receive(c, ok)), c)
  {
    var s' := Apply(s, Receive(c, ok));
    var conn, conn' := s.conns[c], s'.conns[c];
    assert ConnOk(s, c);
    MoveOne(conn.taken, conn.queue);
    assert conn'.taken + conn'.queue == conn.taken + conn.queue;
    assert Shown(s', c) == Shown(s, c);
  }

  lemma MoveOne(taken: seq<Request>, queue: seq<Request>)
    requires queue != []
    ensures taken + [queue[0]] + queue[1..] == taken + queue
  {
    assert queue == [queue[0]] + queue[1..];
  }

  lemma StepKeepsInv(s: State, a: Action)
    requires Inv(s) && Enabled(s, a)
    ensures Inv(Apply(s, a))
  {
    match a
    case Connect(c, user) => ConnectKeepsInv(s, c, user);
    case Register(c) => RegisterKeepsInv(s, c);
    case Unregister(c) => UnregisterKeepsInv(s, c);
    case Broadcast(req) => BroadcastKeepsInv(s, req);
    case Visit(c) => VisitKeepsInv(s, c);
    case EndBroadcast => EndBroadcastKeepsInv(s);
    case Receive(c, ok) => ReceiveKeepsInv(s, c, ok);
    case StopWriting(c) => StopWritingKeepsInv(s, c);
  }

  // --- runs ---

  const START := State(map[], {}, None, [], false)

  predicate EnabledRun(s: State, acts: seq<Action>)
    decreases |acts|
  {
    acts == [] || (Enabled(s, acts[0]) && EnabledRun(Apply(s, acts[0]), acts[1..]))
  }

  function Run(s: State, acts: seq<Action>): State
    decreases |acts|
  {
    if acts == [] then s else Run(Apply(s, acts[0]), acts[1..])
  }

  lemma {:induction false} RunKeepsInv(s: State, acts: seq<Action>)
    requires Inv(s) && EnabledRun(s, acts)
    ensures Inv(Run(s, acts))
    decreases |acts|
  {
    if acts != [] {
      StepKeepsInv(s, acts[0]);
      RunKeepsInv(Apply(s, acts[0]), acts[1..]);
    }
  }

  /** Hub safety over every interleaving: the process never panics on a channel, no channel exceeds
      its size, and what a peer has been sent is a gap-free prefix of the messages addressed to it
      since it registered; while the hub still knows the connection nothing is lost on the way, and a
      channel is closed exactly when the hub has let go of it. */
  lemma HubSafety(acts: seq<Action>, c: int)
    requires EnabledRun(START, acts) && c in Run(START, acts).conns
    ensures var s := Run(START, acts);
            var conn := s.conns[c];
            && !s.panicked
            && |conn.queue| <= CHANNEL_SIZE
            && conn.since <= |s.log|
            && (conn.registered ==> (conn.closed <==> c !in s.live))
            && (conn.registered ==> conn.written <= AddressedTo(s.log[conn.since..], conn.user))
            && (c in s.live && s.pending == None && conn.writing ==>
                  conn.written + conn.queue == AddressedTo(s.log[conn.since..], conn.user))
  {
    RunKeepsInv(START, acts);
    var s := Run(START, acts);
    assert ConnOk(s, c);
    var conn := s.conns[c];
    assert conn.written <= conn.taken <= conn.taken + conn.queue;
  }

  /** A visit queues an addressed message unless the channel is full; then, and only then, it
      disconnects the client. */
  lemma VisitQueuesOrDisconnects(s: State, c: int)
    requires Inv(s) && Enabled(s, Visit(c))
    ensures var s' := Apply(s, Visit(c));
            var (conn, req) := (s.conns[c], s.pending.value.req);
            && c in s.live
            && (c !in s'.live <==> Addressed(req, conn.user) && |conn.queue| == CHANNEL_SIZE)
            && (c in s'.live ==> s'.conns[c].queue == conn.queue + if Addressed(req, conn.user) then [req] else [])
  {
    assert ConnOk(s, c);
  }

  /** Registering a connection again after the hub closed its channel makes the next broadcast panic:
      "registers once" is needed. */
  lemma SecondRegistrationPanics()
    ensures var s := Run(START, [Connect(1, 7), Register(1), Unregister(1)]);
            var m := Request(0, "hello");
            && EnabledRun(START, [Connect(1, 7), Register(1), Unregister(1)])
            && Run(s, [Register(1), Broadcast(m), Visit(1)]).panicked
  {
    var s1 := Apply(START, Connect(1, 7));
    var s2 := Apply(s1, Register(1));
    var s3 := Apply(s2, Unregister(1));
    var m := Request(0, "hello");
    assert [Connect(1, 7), Register(1), Unregister(1)][1..] == [Register(1), Unregister(1)];
    assert [Register(1), Unregister(1)][1..] == [Unregister(1)];
    assert [Unregister(1)][1..] == [];
    assert EnabledRun(s3, []) && EnabledRun(s2, [Unregister(1)]) && EnabledRun(s1, [Register(1), Unregister(1)]);
    assert Run(s3, []) == s3 && Run(s2, [Unregister(1)]) == s3 && Run(s1, [Register(1), Unregister(1)]) == s3;
    var t1 := Apply(s3, Register(1));
    var t2 := Apply(t1, Broadcast(m));
    var t3 := Apply(t2, Visit(1));
    assert t3.panicked;
    assert [Register(1), Broadcast(m), Visit(1)][1..] == [Broadcast(m), Visit(1)];
    assert [Broadcast(m), Visit(1)][1..] == [Visit(1)];
    assert [Visit(1)][1..] == [];
    assert Run(t3, []) == t3 && Run(t2, [Visit(1)]) == t3 && Run(t1, [Broadcast(m), Visit(1)]) == t3;
  }
}
