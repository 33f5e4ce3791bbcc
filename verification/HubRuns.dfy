/** What the hub's state says about the events that led to it. Nothing here is stated through the
    connection's own record of its user or through the hub's own notion of an addressee. */
module HubRuns {
  import opened Wrappers
  import opened Hub

  /** The messages broadcast so far, oldest first. */
  function Sent(acts: seq<Action>): seq<Request> {
    if acts == [] then []
    else
      var last := acts[|acts| - 1];
      Sent(acts[..|acts| - 1]) + if last.Broadcast? then [last.req] else []
  }

  /** The messages for everybody or for this user, oldest first. */
  function ForUser(log: seq<Request>, user: int): seq<Request> {
    if log == [] then []
    else (if log[0].userID <= 0 || log[0].userID == user then [log[0]] else []) + ForUser(log[1..], user)
  }

  function Receives(acts: seq<Action>, c: int): nat {
    if acts == [] then 0
    else
      var last := acts[|acts| - 1];
      Receives(acts[..|acts| - 1], c) + if last.Receive? && last.c == c then 1 else 0
  }

  // --- runs grow at the end ---

  lemma {:induction false} RunSnoc(s: State, acts: seq<Action>, a: Action)
    requires EnabledRun(s, acts + [a])
    ensures EnabledRun(s, acts) && Enabled(Run(s, acts), a)
    ensures Run(s, acts + [a]) == Apply(Run(s, acts), a)
    decreases |acts|
  {
    var all := acts + [a];
    if acts == [] {
      assert all[0] == a && all[1..] == [];
      assert Run(Apply(s, a), []) == Apply(s, a);
    } else {
      assert all[0] == acts[0] && all[1..] == acts[1..] + [a];
      RunSnoc(Apply(s, acts[0]), acts[1..], a);
    }
  }

  lemma Prefix(acts: seq<Action>) returns (init: seq<Action>, a: Action)
    requires acts != [] && EnabledRun(START, acts)
    ensures acts == init + [a] && init == acts[..|acts| - 1] && a == acts[|acts| - 1]
    ensures EnabledRun(START, init) && Enabled(Run(START, init), a)
    ensures Run(START, acts) == Apply(Run(START, init), a)
  {
    init, a := acts[..|acts| - 1], acts[|acts| - 1];
    assert acts == init + [a];
    RunSnoc(START, init, a);
  }

  // --- the log ---

  lemma StepLogs(s: State, a: Action)
    requires Enabled(s, a)
    ensures Apply(s, a).log == s.log + if a.Broadcast? then [a.req] else []
  {
  }

  /** The log is what was broadcast. */
  lemma {:induction false} LogIsSent(acts: seq<Action>)
    requires EnabledRun(START, acts)
    ensures Run(START, acts).log == Sent(acts)
    decreases |acts|
  {
    if acts != [] {
      var init, a := Prefix(acts);
      LogIsSent(init);
      StepLogs(Run(START, init), a);
    }
  }

  lemma {:induction false} SentConcat(a: seq<Action>, b: seq<Action>)
    ensures Sent(a + b) == Sent(a) + Sent(b)
    decreases |b|
  {
    if b == [] {
      assert a + b == a;
    } else {
      var c, init, last := a + b, b[..|b| - 1], b[|b| - 1];
      SentConcat(a, init);
      assert c[..|c| - 1] == a + init && c[|c| - 1] == last;
      assert Sent(c) == Sent(a + init) + if last.Broadcast? then [last.req] else [];
    }
  }

  // --- what a connection owes to its events ---

  /** Some event before now satisfies this. */
  ghost predicate Connected(acts: seq<Action>, c: int, user: int) {
    Connect(c, user) in acts
  }

  /** A connection is there because it connected, as the user it connected as. */
  ghost predicate UserTraced(s: State, acts: seq<Action>, c: int) {
    && (c in s.conns <==> exists user :: Connected(acts, c, user))
    && (forall user | Connected(acts, c, user) :: c in s.conns && s.conns[c].user == user)
  }

  /** It is registered because it registered, and counts from the messages broadcast by then. */
  ghost predicate RegistrationTraced(s: State, acts: seq<Action>, c: int) {
    && (Register(c) in acts <==> c in s.conns && s.conns[c].registered)
    && (forall i | 0 <= i < |acts| && acts[i] == Register(c) :: c in s.conns && s.conns[c].since == |Sent(acts[..i])|)
  }

  /** It has taken as many messages off its channel as its pump received. */
  ghost predicate ReceiptTraced(s: State, acts: seq<Action>, c: int) {
    Taken(s, c) == Receives(acts, c)
  }

  /** Its pump writes until it stops or a write fails. */
  ghost predicate WritingTraced(s: State, acts: seq<Action>, c: int) {
    && (c !in s.conns ==> StopWriting(c) !in acts && Receive(c, false) !in acts)
    && (c in s.conns ==> (s.conns[c].writing <==> StopWriting(c) !in acts && Receive(c, false) !in acts))
  }

  /** A message met the connection's full channel. */
  ghost predicate Overflowed(acts: seq<Action>, c: int) {
    exists i | 0 <= i < |acts| ::
      acts[i] == Visit(c) && c in Run(START, acts[..i]).conns && |Run(START, acts[..i]).conns[c].queue| == CHANNEL_SIZE
  }

  /** The hub lets go of a connection only when it unregisters or overflows. */
  ghost predicate LossTraced(s: State, acts: seq<Action>, c: int) {
    c in s.conns && s.conns[c].registered && c !in s.live ==> Unregister(c) in acts || Overflowed(acts, c)
  }

  /** A broadcast has begun and not ended. */
  predicate Underway(acts: seq<Action>) {
    if acts == [] then false
    else
      var last := acts[|acts| - 1];
      last.Broadcast? || (!last.EndBroadcast? && Underway(acts[..|acts| - 1]))
  }

  /** Once unregistered it is closed and unknown to the hub. */
  ghost predicate ClosingTraced(s: State, acts: seq<Action>, c: int) {
    Unregister(c) in acts ==> c in s.conns && s.conns[c].registered && s.conns[c].closed && c !in s.live
  }

  ghost predicate Traced(s: State, acts: seq<Action>, c: int) {
    && UserTraced(s, acts, c) && RegistrationTraced(s, acts, c) && ReceiptTraced(s, acts, c)
    && WritingTraced(s, acts, c) && ClosingTraced(s, acts, c) && LossTraced(s, acts, c)
    && (s.pending.Some? <==> Underway(acts))
  }

  lemma UserStep(s: State, init: seq<Action>, a: Action, c: int)
    requires Enabled(s, a) && UserTraced(s, init, c)
    ensures UserTraced(Apply(s, a), init + [a], c)
  {
    assert forall user :: Connected(init + [a], c, user) <==> Connected(init, c, user) || a == Connect(c, user);
    if a.Connect? && a.c == c {
      assert Connected(init + [a], c, a.user);
    }
  }

  lemma SinceStep(s: State, a: Action, c: int)
    requires Enabled(s, a)
    ensures var s' := Apply(s, a);
            && (c in s.conns ==> c in s'.conns)
            && ((c in s'.conns && s'.conns[c].registered)
                <==> (c in s.conns && s.conns[c].registered) || a == Register(c))
            && (a == Register(c) ==> s'.conns[c].since == |s.log|)
            && (c in s.conns && s.conns[c].registered ==> s'.conns[c].since == s.conns[c].since)
  {
  }

  lemma RegistrationStep(s: State, init: seq<Action>, a: Action, c: int)
    requires Enabled(s, a) && s.log == Sent(init) && RegistrationTraced(s, init, c)
    ensures RegistrationTraced(Apply(s, a), init + [a], c)
  {
    var s', acts := Apply(s, a), init + [a];
    SinceStep(s, a, c);
    forall i | 0 <= i < |acts| && acts[i] == Register(c)
      ensures c in s'.conns && s'.conns[c].since == |Sent(acts[..i])|
    {
      if i < |init| {
        assert acts[..i] == init[..i] && init[i] == Register(c);
        assert Register(c) in init;
      } else {
        assert acts[..i] == init;
      }
    }
  }

  lemma ReceiptStep(s: State, init: seq<Action>, a: Action, c: int)
    requires Enabled(s, a) && ReceiptTraced(s, init, c)
    ensures ReceiptTraced(Apply(s, a), init + [a], c)
  {
    ReceivesSnoc(init, a, c);
    TakenStep(s, a, c);
  }

  lemma ReceivesSnoc(init: seq<Action>, a: Action, c: int)
    ensures Receives(init + [a], c) == Receives(init, c) + if a.Receive? && a.c == c then 1 else 0
  {
    var acts := init + [a];
    assert acts[..|acts| - 1] == init && acts[|acts| - 1] == a;
  }

  function Taken(s: State, c: int): nat {
    if c in s.conns then |s.conns[c].taken| else 0
  }

  lemma TakenStep(s: State, a: Action, c: int)
    requires Enabled(s, a)
    ensures Taken(Apply(s, a), c) == Taken(s, c) + if a.Receive? && a.c == c then 1 else 0
  {
  }

  lemma WritingStep(s: State, init: seq<Action>, a: Action, c: int)
    requires Enabled(s, a) && WritingTraced(s, init, c)
    ensures WritingTraced(Apply(s, a), init + [a], c)
  {
    assert forall x :: x in init + [a] <==> x in init || x == a;
    WritesOn(s, a, c);
  }

  lemma WritesOn(s: State, a: Action, c: int)
    requires Enabled(s, a)
    ensures var s' := Apply(s, a);
            && (c in s'.conns <==> c in s.conns || (a.Connect? && a.c == c))
            && (c in s.conns ==>
                (s'.conns[c].writing <==> s.conns[c].writing && a != StopWriting(c) && a != Receive(c, false)))
            && (c in s'.conns && c !in s.conns ==> s'.conns[c].writing)
            && (c !in s.conns ==> a != StopWriting(c) && a != Receive(c, false))
  {
  }

  lemma LetsGo(s: State, a: Action, c: int)
    requires Inv(s) && Enabled(s, a) && c in Apply(s, a).conns && Apply(s, a).conns[c].registered
               && c !in Apply(s, a).live
    ensures (c in s.conns && s.conns[c].registered && c !in s.live) || a == Unregister(c)
         || (a == Visit(c) && c in s.conns && |s.conns[c].queue| == CHANNEL_SIZE)
  {
    if c in s.conns {
      assert ConnOk(s, c);
    }
  }

  lemma LossStep(s: State, init: seq<Action>, a: Action, c: int)
    requires Inv(s) && Enabled(s, a) && EnabledRun(START, init) && s == Run(START, init) && LossTraced(s, init, c)
    ensures LossTraced(Apply(s, a), init + [a], c)
  {
    var s', acts := Apply(s, a), init + [a];
    if c in s'.conns && s'.conns[c].registered && c !in s'.live {
      LetsGo(s, a, c);
      assert acts[..|init|] == init && acts[|init|] == a;
      if Overflowed(init, c) {
        OverflowStays(init, a, c);
      }
    }
  }

  lemma OverflowStays(init: seq<Action>, a: Action, c: int)
    requires Overflowed(init, c)
    ensures Overflowed(init + [a], c)
  {
    var i :| 0 <= i < |init| && init[i] == Visit(c) && c in Run(START, init[..i]).conns
             && |Run(START, init[..i]).conns[c].queue| == CHANNEL_SIZE;
    assert (init + [a])[..i] == init[..i] && (init + [a])[i] == init[i];
  }

  lemma UnderwayStep(s: State, init: seq<Action>, a: Action)
    requires Enabled(s, a) && (s.pending.Some? <==> Underway(init))
    ensures Apply(s, a).pending.Some? <==> Underway(init + [a])
  {
    var acts := init + [a];
    assert acts[..|acts| - 1] == init && acts[|acts| - 1] == a;
  }

  lemma ClosingStep(s: State, init: seq<Action>, a: Action, c: int)
    requires Inv(s) && Enabled(s, a) && ClosingTraced(s, init, c)
    ensures ClosingTraced(Apply(s, a), init + [a], c)
  {
    if c in s.conns {
      assert ConnOk(s, c);
    }
    if Visit(c) == a {
      assert c in s.live;
    }
  }

  lemma {:induction false} RunsAreTraced(acts: seq<Action>, c: int)
    requires EnabledRun(START, acts)
    ensures Traced(Run(START, acts), acts, c)
    decreases |acts|
  {
    if acts != [] {
      var init, a := Prefix(acts);
      RunsAreTraced(init, c);
      RunKeepsInv(START, init);
      LogIsSent(init);
      var s := Run(START, init);
      UserStep(s, init, a, c);
      RegistrationStep(s, init, a, c);
      ReceiptStep(s, init, a, c);
      WritingStep(s, init, a, c);
      ClosingStep(s, init, a, c);
      LossStep(s, init, a, c);
      UnderwayStep(s, init, a);
    }
  }

  // --- who gets what ---

  lemma {:induction false} ForUserSnoc(log: seq<Request>, req: Request, user: int)
    ensures ForUser(log + [req], user)
         == ForUser(log, user) + if req.userID <= 0 || req.userID == user then [req] else []
  {
    var all := log + [req];
    if log == [] {
      assert all[1..] == [];
    } else {
      assert all[0] == log[0] && all[1..] == log[1..] + [req];
      ForUserSnoc(log[1..], req, user);
    }
  }

  lemma {:induction false} AddressedIsForUser(log: seq<Request>, user: int)
    ensures AddressedTo(log, user) == ForUser(log, user)
  {
    if log != [] {
      var init, last := log[..|log| - 1], log[|log| - 1];
      AddressedIsForUser(init, user);
      ForUserSnoc(init, last, user);
      assert log == init + [last];
    }
  }

  lemma {:induction false} ForUserMembers(log: seq<Request>, user: int)
    ensures forall m :: m in ForUser(log, user) <==> m in log && (m.userID <= 0 || m.userID == user)
  {
    if log != [] {
      ForUserMembers(log[1..], user);
      assert log == [log[0]] + log[1..];
    }
  }

  lemma SinceRegistration(acts: seq<Action>, c: int, i: nat)
    requires EnabledRun(START, acts) && i < |acts| && acts[i] == Register(c)
    ensures var s := Run(START, acts);
            c in s.conns && s.conns[c].since <= |s.log| && s.log[s.conns[c].since..] == Sent(acts[i..])
  {
    RunsAreTraced(acts, c);
    LogIsSent(acts);
    SentConcat(acts[..i], acts[i..]);
    assert acts == acts[..i] + acts[i..];
  }

  /** Delivery over every interleaving. A connection made for a user and registered by event i gets, in
      order and without a gap, messages for everybody and for that user broadcast since event i, and no
      others; and while the hub knows it, its pump has not stopped and no broadcast is under way, it has
      got or has waiting for it all of them. */
  lemma Delivery(acts: seq<Action>, c: int, user: int, i: nat)
    requires EnabledRun(START, acts) && Connect(c, user) in acts && i < |acts| && acts[i] == Register(c)
    ensures var s := Run(START, acts);
            var due := ForUser(Sent(acts[i..]), user);
            && c in s.conns && s.conns[c].user == user
            && s.conns[c].written <= due && s.conns[c].taken + s.conns[c].queue <= due
            && (c in s.live && !Underway(acts) && StopWriting(c) !in acts && Receive(c, false) !in acts ==>
                  s.conns[c].written + s.conns[c].queue == due)
  {
    RunsAreTraced(acts, c);
    assert Connected(acts, c, user);
    RunKeepsInv(START, acts);
    var s := Run(START, acts);
    SinceRegistration(acts, c, i);
    assert ConnOk(s, c) && Register(c) in acts;
    AddressedIsForUser(Sent(acts[i..]), user);
    HubSafety(acts, c);
  }

  /** The same, message by message. */
  lemma DeliversToAddresseesOnly(acts: seq<Action>, c: int, user: int, i: nat, m: Request)
    requires EnabledRun(START, acts) && Connect(c, user) in acts && i < |acts| && acts[i] == Register(c)
    ensures var s := Run(START, acts);
            && c in s.conns
            && (m in s.conns[c].written || m in s.conns[c].queue ==> m.userID <= 0 || m.userID == user)
            && (c in s.live && !Underway(acts) && StopWriting(c) !in acts && Receive(c, false) !in acts
                && m in Sent(acts[i..]) && (m.userID <= 0 || m.userID == user) ==>
                  m in s.conns[c].written || m in s.conns[c].queue)
  {
    Delivery(acts, c, user, i);
    var s := Run(START, acts);
    var conn, due := s.conns[c], ForUser(Sent(acts[i..]), user);
    ForUserMembers(Sent(acts[i..]), user);
    assert forall x | x in conn.written :: x in due;
    assert forall x | x in conn.queue :: x in conn.taken + conn.queue;
    assert forall x | x in conn.taken + conn.queue :: x in due;
  }
}
