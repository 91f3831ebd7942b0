/** What the event loop does with a connection, told by its results and actions alone. */
module WorkerHistory {
  import opened ConnectionSpec
  import opened ConnectionLaws
  import opened StreamLaws
  import opened WorkerSpec
  import opened WorkerLaws
  import opened History

  // ---- one resume ------------------------------------------------------------------

  ghost predicate Stopped(c: Conn) { c.suspended || c.pc.Finished? }

  /** After `n` of these results the connection stops for the first time. */
  ghost predicate StopsFirst(svc: Service, c: Conn, before: seq<Io>, io: seq<Io>, n: nat) {
    && n <= |io| && Stopped(Run(svc, c, before + io[..n]))
    && forall k :: 0 <= k < n ==> !Stopped(Run(svc, c, before + io[..k]))
  }

  /** `ios` is what is used up: the results up to the first stop, or all of them and then
      a socket that is not ready. */
  ghost predicate UsesUp(svc: Service, c: Conn, before: seq<Io>, io: seq<Io>, now: int, ios: seq<Io>) {
    || (exists n: nat :: StopsFirst(svc, c, before, io, n) && ios == before + io[..n])
    || (ios == before + io + [Again(now)]
        && forall k :: 0 <= k <= |io| ==> !Stopped(Run(svc, c, before + io[..k])))
  }

  lemma RunNextStep(svc: Service, c: Conn, ios: seq<Io>, io: Io)
    ensures Run(svc, c, ios + [io]) == Step(svc, Run(svc, c, ios), io)
  {
    hide Step;
    assert (ios + [io])[..|ios|] == ios;
  }

  lemma {:induction false} LegUsesUp(svc: Service, c: Conn, before: seq<Io>, io: seq<Io>, now: int)
    returns (ios: seq<Io>)
    ensures UsesUp(svc, c, before, io, now, ios)
    ensures Leg(svc, Run(svc, c, before), io, now) == Run(svc, c, ios)
    decreases |io|
  {
    hide Run, Step;
    assert before + io[..0] == before;
    if Stopped(Run(svc, c, before)) {
      assert StopsFirst(svc, c, before, io, 0);
      ios := before;
    } else if io == [] {
      RunNextStep(svc, c, before, Again(now));
      ios := before + io + [Again(now)];
      assert ios == before + [Again(now)];
    } else {
      RunNextStep(svc, c, before, io[0]);
      ios := LegUsesUp(svc, c, before + [io[0]], io[1..], now);
      UsesOneMore(svc, c, before, io, now, ios);
    }
  }

  lemma OneMore(before: seq<Io>, io: seq<Io>, k: nat)
    requires 0 < k <= |io|
    ensures before + io[..k] == before + [io[0]] + io[1..][..k - 1]
  {
    assert io[..k] == [io[0]] + io[1..][..k - 1];
  }

  lemma StopsOneLater(svc: Service, c: Conn, before: seq<Io>, io: seq<Io>, n: nat)
    requires io != [] && !Stopped(Run(svc, c, before)) && n < |io|
    ensures (forall k :: 0 <= k <= n ==> !Stopped(Run(svc, c, before + [io[0]] + io[1..][..k]))) ==>
              forall k :: 0 <= k <= n + 1 ==> !Stopped(Run(svc, c, before + io[..k]))
    ensures StopsFirst(svc, c, before + [io[0]], io[1..], n) ==> StopsFirst(svc, c, before, io, n + 1)
  {
    hide Run, Stopped;
    assert before + io[..0] == before;
    forall k | 0 < k <= n + 1 ensures before + io[..k] == before + [io[0]] + io[1..][..k - 1] {
      OneMore(before, io, k);
    }
  }

  lemma UsesOneMore(svc: Service, c: Conn, before: seq<Io>, io: seq<Io>, now: int, ios: seq<Io>)
    requires io != [] && !Stopped(Run(svc, c, before))
    requires UsesUp(svc, c, before + [io[0]], io[1..], now, ios)
    ensures UsesUp(svc, c, before, io, now, ios)
  {
    hide Run, Stopped;
    if n: nat :| StopsFirst(svc, c, before + [io[0]], io[1..], n) && ios == before + [io[0]] + io[1..][..n] {
      StopsOneLater(svc, c, before, io, n);
      OneMore(before, io, n + 1);
    } else {
      StopsOneLater(svc, c, before, io, |io| - 1);
      OneMore(before, io, |io|);
      assert io[..|io|] == io && io[1..][..|io| - 1] == io[1..];
    }
  }

  /** There is one way only. */
  lemma UsesUpOnce(svc: Service, c: Conn, before: seq<Io>, io: seq<Io>, now: int, a: seq<Io>, b: seq<Io>)
    requires UsesUp(svc, c, before, io, now, a) && UsesUp(svc, c, before, io, now, b)
    ensures a == b
  {
    hide Run, Stopped;
    if n: nat :| StopsFirst(svc, c, before, io, n) && a == before + io[..n] {
      var m: nat :| StopsFirst(svc, c, before, io, m) && b == before + io[..m];
    }
  }

  /** The results that an event's resume uses up. */
  ghost function Used(svc: Service, c: Conn, io: seq<Io>, now: int): (ios: seq<Io>)
    ensures UsesUp(svc, c, [Resumed(false)], io, now, ios)
    ensures ResumeConn(svc, c, io, now) == Run(svc, c, ios)
  {
    ResumeIsRun(svc, c, io, now);
    var ios :| UsesUp(svc, c, [Resumed(false)], io, now, ios) && ResumeConn(svc, c, io, now) == Run(svc, c, ios);
    ios
  }

  /** A resume is the run of the connection over the results it uses up. */
  lemma ResumeIsRun(svc: Service, c: Conn, io: seq<Io>, now: int)
    ensures exists ios :: UsesUp(svc, c, [Resumed(false)], io, now, ios)
                          && ResumeConn(svc, c, io, now) == Run(svc, c, ios)
  {
    hide Step, Run, Leg;
    assert Run(svc, c, []) == c by { RunNothing(svc, c); }
    RunNextStep(svc, c, [], Resumed(false));
    assert [] + [Resumed(false)] == [Resumed(false)];
    var ios := LegUsesUp(svc, c, [Resumed(false)], io, now);
  }

  lemma RunNothing(svc: Service, c: Conn)
    ensures Run(svc, c, []) == c
  {
  }

  /** If the connection is suspended at the end, it is by the last result used, at whose
      time it was last active. */
  lemma SuspendedBy(svc: Service, c: Conn, io: seq<Io>, now: int, ios: seq<Io>)
    requires UsesUp(svc, c, [Resumed(false)], io, now, ios) && Run(svc, c, ios).suspended
    requires WellFormed(svc, c)
    ensures ios != [] && ios[|ios| - 1].Again?
    ensures Run(svc, c, ios).lastActivity == ios[|ios| - 1].now
  {
    hide Run, Step, WellFormed;
    var last := |ios| - 1;
    assert ios != [];
    assert ios == ios[..last] + [ios[last]];
    RunNextStep(svc, c, ios[..last], ios[last]);
    var p := Run(svc, c, ios[..last]);
    assert !Stopped(p) || ios == [Resumed(false)] by {
      if n: nat :| StopsFirst(svc, c, [Resumed(false)], io, n) && ios == [Resumed(false)] + io[..n] {
        assert n > 0 ==> ios[..last] == [Resumed(false)] + io[..n - 1];
      } else {
        assert ios[..last] == [Resumed(false)] + io[..|io|];
      }
    }
    if ios == [Resumed(false)] {
      assert ios[..0] == [];
      RunNothing(svc, c);
      AfterResume(svc, c);
    } else {
      SuspendsNow(svc, p, ios[last]);
    }
  }

  lemma AfterResume(svc: Service, c: Conn)
    requires WellFormed(svc, c)
    ensures !Step(svc, c, Resumed(false)).suspended
  {
    if Enabled(svc, c, Resumed(false)) {
      StepHistory(svc, c, Resumed(false));
    }
  }

  lemma SuspendsNow(svc: Service, c: Conn, io: Io)
    requires !Stopped(c) && Step(svc, c, io).suspended
    ensures io.Again? && Step(svc, c, io).lastActivity == io.now
  {
    if Enabled(svc, c, io) {
      StepHistory(svc, c, io);
    }
  }

  // ---- one event ---------------------------------------------------------------------

  /** The connection an event is for: its handler's, or one that begins with it. */
  function ConnFor(w: World, fd: int): Conn {
    if fd in w.handlers then w.handlers[fd].conn else CREATED
  }

  /** What a client event leaves: the connection has run over the results it used up, and
      is kept, watched for what it waits for, exactly if it is not finished and its new
      registration, where one is needed, went through. No other descriptor is touched. */
  ghost predicate EventLeaves(svc: Service, w: World, a: Action, w': World)
    requires a.Ready?
  {
    var c0 := ConnFor(w, a.fd);
    var c := Run(svc, c0, Used(svc, c0, a.io, a.now));
    && (a.fd in w'.handlers <==> !c.pc.Finished? && (c.interest == c0.interest || a.modifyOk))
    && (a.fd in w'.handlers ==> w'.handlers[a.fd].conn == c && a.fd in w'.epoll && w'.epoll[a.fd] == c.interest)
    && (a.fd !in w'.handlers ==> a.fd !in w'.epoll)
    && (forall g :: g != a.fd ==> (g in w'.handlers <==> g in w.handlers) && (g in w'.epoll <==> g in w.epoll))
    && (forall g :: g != a.fd && g in w.handlers ==> w'.handlers[g] == w.handlers[g])
    && (forall g :: g != a.fd && g in w.epoll ==> w'.epoll[g] == w.epoll[g])
  }

  lemma SettleLeaves(w: World, fd: int, h: Handler, c: Conn, modifyOk: bool)
    requires C.Live(w.pool, h.routine) && fd in w.epoll && w.epoll[fd] == h.conn.interest
    ensures var w' := Settle(w, fd, h, c, modifyOk);
            if c.pc.Finished? || (c.interest != h.conn.interest && !modifyOk)
            then w'.handlers == w.handlers - {fd} && w'.epoll == w.epoll - {fd}
            else w'.handlers == w.handlers[fd := Handler(c, h.routine)] && w'.epoll == w.epoll[fd := c.interest]
  {
    assert w.epoll[fd := h.conn.interest] == w.epoll;
  }

  /** Every client event leaves just that. */
  lemma EventExact(svc: Service, threshold: int, w: World, a: Action)
    requires Fit(svc, w) && svc.slack <= 1 && a.Ready? && a.fd in w.epoll
    ensures EventLeaves(svc, w, a, Act(svc, threshold, w, a))
  {
    hide Fit, Reached, Resumable, Run, ResumeConn, OthersFit, Settle, C.Resume, C.Live;
    var h := HandlerFor(w, a.fd);
    var c := ResumeConn(svc, h.conn, a.io, a.now);
    var pool := PoolFor(w, a.fd);
    if a.fd in w.handlers {
      KnownResumable(svc, w, a.fd);
      assert w.(pool := pool) == w;
    } else {
      NewResumable(svc, w, a.fd);
    }
    ResumableFacts(w.(pool := pool), a.fd, h);
    SettleLeaves(w.(pool := pool), a.fd, h, c, a.modifyOk);
    assert c == Run(svc, h.conn, Used(svc, h.conn, a.io, a.now));
  }

  // ---- every run -----------------------------------------------------------------------

  /** The results that the handler of `fd` has used up since it was created. */
  ghost function Heard(svc: Service, threshold: int, actions: seq<Action>, fd: int): seq<Io>
    decreases |actions|
  {
    if actions == [] || fd !in Acts(svc, threshold, actions).handlers then []
    else
      var init, a := actions[..|actions| - 1], actions[|actions| - 1];
      var heard := Heard(svc, threshold, init, fd);
      if a.Ready? && a.fd == fd && fd in Acts(svc, threshold, init).epoll
      then heard + Used(svc, Run(svc, CREATED, heard), a.io, a.now) else heard
  }

  lemma {:induction false} RunConcat(svc: Service, c: Conn, a: seq<Io>, b: seq<Io>)
    ensures Run(svc, c, a + b) == Run(svc, Run(svc, c, a), b)
    decreases |b|
  {
    hide Step;
    if b == [] {
      assert a + b == a;
    } else {
      RunConcat(svc, c, a, b[..|b| - 1]);
      assert (a + b)[..|a + b| - 1] == a + b[..|b| - 1];
    }
  }

  /** When a handler was last suspended, by the last result it used up. */
  function SuspendedAt(heard: seq<Io>): int {
    if heard != [] && heard[|heard| - 1].Again? then heard[|heard| - 1].now else 0
  }

  /** On every run a handler's connection is what the results delivered to its descriptor
      since its creation make of a new one, and was last active when it was suspended. */
  lemma {:induction false} HandlerIsRun(svc: Service, threshold: int, actions: seq<Action>, fd: int)
    requires svc.slack <= 1 && fd in Acts(svc, threshold, actions).handlers
    ensures var heard := Heard(svc, threshold, actions, fd);
            var c := Acts(svc, threshold, actions).handlers[fd].conn;
            && c == Run(svc, CREATED, heard)
            && heard != [] && heard[|heard| - 1].Again? && c.lastActivity == SuspendedAt(heard)
    decreases |actions|
  {
    hide Act, Run, Fit, SuspendedAt;
    var init, a := actions[..|actions| - 1], actions[|actions| - 1];
    var w := Acts(svc, threshold, init);
    RunFit(svc, threshold, init);
    RunFit(svc, threshold, actions);
    if fd in w.handlers {
      HandlerIsRun(svc, threshold, init, fd);
    } else {
      NotHeard(svc, threshold, init, fd);
      RunNothing(svc, CREATED);
    }
    if a.Ready? && a.fd == fd && fd in w.epoll {
      HearsMore(svc, threshold, w, a, Heard(svc, threshold, init, fd), Acts(svc, threshold, actions));
    } else {
      OthersUntouched(svc, threshold, w, a, fd);
    }
  }

  lemma NotHeard(svc: Service, threshold: int, actions: seq<Action>, fd: int)
    requires fd !in Acts(svc, threshold, actions).handlers
    ensures Heard(svc, threshold, actions, fd) == []
  {
  }

  lemma HearsMore(svc: Service, threshold: int, w: World, a: Action, heard: seq<Io>, w': World)
    requires Fit(svc, w) && Fit(svc, w') && svc.slack <= 1 && a.Ready? && a.fd in w.epoll
    requires w' == Act(svc, threshold, w, a) && a.fd in w'.handlers
    requires ConnFor(w, a.fd) == Run(svc, CREATED, heard)
    ensures var more := heard + Used(svc, Run(svc, CREATED, heard), a.io, a.now);
            var c := w'.handlers[a.fd].conn;
            && c == Run(svc, CREATED, more)
            && more != [] && more[|more| - 1].Again? && c.lastActivity == SuspendedAt(more)
  {
    hide Act, Run, Fit, UsesUp, WellFormed, InterestMatches;
    EventExact(svc, threshold, w, a);
    var c0 := ConnFor(w, a.fd);
    var used := Used(svc, c0, a.io, a.now);
    RunConcat(svc, CREATED, heard, used);
    HandlerSuspended(svc, w', a.fd);
    assert Reached(svc, c0);
    ReachedWellFormed(svc, c0);
    SuspendedBy(svc, c0, a.io, a.now, used);
    var more := heard + used;
    assert more[|more| - 1] == used[|used| - 1];
  }

  lemma HandlerSuspended(svc: Service, w: World, fd: int)
    requires Fit(svc, w) && fd in w.handlers
    ensures w.handlers[fd].conn.suspended
  {
    hide Reached;
    assert HandlerFit(svc, w, fd);
  }

  lemma OthersUntouched(svc: Service, threshold: int, w: World, a: Action, fd: int)
    requires Fit(svc, w) && svc.slack <= 1 && !(a.Ready? && a.fd == fd && fd in w.epoll)
    requires fd in Act(svc, threshold, w, a).handlers
    ensures fd in w.handlers && Act(svc, threshold, w, a).handlers[fd] == w.handlers[fd]
  {
    hide Fit, OnReady, Sweep, Run;
    match a
    case Accept(_) =>
    case Ready(g, _, _, _) => if g in w.epoll { EventExact(svc, threshold, w, a); }
    case Tick(order, time) => SweepExact(svc, threshold, w, order, time);
  }

  /** On every run: a handler has received the bytes delivered to its descriptor since its
      creation, and sent as many as were taken from it. */
  lemma HandlerReceives(svc: Service, threshold: int, actions: seq<Action>, fd: int)
    requires svc.slack <= 1 && fd in Acts(svc, threshold, actions).handlers
    ensures var c := Acts(svc, threshold, actions).handlers[fd].conn;
            var heard := Occurring(svc, Heard(svc, threshold, actions, fd));
            c.received == BytesRead(heard) && |c.sent| == CountWritten(heard)
  {
    hide Acts, Run, Occurring;
    HandlerIsRun(svc, threshold, actions, fd);
    RunHistory(svc, Heard(svc, threshold, actions, fd));
  }

  /** On every run a sweep removes exactly the visited handlers whose last suspension lies
      at least the threshold back. */
  lemma SweepByTime(svc: Service, threshold: int, actions: seq<Action>, order: seq<int>, time: int, fd: int)
    requires svc.slack <= 1
    ensures fd in Acts(svc, threshold, actions + [Tick(order, time)]).handlers <==>
            && fd in Acts(svc, threshold, actions).handlers
            && (fd in order ==> time - SuspendedAt(Heard(svc, threshold, actions, fd)) < threshold)
  {
    hide Acts, Sweep, Fit, SuspendedAt, Run;
    var w := Acts(svc, threshold, actions);
    ActsNext(svc, threshold, actions, Tick(order, time));
    RunFit(svc, threshold, actions);
    SweepExact(svc, threshold, w, order, time);
    if fd in w.handlers {
      HandlerIsRun(svc, threshold, actions, fd);
    }
  }
}
