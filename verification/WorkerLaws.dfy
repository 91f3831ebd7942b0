/** What every run of the event loop keeps. */
module WorkerLaws {
  import opened ConnectionSpec
  import opened ConnectionLaws
  import opened StreamLaws
  import opened WorkerSpec

  ghost predicate Owns(w: World, id: nat) {
    exists fd :: fd in w.handlers && w.handlers[fd].routine == id
  }

  /** A registered handler is suspended in a run of its connection, in a live slot, and
      epoll watches for exactly what it waits for. */
  ghost predicate HandlerFit(svc: Service, w: World, fd: int)
    requires fd in w.handlers
  {
    var h := w.handlers[fd];
    && Reached(svc, h.conn) && h.conn.suspended
    && C.Live(w.pool, h.routine) && h.routine !in w.leaked
    && fd in w.epoll && w.epoll[fd] == h.conn.interest
  }

  ghost predicate PoolFit(w: World) {
    && C.Consistent(w.pool) && w.pool.current == 0
    && (forall id: nat :: C.Live(w.pool, id) <==> id in w.leaked || Owns(w, id))
    && |w.pool.slots| == |w.pool.finished| + |w.handlers| + |w.leaked|
  }

  ghost predicate Distinct(w: World) {
    forall f, g :: f in w.handlers && g in w.handlers && f != g ==> w.handlers[f].routine != w.handlers[g].routine
  }

  ghost predicate Fit(svc: Service, w: World) {
    && PoolFit(w) && Distinct(w)
    && (forall fd :: fd in w.handlers ==> HandlerFit(svc, w, fd))
    && (forall fd :: fd in w.epoll && fd !in w.handlers ==> w.epoll[fd] == {In})
  }

  ghost predicate OwnsBut(w: World, fd: int, id: nat) {
    exists g :: g in w.handlers && g != fd && w.handlers[g].routine == id
  }

  /** A handler about to run: already in its slot, not yet necessarily in the map. */
  ghost predicate Resumable(w: World, fd: int, h: Handler) {
    && C.Consistent(w.pool) && w.pool.current == 0
    && C.Live(w.pool, h.routine) && h.routine !in w.leaked && !OwnsBut(w, fd, h.routine)
    && (forall id: nat :: C.Live(w.pool, id) <==> id in w.leaked || OwnsBut(w, fd, id) || id == h.routine)
    && |w.pool.slots| == |w.pool.finished| + |w.handlers - {fd}| + 1 + |w.leaked|
    && fd in w.epoll && w.epoll[fd] == h.conn.interest
    && Distinct(w)
  }

  ghost predicate OthersFit(svc: Service, w: World, fd: int) {
    && (forall g :: g in w.handlers && g != fd ==> HandlerFit(svc, w, g))
    && (forall g :: g in w.epoll && g !in w.handlers && g != fd ==> w.epoll[g] == {In})
  }

  lemma OwnsAfterErase(w: World, w': World, fd: int, id: nat)
    requires w'.handlers == w.handlers - {fd}
    ensures Owns(w', id) <==> OwnsBut(w, fd, id)
  {
    if OwnsBut(w, fd, id) {
      var g :| g in w.handlers && g != fd && w.handlers[g].routine == id;
      assert g in w'.handlers;
    }
  }

  lemma OwnsAfterStore(w: World, w': World, fd: int, h: Handler, id: nat)
    requires w'.handlers == w.handlers[fd := h]
    ensures Owns(w', id) <==> OwnsBut(w, fd, id) || id == h.routine
  {
    if OwnsBut(w, fd, id) {
      var g :| g in w.handlers && g != fd && w.handlers[g].routine == id;
      assert g in w'.handlers;
    }
    assert fd in w'.handlers;
  }

  lemma StoreSize(m: map<int, Handler>, fd: int, h: Handler)
    ensures |m[fd := h]| == |m - {fd}| + 1
  {
    assert m[fd := h].Keys == (m - {fd}).Keys + {fd};
    assert |m[fd := h].Keys| == |(m - {fd}).Keys| + 1;
  }

  /** Suspended again, with its registration brought up to date. */
  lemma StoredFits(svc: Service, w: World, fd: int, h: Handler, c: Conn)
    requires Resumable(w, fd, h) && OthersFit(svc, w, fd)
    requires Reached(svc, c) && c.suspended
    ensures Fit(svc, w.(handlers := w.handlers[fd := Handler(c, h.routine)], epoll := w.epoll[fd := c.interest]))
  {
    hide Reached;
    var h' := Handler(c, h.routine);
    var w' := w.(handlers := w.handlers[fd := h'], epoll := w.epoll[fd := c.interest]);
    forall id: nat ensures Owns(w', id) <==> OwnsBut(w, fd, id) || id == h.routine {
      OwnsAfterStore(w, w', fd, h', id);
    }
    StoreSize(w.handlers, fd, h');
    assert Distinct(w') by {
      assert forall g :: g in w.handlers && g != fd ==> w.handlers[g].routine != h.routine;
    }
    forall g | g in w'.handlers ensures HandlerFit(svc, w', g) {
      assert g != fd ==> HandlerFit(svc, w, g);
    }
  }

  /** `pool` and `leaked` after the slot of `h` finished, or was dropped alive. */
  ghost predicate SlotGone(w: World, h: Handler, pool: C.Pool, leaked: set<nat>) {
    && C.Consistent(pool) && pool.current == 0 && |pool.slots| == |w.pool.slots|
    && (forall id: nat :: C.Live(pool, id) <==> C.Live(w.pool, id) && (id == h.routine ==> id in leaked))
    && (|| (leaked == w.leaked && |pool.finished| == |w.pool.finished| + 1)
        || (leaked == w.leaked + {h.routine} && pool == w.pool))
  }

  lemma ErasedPoolFits(w: World, fd: int, h: Handler, pool: C.Pool, leaked: set<nat>)
    requires Resumable(w, fd, h) && SlotGone(w, h, pool, leaked)
    ensures PoolFit(Erase(w.(pool := pool), fd).(leaked := leaked))
  {
    hide C.Consistent, C.Live, Distinct;
    var w' := Erase(w.(pool := pool), fd).(leaked := leaked);
    forall id: nat ensures C.Live(w'.pool, id) <==> id in w'.leaked || Owns(w', id) {
      OwnsAfterErase(w, w', fd, id);
    }
  }

  lemma ErasedHandlerFits(svc: Service, w: World, fd: int, h: Handler, pool: C.Pool, leaked: set<nat>, g: int)
    requires Resumable(w, fd, h) && OthersFit(svc, w, fd) && SlotGone(w, h, pool, leaked)
    requires g in w.handlers && g != fd
    ensures HandlerFit(svc, Erase(w.(pool := pool), fd).(leaked := leaked), g)
  {
    hide Reached, C.Consistent;
    assert HandlerFit(svc, w, g);
    assert OwnsBut(w, fd, w.handlers[g].routine);
  }

  /** The handler is gone, and with it its descriptor's registration. */
  lemma ErasedFits(svc: Service, w: World, fd: int, h: Handler, pool: C.Pool, leaked: set<nat>)
    requires Resumable(w, fd, h) && OthersFit(svc, w, fd) && SlotGone(w, h, pool, leaked)
    ensures Fit(svc, Erase(w.(pool := pool), fd).(leaked := leaked))
  {
    hide HandlerFit, SlotGone, PoolFit;
    ErasedPoolFits(w, fd, h, pool, leaked);
    forall g | g in w.handlers && g != fd
      ensures HandlerFit(svc, Erase(w.(pool := pool), fd).(leaked := leaked), g)
    {
      ErasedHandlerFits(svc, w, fd, h, pool, leaked, g);
    }
  }

  /** Back from the coroutine, the world is fit again, whichever way it came back. */
  lemma SettleKeepsFit(svc: Service, w: World, fd: int, h: Handler, c: Conn, modifyOk: bool)
    requires Resumable(w, fd, h) && OthersFit(svc, w, fd)
    requires Reached(svc, c) && (c.suspended || c.pc.Finished?)
    requires WellFormed(svc, c)
    ensures Fit(svc, Settle(w, fd, h, c, modifyOk))
  {
    hide Reached, Resumable, OthersFit, Fit;
    assert C.Live(w.pool, h.routine) && C.Consistent(w.pool) && w.pool.current == 0
           && fd in w.epoll && w.epoll[fd] == h.conn.interest by { ResumableFacts(w, fd, h); }
    C.ResumeKeeps(w.pool, h.routine, LegKind(c));
    var r := C.Resume(w.pool, h.routine, LegKind(c));
    if c.pc.Finished? {
      ResumableFacts(w, fd, h);
      ErasedFits(svc, w, fd, h, r.pool, w.leaked);
    } else if c.interest == h.conn.interest || modifyOk {
      assert w.epoll[fd := h.conn.interest] == w.epoll;
      StoredFits(svc, w, fd, h, c);
    } else {
      ErasedFits(svc, w, fd, h, w.pool, w.leaked + {h.routine});
    }
  }

  lemma ResumableFacts(w: World, fd: int, h: Handler)
    requires Resumable(w, fd, h)
    ensures C.Live(w.pool, h.routine) && C.Consistent(w.pool) && w.pool.current == 0
    ensures fd in w.epoll && w.epoll[fd] == h.conn.interest && h.routine !in w.leaked
  {
  }

  // ---- from a fit world to a resume ----------------------------------------

  lemma KnownResumable(svc: Service, w: World, fd: int)
    requires Fit(svc, w) && fd in w.handlers
    ensures Resumable(w, fd, w.handlers[fd]) && OthersFit(svc, w, fd)
    ensures Reached(svc, w.handlers[fd].conn) && w.handlers[fd].conn.suspended
  {
    hide Reached, C.Consistent;
    var h := w.handlers[fd];
    assert HandlerFit(svc, w, fd);
    forall id: nat ensures Owns(w, id) <==> OwnsBut(w, fd, id) || id == h.routine {
      assert w.handlers == w.handlers[fd := h];
      OwnsAfterStore(w, w, fd, h, id);
    }
    StoreSize(w.handlers, fd, h);
    assert w.handlers == w.handlers[fd := h];
  }

  lemma NewResumable(svc: Service, w: World, fd: int)
    requires Fit(svc, w) && fd in w.epoll && fd !in w.handlers
    ensures PoolFor(w, fd) == C.Create(w.pool)
    ensures Resumable(w.(pool := PoolFor(w, fd)), fd, HandlerFor(w, fd))
    ensures OthersFit(svc, w.(pool := PoolFor(w, fd)), fd)
  {
    hide Reached;
    assert w.pool.finished != [] ==> w.pool.finished[0] in w.pool.finished;
    C.CreateKeeps(w.pool);
    var w' := w.(pool := C.Create(w.pool));
    forall id: nat ensures OwnsBut(w', fd, id) <==> Owns(w, id) {
    }
    assert w.handlers - {fd} == w.handlers;
    forall g | g in w.handlers ensures HandlerFit(svc, w', g) {
      assert HandlerFit(svc, w, g);
    }
  }

  lemma ReadyKeepsFit(svc: Service, w: World, fd: int, io: seq<Io>, now: int, modifyOk: bool)
    requires Fit(svc, w) && fd in w.epoll && svc.slack <= 1
    ensures Fit(svc, OnReady(svc, w, fd, io, now, modifyOk))
  {
    hide Fit, Reached, Settle, Resumable, OthersFit, Sound, StreamExact, Step;
    var h := HandlerFor(w, fd);
    if fd in w.handlers {
      KnownResumable(svc, w, fd);
      assert w.(pool := PoolFor(w, fd)) == w;
    } else {
      NewResumable(svc, w, fd);
      ReachedCreated(svc);
    }
    ReachedStep(svc, h.conn, Resumed(false));
    LegStops(svc, Step(svc, h.conn, Resumed(false)), io, now);
    var c := ResumeConn(svc, h.conn, io, now);
    ReachedWellFormed(svc, c);
    SettleKeepsFit(svc, w.(pool := PoolFor(w, fd)), fd, h, c, modifyOk);
  }

  lemma ReachedWellFormed(svc: Service, c: Conn)
    requires Reached(svc, c) && svc.slack <= 1
    ensures WellFormed(svc, c) && InterestMatches(c)
  {
    hide Reached, StreamExact, WellFormed, InterestMatches;
    ReachedSound(svc, c);
  }

  // ---- the sweep ----------------------------------------------------------

  /** Sweeping one entry: an idle one is resumed once, ends, and is gone. */
  lemma Sweep1KeepsFit(svc: Service, threshold: int, w: World, fd: int, now: int)
    requires Fit(svc, w) && svc.slack <= 1
    ensures var w' := Sweep1(svc, threshold, w, fd, now);
            && Fit(svc, w') && w'.leaked == w.leaked
            && (if fd in w.handlers && Expired(w.handlers[fd], now, threshold)
                then w'.handlers == w.handlers - {fd} && w'.epoll == w.epoll - {fd}
                     && !C.Live(w'.pool, w.handlers[fd].routine)
                else w' == w)
  {
    hide Fit, Reached, Resumable, OthersFit, Step, WellFormed, InterestMatches;
    if fd in w.handlers && Expired(w.handlers[fd], now, threshold) {
      var h := w.handlers[fd];
      var c := Step(svc, h.conn, Resumed(true));
      KnownResumable(svc, w, fd);
      ReachedWellFormed(svc, h.conn);
      TimedOutResumeFinishes(svc, h.conn, true);
      ResumableFacts(w, fd, h);
      C.ResumeKeeps(w.pool, h.routine, LegKind(c));
      var pool := C.Resume(w.pool, h.routine, LegKind(c)).pool;
      assert SlotGone(w, h, pool, w.leaked);
      ErasedFits(svc, w, fd, h, pool, w.leaked);
      assert Erase(w.(pool := pool), fd).(leaked := w.leaked) == Erase(w.(pool := pool), fd);
    }
  }

  ghost predicate SweptAway(threshold: int, w: World, order: seq<int>, now: int, fd: int) {
    fd in w.handlers && fd in order && Expired(w.handlers[fd], now, threshold)
  }

  /** A sweep removes exactly the visited entries idle for the threshold, each of them
      with its slot ended and its registration gone, and leaves the others untouched. */
  lemma {:induction false} SweepExact(svc: Service, threshold: int, w: World, order: seq<int>, now: int)
    requires Fit(svc, w) && svc.slack <= 1
    ensures var w' := Sweep(svc, threshold, w, order, now);
            && Fit(svc, w') && w'.leaked == w.leaked
            && (forall fd :: fd in w'.handlers <==> fd in w.handlers && !SweptAway(threshold, w, order, now, fd))
            && (forall fd :: fd in w'.handlers ==> w'.handlers[fd] == w.handlers[fd])
            && (forall fd :: fd in w'.epoll <==> fd in w.epoll && !SweptAway(threshold, w, order, now, fd))
            && (forall fd :: fd in w'.epoll ==> w'.epoll[fd] == w.epoll[fd])
    decreases |order|
  {
    hide Fit, Sweep1, Expired;
    if order != [] {
      var init, last := order[..|order| - 1], order[|order| - 1];
      SweepExact(svc, threshold, w, init, now);
      var m := Sweep(svc, threshold, w, init, now);
      Sweep1KeepsFit(svc, threshold, m, last, now);
      assert order == init + [last];
      assert forall fd :: fd in order <==> fd in init || fd == last;
    }
  }

  // ---- runs -----------------------------------------------------------------

  lemma FitSeesHandlers(svc: Service, w: World)
    requires Fit(svc, w)
    ensures forall fd :: fd in w.handlers ==> fd in w.epoll
  {
    hide Reached;
    forall fd | fd in w.handlers ensures fd in w.epoll {
      assert HandlerFit(svc, w, fd);
    }
  }

  lemma AcceptKeepsFit(svc: Service, w: World, fd: int)
    requires Fit(svc, w) && fd !in w.epoll
    ensures Fit(svc, w.(epoll := w.epoll[fd := {In}]))
  {
    hide Reached;
    var w' := w.(epoll := w.epoll[fd := {In}]);
    FitSeesHandlers(svc, w);
    forall id: nat ensures Owns(w', id) <==> Owns(w, id) {
    }
    forall g | g in w'.handlers ensures HandlerFit(svc, w', g) {
      assert HandlerFit(svc, w, g);
    }
  }

  lemma ActKeepsFit(svc: Service, threshold: int, w: World, a: Action)
    requires Fit(svc, w) && svc.slack <= 1
    ensures Fit(svc, Act(svc, threshold, w, a))
  {
    hide Fit, OnReady, Sweep;
    match a
    case Accept(fd) => if fd !in w.epoll { AcceptKeepsFit(svc, w, fd); }
    case Ready(fd, io, now, modifyOk) => if fd in w.epoll { ReadyKeepsFit(svc, w, fd, io, now, modifyOk); }
    case Tick(order, time) => SweepExact(svc, threshold, w, order, time);
  }

  /** Every reachable world is fit. */
  lemma {:induction false} RunFit(svc: Service, threshold: int, actions: seq<Action>)
    requires svc.slack <= 1
    ensures Fit(svc, Acts(svc, threshold, actions))
    decreases |actions|
  {
    hide Act;
    if actions != [] {
      hide Fit;
      RunFit(svc, threshold, actions[..|actions| - 1]);
      ActKeepsFit(svc, threshold, Acts(svc, threshold, actions[..|actions| - 1]), actions[|actions| - 1]);
    }
  }

  /** No lost wakeup: on every run a handler waiting to read is watched for input only,
      one waiting to write for output only, and a client without handler for input. */
  lemma NoLostWakeup(svc: Service, threshold: int, actions: seq<Action>, fd: int)
    requires svc.slack <= 1
    ensures var w := Acts(svc, threshold, actions);
            && (fd in w.handlers ==>
                  && w.handlers[fd].conn.suspended && fd in w.epoll
                  && (w.handlers[fd].conn.pc.Reading? || w.handlers[fd].conn.pc.Start? ==> w.epoll[fd] == {In})
                  && (w.handlers[fd].conn.pc.Writing? ==> w.epoll[fd] == {Out})
                  && !w.handlers[fd].conn.pc.Finished?)
            && (fd in w.epoll && fd !in w.handlers ==> w.epoll[fd] == {In})
  {
    hide Acts, Reached, PoolFit, Distinct;
    RunFit(svc, threshold, actions);
    var w := Acts(svc, threshold, actions);
    if fd in w.handlers {
      assert HandlerFit(svc, w, fd);
      ReachedWellFormed(svc, w.handlers[fd].conn);
    }
  }

  lemma HandlerForReached(svc: Service, w: World, fd: int)
    requires Fit(svc, w)
    ensures Reached(svc, HandlerFor(w, fd).conn)
  {
    hide Reached;
    if fd in w.handlers {
      assert HandlerFit(svc, w, fd);
    } else {
      ReachedCreated(svc);
    }
  }

  /** In every reachable world each registered connection has written exactly what its
      input demands; and so has the one an event resumes, known or new, when that resume
      comes back, suspended or for good, and the one a sweep resumes, which writes nothing
      more. */
  lemma WorkerOutputExact(svc: Service, threshold: int, actions: seq<Action>, fd: int, io: seq<Io>, now: int)
    requires svc.slack == 0
    ensures var w := Acts(svc, threshold, actions);
            var c := HandlerFor(w, fd).conn;
            && StreamExact(svc, c)
            && StreamExact(svc, ResumeConn(svc, c, io, now))
            && StreamExact(svc, Step(svc, c, Resumed(true)))
            && Step(svc, c, Resumed(true)).sent == c.sent
            && Step(svc, c, Resumed(true)).pc.Finished?
  {
    hide Acts, Reached, Fit, StreamExact, Step, WellFormed, HandlerFor;
    RunFit(svc, threshold, actions);
    var w := Acts(svc, threshold, actions);
    var c := HandlerFor(w, fd).conn;
    HandlerForReached(svc, w, fd);
    ReachedSound(svc, c);
    ReachedStep(svc, c, Resumed(false));
    LegStops(svc, Step(svc, c, Resumed(false)), io, now);
    ReachedSound(svc, ResumeConn(svc, c, io, now));
    ReachedStep(svc, c, Resumed(true));
    ReachedSound(svc, Step(svc, c, Resumed(true)));
    assert c.suspended by { HandlerForSuspended(svc, w, fd); }
    TimedOutResumeFinishes(svc, c, true);
  }

  lemma HandlerForSuspended(svc: Service, w: World, fd: int)
    requires Fit(svc, w)
    ensures HandlerFor(w, fd).conn.suspended
  {
    hide Reached;
    assert fd in w.handlers ==> HandlerFit(svc, w, fd);
  }

  // ---- accepting ----------------------------------------------------------------

  /** Accepting registers exactly the clients that epoll took, for input, and nothing else
      changes. */
  lemma {:induction false} AcceptAllExact(svc: Service, threshold: int, w: World, results: seq<Accepted>)
    ensures var w' := AcceptAll(svc, threshold, w, results);
            && w'.handlers == w.handlers && w'.pool == w.pool && w'.leaked == w.leaked
            && (forall fd :: fd in w'.epoll <==> fd in w.epoll || Client(fd, true) in results)
            && (forall fd :: fd in w'.epoll ==> w'.epoll[fd] == if fd in w.epoll then w.epoll[fd] else {In})
    decreases |results|
  {
    if results != [] {
      var init, last := results[..|results| - 1], results[|results| - 1];
      AcceptAllExact(svc, threshold, w, init);
      assert results == init + [last];
      assert forall r :: r in results <==> r in init || r == last;
    }
  }

  /** The actions that a batch of events stands for. */
  function Accepts(results: seq<Accepted>): seq<Action> {
    if results == [] then []
    else
      var last := results[|results| - 1];
      Accepts(results[..|results| - 1]) + if last.Client? && last.registered then [Accept(last.fd)] else []
  }

  function ActionsOf(events: seq<EpollEvent>): seq<Action> {
    if events == [] then []
    else
      ActionsOf(events[..|events| - 1])
      + match events[|events| - 1]
        case FromServer(results) => Accepts(results)
        case FromClient(fd, io, now, modifyOk) => [Ready(fd, io, now, modifyOk)]
  }

  lemma ActsNext(svc: Service, threshold: int, actions: seq<Action>, a: Action)
    ensures Acts(svc, threshold, actions + [a]) == Act(svc, threshold, Acts(svc, threshold, actions), a)
  {
    hide Act;
    assert (actions + [a])[..|actions|] == actions;
  }

  lemma {:induction false} AcceptingIsRun(svc: Service, threshold: int, actions: seq<Action>, results: seq<Accepted>)
    ensures AcceptAll(svc, threshold, Acts(svc, threshold, actions), results)
            == Acts(svc, threshold, actions + Accepts(results))
    decreases |results|
  {
    hide Act, Acts;
    if results == [] {
      assert actions + [] == actions;
    } else {
      var init, last := results[..|results| - 1], results[|results| - 1];
      AcceptingIsRun(svc, threshold, actions, init);
      if last.Client? && last.registered {
        ActsNext(svc, threshold, actions + Accepts(init), Accept(last.fd));
        assert actions + Accepts(init) + [Accept(last.fd)] == actions + Accepts(results);
      } else {
        assert Accepts(results) == Accepts(init);
      }
    }
  }

  /** A batch of events continues the run by its actions, in order. */
  lemma {:induction false} BatchIsRun(svc: Service, threshold: int, actions: seq<Action>, events: seq<EpollEvent>)
    ensures OnEvents(svc, threshold, Acts(svc, threshold, actions), events)
            == Acts(svc, threshold, actions + ActionsOf(events))
    decreases |events|
  {
    hide Act, Acts, AcceptAll, Accepts;
    if events == [] {
      assert actions + [] == actions;
    } else {
      var init, last := events[..|events| - 1], events[|events| - 1];
      BatchIsRun(svc, threshold, actions, init);
      var soFar := actions + ActionsOf(init);
      match last
      case FromServer(results) =>
        AcceptingIsRun(svc, threshold, soFar, results);
        assert soFar + Accepts(results) == actions + ActionsOf(events);
      case FromClient(fd, io, now, modifyOk) =>
        ActsNext(svc, threshold, soFar, Ready(fd, io, now, modifyOk));
        assert soFar + [Ready(fd, io, now, modifyOk)] == actions + ActionsOf(events);
    }
  }

  // ---- slots ------------------------------------------------------------------

  /** The live slots are the handlers' slots, one each. */
  ghost predicate SlotsMatchHandlers(w: World) {
    Distinct(w) && forall id: nat :: C.Live(w.pool, id) <==> Owns(w, id)
  }

  /** Every handler owns a live slot of its own; the remaining live slots are the leaked ones. */
  lemma FitSlots(svc: Service, w: World)
    requires Fit(svc, w)
    ensures C.CountLive(w.pool.slots) == |w.handlers| + |w.leaked|
    ensures SlotsMatchHandlers(w) <==> w.leaked == {}
  {
    hide Reached;
    if w.leaked != {} {
      var id :| id in w.leaked;
      assert C.Live(w.pool, id);
      forall fd | fd in w.handlers ensures w.handlers[fd].routine != id {
        assert HandlerFit(svc, w, fd);
      }
      assert !Owns(w, id);
    }
  }

  /** The epoll registration could not be changed although the coroutine now waits for
      something else. */
  ghost predicate ModifyFails(svc: Service, w: World, a: Action) {
    && a.Ready? && a.fd in w.epoll && !a.modifyOk
    && var h := HandlerFor(w, a.fd);
       var c := ResumeConn(svc, h.conn, a.io, a.now);
       C.Live(PoolFor(w, a.fd), h.routine) && !c.pc.Finished? && c.interest != h.conn.interest
  }

  lemma ActLeaks(svc: Service, threshold: int, w: World, a: Action)
    requires Fit(svc, w) && svc.slack <= 1
    ensures Act(svc, threshold, w, a).leaked
            == if ModifyFails(svc, w, a) then w.leaked + {HandlerFor(w, a.fd).routine} else w.leaked
  {
    hide Fit, ResumeConn, Sweep;
    if a.Tick? {
      SweepExact(svc, threshold, w, a.order, a.time);
    }
  }

  ghost predicate AllModified(svc: Service, threshold: int, actions: seq<Action>)
    decreases |actions|
  {
    actions == []
    || (AllModified(svc, threshold, actions[..|actions| - 1])
        && !ModifyFails(svc, Acts(svc, threshold, actions[..|actions| - 1]), actions[|actions| - 1]))
  }

  lemma {:induction false} LeakedNothing(svc: Service, threshold: int, actions: seq<Action>)
    requires svc.slack <= 1
    ensures Acts(svc, threshold, actions).leaked == {} <==> AllModified(svc, threshold, actions)
    decreases |actions|
  {
    hide Act, ModifyFails;
    if actions != [] {
      var init := actions[..|actions| - 1];
      LeakedNothing(svc, threshold, init);
      RunFit(svc, threshold, init);
      ActLeaks(svc, threshold, Acts(svc, threshold, init), actions[|actions| - 1]);
    }
  }

  /** Slot ownership: at the end of a run the unfinished slots are in one-to-one
      correspondence with the handlers exactly when no registration update failed. */
  lemma SlotOwnership(svc: Service, threshold: int, actions: seq<Action>)
    requires svc.slack <= 1
    ensures SlotsMatchHandlers(Acts(svc, threshold, actions)) <==> AllModified(svc, threshold, actions)
    ensures var w := Acts(svc, threshold, actions);
            C.CountLive(w.pool.slots) == |w.handlers| + |w.leaked|
  {
    hide Acts, Fit, SlotsMatchHandlers, AllModified;
    RunFit(svc, threshold, actions);
    FitSlots(svc, Acts(svc, threshold, actions));
    LeakedNothing(svc, threshold, actions);
  }
}
