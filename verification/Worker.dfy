/** The worker object: the handler map, its epoll instance and its thread's coroutines. */
module Worker {
  import opened Text
  import opened ConnectionSpec
  import opened WorkerSpec
  import opened WorkerLaws

  class HttpWorker {
    const svc: Service
    const threshold: int
    const ordinator: C.Ordinator
    var handlers: map<int, Handler>
    var epoll: map<int, set<Event>>
    ghost var leaked: set<nat>

    ghost function Value(): World
      reads this, ordinator
    {
      World(handlers, epoll, ordinator.Value(), leaked)
    }

    constructor (svc: Service, threshold: int)
      ensures this.svc == svc && this.threshold == threshold
      ensures Value() == INITIAL && fresh(ordinator)
    {
      this.svc, this.threshold := svc, threshold;
      ordinator := new C.Ordinator();
      handlers, epoll, leaked := map[], map[], {};
    }

    /** `coroutines.erase`: the handler's destructor closes the descriptor. */
    method EraseHandler(fd: int)
      modifies this`handlers, this`epoll
      ensures Value() == Erase(old(Value()), fd)
    {
      handlers := handlers - {fd};
      epoll := epoll - {fd};
    }

    method ResumeHandler(fd: int, h: Handler, io: seq<Io>, now: int, modifyOk: bool)
      requires C.Consistent(ordinator.Value()) && ordinator.current == 0
      modifies this, ordinator
      ensures Value() == Settle(old(Value()), fd, h, ResumeConn(svc, h.conn, io, now), modifyOk)
    {
      hide ResumeConn;
      var eventsBefore := h.conn.interest;
      var c := ResumeConn(svc, h.conn, io, now);
      var more, rethrown := ordinator.ResumeRoutine(h.routine, LegKind(c));
      if rethrown || !more {
        EraseHandler(fd);
        return;
      }
      handlers := handlers[fd := Handler(c, h.routine)];
      if eventsBefore != c.interest {
        if modifyOk {
          epoll := epoll[fd := c.interest];
        } else {
          EraseHandler(fd);
          leaked := leaked + {h.routine};
        }
      }
    }

    method RegisterHandler(fd: int, io: seq<Io>, now: int, modifyOk: bool)
      requires fd !in handlers && fd in epoll
      requires C.Consistent(ordinator.Value()) && ordinator.current == 0
      modifies this, ordinator
      ensures Value() == OnReady(svc, old(Value()), fd, io, now, modifyOk)
    {
      hide ResumeConn, Settle;
      assert ordinator.finished != [] ==> ordinator.finished[0] in ordinator.finished;
      C.CreateKeeps(ordinator.Value());
      var id := ordinator.CreateRoutine();
      ResumeHandler(fd, Handler(CREATED, id), io, now, modifyOk);
    }

    method HandleReady(fd: int, io: seq<Io>, now: int, modifyOk: bool)
      requires Fit(svc, Value()) && svc.slack <= 1 && fd in epoll
      modifies this, ordinator
      ensures Value() == OnReady(svc, old(Value()), fd, io, now, modifyOk)
      ensures Fit(svc, Value())
    {
      hide ResumeConn, Settle, HandlerFit, Distinct;
      ReadyKeepsFit(svc, Value(), fd, io, now, modifyOk);
      if fd !in handlers {
        RegisterHandler(fd, io, now, modifyOk);
      } else {
        assert Value().(pool := PoolFor(Value(), fd)) == Value();
        ResumeHandler(fd, handlers[fd], io, now, modifyOk);
      }
    }

    /** Accepts until EAGAIN. */
    method RegisterClients(results: seq<Accepted>)
      requires Acceptable(svc, threshold, Value(), results)
      modifies this`epoll
      ensures Value() == AcceptAll(svc, threshold, old(Value()), results)
    {
      ghost var w := Value();
      var i := 0;
      while i < |results|
        invariant i <= |results|
        invariant Value() == AcceptAll(svc, threshold, w, results[..i])
      {
        AcceptableUpTo(svc, threshold, w, results, i + 1);
        assert results[..i + 1][..i] == results[..i];
        match results[i] {
          case Client(fd, registered) =>
            if registered {
              epoll := epoll[fd := {In}];
            }
          case Skipped =>
        }
        i := i + 1;
      }
      assert results[..i] == results;
    }

    method HandleEvents(events: seq<EpollEvent>)
      requires Fit(svc, Value()) && svc.slack <= 1
      requires Deliverable(svc, threshold, Value(), events)
      modifies this, ordinator
      ensures Value() == OnEvents(svc, threshold, old(Value()), events)
      ensures Fit(svc, Value())
    {
      hide Fit, OnReady;
      ghost var w := Value();
      var i := 0;
      while i < |events|
        invariant i <= |events|
        invariant Value() == OnEvents(svc, threshold, w, events[..i])
        invariant Fit(svc, Value())
      {
        DeliverableUpTo(svc, threshold, w, events, i + 1);
        assert events[..i + 1][..i] == events[..i];
        match events[i] {
          case FromServer(results) =>
            AcceptAllKeepsFit(svc, threshold, Value(), results);
            RegisterClients(results);
          case FromClient(fd, io, now, modifyOk) =>
            HandleReady(fd, io, now, modifyOk);
        }
        i := i + 1;
      }
      assert events[..i] == events;
    }

    /** Visits the map in whatever order its iteration has. */
    method ScheduleTimeoutHandler(now: int) returns (ghost order: seq<int>)
      requires Fit(svc, Value()) && svc.slack <= 1
      modifies this, ordinator
      ensures forall fd :: fd in order <==> fd in old(handlers)
      ensures Value() == Sweep(svc, threshold, old(Value()), order, now)
      ensures forall fd :: fd in handlers <==> fd in old(handlers) && !Expired(old(handlers)[fd], now, threshold)
      ensures forall fd :: fd in handlers ==> handlers[fd] == old(handlers)[fd]
      ensures Fit(svc, Value())
    {
      hide Fit;
      ghost var w := Value();
      order := [];
      var todo := handlers.Keys;
      while todo != {}
        invariant todo <= w.handlers.Keys
        invariant forall fd :: fd in order <==> fd in w.handlers && fd !in todo
        invariant Value() == Sweep(svc, threshold, w, order, now)
        invariant Fit(svc, Value())
        decreases |todo|
      {
        assert exists fd :: fd in todo by { HasMember(todo); }
        var fd :| fd in todo;
        SweepExact(svc, threshold, w, order, now);
        todo := todo - {fd};
        Sweep1KeepsFit(svc, threshold, Value(), fd, now);
        SweepAppend(svc, threshold, w, order, fd, now);
        ghost var before := Value();
        var h := handlers[fd];
        if now - h.conn.lastActivity >= threshold {
          PoolReady(svc, Value());
          var c := Step(svc, h.conn, Resumed(true));
          var more, rethrown := ordinator.ResumeRoutine(h.routine, LegKind(c));
          EraseHandler(fd);
        }
        order := order + [fd];
      }
      SweepExact(svc, threshold, w, order, now);
    }
  }

  lemma PoolReady(svc: Service, w: World)
    requires Fit(svc, w)
    ensures C.Consistent(w.pool) && w.pool.current == 0
  {
  }

  lemma SweepAppend(svc: Service, threshold: int, w: World, order: seq<int>, fd: int, now: int)
    ensures Sweep(svc, threshold, w, order + [fd], now)
            == Sweep1(svc, threshold, Sweep(svc, threshold, w, order, now), fd, now)
  {
    assert (order + [fd])[..|order|] == order;
  }

  lemma {:induction false} AcceptAllKeepsFit(svc: Service, threshold: int, w: World, results: seq<Accepted>)
    requires Fit(svc, w) && svc.slack <= 1
    ensures Fit(svc, AcceptAll(svc, threshold, w, results))
    decreases |results|
  {
    hide Fit, Act;
    if results != [] {
      var init := results[..|results| - 1];
      AcceptAllKeepsFit(svc, threshold, w, init);
      if results[|results| - 1].Client? {
        ActKeepsFit(svc, threshold, AcceptAll(svc, threshold, w, init), Accept(results[|results| - 1].fd));
      }
    }
  }

  lemma {:induction false} AcceptableUpTo(svc: Service, threshold: int, w: World, results: seq<Accepted>, n: nat)
    requires Acceptable(svc, threshold, w, results) && n <= |results|
    ensures Acceptable(svc, threshold, w, results[..n])
    decreases |results|
  {
    hide Act;
    if n < |results| {
      var init := results[..|results| - 1];
      AcceptableUpTo(svc, threshold, w, init, n);
      assert init[..n] == results[..n];
    } else {
      assert results[..n] == results;
    }
  }

  lemma {:induction false} DeliverableUpTo(svc: Service, threshold: int, w: World, events: seq<EpollEvent>, n: nat)
    requires Deliverable(svc, threshold, w, events) && n <= |events|
    ensures Deliverable(svc, threshold, w, events[..n])
    decreases |events|
  {
    hide OnEvent, Acceptable;
    if n < |events| {
      var init := events[..|events| - 1];
      DeliverableUpTo(svc, threshold, w, init, n);
      assert init[..n] == events[..n];
    } else {
      assert events[..n] == events;
    }
  }
}
