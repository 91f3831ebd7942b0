/** The event loop of one worker: handler map, epoll registrations, coroutine pool. */
module WorkerSpec {
  import opened ConnectionSpec
  import opened ConnectionLaws
  import opened StreamLaws
  import C = Coroutine

  datatype Handler = Handler(conn: Conn, routine: nat)

  /** `leaked` is history: slots whose handler was dropped while suspended. */
  datatype World = World(
    handlers: map<int, Handler>,
    epoll: map<int, set<Event>>,
    pool: C.Pool,
    leaked: set<nat>)

  const INITIAL := World(map[], map[], C.EMPTY, {})

  // ---- one resume -------------------------------------------------------

  /** The coroutine runs on until it is suspended or ends; when `io` is used up the next
      call finds the socket not ready. */
  function Leg(svc: Service, c: Conn, io: seq<Io>, now: int): Conn
    decreases |io|
  {
    if c.suspended || c.pc.Finished? then c
    else if io == [] then Step(svc, c, Again(now))
    else Leg(svc, Step(svc, c, io[0]), io[1..], now)
  }

  function ResumeConn(svc: Service, c: Conn, io: seq<Io>, now: int): Conn {
    Leg(svc, Step(svc, c, Resumed(false)), io, now)
  }

  /** The state of some run of a connection from its creation. */
  ghost predicate Reached(svc: Service, c: Conn) {
    exists ios :: c == Run(svc, CREATED, ios)
  }

  lemma ReachedStep(svc: Service, c: Conn, io: Io)
    requires Reached(svc, c)
    ensures Reached(svc, Step(svc, c, io))
  {
    hide Step;
    var ios :| c == Run(svc, CREATED, ios);
    assert (ios + [io])[..|ios|] == ios;
    assert Run(svc, CREATED, ios + [io]) == Step(svc, c, io);
  }

  lemma ReachedCreated(svc: Service)
    ensures Reached(svc, CREATED)
  {
    assert Run(svc, CREATED, []) == CREATED;
  }

  lemma ReachedSound(svc: Service, c: Conn)
    requires Reached(svc, c) && svc.slack <= 1
    ensures Sound(svc, c)
    ensures svc.slack == 0 ==> StreamExact(svc, c)
  {
    hide Step, StreamExact, Sound;
    var ios :| c == Run(svc, CREATED, ios);
    RunKeepsSound(svc, ios);
    if svc.slack == 0 {
      RunKeepsStream(svc, ios);
    }
  }

  lemma AgainSuspends(svc: Service, c: Conn, now: int)
    requires WellFormed(svc, c) && !c.suspended && !c.pc.Finished?
    ensures Step(svc, c, Again(now)).suspended
  {
  }

  /** A leg keeps to the connection's runs and ends suspended or finished. */
  lemma {:induction false} LegStops(svc: Service, c: Conn, io: seq<Io>, now: int)
    requires Reached(svc, c) && svc.slack <= 1
    ensures Reached(svc, Leg(svc, c, io, now))
    ensures Leg(svc, c, io, now).suspended || Leg(svc, c, io, now).pc.Finished?
    decreases |io|
  {
    hide Step, Reached;
    if !c.suspended && !c.pc.Finished? {
      if io == [] {
        ReachedSound(svc, c);
        ReachedStep(svc, c, Again(now));
        AgainSuspends(svc, c, now);
      } else {
        ReachedStep(svc, c, io[0]);
        LegStops(svc, Step(svc, c, io[0]), io[1..], now);
      }
    }
  }

  // ---- steps of the loop --------------------------------------------------

  function LegKind(c: Conn): C.Leg {
    match c.pc
    case Finished(threw) => if threw then C.Throws else C.Returns
    case _ => C.Yields
  }

  /** Erasing the handler closes the descriptor, which also leaves epoll. */
  function Erase(w: World, fd: int): World {
    w.(handlers := w.handlers - {fd}, epoll := w.epoll - {fd})
  }

  /** `resumeHandler`, when the coroutine comes back as `c`. */
  function Settle(w: World, fd: int, h: Handler, c: Conn, modifyOk: bool): World {
    var r := C.Resume(w.pool, h.routine, LegKind(c));
    var w' := w.(pool := r.pool);
    if r.rethrown || !r.more then Erase(w', fd)
    else if c.interest == h.conn.interest then w'.(handlers := w.handlers[fd := Handler(c, h.routine)])
    else if modifyOk then
      w'.(handlers := w.handlers[fd := Handler(c, h.routine)], epoll := w.epoll[fd := c.interest])
    else Erase(w', fd).(leaked := w.leaked + {h.routine})
  }

  /** The handler an event is for: the one in the map, or a new one. */
  function HandlerFor(w: World, fd: int): Handler {
    if fd in w.handlers then w.handlers[fd] else Handler(CREATED, C.CreateId(w.pool))
  }

  function PoolFor(w: World, fd: int): C.Pool {
    if fd in w.handlers then w.pool
    else if w.pool.finished != [] && !C.IsId(w.pool, w.pool.finished[0]) then w.pool
    else C.Create(w.pool)
  }

  datatype Action =
    | Accept(client: int)
    | Ready(fd: int, io: seq<Io>, now: int, modifyOk: bool)
    | Tick(order: seq<int>, time: int)

  function OnReady(svc: Service, w: World, fd: int, io: seq<Io>, now: int, modifyOk: bool): World {
    var h := HandlerFor(w, fd);
    Settle(w.(pool := PoolFor(w, fd)), fd, h, ResumeConn(svc, h.conn, io, now), modifyOk)
  }

  predicate Expired(h: Handler, now: int, threshold: int) {
    now - h.conn.lastActivity >= threshold
  }

  /** The sweep's treatment of one entry. */
  function Sweep1(svc: Service, threshold: int, w: World, fd: int, now: int): World {
    if fd in w.handlers && Expired(w.handlers[fd], now, threshold) then
      var h := w.handlers[fd];
      var c := Step(svc, h.conn, Resumed(true));
      Erase(w.(pool := C.Resume(w.pool, h.routine, LegKind(c)).pool), fd)
    else w
  }

  function Sweep(svc: Service, threshold: int, w: World, order: seq<int>, now: int): World {
    if order == [] then w
    else Sweep1(svc, threshold, Sweep(svc, threshold, w, order[..|order| - 1], now), order[|order| - 1], now)
  }

  /** Actions the kernel cannot produce in this world change nothing. */
  function Act(svc: Service, threshold: int, w: World, a: Action): World {
    match a
    case Accept(fd) => if fd in w.epoll then w else w.(epoll := w.epoll[fd := {In}])
    case Ready(fd, io, now, modifyOk) => if fd in w.epoll then OnReady(svc, w, fd, io, now, modifyOk) else w
    case Tick(order, time) => Sweep(svc, threshold, w, order, time)
  }

  function Acts(svc: Service, threshold: int, actions: seq<Action>): World {
    if actions == [] then INITIAL
    else Act(svc, threshold, Acts(svc, threshold, actions[..|actions| - 1]), actions[|actions| - 1])
  }

  // ---- a batch of events ------------------------------------------------

  /** `accept4`: a client, registered with epoll or not, or an error that is skipped. */
  datatype Accepted = Client(fd: int, registered: bool) | Skipped

  /** One entry of what `epoll_wait` returned. */
  datatype EpollEvent =
    | FromServer(results: seq<Accepted>)
    | FromClient(fd: int, io: seq<Io>, now: int, modifyOk: bool)

  function AcceptAll(svc: Service, threshold: int, w: World, results: seq<Accepted>): World {
    if results == [] then w
    else
      var before := AcceptAll(svc, threshold, w, results[..|results| - 1]);
      var last := results[|results| - 1];
      if last.Client? && last.registered then Act(svc, threshold, before, Accept(last.fd)) else before
  }

  function OnEvent(svc: Service, threshold: int, w: World, e: EpollEvent): World {
    match e
    case FromServer(results) => AcceptAll(svc, threshold, w, results)
    case FromClient(fd, io, now, modifyOk) => Act(svc, threshold, w, Ready(fd, io, now, modifyOk))
  }

  function OnEvents(svc: Service, threshold: int, w: World, events: seq<EpollEvent>): World {
    if events == [] then w
    else OnEvent(svc, threshold, OnEvents(svc, threshold, w, events[..|events| - 1]), events[|events| - 1])
  }

  /** The kernel hands out descriptors that are not open and reports only registered ones. */
  predicate Acceptable(svc: Service, threshold: int, w: World, results: seq<Accepted>) {
    results == []
    || (Acceptable(svc, threshold, w, results[..|results| - 1])
        && (results[|results| - 1].Client? ==>
              results[|results| - 1].fd !in AcceptAll(svc, threshold, w, results[..|results| - 1]).epoll))
  }

  predicate Deliverable(svc: Service, threshold: int, w: World, events: seq<EpollEvent>) {
    events == []
    || (Deliverable(svc, threshold, w, events[..|events| - 1])
        && var m := OnEvents(svc, threshold, w, events[..|events| - 1]);
           match events[|events| - 1]
           case FromServer(results) => Acceptable(svc, threshold, m, results)
           case FromClient(fd, _, _, _) => fd in m.epoll)
  }
}
