/**
 * Controller admission in monitor.c, as an event-driven state machine.
 *
 * The process keeps one global controller record and the flag
 * `have_controller`. The event loop delivers three kinds of callback:
 * an accepted inbound connection (listener_cb), a connection event carrying
 * connected / EOF / error bits (eventcb), and readable input (readcb). Each
 * callback is a pure transition here. The event loop's own effects become
 * data: a handle is an opaque identity (`NullBev` when bufferevent creation
 * fails), freeing a handle adds it to the `freed` multiset, writing the
 * welcome line adds the handle and the bytes written to `welcomed`, an
 * accepted socket that no handle takes over is added to `leaked`, and asking
 * the loop to break sets `loopBreak`.
 */
module Monitor {
  import opened CString

  /** Size of the `name` and `host` arrays of a data_con. */
  const NameLen: nat := 50

  const ControllerName: seq<char> := "Controller"

  /** Characters strncmp compares when testing for the controller. */
  const ControllerPrefix: nat := 10

  const Welcome: seq<char> := "Welcome, controller.\n"

  /** Byte count handed to bufferevent_write with the welcome line. */
  const WelcomeLen: nat := 21

  datatype Bev = NullBev | Bev(id: nat)

  /** An accepted socket descriptor. */
  type Fd = nat

  /** data_con: a connection's handle, its name and host buffers, and its port. */
  datatype DataCon = DataCon(bev: Bev, name: seq<char>, host: seq<char>, port: int)

  /** The bits of a connection event that the callback inspects. */
  datatype Flags = Flags(connected: bool, eof: bool, error: bool)

  datatype Monitor = Monitor(
    haveController: bool,
    controller: DataCon,
    freed: multiset<Bev>,
    welcomed: multiset<(Bev, seq<char>)>,
    leaked: multiset<Fd>,
    loopBreak: bool)

  /** The zero-initialised global controller_con. */
  function ZeroCon(): (c: DataCon)
    ensures Str(c.name) == [] && Str(c.host) == [] && c.bev == NullBev
  {
    DataCon(NullBev, Zeros(NameLen), Zeros(NameLen), 0)
  }

  /** Process start: no controller, nothing freed, written or leaked, the loop running. */
  function Initial(): (m: Monitor)
    ensures !m.haveController && !m.loopBreak
    ensures m.freed == multiset{} && m.welcomed == multiset{} && m.leaked == multiset{}
    ensures m.controller.bev == NullBev && Str(m.controller.name) == [] && !IsController(m.controller)
  {
    Monitor(false, ZeroCon(), multiset{}, multiset{}, multiset{}, false)
  }

  /**
   * setup_con: zero both buffers, copy `nm` and `hst` in, set the port. The
   * copy is unbounded in the source, so the strings must fit the buffers.
   */
  function SetupCon(con: DataCon, nm: seq<char>, hst: seq<char>, prt: int): (r: DataCon)
    requires NoNul(nm) && NoNul(hst) && |nm| <= NameLen && |hst| <= NameLen
    ensures r.bev == con.bev && r.port == prt
    ensures |r.name| == NameLen && |r.host| == NameLen
    ensures r.name[..|nm|] == nm && forall i :: |nm| <= i < NameLen ==> r.name[i] == NUL
    ensures r.host[..|hst|] == hst && forall i :: |hst| <= i < NameLen ==> r.host[i] == NUL
    ensures |nm| < NameLen ==> Str(r.name) == nm
    ensures |hst| < NameLen ==> Str(r.host) == hst
  {
    var name := Strncpy(Zeros(NameLen), nm, |nm|);
    var host := Strncpy(Zeros(NameLen), hst, |hst|);
    StrncpyFits(nm, NameLen);
    StrncpyFits(hst, NameLen);
    con.(name := name, host := host, port := prt)
  }

  /** The `strncmp(con.name, "Controller", 10) == 0` test of eventcb and readcb. */
  predicate IsController(con: DataCon)
  {
    StrnEq(con.name, ControllerName, ControllerPrefix)
  }

  /** The test is a prefix test: the name buffer begins with the ten letters of "Controller". */
  lemma IsControllerPrefix(con: DataCon)
    ensures IsController(con) <==> |con.name| >= 10 && con.name[..10] == ControllerName
  {
    assert ControllerName[..10] == ControllerName;
    StrnEqPrefix(con.name, ControllerName, ControllerPrefix);
  }

  /**
   * listener_cb on the accepted socket `fd`: refuse while a controller is
   * held. Otherwise the handle built on `fd` and the name "Controller" go
   * into the controller record, and then either the flag is raised or, when
   * the handle could not be built, the loop is asked to break. A refused
   * socket, and one no handle was built on, is never closed.
   */
  function ListenerCb(m: Monitor, fd: Fd, handle: Bev): (r: Monitor)
    ensures m.haveController ==> r == m.(leaked := m.leaked + multiset{fd})
    ensures !m.haveController ==>
      && r.controller.bev == handle
      && Str(r.controller.name) == ControllerName && Str(r.controller.host) == []
      && r.controller.port == 0
      && IsController(r.controller)
      && (r.haveController <==> handle != NullBev)
      && r.loopBreak == (m.loopBreak || handle == NullBev)
      && r.freed == m.freed && r.welcomed == m.welcomed
    ensures r.leaked[fd] == m.leaked[fd] + 1 <==> m.haveController || handle == NullBev
    ensures r.leaked == m.leaked || r.leaked == m.leaked + multiset{fd}
  {
    if m.haveController then m.(leaked := m.leaked + multiset{fd})
    else
      var con := SetupCon(m.controller.(bev := handle), ControllerName, "", 0);
      IsControllerPrefix(con);
      if handle == NullBev then m.(controller := con, loopBreak := true, leaked := m.leaked + multiset{fd})
      else m.(controller := con, haveController := true)
  }

  /**
   * eventcb on the record `con`: a connected event only logs. Any other event
   * frees the record's handle once, and clears the flag only when its EOF bit
   * is set and the record's name starts with "Controller".
   */
  function EventCb(m: Monitor, con: DataCon, f: Flags): (r: Monitor)
    ensures r.controller == m.controller && r.loopBreak == m.loopBreak && r.welcomed == m.welcomed
    ensures r.leaked == m.leaked
    ensures f.connected ==> r == m
    ensures !f.connected ==> r.freed == m.freed + multiset{con.bev}
    ensures r.haveController ==> m.haveController
    ensures m.haveController && !r.haveController <==>
      m.haveController && !f.connected && f.eof && IsController(con)
  {
    if f.connected then m
    else
      var flag := if f.eof && IsController(con) then false else m.haveController;
      m.(haveController := flag, freed := m.freed + multiset{con.bev})
  }

  /** The welcome line is exactly as long as the byte count written with it. */
  lemma WelcomeLength()
    ensures |Welcome| == WelcomeLen
  {
  }

  /**
   * readcb on the record `con`: a record named "Controller" is sent the
   * first `WelcomeLen` bytes of the welcome line on every read, which is the
   * whole line. Draining and printing the input is I/O.
   */
  function ReadCb(m: Monitor, con: DataCon): (r: Monitor)
    ensures r.haveController == m.haveController && r.controller == m.controller
    ensures r.freed == m.freed && r.loopBreak == m.loopBreak && r.leaked == m.leaked
    ensures IsController(con) ==> r.welcomed == m.welcomed + multiset{(con.bev, Welcome)}
    ensures !IsController(con) ==> r.welcomed == m.welcomed
  {
    WelcomeLength();
    assert Welcome[..|Welcome|] == Welcome;
    if IsController(con) then m.(welcomed := m.welcomed + multiset{(con.bev, Welcome[..WelcomeLen])}) else m
  }

  /** What the event loop can deliver. Monitored connections carry their own record. */
  datatype Event =
    | Accept(fd: Fd, handle: Bev)
    | ControllerEvent(flags: Flags)
    | MonitoredEvent(con: DataCon, flags: Flags)
    | ControllerRead
    | MonitoredRead(con: DataCon)

  function Step(m: Monitor, e: Event): Monitor
  {
    match e
    case Accept(fd, handle) => ListenerCb(m, fd, handle)
    case ControllerEvent(f) => EventCb(m, m.controller, f)
    case MonitoredEvent(con, f) => EventCb(m, con, f)
    case ControllerRead => ReadCb(m, m.controller)
    case MonitoredRead(con) => ReadCb(m, con)
  }

  function Run(m: Monitor, es: seq<Event>): Monitor
    decreases |es|
  {
    if es == [] then m else Run(Step(m, es[0]), es[1..])
  }

  /** An event that, delivered while `ctl` is the held controller, clears the flag. */
  predicate Releases(ctl: DataCon, e: Event)
  {
    match e
    case ControllerEvent(f) => !f.connected && f.eof && IsController(ctl)
    case MonitoredEvent(con, f) => !f.connected && f.eof && IsController(con)
    case _ => false
  }

  /** While a controller is held, an event clears the flag exactly when it releases. */
  lemma StepReleases(m: Monitor, e: Event)
    requires m.haveController
    ensures !Step(m, e).haveController <==> Releases(m.controller, e)
    ensures Step(m, e).controller == m.controller
  {
  }

  /** Only an accept while no controller is held changes the controller record. */
  lemma StepAdmits(m: Monitor, e: Event)
    ensures Step(m, e).controller != m.controller ==> e.Accept? && !m.haveController
    ensures !m.haveController && Step(m, e).haveController ==> e.Accept? && e.handle != NullBev
  {
  }

  /**
   * At most one controller: once one is held, no run of events admits
   * another or touches its record until an event releases it.
   */
  lemma {:induction false} HeldUntilReleased(m: Monitor, es: seq<Event>)
    requires m.haveController
    requires forall k :: 0 <= k < |es| ==> !Releases(m.controller, es[k])
    ensures Run(m, es).haveController
    ensures Run(m, es).controller == m.controller
    decreases |es|
  {
    if es != [] {
      StepReleases(m, es[0]);
      var m' := Step(m, es[0]);
      HeldUntilReleased(m', es[1..]);
    }
  }

  /** The held controller record is always one named like the controller. */
  predicate HeldNamed(m: Monitor)
  {
    m.haveController ==> IsController(m.controller)
  }

  /** Every callback keeps the held record named like the controller. */
  lemma StepNamed(m: Monitor, e: Event)
    requires HeldNamed(m)
    ensures HeldNamed(Step(m, e))
  {
  }

  /**
   * On every run from process start, a held controller can be released:
   * its own EOF clears the flag.
   */
  lemma {:induction false} RunNamed(m: Monitor, es: seq<Event>)
    requires HeldNamed(m)
    ensures HeldNamed(Run(m, es))
    ensures Run(m, es).haveController ==>
      Releases(Run(m, es).controller, ControllerEvent(Flags(false, true, false)))
    decreases |es|
  {
    if es != [] {
      StepNamed(m, es[0]);
      RunNamed(Step(m, es[0]), es[1..]);
    }
  }

  /** The invariant holds from process start, so every reachable held controller is releasable. */
  lemma ReachableReleasable(es: seq<Event>)
    ensures var m := Run(Initial(), es);
      m.haveController ==> !Step(m, ControllerEvent(Flags(false, true, false))).haveController
  {
    RunNamed(Initial(), es);
  }

  /**
   * Two inbound connections: the second is refused while the first is held,
   * and its socket is left open; after the first's EOF a third is admitted.
   */
  lemma SecondControllerWaitsForEof()
    ensures var m1 := Step(Initial(), Accept(1, Bev(1)));
      var m2 := Step(m1, Accept(2, Bev(2)));
      var m3 := Step(m2, ControllerEvent(Flags(false, true, false)));
      var m4 := Step(m3, Accept(3, Bev(3)));
      && m1.haveController && m1.controller.bev == Bev(1) && m1.leaked == multiset{}
      && m2 == m1.(leaked := multiset{2})
      && !m3.haveController && m3.freed == multiset{Bev(1)}
      && m4.haveController && m4.controller.bev == Bev(3) && m4.leaked == multiset{2}
  {
  }

  /**
   * An error without EOF on the held controller frees its handle but keeps
   * the flag, so every later accept is refused.
   */
  lemma ErrorWithoutEofKeepsFlag(es: seq<Event>)
    requires forall k :: 0 <= k < |es| ==> !Releases(ListenerCb(Initial(), 1, Bev(1)).controller, es[k])
    ensures var m := Step(Step(Initial(), Accept(1, Bev(1))), ControllerEvent(Flags(false, false, true)));
      && m.haveController
      && m.freed[Bev(1)] == 1
      && Run(m, es).haveController
      && Run(m, es).controller.bev == Bev(1)
  {
    var m := Step(Step(Initial(), Accept(1, Bev(1))), ControllerEvent(Flags(false, false, true)));
    HeldUntilReleased(m, es);
  }

  /** A failed accept leaves no controller held, leaves its socket open and asks the loop to break. */
  lemma FailedAcceptBreaksLoop(m: Monitor, fd: Fd)
    requires !m.haveController
    ensures var r := Step(m, Accept(fd, NullBev));
      !r.haveController && r.loopBreak && IsController(r.controller) && r.leaked == m.leaked + multiset{fd}
  {
  }

  /** One controller read adds one welcome line for the controller's handle and changes nothing else. */
  lemma ControllerReadStep(m: Monitor)
    requires IsController(m.controller)
    ensures Step(m, ControllerRead) == m.(welcomed := m.welcomed + multiset{(m.controller.bev, Welcome)})
  {
  }

  lemma AddOne<X>(w: X, k: nat)
    ensures multiset{w} + multiset{}[w := k] == multiset{}[w := k + 1]
  {
  }

  /** `k` reads of the controller connection in a row. */
  function ControllerReads(k: nat): (es: seq<Event>)
    ensures |es| == k && forall i :: 0 <= i < k ==> es[i] == ControllerRead
  {
    if k == 0 then [] else [ControllerRead] + ControllerReads(k - 1)
  }

  /** Every read of the controller connection is answered with the welcome line, not only the first. */
  lemma {:induction false} WelcomeOnEveryRead(m: Monitor, k: nat)
    requires IsController(m.controller)
    ensures Run(m, ControllerReads(k)).welcomed == m.welcomed + multiset{}[(m.controller.bev, Welcome) := k]
    decreases k
  {
    if k > 0 {
      var rs := ControllerReads(k);
      assert rs[0] == ControllerRead && rs[1..] == ControllerReads(k - 1);
      ControllerReadStep(m);
      var m' := Step(m, ControllerRead);
      assert Run(m, rs) == Run(m', ControllerReads(k - 1));
      WelcomeOnEveryRead(m', k - 1);
      var w := (m.controller.bev, Welcome);
      AddOne(w, k - 1);
      calc {
        Run(m, rs).welcomed;
        m'.welcomed + multiset{}[w := k - 1];
        (m.welcomed + multiset{w}) + multiset{}[w := k - 1];
        m.welcomed + (multiset{w} + multiset{}[w := k - 1]);
        m.welcomed + multiset{}[w := k];
      }
    }
  }

  /**
   * The two monitored records that `main` sets up (monitor.c:70-71) are not
   * named like the controller, so their EOF never releases the flag.
   */
  lemma MonitoredNamesNeverRelease(con: DataCon)
    ensures !IsController(SetupCon(con, "Event Builder", "localhost", 8080))
    ensures !IsController(SetupCon(con, "Second Event Builder", "localhost", 8080))
  {
    var c0 := SetupCon(con, "Event Builder", "localhost", 8080);
    var c1 := SetupCon(con, "Second Event Builder", "localhost", 8080);
    IsControllerPrefix(c0);
    IsControllerPrefix(c1);
    assert c0.name[0] == 'E';
    assert c1.name[0] == 'S';
  }
}
