/** The two read-write locks of coord.Server. Handlers are interleaved at the granularity of lock
    operations and of single assignments to the index; specLock is always taken before
    latestLock, and both are released when the handler returns, in reverse order. */
module Locks {
  import opened Prelude
  import opened Specs
  import opened Coord

  /** How far a handler has come. Whoever is past `Waiting` and not `Finished` holds specLock. */
  datatype PC =
    | Waiting
    | HasSpec
    | WantsLatest(next: Option<Spec>)
    | HasLatest(next: Option<Spec>)
    | Reindexing(newSpec: Spec, k: nat)  // latest rewritten for k networks, spec not yet replaced
    | Responded(resp: Response, holdsLatest: bool)
    | Finished(resp: Response)

  datatype Thread = Thread(req: Request, pc: PC)

  /** A request that has taken effect, with its response. */
  datatype Commit = Commit(tid: nat, req: Request, resp: Response)

  /** Shared memory, the handlers, and the order in which requests have taken effect. */
  datatype System = System(server: ServerState, threads: map<nat, Thread>, commits: seq<Commit>)

  /** GET handlers take the locks for reading. */
  predicate Reads(r: Request) { r.GetLatest? || r.GetSpec? }

  predicate HoldsSpec(t: Thread) { !t.pc.Waiting? && !t.pc.Finished? }

  predicate HoldsLatest(t: Thread) {
    t.pc.HasLatest? || t.pc.Reindexing? || (t.pc.Responded? && t.pc.holdsLatest)
  }

  /** May `id` take specLock? A writer needs it free, a reader free of writers. */
  ghost predicate SpecLockFree(s: System, id: nat)
    requires id in s.threads
  {
    forall j | j in s.threads && HoldsSpec(s.threads[j]) :: Reads(s.threads[id].req) && Reads(s.threads[j].req)
  }

  ghost predicate LatestLockFree(s: System, id: nat)
    requires id in s.threads
  {
    forall j | j in s.threads && HoldsLatest(s.threads[j]) :: Reads(s.threads[id].req) && Reads(s.threads[j].req)
  }

  /** Go's RWMutex lets a waiting writer keep new readers out. */
  ghost predicate WriterWaiting(s: System, pc: PC) {
    exists j | j in s.threads ::
      !Reads(s.threads[j].req) && (if pc.Waiting? then s.threads[j].pc.Waiting? else s.threads[j].pc.WantsLatest?)
  }

  /** Is some step of the handler possible, even if writers are preferred? */
  ghost predicate Enabled(s: System, id: nat)
    requires id in s.threads
  {
    var t := s.threads[id];
    match t.pc
    case Waiting => SpecLockFree(s, id) && (Reads(t.req) ==> !WriterWaiting(s, t.pc))
    case WantsLatest(_) => LatestLockFree(s, id) && (Reads(t.req) ==> !WriterWaiting(s, t.pc))
    case Finished(_) => false
    case _ => true
  }

  // ----- steps -----

  function Goto(s: System, id: nat, pc: PC): System
    requires id in s.threads
  {
    s.(threads := s.threads[id := s.threads[id].(pc := pc)])
  }

  /** The request takes effect: its response is fixed. */
  function CommitAs(s: System, id: nat, resp: Response, holdsLatest: bool): System
    requires id in s.threads
  {
    Goto(s, id, Responded(resp, holdsLatest)).(commits := s.commits + [Commit(id, s.threads[id].req, resp)])
  }

  /** What a handler does under specLock alone: look the device up, and either answer or go on to
      latestLock with the spec it will install. */
  function UnderSpecLock(s: System, id: nat): System
    requires id in s.threads
  {
    var r := s.threads[id].req;
    match r
    case ReplaceSpec(newSpec) => Goto(s, id, WantsLatest(Some(newSpec)))
    case GetLatest(net, dev) =>
      if Known(s.server.spec, net, dev) then Goto(s, id, WantsLatest(None)) else CommitAs(s, id, NotFound, false)
    case GetSpec(net, dev) => CommitAs(s, id, ServeSpec(s.server, net, dev), false)
    case PatchSpec(net, dev, p) =>
      if !Known(s.server.spec, net, dev) then CommitAs(s, id, NotFound, false)
      else if !PatchAcceptable(GetNetwork(s.server.spec, net), p) then CommitAs(s, id, BadRequest, false)
      else Goto(s, id, WantsLatest(Some(PatchedSpec(s.server.spec, net, dev, p))))
    case PostStatus(net, dev, reified) =>
      match CurrentView(s.server.spec, net, dev)
      case None => CommitAs(s, id, NotFound, false)
      case Some(view) =>
        if ViewEqual(reified, view) then Goto(s, id, WantsLatest(None)) else CommitAs(s, id, IsLatest(false), false)
  }

  /** What a handler does first under both locks. */
  function UnderBothLocks(s: System, id: nat, next: Option<Spec>): System
    requires id in s.threads
  {
    match s.threads[id].req
    case GetLatest(net, dev) => CommitAs(s, id, IsLatest(dev in Entry(s.server.latest, net)), true)
    case PostStatus(net, dev, _) =>
      var latest := s.server.latest[net := Entry(s.server.latest, net) + multiset{dev}];
      CommitAs(s.(server := s.server.(latest := latest)), id, IsLatest(true), true)
    case _ =>
      if next.None? then s
      else
        var latest := Reindexed(s.server.latest, s.server.spec, next.value, 0);
        Goto(s.(server := s.server.(latest := latest)), id, Reindexing(next.value, 0))
  }

  /** One more network of updateSpecNoLock, or its last assignment. */
  function ReindexStep(s: System, id: nat, newSpec: Spec, k: nat): System
    requires id in s.threads
  {
    if k < |newSpec.networks| then
      var latest := ReindexOne(s.server.latest, s.server.spec, newSpec.networks[k]);
      Goto(s.(server := s.server.(latest := latest)), id, Reindexing(newSpec, k + 1))
    else CommitAs(s.(server := s.server.(spec := newSpec)), id, Done, true)
  }

  /** The next step of one handler. It waits for locks, but nothing more is assumed about whom the
      locks prefer. */
  ghost function Step(s: System, id: nat): System {
    if id !in s.threads then s
    else
      match s.threads[id].pc
      case Waiting => if SpecLockFree(s, id) then Goto(s, id, HasSpec) else s
      case HasSpec => UnderSpecLock(s, id)
      case WantsLatest(next) => if LatestLockFree(s, id) then Goto(s, id, HasLatest(next)) else s
      case HasLatest(next) => UnderBothLocks(s, id, next)
      case Reindexing(newSpec, k) => ReindexStep(s, id, newSpec, k)
      case Responded(resp, holdsLatest) => Goto(s, id, if holdsLatest then Responded(resp, false) else Finished(resp))
      case Finished(_) => s
  }

  /** Any schedule: which handler moves next. */
  ghost function Run(s: System, schedule: seq<nat>): System {
    if schedule == [] then s else Step(Run(s, schedule[..|schedule|-1]), schedule[|schedule|-1])
  }

  ghost predicate Initial(s: System) {
    s.commits == [] && forall j | j in s.threads :: s.threads[j].pc == Waiting
  }

  // ----- the serial order -----

  /** The state after the committed requests, served one after the other. */
  function Serial(init: ServerState, cs: seq<Commit>): ServerState {
    if cs == [] then init else Serve(Serial(init, cs[..|cs|-1]), cs[|cs|-1].req).0
  }

  /** Every committed response is the one of the serial execution. */
  ghost predicate SerialResponses(init: ServerState, cs: seq<Commit>) {
    forall i | 0 <= i < |cs| :: cs[i].resp == Serve(Serial(init, cs[..i]), cs[i].req).1
  }

  lemma SerialNext(init: ServerState, cs: seq<Commit>, c: Commit)
    requires SerialResponses(init, cs) && c.resp == Serve(Serial(init, cs), c.req).1
    ensures Serial(init, cs + [c]) == Serve(Serial(init, cs), c.req).0
    ensures SerialResponses(init, cs + [c])
  {
    assert (cs + [c])[..|cs|] == cs;
    forall i | 0 <= i < |cs| + 1
      ensures (cs + [c])[i].resp == Serve(Serial(init, (cs + [c])[..i]), (cs + [c])[i].req).1
    {
      if i < |cs| {
        assert (cs + [c])[..i] == cs[..i];
      }
    }
  }

  // ----- the invariant -----

  /** What a handler has found out under specLock still holds. */
  ghost predicate ThreadOk(st: ServerState, t: Thread) {
    match t.pc
    case WantsLatest(next) => Decided(st, t.req, next)
    case HasLatest(next) => Decided(st, t.req, next)
    case Reindexing(newSpec, k) => Decided(st, t.req, Some(newSpec)) && k <= |newSpec.networks|
    case _ => true
  }

  ghost predicate Decided(st: ServerState, r: Request, next: Option<Spec>) {
    match r
    case GetLatest(net, dev) => next.None? && Known(st.spec, net, dev)
    case GetSpec(_, _) => false
    case PatchSpec(net, dev, p) =>
      Known(st.spec, net, dev) && PatchAcceptable(GetNetwork(st.spec, net), p)
        && next == Some(PatchedSpec(st.spec, net, dev, p))
    case PostStatus(net, dev, reified) =>
      next.None? && CurrentView(st.spec, net, dev).Some? && ViewEqual(reified, CurrentView(st.spec, net, dev).value)
    case ReplaceSpec(newSpec) => next == Some(newSpec)
  }

  ghost predicate Exclusive(s: System) {
    forall i, j | i in s.threads && j in s.threads && i != j && HoldsSpec(s.threads[i]) && HoldsSpec(s.threads[j]) ::
      Reads(s.threads[i].req) && Reads(s.threads[j].req)
  }

  /** Memory agrees with the serial execution, except that a handler in the middle of an update
      has rewritten part of the index. */
  ghost predicate MemoryOk(s: System, serial: ServerState) {
    && serial.spec == s.server.spec
    && (forall i | i in s.threads && s.threads[i].pc.Reindexing? ::
          var pc := s.threads[i].pc;
          pc.k <= |pc.newSpec.networks| && s.server.latest == Reindexed(serial.latest, serial.spec, pc.newSpec, pc.k))
    && ((forall i | i in s.threads :: !s.threads[i].pc.Reindexing?) ==> s.server.latest == serial.latest)
  }

  ghost predicate Inv(init: ServerState, s: System) {
    && Exclusive(s)
    && (forall i | i in s.threads :: ThreadOk(s.server, s.threads[i]))
    && SerialResponses(init, s.commits)
    && MemoryOk(s, Serial(init, s.commits))
  }

  // ----- every step keeps the invariant -----

  /** While `id` holds specLock, an updater can only be `id` itself. */
  lemma NobodyElseUpdates(init: ServerState, s: System, id: nat, j: nat)
    requires Inv(init, s) && id in s.threads && j in s.threads && j != id
    requires HoldsSpec(s.threads[id])
    ensures !s.threads[j].pc.Reindexing?
    ensures !Reads(s.threads[id].req) ==> !HoldsSpec(s.threads[j])
  {
    assert ThreadOk(s.server, s.threads[j]);
  }

  /** A step that moves one handler and leaves memory alone. */
  lemma GotoOk(init: ServerState, s: System, id: nat, pc: PC)
    requires Inv(init, s) && id in s.threads
    requires !s.threads[id].pc.Reindexing? && !pc.Reindexing?
    requires ThreadOk(s.server, s.threads[id].(pc := pc))
    requires HoldsSpec(s.threads[id].(pc := pc)) ==> HoldsSpec(s.threads[id]) || SpecLockFree(s, id)
    ensures Inv(init, Goto(s, id, pc))
  {
    var s' := Goto(s, id, pc);
    forall i, j | i in s'.threads && j in s'.threads && i != j && HoldsSpec(s'.threads[i]) && HoldsSpec(s'.threads[j])
      ensures Reads(s'.threads[i].req) && Reads(s'.threads[j].req)
    {
      if i != id && j != id {
        assert HoldsSpec(s.threads[i]) && HoldsSpec(s.threads[j]);
      }
    }
    forall i | i in s'.threads ensures ThreadOk(s'.server, s'.threads[i]) {
      assert ThreadOk(s.server, s.threads[i]);
    }
    if forall i | i in s'.threads :: !s'.threads[i].pc.Reindexing? {
      forall i | i in s.threads ensures !s.threads[i].pc.Reindexing? {
        assert i == id || s'.threads[i] == s.threads[i];
      }
    }
  }

  /** A request that takes effect without changing memory, which nobody is updating. */
  lemma AnswerOk(init: ServerState, s: System, id: nat, resp: Response, holdsLatest: bool)
    requires Inv(init, s) && id in s.threads && HoldsSpec(s.threads[id]) && !s.threads[id].pc.Reindexing?
    requires Serve(s.server, s.threads[id].req) == (s.server, resp)
    ensures Inv(init, CommitAs(s, id, resp, holdsLatest))
  {
    forall j | j in s.threads ensures !s.threads[j].pc.Reindexing? {
      if j != id {
        NobodyElseUpdates(init, s, id, j);
      }
    }
    var c := Commit(id, s.threads[id].req, resp);
    var s1 := s.(commits := s.commits + [c]);
    SerialNext(init, s.commits, c);
    assert Serial(init, s.commits) == s.server;
    assert Inv(init, s1);
    GotoOk(init, s1, id, Responded(resp, holdsLatest));
    assert Goto(s1, id, Responded(resp, holdsLatest)) == CommitAs(s, id, resp, holdsLatest);
  }

  /** Does memory agree with the serial state, up to the progress of an update? */
  ghost predicate Agrees(server: ServerState, serial: ServerState, pc: PC) {
    && serial.spec == server.spec
    && (if pc.Reindexing?
        then pc.k <= |pc.newSpec.networks| && server.latest == Reindexed(serial.latest, serial.spec, pc.newSpec, pc.k)
        else server.latest == serial.latest)
  }

  /** A writer has memory to itself: nobody else's findings or updates are affected. */
  lemma AloneOk(init: ServerState, s: System, id: nat, server: ServerState, pc: PC, cs: seq<Commit>)
    requires Inv(init, s) && id in s.threads && HoldsSpec(s.threads[id]) && !Reads(s.threads[id].req)
    requires HoldsSpec(s.threads[id].(pc := pc))
    requires ThreadOk(server, s.threads[id].(pc := pc))
    requires s.commits <= cs && SerialResponses(init, cs)
    requires Agrees(server, Serial(init, cs), pc)
    ensures Inv(init, System(server, s.threads[id := s.threads[id].(pc := pc)], cs))
  {
    var s' := System(server, s.threads[id := s.threads[id].(pc := pc)], cs);
    forall j | j in s.threads && j != id ensures !HoldsSpec(s.threads[j]) && s'.threads[j] == s.threads[j] {
      NobodyElseUpdates(init, s, id, j);
    }
    assert s'.threads[id].pc == pc;
    forall j | j in s'.threads ensures ThreadOk(s'.server, s'.threads[j]) {
      assert j != id ==> !HoldsSpec(s'.threads[j]);
    }
    AloneMemory(s', id, Serial(init, cs));
  }

  lemma AloneMemory(s: System, id: nat, serial: ServerState)
    requires id in s.threads && Agrees(s.server, serial, s.threads[id].pc)
    requires forall j | j in s.threads && j != id :: !HoldsSpec(s.threads[j])
    ensures MemoryOk(s, serial)
  {
    forall j | j in s.threads && s.threads[j].pc.Reindexing? ensures j == id {
      assert HoldsSpec(s.threads[j]);
    }
  }

  /** A writer's request that takes effect at once. */
  lemma AnswerAloneOk(init: ServerState, s: System, id: nat, resp: Response)
    requires Inv(init, s) && id in s.threads && HoldsSpec(s.threads[id]) && !Reads(s.threads[id].req)
    requires Serial(init, s.commits) == s.server && resp == Serve(s.server, s.threads[id].req).1
    ensures var r := s.threads[id].req;
      Inv(init, System(Serve(s.server, r).0, s.threads[id := s.threads[id].(pc := Responded(resp, true))],
                       s.commits + [Commit(id, r, resp)]))
  {
    var r := s.threads[id].req;
    var c := Commit(id, r, resp);
    SerialNext(init, s.commits, c);
    AloneOk(init, s, id, Serve(s.server, r).0, Responded(resp, true), s.commits + [c]);
  }

  lemma UnderSpecLockOk(init: ServerState, s: System, id: nat)
    requires Inv(init, s) && id in s.threads && s.threads[id].pc.HasSpec?
    ensures Inv(init, UnderSpecLock(s, id))
  {
    var r := s.threads[id].req;
    match r {
      case ReplaceSpec(newSpec) =>
        GotoOk(init, s, id, WantsLatest(Some(newSpec)));
      case GetLatest(net, dev) =>
        if Known(s.server.spec, net, dev) {
          GotoOk(init, s, id, WantsLatest(None));
        } else {
          AnswerOk(init, s, id, NotFound, false);
        }
      case GetSpec(net, dev) =>
        AnswerOk(init, s, id, ServeSpec(s.server, net, dev), false);
      case PatchSpec(net, dev, p) =>
        if !Known(s.server.spec, net, dev) {
          AnswerOk(init, s, id, NotFound, false);
        } else if !PatchAcceptable(GetNetwork(s.server.spec, net), p) {
          AnswerOk(init, s, id, BadRequest, false);
        } else {
          GotoOk(init, s, id, WantsLatest(Some(PatchedSpec(s.server.spec, net, dev, p))));
        }
      case PostStatus(net, dev, reified) =>
        match CurrentView(s.server.spec, net, dev) {
          case None =>
            AnswerOk(init, s, id, NotFound, false);
          case Some(view) =>
            if ViewEqual(reified, view) {
              GotoOk(init, s, id, WantsLatest(None));
            } else {
              AnswerOk(init, s, id, IsLatest(false), false);
            }
        }
    }
  }

  lemma UnderBothLocksOk(init: ServerState, s: System, id: nat, next: Option<Spec>)
    requires Inv(init, s) && id in s.threads && s.threads[id].pc == HasLatest(next)
    ensures Inv(init, UnderBothLocks(s, id, next))
  {
    var r := s.threads[id].req;
    assert ThreadOk(s.server, s.threads[id]);
    forall j | j in s.threads ensures !s.threads[j].pc.Reindexing? {
      if j != id {
        NobodyElseUpdates(init, s, id, j);
      }
    }
    assert Serial(init, s.commits) == s.server;
    match r {
      case GetSpec(_, _) =>
      case GetLatest(net, dev) =>
        AnswerOk(init, s, id, IsLatest(dev in Entry(s.server.latest, net)), true);
      case PostStatus(net, dev, reified) =>
        assert Serve(s.server, r).1 == IsLatest(true);
        AnswerAloneOk(init, s, id, IsLatest(true));
      case _ =>
        var newSpec := next.value;
        UpdaterWrites(s.server, r, newSpec);
        var server := s.server.(latest := Reindexed(s.server.latest, s.server.spec, newSpec, 0));
        AloneOk(init, s, id, server, Reindexing(newSpec, 0), s.commits);
    }
  }

  lemma ReindexStepOk(init: ServerState, s: System, id: nat, newSpec: Spec, k: nat)
    requires Inv(init, s) && id in s.threads && s.threads[id].pc == Reindexing(newSpec, k)
    ensures Inv(init, ReindexStep(s, id, newSpec, k))
  {
    assert ThreadOk(s.server, s.threads[id]);
    assert Agrees(s.server, Serial(init, s.commits), Reindexing(newSpec, k));
    UpdaterWrites(s.server, s.threads[id].req, newSpec);
    if k < |newSpec.networks| {
      ReindexOneOk(init, s, id, newSpec, k);
    } else {
      ReindexEndOk(init, s, id, newSpec);
    }
  }

  lemma ReindexOneOk(init: ServerState, s: System, id: nat, newSpec: Spec, k: nat)
    requires Inv(init, s) && id in s.threads && s.threads[id].pc == Reindexing(newSpec, k)
    requires k < |newSpec.networks| && Agrees(s.server, Serial(init, s.commits), Reindexing(newSpec, k))
    requires !Reads(s.threads[id].req) && ThreadOk(s.server, s.threads[id])
    ensures Inv(init, ReindexStep(s, id, newSpec, k))
  {
    var server := s.server.(latest := ReindexOne(s.server.latest, s.server.spec, newSpec.networks[k]));
    UpdaterWrites(s.server, s.threads[id].req, newSpec);
    ReindexAgrees(s.server, Serial(init, s.commits), newSpec, k);
    AloneOk(init, s, id, server, Reindexing(newSpec, k + 1), s.commits);
  }

  lemma ReindexEndOk(init: ServerState, s: System, id: nat, newSpec: Spec)
    requires Inv(init, s) && id in s.threads && s.threads[id].pc == Reindexing(newSpec, |newSpec.networks|)
    requires Agrees(s.server, Serial(init, s.commits), s.threads[id].pc)
    requires !Reads(s.threads[id].req) && ThreadOk(s.server, s.threads[id])
    ensures Inv(init, ReindexStep(s, id, newSpec, |newSpec.networks|))
  {
    var r := s.threads[id].req;
    var c := Commit(id, r, Done);
    UpdateServed(s.server, Serial(init, s.commits), r, newSpec);
    SerialNext(init, s.commits, c);
    AloneOk(init, s, id, s.server.(spec := newSpec), Responded(Done, true), s.commits + [c]);
  }

  /** Only writers update, and what they have found out does not depend on the index. */
  lemma UpdaterWrites(server: ServerState, r: Request, newSpec: Spec)
    requires Decided(server, r, Some(newSpec))
    ensures !Reads(r)
    ensures forall latest :: Decided(server.(latest := latest), r, Some(newSpec))
  {
  }

  lemma ReindexAgrees(server: ServerState, serial: ServerState, newSpec: Spec, k: nat)
    requires k < |newSpec.networks| && Agrees(server, serial, Reindexing(newSpec, k))
    ensures Agrees(server.(latest := ReindexOne(server.latest, server.spec, newSpec.networks[k])), serial,
                   Reindexing(newSpec, k + 1))
  {
  }

  /** An update carried out network by network is the update of the serial execution. */
  lemma UpdateServed(server: ServerState, serial: ServerState, r: Request, newSpec: Spec)
    requires serial.spec == server.spec && Decided(server, r, Some(newSpec))
    requires server.latest == Reindexed(serial.latest, serial.spec, newSpec, |newSpec.networks|)
    ensures Serve(serial, r) == (server.(spec := newSpec), Done)
  {
  }

  lemma StepOk(init: ServerState, s: System, id: nat)
    requires Inv(init, s)
    ensures Inv(init, Step(s, id))
  {
    if id in s.threads {
      assert ThreadOk(s.server, s.threads[id]);
      match s.threads[id].pc {
        case Waiting => if SpecLockFree(s, id) { GotoOk(init, s, id, HasSpec); }
        case HasSpec => UnderSpecLockOk(init, s, id);
        case WantsLatest(next) => if LatestLockFree(s, id) { GotoOk(init, s, id, HasLatest(next)); }
        case HasLatest(next) => UnderBothLocksOk(init, s, id, next);
        case Reindexing(newSpec, k) => ReindexStepOk(init, s, id, newSpec, k);
        case Responded(resp, holdsLatest) =>
          GotoOk(init, s, id, if holdsLatest then Responded(resp, false) else Finished(resp));
        case Finished(_) =>
      }
    }
  }

  lemma {:induction false} RunOk(s: System, schedule: seq<nat>)
    requires Initial(s)
    ensures Inv(s.server, Run(s, schedule))
  {
    if schedule != [] {
      RunOk(s, schedule[..|schedule|-1]);
      StepOk(s.server, Run(s, schedule[..|schedule|-1]), schedule[|schedule|-1]);
    }
  }

  // ----- the committed requests are the handlers' own -----

  predicate HasAnswer(t: Thread) { t.pc.Responded? || t.pc.Finished? }

  /** Is the commit that of its handler, with the handler's request and response? */
  ghost predicate CommitOf(s: System, c: Commit) {
    c.tid in s.threads && s.threads[c.tid].req == c.req
    && HasAnswer(s.threads[c.tid]) && s.threads[c.tid].pc.resp == c.resp
  }

  /** The commits are those of the handlers that have an answer, one each. */
  ghost predicate Traced(s: System) {
    && (forall i, j | 0 <= i < j < |s.commits| :: s.commits[i].tid != s.commits[j].tid)
    && (forall i | 0 <= i < |s.commits| :: CommitOf(s, s.commits[i]))
    && (forall id | id in s.threads && HasAnswer(s.threads[id]) ::
          Commit(id, s.threads[id].req, s.threads[id].pc.resp) in s.commits)
  }

  /** Handler `id` has moved, and its request has taken effect if it now has an answer it had not. */
  ghost predicate Moved(s: System, s': System, id: nat)
    requires id in s.threads
  {
    && s'.threads.Keys == s.threads.Keys
    && (forall j | j in s.threads && j != id :: s'.threads[j] == s.threads[j])
    && s'.threads[id].req == s.threads[id].req
    && if HasAnswer(s.threads[id]) then
         HasAnswer(s'.threads[id]) && s'.threads[id].pc.resp == s.threads[id].pc.resp && s'.commits == s.commits
       else if HasAnswer(s'.threads[id]) then
         s'.commits == s.commits + [Commit(id, s.threads[id].req, s'.threads[id].pc.resp)]
       else s'.commits == s.commits
  }

  lemma MovedTraced(s: System, s': System, id: nat)
    requires Traced(s) && id in s.threads && Moved(s, s', id)
    ensures Traced(s')
  {
    MovedDistinct(s, s', id);
    forall i | 0 <= i < |s'.commits| ensures CommitOf(s', s'.commits[i]) {
      if i < |s.commits| {
        assert s'.commits[i] == s.commits[i] && CommitOf(s, s.commits[i]);
      }
    }
    forall j | j in s'.threads && HasAnswer(s'.threads[j])
      ensures Commit(j, s'.threads[j].req, s'.threads[j].pc.resp) in s'.commits
    {
      MovedAnswer(s, s', id, j);
    }
  }

  lemma MovedDistinct(s: System, s': System, id: nat)
    requires Traced(s) && id in s.threads && Moved(s, s', id)
    ensures forall i, j | 0 <= i < j < |s'.commits| :: s'.commits[i].tid != s'.commits[j].tid
  {
    forall i | 0 <= i < |s.commits| ensures s'.commits[i] == s.commits[i] && HasAnswer(s.threads[s.commits[i].tid]) {
      assert CommitOf(s, s.commits[i]);
    }
  }

  lemma MovedAnswer(s: System, s': System, id: nat, j: nat)
    requires Traced(s) && id in s.threads && Moved(s, s', id) && j in s'.threads && HasAnswer(s'.threads[j])
    ensures Commit(j, s'.threads[j].req, s'.threads[j].pc.resp) in s'.commits
  {
    if HasAnswer(s.threads[j]) {
      assert Commit(j, s.threads[j].req, s.threads[j].pc.resp) in s.commits;
    } else {
      assert j == id && s'.commits[|s.commits|].tid == j;
    }
  }

  lemma GotoMoves(s: System, id: nat, pc: PC)
    requires id in s.threads && !HasAnswer(s.threads[id]) && !pc.Responded? && !pc.Finished?
    ensures Moved(s, Goto(s, id, pc), id)
  {
  }

  lemma CommitMoves(s: System, id: nat, resp: Response, holdsLatest: bool)
    requires id in s.threads && !HasAnswer(s.threads[id])
    ensures Moved(s, CommitAs(s, id, resp, holdsLatest), id)
  {
  }

  lemma UnderSpecLockShape(s: System, id: nat)
    requires id in s.threads && s.threads[id].pc.HasSpec?
    ensures var s' := UnderSpecLock(s, id);
      var pc := s'.threads[id].pc;
      if pc.Responded? then s' == CommitAs(s, id, pc.resp, false) else pc.WantsLatest? && s' == Goto(s, id, pc)
  {
  }

  lemma UnderSpecLockMoves(s: System, id: nat)
    requires id in s.threads && s.threads[id].pc.HasSpec?
    ensures Moved(s, UnderSpecLock(s, id), id)
  {
    var s' := UnderSpecLock(s, id);
    var pc := s'.threads[id].pc;
    UnderSpecLockShape(s, id);
    if pc.Responded? {
      CommitMoves(s, id, pc.resp, false);
    } else {
      GotoMoves(s, id, pc);
    }
  }

  lemma UnderBothLocksMoves(s: System, id: nat, next: Option<Spec>)
    requires id in s.threads && s.threads[id].pc == HasLatest(next)
    ensures Moved(s, UnderBothLocks(s, id, next), id)
  {
  }

  lemma ReindexMoves(s: System, id: nat, newSpec: Spec, k: nat)
    requires id in s.threads && s.threads[id].pc == Reindexing(newSpec, k)
    ensures Moved(s, ReindexStep(s, id, newSpec, k), id)
  {
  }

  /** Every step commits at most the request of the handler that takes it, and none twice. */
  lemma StepMoves(s: System, id: nat)
    requires id in s.threads
    ensures Moved(s, Step(s, id), id)
  {
    match s.threads[id].pc {
      case HasSpec => UnderSpecLockMoves(s, id);
      case HasLatest(next) => UnderBothLocksMoves(s, id, next);
      case Reindexing(newSpec, k) => ReindexMoves(s, id, newSpec, k);
      case _ =>
    }
  }

  lemma StepTraced(s: System, id: nat)
    requires Traced(s)
    ensures Traced(Step(s, id)) && s.commits <= Step(s, id).commits
    ensures Step(s, id).threads.Keys == s.threads.Keys
    ensures forall j | j in s.threads :: Step(s, id).threads[j].req == s.threads[j].req
  {
    if id in s.threads {
      StepMoves(s, id);
      MovedTraced(s, Step(s, id), id);
    }
  }

  lemma {:induction false} RunTraced(s: System, schedule: seq<nat>)
    requires Initial(s)
    ensures Traced(Run(s, schedule))
    ensures Run(s, schedule).threads.Keys == s.threads.Keys
    ensures forall j | j in s.threads :: Run(s, schedule).threads[j].req == s.threads[j].req
  {
    if schedule != [] {
      RunTraced(s, schedule[..|schedule|-1]);
      StepTraced(Run(s, schedule[..|schedule|-1]), schedule[|schedule|-1]);
    }
  }

  lemma {:induction false} CommitsGrow(s: System, schedule: seq<nat>, k: nat)
    requires Initial(s) && k <= |schedule|
    ensures Run(s, schedule[..k]).commits <= Run(s, schedule).commits
  {
    if k == |schedule| {
      assert schedule[..k] == schedule;
    } else {
      var front := schedule[..|schedule|-1];
      CommitsGrow(s, front, k);
      assert front[..k] == schedule[..k];
      RunTraced(s, front);
      StepTraced(Run(s, front), schedule[|schedule|-1]);
    }
  }

  /** The serial order respects time: a request that was answered before another took effect comes
      before it. */
  lemma AnsweredComesFirst(s: System, schedule: seq<nat>, k: nat, i: nat, j: nat)
    requires Initial(s) && k <= |schedule|
    requires var t := Run(s, schedule[..k]);
      i in t.threads && HasAnswer(t.threads[i]) && j in t.threads && !HasAnswer(t.threads[j])
    ensures var t := Run(s, schedule);
      forall a, b | 0 <= a < |t.commits| && 0 <= b < |t.commits| && t.commits[a].tid == i && t.commits[b].tid == j ::
        a < b
  {
    var t, t' := Run(s, schedule[..k]), Run(s, schedule);
    RunTraced(s, schedule[..k]);
    RunTraced(s, schedule);
    CommitsGrow(s, schedule, k);
    forall m | 0 <= m < |t.commits| ensures t'.commits[m].tid != j {
      assert CommitOf(t, t.commits[m]);
    }
    forall a, b | 0 <= a < |t'.commits| && 0 <= b < |t'.commits| && t'.commits[a].tid == i && t'.commits[b].tid == j
      ensures a < b
    {
      var l :| 0 <= l < |t.commits| && t.commits[l] == Commit(i, t.threads[i].req, t.threads[i].pc.resp);
      assert t'.commits[l] == t.commits[l] && l == a;
    }
  }

  /** Serializability. Under every schedule the requests that have taken effect are those of the
      handlers that have an answer, each once and with its own response, and in the order in which
      they took effect these are exactly the responses of serving them one after the other;
      whenever no update is under way, spec and index are those of that serial execution. */
  lemma Serializable(s: System, schedule: seq<nat>)
    requires Initial(s)
    ensures var t := Run(s, schedule);
      && SerialResponses(s.server, t.commits)
      && Traced(t)
      && t.threads.Keys == s.threads.Keys
      && (forall i | i in s.threads :: t.threads[i].req == s.threads[i].req)
      && ((forall i | i in t.threads :: !t.threads[i].pc.Reindexing?) ==> t.server == Serial(s.server, t.commits))
  {
    RunOk(s, schedule);
    RunTraced(s, schedule);
  }

  // ----- deadlock freedom -----

  /** As long as a request is pending, some handler can move, even if waiting writers keep readers
      out: the order specLock before latestLock leaves no cycle. */
  lemma SomebodyCanMove(init: ServerState, s: System, pending: nat) returns (id: nat)
    requires Inv(init, s) && pending in s.threads && !s.threads[pending].pc.Finished?
    ensures id in s.threads && Enabled(s, id)
  {
    if j :| j in s.threads && HoldsLatest(s.threads[j]) {
      id := j;
    } else if j :| j in s.threads && HoldsSpec(s.threads[j]) {
      id := j;
    } else if j :| j in s.threads && s.threads[j].pc.Waiting? && !Reads(s.threads[j].req) {
      id := j;
    } else {
      id := pending;
    }
  }

  /** Under every schedule, a pending request means that somebody can move. */
  lemma NoDeadlock(s: System, schedule: seq<nat>, pending: nat) returns (id: nat)
    requires Initial(s)
    requires pending in Run(s, schedule).threads && !Run(s, schedule).threads[pending].pc.Finished?
    ensures id in Run(s, schedule).threads && Enabled(Run(s, schedule), id)
    ensures Step(Run(s, schedule), id) != Run(s, schedule)
  {
    RunOk(s, schedule);
    var t := Run(s, schedule);
    id := SomebodyCanMove(s.server, t, pending);
    EnabledMoves(s.server, t, id);
  }

  lemma EnabledMoves(init: ServerState, s: System, id: nat)
    requires Inv(init, s) && id in s.threads && Enabled(s, id)
    ensures Step(s, id) != s
  {
    assert ThreadOk(s.server, s.threads[id]);
    assert Step(s, id).threads[id].pc != s.threads[id].pc;
  }
}
