/**
 The client side of the secure partition manager: tfm_ns_interface.c serialises every call
 into the secure world with one mutex, tfm_psa_ns_api.c routes connect, call and close
 through it, and tfm_firmware_update_ipc_api.c runs the three in turn. Any number of
 threads may be at any point of this at once.
 */
module NsDispatch {
  import opened Bytes

  const PSA_ERROR_PROGRAMMER_ERROR: int := -129
  const PSA_ERROR_GENERIC_ERROR: int := -132
  const PSA_ERROR_INVALID_ARGUMENT: int := -135
  const TFM_ERROR_INVALID_PARAMETER: int := 3

  // ---------------------------------------------------------------- psa_call's arguments

  /** The guard of psa_call. */
  predicate CallArgsOk(type_: int, inLen: nat, outLen: nat) {
    -0x8000 <= type_ <= 0x7FFF && inLen <= 0xFF && outLen <= 0xFF
  }

  /** PARAM_PACK: three fields masked into one 32-bit word. */
  function Pack(type_: int, inLen: nat, outLen: nat): nat {
    type_ % 0x1_0000 * 0x1_0000 + inLen % 0x100 * 0x100 + outLen % 0x100
  }

  /** What the secure side unpacks, the type sign-extended. */
  function UnpackType(ctrl: nat): int {
    var t := ctrl / 0x1_0000 % 0x1_0000;
    if t < 0x8000 then t else t - 0x1_0000
  }

  function UnpackInLen(ctrl: nat): nat {
    ctrl / 0x100 % 0x100
  }

  function UnpackOutLen(ctrl: nat): nat {
    ctrl % 0x100
  }

  /** The guard admits exactly the arguments that survive packing. */
  lemma PackIsExact(type_: int, inLen: nat, outLen: nat)
    ensures CallArgsOk(type_, inLen, outLen)
            <==> var c := Pack(type_, inLen, outLen);
                 UnpackType(c) == type_ && UnpackInLen(c) == inLen && UnpackOutLen(c) == outLen
    ensures CallArgsOk(type_, inLen, outLen)
            ==> Pack(type_, inLen, outLen) == (if type_ < 0 then type_ + 0x1_0000 else type_) * 0x1_0000 + inLen * 0x100 + outLen
  {
    var t, i, o := type_ % 0x1_0000, inLen % 0x100, outLen % 0x100;
    var c := Pack(type_, inLen, outLen);
    assert c / 0x100 == t * 0x100 + i;
    assert c / 0x1_0000 == t;
  }

  // ---------------------------------------------------------------- threads and the secure side

  datatype Veneer = Connect(sid: nat, version: nat) | Call(handle: int, ctrl: nat) | Close(handle: int)

  /** One psa_fwu_* call: its service, psa_call's arguments, and whether a pointer argument was null. */
  datatype Request = Request(sid: nat, version: nat, type_: int, inLen: nat, outLen: nat, nullArg: bool)

  /** A secure call that has been executed, in the order of execution. */
  datatype Entry = Entry(thread: nat, veneer: Veneer, result: int)

  /** Where a thread stands in tfm_ns_interface_dispatch, and the result in its local variable. */
  datatype Stage =
    | Outside
    | Acquiring(veneer: Veneer)
    | Holding(veneer: Veneer)
    | Ran(veneer: Veneer, result: int)
    | Back(veneer: Veneer, result: int)

  /**
   The locals of a psa_fwu_* call: psa_call's status, and the log entry it came from if it
   was made; `since` is the length the log had when the call started.
   */
  datatype Thread = Thread(stage: Stage, request: Request, status: int, made: Option<nat>, since: nat)

  /** A psa_fwu_* call that started when the log was `since` long and returned when it was `until` long. */
  datatype Finish = Finish(thread: nat, request: Request, status: int, made: Option<nat>, since: nat, until: nat)

  datatype State = State(
    created: bool,                 // whether ns_interface_lock_init made the mutex
    owner: Option<nat>, threads: seq<Thread>, open: set<int>,
    log: seq<Entry>, finishes: seq<Finish>)

  datatype Action =
    | Start(request: Request) | Acquire | Execute(result: int) | Release | Continue

  predicate Initial(s: State) {
    && s.created && s.owner == None && s.open == {} && s.log == [] && s.finishes == []
    && forall t | 0 <= t < |s.threads| :: s.threads[t].stage == Outside
  }

  predicate InVeneer(g: Stage) {
    g.Holding? || g.Ran?
  }

  /** What the secure side may answer: a fresh positive handle or an error to connect, anything to call. */
  predicate Answer(v: Veneer, open: set<int>, result: int) {
    v.Connect? && result > 0 ==> result !in open
  }

  predicate Possible(s: State, t: nat, a: Action) {
    && t < |s.threads|
    && var g := s.threads[t].stage;
       match a
       case Start(_) => g == Outside
       case Acquire => g.Acquiring? && (s.created ==> s.owner == None)
       case Execute(r) => g.Holding? && Answer(g.veneer, s.open, r)
       case Release => g.Ran?
       case Continue => g.Back?
  }

  function Translate(status: int): int {
    if status == TFM_ERROR_INVALID_PARAMETER then PSA_ERROR_INVALID_ARGUMENT else status
  }

  function Put(s: State, t: nat, th: Thread): State
    requires t < |s.threads|
  {
    s.(threads := s.threads[t := th])
  }

  /** The thread returns from its call with a status. */
  function Finished(s: State, t: nat, th: Thread, status: int): State
    requires t < |s.threads|
  {
    Put(s, t, th.(stage := Outside)).(
      finishes := s.finishes + [Finish(t, th.request, status, th.made, th.since, |s.log|)])
  }

  /** psa_fwu_*: connect, call, close, with the handle and status of this call alone. */
  function AfterReturn(s: State, t: nat): State
    requires t < |s.threads| && s.threads[t].stage.Back?
  {
    var th := s.threads[t];
    var r, q := th.stage.result, th.request;
    match th.stage.veneer
    case Connect(_, _) =>
      if r <= 0 then Finished(s, t, th, PSA_ERROR_GENERIC_ERROR)
      else if CallArgsOk(q.type_, q.inLen, q.outLen) then
        Put(s, t, th.(stage := Acquiring(Call(r, Pack(q.type_, q.inLen, q.outLen)))))
      else Put(s, t, th.(stage := Acquiring(Close(r)), status := PSA_ERROR_PROGRAMMER_ERROR))
    case Call(h, _) => Put(s, t, th.(stage := Acquiring(Close(h)), status := r))
    case Close(_) => Finished(s, t, th, Translate(th.status))
  }

  function Apply(s: State, t: nat, a: Action): State
    requires Possible(s, t, a)
  {
    var th := s.threads[t];
    match a
    case Start(q) =>
      var begun := Thread(Acquiring(Connect(q.sid, q.version)), q, 0, None, |s.log|);
      if q.nullArg then Finished(s, t, begun, PSA_ERROR_INVALID_ARGUMENT) else Put(s, t, begun)
    case Acquire =>
      Put(s, t, th.(stage := Holding(th.stage.veneer))).(owner := if s.created then Some(t) else s.owner)
    case Execute(r) =>
      var v := th.stage.veneer;
      Put(s, t, th.(stage := Ran(v, r), made := if v.Call? then Some(|s.log|) else th.made)).(
        open := (if v.Connect? && r > 0 then s.open + {r} else if v.Close? then s.open - {v.handle} else s.open),
        log := s.log + [Entry(t, v, r)])
    case Release => Put(s, t, th.(stage := Back(th.stage.veneer, th.stage.result))).(owner := if s.created then None else s.owner)
    case Continue => AfterReturn(s, t)
  }

  // ---------------------------------------------------------------- the invariant

  /** The handle a thread has connected and not yet closed. */
  function Held(th: Thread): Option<int> {
    match th.stage
    case Outside => None
    case Acquiring(v) => if v.Connect? then None else Some(v.handle)
    case Holding(v) => if v.Connect? then None else Some(v.handle)
    case Ran(v, r) => if v.Connect? then (if r > 0 then Some(r) else None) else if v.Call? then Some(v.handle) else None
    case Back(v, r) => if v.Connect? then (if r > 0 then Some(r) else None) else if v.Call? then Some(v.handle) else None
  }

  /** The mutex has an owner exactly while that one thread is between acquire and release. */
  predicate Exclusive(s: State) {
    forall t | 0 <= t < |s.threads| :: InVeneer(s.threads[t].stage) <==> s.owner == Some(t)
  }

  /** The open connections are those held by threads, each by one. */
  ghost predicate HandlesOwned(s: State) {
    && (forall h :: h in s.open <==> exists t: nat :: Holds(s, t, h))
    && (forall t: nat, u: nat, h :: Holds(s, t, h) && Holds(s, u, h) ==> t == u)
  }

  predicate Holds(s: State, t: nat, h: int) {
    t < |s.threads| && Held(s.threads[t]) == Some(h)
  }

  /** The handle a thread has open, as told by the log alone. */
  function HeldByLog(log: seq<Entry>, t: nat): Option<int> {
    if log == [] then None
    else
      var e, before := log[|log| - 1], HeldByLog(log[..|log| - 1], t);
      if e.thread != t then before
      else match e.veneer
        case Connect(_, _) => if e.result > 0 then Some(e.result) else before
        case Call(_, _) => before
        case Close(_) => None
  }

  /** Every executed call names the very connection its own thread had open then. */
  predicate LogOk(log: seq<Entry>) {
    forall i | 0 <= i < |log| ::
      var held := HeldByLog(log[..i], log[i].thread);
      match log[i].veneer
      case Connect(_, _) => held == None
      case Call(h, _) => held == Some(h)
      case Close(h) => held == Some(h)
  }

  // ---------------------------------------------------------------- what one call did

  /** A secure call one thread executed, and where it lies in the log. */
  datatype Done = Done(at: nat, veneer: Veneer, result: int)

  /** All that thread t executed from `since` on, in order. */
  function Own(log: seq<Entry>, t: nat, since: nat): seq<Done> {
    if |log| <= since then []
    else
      var n := |log| - 1;
      var before := Own(log[..n], t, since);
      if log[n].thread == t then before + [Done(n, log[n].veneer, log[n].result)] else before
  }

  /** Entry i as thread t's own, if it is. */
  predicate IsOwn(log: seq<Entry>, t: nat, since: nat, d: Done) {
    since <= d.at < |log| && log[d.at] == Entry(t, d.veneer, d.result)
  }

  /** Nothing is left out of Own, nothing is added, and the order is the log's. */
  lemma {:induction false} OwnIsAll(log: seq<Entry>, t: nat, since: nat)
    ensures forall d: Done :: d in Own(log, t, since) <==> IsOwn(log, t, since, d)
    ensures forall j, k | 0 <= j < k < |Own(log, t, since)| :: Own(log, t, since)[j].at < Own(log, t, since)[k].at
  {
    if |log| > since {
      var n := |log| - 1;
      var before, own := Own(log[..n], t, since), Own(log, t, since);
      OwnIsAll(log[..n], t, since);
      forall k | 0 <= k < |before| ensures before[k].at < n {
        assert before[k] in before;
      }
      forall d: Done ensures d in own <==> IsOwn(log, t, since, d) {
        var last := Done(n, log[n].veneer, log[n].result);
        assert IsOwn(log, t, since, d) <==> IsOwn(log[..n], t, since, d) || (log[n].thread == t && d == last);
      }
    }
  }

  lemma OwnGrows(log: seq<Entry>, e: Entry, t: nat, since: nat)
    requires since <= |log|
    ensures Own(log + [e], t, since)
            == if e.thread == t then Own(log, t, since) + [Done(|log|, e.veneer, e.result)] else Own(log, t, since)
  {
    assert (log + [e])[..|log|] == log;
  }

  /** The call began by connecting to its own service. */
  predicate Connected(own: seq<Done>, q: Request) {
    own != [] && own[0].veneer == Connect(q.sid, q.version)
  }

  /** Its psa_call was made: on the handle it was given, with its own arguments, and remembered. */
  predicate Called(own: seq<Done>, q: Request, made: Option<nat>) {
    && |own| >= 2 && own[1].veneer == Call(own[0].result, Pack(q.type_, q.inLen, q.outLen)) && made == Some(own[1].at)
  }

  /** Whether psa_call's guard lets the request through once it has a handle. */
  predicate Passes(q: Request) {
    CallArgsOk(q.type_, q.inLen, q.outLen)
  }

  /** Where the call stands agrees with what it has executed so far. */
  predicate InCall(own: seq<Done>, th: Thread) {
    var q := th.request;
    match th.stage
    case Outside => true
    case Acquiring(v) => UpTo(own, th, v)
    case Holding(v) => UpTo(own, th, v)
    case Ran(v, r) => JustDid(own, th, v, r)
    case Back(v, r) => JustDid(own, th, v, r)
  }

  /** Everything before v has been executed. */
  predicate UpTo(own: seq<Done>, th: Thread, v: Veneer) {
    var q := th.request;
    && !q.nullArg
    && match v
       case Connect(_, _) => v == Connect(q.sid, q.version) && own == [] && th.made == None
       case Call(h, c) =>
         && Connected(own, q) && own[0].result == h > 0 && |own| == 1 && th.made == None
         && Passes(q) && c == Pack(q.type_, q.inLen, q.outLen)
       case Close(h) => Settled(own, th, h, 0)
  }

  /** v is the last thing executed, with result r. */
  predicate JustDid(own: seq<Done>, th: Thread, v: Veneer, r: int) {
    var q := th.request;
    && !q.nullArg
    && match v
       case Connect(_, _) => Connected(own, q) && own[0].result == r && |own| == 1 && th.made == None
       case Call(h, c) =>
         && Connected(own, q) && own[0].result == h > 0 && |own| == 2 && Called(own, q, th.made)
         && Passes(q) && own[1].result == r
       case Close(h) => Settled(own, th, h, 1) && own[|own| - 1].veneer == v
  }

  /** psa_call is behind the thread, or its guard was, and n more calls. */
  predicate Settled(own: seq<Done>, th: Thread, h: int, n: nat) {
    && Connected(own, th.request) && own[0].result == h > 0
    && if Passes(th.request) then |own| == 2 + n && Called(own, th.request, th.made) && th.status == own[1].result
       else |own| == 1 + n && th.made == None && th.status == PSA_ERROR_PROGRAMMER_ERROR
  }

  predicate ThreadOk(log: seq<Entry>, t: nat, th: Thread) {
    && HeldByLog(log, t) == Held(th)
    && (th.stage != Outside ==> th.since <= |log| && InCall(Own(log, t, th.since), th))
  }

  /**
   A finished call executed exactly what it should have between its start and its return,
   and reports the result of the psa_call among that, translated, or why it made none.
   */
  predicate FinishOk(log: seq<Entry>, f: Finish) {
    && f.since <= f.until <= |log|
    && Reports(Own(log[..f.until], f.thread, f.since), f.request, f.status, f.made)
  }

  predicate Reports(own: seq<Done>, q: Request, status: int, made: Option<nat>) {
    if q.nullArg then own == [] && made == None && status == -135
    else
      && Connected(own, q)
      && var h := own[0].result;
         if h <= 0 then |own| == 1 && made == None && status == -132
         else if Passes(q) then
           && |own| == 3 && Called(own, q, made) && own[2].veneer == Close(h)
           && status == if own[1].result == 3 then -135 else own[1].result
         else
           |own| == 2 && own[1].veneer == Close(h) && made == None && status == -129
  }

  /** The calls of one thread follow one another. */
  predicate InTurn(s: State) {
    && (forall j, k | 0 <= j < k < |s.finishes| && s.finishes[j].thread == s.finishes[k].thread ::
          s.finishes[j].until <= s.finishes[k].since)
    && (forall k | 0 <= k < |s.finishes| ::
          var f := s.finishes[k];
          f.thread < |s.threads| && f.until <= |s.log|
          && (s.threads[f.thread].stage != Outside ==> f.until <= s.threads[f.thread].since))
  }

  /** Entry i was executed for the finished call f. */
  predicate Covers(f: Finish, log: seq<Entry>, i: nat)
    requires i < |log|
  {
    f.thread == log[i].thread && f.since <= i < f.until
  }

  /** Entry i was executed for a finished call, or for the one its thread is in. */
  ghost predicate Accounted(s: State, i: nat)
    requires i < |s.log|
  {
    var t := s.log[i].thread;
    || (exists k :: 0 <= k < |s.finishes| && Covers(s.finishes[k], s.log, i))
    || (t < |s.threads| && s.threads[t].stage != Outside && s.threads[t].since <= i)
  }

  ghost predicate Inv(s: State) {
    && s.created && Exclusive(s) && HandlesOwned(s) && LogOk(s.log)
    && (forall t | 0 <= t < |s.threads| :: ThreadOk(s.log, t, s.threads[t]))
    && (forall i | 0 <= i < |s.finishes| :: FinishOk(s.log, s.finishes[i]))
    && InTurn(s) && (forall i | 0 <= i < |s.log| :: Accounted(s, i))
  }

  lemma InitialInv(s: State)
    requires Initial(s)
    ensures Inv(s)
  {
  }

  /** A longer log still says the same about what was in it. */
  lemma LogGrows(log: seq<Entry>, e: Entry, t: nat)
    ensures t != e.thread ==> HeldByLog(log + [e], t) == HeldByLog(log, t)
    ensures forall th: Thread :: t != e.thread && ThreadOk(log, t, th) ==> ThreadOk(log + [e], t, th)
    ensures forall f: Finish :: FinishOk(log, f) ==> FinishOk(log + [e], f)
  {
    hide Reports, InCall;
    assert (log + [e])[..|log|] == log;
    forall th: Thread | t != e.thread && ThreadOk(log, t, th) ensures ThreadOk(log + [e], t, th) {
      if th.stage != Outside { OwnGrows(log, e, t, th.since); }
    }
    forall f: Finish | FinishOk(log, f) ensures FinishOk(log + [e], f) {
      assert (log + [e])[..f.until] == log[..f.until];
    }
  }

  /** A step of thread t that executes nothing and keeps what t holds. */
  lemma HandlesKept(s: State, s': State)
    requires HandlesOwned(s) && s'.open == s.open && |s'.threads| == |s.threads|
    requires forall t | 0 <= t < |s.threads| :: Held(s'.threads[t]) == Held(s.threads[t])
    ensures HandlesOwned(s')
  {
    hide Held;
    forall t: nat, h ensures Holds(s', t, h) <==> Holds(s, t, h) { }
  }

  /** Coming back from a secure call: on to the next one, or out with the report. */
  lemma ReturnStep(log: seq<Entry>, t: nat, s: State)
    requires t < |s.threads| && s.threads[t].stage.Back? && ThreadOk(s.log, t, s.threads[t]) && log == s.log
    ensures var s' := AfterReturn(s, t);
            && ThreadOk(log, t, s'.threads[t])
            && (s'.finishes != s.finishes ==> FinishOk(log, s'.finishes[|s.finishes|]))
  {
    hide HeldByLog, Own, Pack;
    var th := s.threads[t];
    assert log[..|log|] == log;
  }

  lemma QuietThreads(s: State, t: nat, a: Action)
    requires Inv(s) && Possible(s, t, a) && !a.Execute?
    ensures var s' := Apply(s, t, a);
            && s'.log == s.log && s'.open == s.open && |s'.threads| == |s.threads|
            && ThreadOk(s.log, t, s'.threads[t]) && Held(s'.threads[t]) == Held(s.threads[t])
            && forall i | 0 <= i < |s'.finishes| :: FinishOk(s.log, s'.finishes[i])
  {
    hide HeldByLog, HandlesOwned, LogOk, Exclusive, Pack, Accounted, InTurn;
    assert ThreadOk(s.log, t, s.threads[t]);
    if a.Continue? { ReturnStep(s.log, t, s); }
    assert a.Start? ==> Own(s.log[..|s.log|], t, |s.log|) == [];
  }

  /** A call of thread t that starts now, or goes on, stays behind the thread's earlier ones. */
  lemma TurnGoesOn(s: State, s': State, t: nat)
    requires InTurn(s) && t < |s.threads| == |s'.threads| && s'.log == s.log && s'.finishes == s.finishes
    requires s'.threads == s.threads[t := s'.threads[t]]
    requires s'.threads[t].since == if s.threads[t].stage == Outside then |s.log| else s.threads[t].since
    ensures InTurn(s')
  {
  }

  lemma TurnEnds(s: State, s': State, t: nat, f: Finish)
    requires InTurn(s) && t < |s.threads| == |s'.threads| && s'.log == s.log && s'.finishes == s.finishes + [f]
    requires s'.threads == s.threads[t := s'.threads[t]] && s'.threads[t].stage == Outside
    requires f.thread == t && f.until == |s.log|
    requires f.since == if s.threads[t].stage == Outside then |s.log| else s.threads[t].since
    ensures InTurn(s')
  {
  }

  lemma QuietTurns(s: State, t: nat, a: Action)
    requires InTurn(s) && Possible(s, t, a) && !a.Execute?
    ensures InTurn(Apply(s, t, a))
  {
    hide Pack, CallArgsOk, InTurn;
    var s' := Apply(s, t, a);
    if s'.finishes == s.finishes {
      TurnGoesOn(s, s', t);
    } else {
      TurnEnds(s, s', t, s'.finishes[|s.finishes|]);
    }
  }

  /** An entry stays accounted for: by the call in progress until it finishes, then by the finished one. */
  lemma QuietAccounts(s: State, t: nat, a: Action)
    requires (forall i | 0 <= i < |s.log| :: Accounted(s, i)) && Possible(s, t, a) && !a.Execute?
    ensures var s' := Apply(s, t, a);
            s'.log == s.log && forall i | 0 <= i < |s.log| :: Accounted(s', i)
  {
    hide Pack, CallArgsOk;
    var s' := Apply(s, t, a);
    forall i | 0 <= i < |s.log| ensures Accounted(s', i) {
      assert Accounted(s, i);
      if k :| 0 <= k < |s.finishes| && Covers(s.finishes[k], s.log, i) {
        assert Covers(s'.finishes[k], s'.log, i);
      } else if s.log[i].thread == t && s'.threads[t].stage == Outside {
        assert Covers(s'.finishes[|s.finishes|], s'.log, i);
      }
    }
  }

  lemma QuietStep(s: State, t: nat, a: Action)
    requires Inv(s) && Possible(s, t, a) && !a.Execute?
    ensures Inv(Apply(s, t, a))
  {
    hide LogOk, HandlesOwned, ThreadOk, FinishOk, InTurn, Accounted, Pack;
    var s' := Apply(s, t, a);
    QuietThreads(s, t, a);
    HandlesKept(s, s');
    QuietTurns(s, t, a);
    QuietAccounts(s, t, a);
  }

  /** One executed call: how the open connections change with what the thread holds. */
  lemma HandlesAfterExecute(s: State, t: nat, r: int)
    requires HandlesOwned(s) && Possible(s, t, Execute(r))
    requires s.threads[t].stage.veneer.Connect? ==> Held(s.threads[t]) == None
    ensures HandlesOwned(Apply(s, t, Execute(r)))
  {
    var s' := Apply(s, t, Execute(r));
    var before, after := Held(s.threads[t]), Held(s'.threads[t]);
    assert forall u: nat, h | u != t :: Holds(s', u, h) <==> Holds(s, u, h);
    assert forall h :: Holds(s, t, h) <==> before == Some(h);
    assert forall h :: Holds(s', t, h) <==> after == Some(h);
    forall h ensures h in s'.open <==> exists u: nat :: Holds(s', u, h) {
      if h in s'.open && after != Some(h) {
        var u: nat :| Holds(s, u, h);
        assert Holds(s', u, h);
      }
      if u: nat :| Holds(s', u, h) {
        if u != t { assert Holds(s, u, h); }
      }
    }
  }

  /** The call a thread was about to execute becomes the last it has executed. */
  lemma DidNext(own: seq<Done>, th: Thread, v: Veneer, d: Done)
    requires UpTo(own, th, v) && d.veneer == v
    ensures JustDid(own + [d], th.(stage := Ran(v, d.result), made := if v.Call? then Some(d.at) else th.made), v, d.result)
  {
    hide Pack, CallArgsOk;
  }

  lemma ExecuteThread(s: State, t: nat, r: int)
    requires Possible(s, t, Execute(r)) && ThreadOk(s.log, t, s.threads[t])
    ensures var s' := Apply(s, t, Execute(r));
            ThreadOk(s'.log, t, s'.threads[t])
  {
    hide HeldByLog, Own, UpTo, JustDid;
    var th := s.threads[t];
    var e := Entry(t, th.stage.veneer, r);
    HeldAfter(s.log, e);
    OwnGrows(s.log, e, t, th.since);
    DidNext(Own(s.log, t, th.since), th, th.stage.veneer, Done(|s.log|, th.stage.veneer, r));
  }

  lemma ExecuteTurns(s: State, t: nat, r: int)
    requires InTurn(s) && (forall i | 0 <= i < |s.log| :: Accounted(s, i))
    requires Possible(s, t, Execute(r)) && s.threads[t].since <= |s.log|
    ensures var s' := Apply(s, t, Execute(r));
            InTurn(s') && forall i | 0 <= i < |s'.log| :: Accounted(s', i)
  {
    var s' := Apply(s, t, Execute(r));
    forall i | 0 <= i < |s'.log| ensures Accounted(s', i) {
      if i < |s.log| {
        assert Accounted(s, i);
        if k :| 0 <= k < |s.finishes| && Covers(s.finishes[k], s.log, i) {
          assert Covers(s'.finishes[k], s'.log, i);
        }
      }
    }
  }

  lemma ExecuteStep(s: State, t: nat, r: int)
    requires Inv(s) && Possible(s, t, Execute(r))
    ensures Inv(Apply(s, t, Execute(r)))
  {
    hide HandlesOwned, HeldByLog, LogOk, FinishOk, InTurn, Accounted, InCall;
    var s', th := Apply(s, t, Execute(r)), s.threads[t];
    var v := th.stage.veneer;
    var e := Entry(t, v, r);
    assert ThreadOk(s.log, t, th);
    HandlesAfterExecute(s, t, r);
    forall u | 0 <= u < |s.threads| ensures ThreadOk(s'.log, u, s'.threads[u]) {
      if u == t { ExecuteThread(s, t, r); } else { LogGrows(s.log, e, u); }
    }
    LogStaysOk(s.log, e);
    LogGrows(s.log, e, t);
    ExecuteTurns(s, t, r);
  }

  lemma HeldAfter(log: seq<Entry>, e: Entry)
    ensures HeldByLog(log + [e], e.thread) == match e.veneer
                                              case Connect(_, _) => if e.result > 0 then Some(e.result) else HeldByLog(log, e.thread)
                                              case Call(_, _) => HeldByLog(log, e.thread)
                                              case Close(_) => None
  {
  }

  lemma LogStaysOk(log: seq<Entry>, e: Entry)
    requires LogOk(log)
    requires match e.veneer
             case Connect(_, _) => HeldByLog(log, e.thread) == None
             case Call(h, _) => HeldByLog(log, e.thread) == Some(h)
             case Close(h) => HeldByLog(log, e.thread) == Some(h)
    ensures LogOk(log + [e])
  {
    hide HeldByLog;
    var all := log + [e];
    forall i | 0 <= i < |all|
      ensures all[..i] == if i < |log| then log[..i] else log
    {
    }
  }

  lemma StepKeepsInv(s: State, t: nat, a: Action)
    requires Inv(s) && Possible(s, t, a)
    ensures Inv(Apply(s, t, a))
  {
    hide Inv;
    if a.Execute? { ExecuteStep(s, t, a.result); } else { QuietStep(s, t, a); }
  }

  // ---------------------------------------------------------------- runs

  type Move = (nat, Action)

  /** Any interleaving: at each point any thread may make any step open to it. */
  predicate IsRun(s: State, moves: seq<Move>)
    decreases |moves|
  {
    moves == [] || (Possible(s, moves[0].0, moves[0].1) && IsRun(Apply(s, moves[0].0, moves[0].1), moves[1..]))
  }

  function After(s: State, moves: seq<Move>): State
    requires IsRun(s, moves)
    decreases |moves|
  {
    if moves == [] then s else After(Apply(s, moves[0].0, moves[0].1), moves[1..])
  }

  lemma {:induction false} RunKeepsInv(s: State, moves: seq<Move>)
    requires Inv(s) && IsRun(s, moves)
    ensures Inv(After(s, moves))
    decreases |moves|
  {
    hide Inv;
    if moves != [] {
      StepKeepsInv(s, moves[0].0, moves[0].1);
      RunKeepsInv(Apply(s, moves[0].0, moves[0].1), moves[1..]);
    }
  }

  /**
   In every state of every run, with the mutex created: at most one thread is in the secure
   world; the open connections are exactly those some thread has connected and not closed,
   one each; every call and close names its own thread's connection; and every finished
   psa_fwu_* call executed exactly its own connect, call and close between its start and its
   return, and reports the result of that call.
   */
  lemma EveryRunIsSerialised(s0: State, moves: seq<Move>)
    requires Initial(s0) && IsRun(s0, moves)
    ensures var s := After(s0, moves);
            && (forall t, u | 0 <= t < |s.threads| && 0 <= u < |s.threads|
                 && InVeneer(s.threads[t].stage) && InVeneer(s.threads[u].stage) :: t == u)
            && HandlesOwned(s) && LogOk(s.log)
            && (forall i | 0 <= i < |s.finishes| :: FinishOk(s.log, s.finishes[i]))
            && ((forall t | 0 <= t < |s.threads| :: s.threads[t].stage == Outside) ==> s.open == {} && s.owner == None)
  {
    hide FinishOk, LogOk, InTurn, Accounted;
    InitialInv(s0);
    RunKeepsInv(s0, moves);
    var s := After(s0, moves);
    if forall t | 0 <= t < |s.threads| :: s.threads[t].stage == Outside {
      forall h ensures h !in s.open { }
      OwnerIsInside(s0, moves);
    }
  }

  /** Entry i is a psa_call that thread t made between two lengths of the log. */
  predicate IsCall(log: seq<Entry>, t: nat, since: nat, until: nat, i: nat) {
    since <= i < until <= |log| && log[i].thread == t && log[i].veneer.Call?
  }

  /** The entry remembered is the one psa_call among what was done. */
  ghost predicate MadeIs(own: seq<Done>, made: Option<nat>) {
    && (forall d: Done | d in own :: d.veneer.Call? <==> made == Some(d.at))
    && (made.Some? ==> exists d: Done :: d in own && made == Some(d.at))
  }

  lemma ReportsMade(own: seq<Done>, f: Finish)
    requires Reports(own, f.request, f.status, f.made)
    requires forall j, k | 0 <= j < k < |own| :: own[j].at < own[k].at
    ensures MadeIs(own, f.made)
  {
    hide Pack, CallArgsOk;
    assert |own| == 3 ==> own[1] in own;
  }

  lemma InCallMade(own: seq<Done>, th: Thread)
    requires InCall(own, th) && th.stage != Outside
    requires forall j, k | 0 <= j < k < |own| :: own[j].at < own[k].at
    ensures MadeIs(own, th.made)
  {
    hide Pack, CallArgsOk;
    assert |own| > 1 ==> own[1] in own;
  }

  lemma MadeInLog(log: seq<Entry>, t: nat, since: nat, until: nat, made: Option<nat>)
    requires until <= |log| && MadeIs(Own(log[..until], t, since), made)
    ensures forall i: nat :: made == Some(i) <==> IsCall(log, t, since, until, i)
  {
    hide Own;
    OwnIsAll(log[..until], t, since);
    forall i: nat ensures made == Some(i) <==> IsCall(log, t, since, until, i) {
      if since <= i < until && log[i].thread == t {
        assert IsOwn(log[..until], t, since, Done(i, log[i].veneer, log[i].result));
      }
    }
  }

  /** The status a caller sees, told from the log. */
  predicate StatusIs(log: seq<Entry>, f: Finish) {
    match f.made
    case Some(i) => i < |log| && f.status == if log[i].result == 3 then -135 else log[i].result
    case None => f.status in {-135, -132, -129}
  }

  lemma ReportsStatus(log: seq<Entry>, f: Finish)
    requires FinishOk(log, f)
    ensures StatusIs(log, f)
  {
    hide Own, Pack, CallArgsOk;
    var own := Own(log[..f.until], f.thread, f.since);
    OwnIsAll(log[..f.until], f.thread, f.since);
    if f.made.Some? {
      assert own[1] in own;
      assert IsOwn(log[..f.until], f.thread, f.since, own[1]);
    }
  }

  /**
   In every state of every run: the entry that a call remembers as its psa_call, finished or
   not, is the one psa_call its thread has executed since the call's start and, if it has
   returned, before its return, and a call that remembers none has made none. No two finished
   calls share an executed call, so no two report the same psa_call, what they return is that
   psa_call's result, an invalid parameter renamed, and every executed call belongs to a finished call or to the
   one its thread is in.
   */
  lemma EachCallIsItsOwn(s0: State, moves: seq<Move>)
    requires Initial(s0) && IsRun(s0, moves)
    ensures var s := After(s0, moves);
            && (forall k, i: nat | 0 <= k < |s.finishes| ::
                  var f := s.finishes[k]; f.made == Some(i) <==> IsCall(s.log, f.thread, f.since, f.until, i))
            && (forall t, i: nat | 0 <= t < |s.threads| && s.threads[t].stage != Outside ::
                  var th := s.threads[t]; th.made == Some(i) <==> IsCall(s.log, t, th.since, |s.log|, i))
            && (forall j, k, i | 0 <= j < k < |s.finishes| && 0 <= i < |s.log| ::
                  !(Covers(s.finishes[j], s.log, i) && Covers(s.finishes[k], s.log, i)))
            && (forall j, k | 0 <= j < k < |s.finishes| ::
                  s.finishes[j].made.Some? ==> s.finishes[j].made != s.finishes[k].made)
            && (forall k, i: nat | 0 <= k < |s.finishes| && s.finishes[k].made == Some(i) ::
                  i < |s.log| && s.finishes[k].status == if s.log[i].result == 3 then -135 else s.log[i].result)
            && (forall k | 0 <= k < |s.finishes| && s.finishes[k].made == None :: s.finishes[k].status in {-135, -132, -129})
            && (forall i | 0 <= i < |s.log| :: Accounted(s, i))
  {
    hide Own, Accounted, Reports, InCall, HeldByLog, Held, MadeIs;
    InitialInv(s0);
    RunKeepsInv(s0, moves);
    var s := After(s0, moves);
    forall k | 0 <= k < |s.finishes|
      ensures var f := s.finishes[k]; forall i: nat :: f.made == Some(i) <==> IsCall(s.log, f.thread, f.since, f.until, i)
      ensures StatusIs(s.log, s.finishes[k])
    {
      var f := s.finishes[k];
      assert FinishOk(s.log, f);
      OwnIsAll(s.log[..f.until], f.thread, f.since);
      ReportsMade(Own(s.log[..f.until], f.thread, f.since), f);
      ReportsStatus(s.log, f);
      MadeInLog(s.log, f.thread, f.since, f.until, f.made);
    }
    forall t: nat | t < |s.threads| && s.threads[t].stage != Outside
      ensures var th := s.threads[t]; forall i: nat :: th.made == Some(i) <==> IsCall(s.log, t, th.since, |s.log|, i)
    {
      var th := s.threads[t];
      assert ThreadOk(s.log, t, th) && s.log[..|s.log|] == s.log;
      OwnIsAll(s.log, t, th.since);
      InCallMade(Own(s.log, t, th.since), th);
      MadeInLog(s.log, t, th.since, |s.log|, th.made);
    }
  }

  /** The owner of the mutex is one of the threads. */
  lemma {:induction false} OwnerIsInside(s: State, moves: seq<Move>)
    requires IsRun(s, moves) && (s.owner.Some? ==> s.owner.value < |s.threads|)
    ensures var s' := After(s, moves); s'.owner.Some? ==> s'.owner.value < |s'.threads|
    decreases |moves|
  {
    if moves != [] { OwnerIsInside(Apply(s, moves[0].0, moves[0].1), moves[1..]); }
  }

  /** No deadlock: while any thread is inside a call, some thread can go on. */
  lemma SomeThreadCanGoOn(s: State, t: nat) returns (u: nat, a: Action)
    requires Inv(s) && t < |s.threads| && s.threads[t].stage != Outside
    requires s.owner.Some? ==> s.owner.value < |s.threads|
    ensures Possible(s, u, a) && !a.Start?
  {
    hide HandlesOwned, LogOk, ThreadOk;
    if s.owner.Some? {
      u := s.owner.value;
      a := if s.threads[u].stage.Holding? then Execute(0) else Release;
    } else {
      u := t;
      a := if s.threads[t].stage.Acquiring? then Acquire else Continue;
    }
  }

  /** What the secure side may do is not restricted, but for handles, which are fresh. */
  lemma SecureSideIsFree(s: State, t: nat, r: int)
    requires t < |s.threads| && s.threads[t].stage.Holding?
    ensures Possible(s, t, Execute(r)) <==> s.threads[t].stage.veneer.Connect? && r > 0 ==> r !in s.open
  {
  }

  /** Nor is a thread that is out of the secure world kept from calling. */
  lemma AnyoneMayStart(s: State, t: nat, q: Request)
    requires t < |s.threads| && s.threads[t].stage == Outside
    ensures Possible(s, t, Start(q))
  {
  }

  lemma {:induction false} RunsCompose(s: State, a: seq<Move>, b: seq<Move>)
    requires IsRun(s, a) && IsRun(After(s, a), b)
    ensures IsRun(s, a + b) && After(s, a + b) == After(After(s, a), b)
    decreases |a|
  {
    if a == [] {
      assert a + b == b;
    } else {
      RunsCompose(Apply(s, a[0].0, a[0].1), a[1..], b);
      assert (a + b)[0] == a[0] && (a + b)[1..] == a[1..] + b;
    }
  }

  /** A secure call of a thread that nobody disturbs: lock, call, unlock, go on. */
  lemma Undisturbed(s: State, t: nat, r: int) returns (moves: seq<Move>)
    requires s.created && s.owner == None && t < |s.threads| && s.threads[t].stage.Acquiring?
    requires Answer(s.threads[t].stage.veneer, s.open, r)
    ensures IsRun(s, moves) && After(s, moves) == AfterReturn(CameBack(s, t, r), t)
  {
    hide AfterReturn;
    var s1 := Apply(s, t, Acquire);
    var s2 := Apply(s1, t, Execute(r));
    var s3 := Apply(s2, t, Release);
    var m3: seq<Move> := [(t, Continue)];
    var m2: seq<Move> := [(t, Release), (t, Continue)];
    var m1: seq<Move> := [(t, Execute(r)), (t, Release), (t, Continue)];
    moves := [(t, Acquire), (t, Execute(r)), (t, Release), (t, Continue)];
    assert s3 == CameBack(s, t, r);
    assert m3[1..] == [] && m2[1..] == m3 && m1[1..] == m2 && moves[1..] == m1;
    assert IsRun(s3, m3) && After(s3, m3) == Apply(s3, t, Continue);
    assert IsRun(s2, m2) && After(s2, m2) == After(s3, m3);
    assert IsRun(s1, m1) && After(s1, m1) == After(s2, m2);
  }

  /** The state when thread t comes back from its secure call with r. */
  function CameBack(s: State, t: nat, r: int): State
    requires t < |s.threads| && s.threads[t].stage.Acquiring?
  {
    var th := s.threads[t];
    var v := th.stage.veneer;
    Put(s, t, th.(stage := Back(v, r), made := if v.Call? then Some(|s.log|) else th.made)).(
      open := (if v.Connect? && r > 0 then s.open + {r} else if v.Close? then s.open - {v.handle} else s.open),
      log := s.log + [Entry(t, v, r)])
  }

  /** A whole psa_fwu_* call that nobody disturbs, step by step, with what it leaves in the log. */
  lemma CallAlone(s: State, t: nat, q: Request, h: int, r: int, c: int) returns (moves: seq<Move>)
    requires s.created && s.owner == None && t < |s.threads| && s.threads[t].stage == Outside
    requires !q.nullArg && CallArgsOk(q.type_, q.inLen, q.outLen) && h > 0 && h !in s.open
    ensures IsRun(s, moves)
    ensures var s', n := After(s, moves), |s.log|;
            && s'.log == s.log + [Entry(t, Connect(q.sid, q.version), h),
                                  Entry(t, Call(h, Pack(q.type_, q.inLen, q.outLen)), r), Entry(t, Close(h), c)]
            && s'.finishes == s.finishes + [Finish(t, q, if r == 3 then -135 else r, Some(n + 1), n, n + 3)]
            && s'.open == s.open && s'.owner == None && |s'.threads| == |s.threads| && s'.threads[t].stage == Outside
  {
    hide Pack, CallArgsOk, IsRun, After;
    var s1 := Apply(s, t, Start(q));
    OneMove(s, t, Start(q));
    var m1 := Undisturbed(s1, t, h);
    RunsCompose(s, [(t, Start(q))], m1);
    var s2 := After(s1, m1);
    var m2 := Undisturbed(s2, t, r);
    RunsCompose(s, [(t, Start(q))] + m1, m2);
    var s3 := After(s2, m2);
    var m3 := Undisturbed(s3, t, c);
    RunsCompose(s, [(t, Start(q))] + m1 + m2, m3);
    moves := [(t, Start(q))] + m1 + m2 + m3;
    assert s3.log == s.log + [Entry(t, Connect(q.sid, q.version), h), Entry(t, Call(h, Pack(q.type_, q.inLen, q.outLen)), r)];
  }

  lemma OneMove(s: State, t: nat, a: Action)
    requires Possible(s, t, a)
    ensures IsRun(s, [(t, a)]) && After(s, [(t, a)]) == Apply(s, t, a)
  {
    var moves: seq<Move> := [(t, a)];
    assert moves[1..] == [];
  }

  /**
   The mutex is what this rests on: osMutexAcquire's failure is not looked at, so without
   one two threads are in the secure world after two calls each have been started.
   */
  lemma WithoutMutexNotExclusive(s: State, q: Request)
    requires Initial(s.(created := true)) && !s.created && |s.threads| >= 2 && !q.nullArg
    ensures var moves: seq<Move> := [(0, Start(q)), (0, Acquire), (1, Start(q)), (1, Acquire)];
            && IsRun(s, moves)
            && |After(s, moves).threads| >= 2
            && InVeneer(After(s, moves).threads[0].stage) && InVeneer(After(s, moves).threads[1].stage)
  {
    var s1 := Apply(s, 0, Start(q));
    var s2 := Apply(s1, 0, Acquire);
    var s3 := Apply(s2, 1, Start(q));
    var s4 := Apply(s3, 1, Acquire);
    var m4: seq<Move> := [];
    var m3: seq<Move> := [(1, Acquire)];
    var m2: seq<Move> := [(1, Start(q)), (1, Acquire)];
    var m1: seq<Move> := [(0, Acquire), (1, Start(q)), (1, Acquire)];
    var m0: seq<Move> := [(0, Start(q)), (0, Acquire), (1, Start(q)), (1, Acquire)];
    assert m3[1..] == m4 && m2[1..] == m3 && m1[1..] == m2 && m0[1..] == m1;
    assert IsRun(s3, m3) && After(s3, m3) == s4;
    assert IsRun(s2, m2) && After(s2, m2) == s4;
    assert IsRun(s1, m1) && After(s1, m1) == s4;
  }
}
