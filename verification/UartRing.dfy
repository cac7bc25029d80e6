/**
 retarget_stdio.c (B-U585I-IOT02A): characters received by interrupt into a ring, and the
 thread that reads them. The callback and the reader are cut into the accesses they make to
 shared state, and any interleaving of those accesses is a run.
 */
module UartRing {
  import opened Bytes

  const UART_BUFFER_SIZE: nat := 2048
  const INDEX_LIMIT: nat := 0x1_0000_0000

  type Ring = s: seq<byte> | |s| == UART_BUFFER_SIZE witness seq(UART_BUFFER_SIZE, _ => 0)

  /** A reception the driver has armed: cap octets from pos on, num of them filled. */
  datatype Region = Region(pos: nat, cap: nat, num: nat)

  /** Where the receive callback stands. */
  datatype Callback = Resting | Entered(num: nat) | Counted | Rearmed

  /** Where stdin_getchar stands; Idle is outside a call. */
  datatype Getchar = Idle | Checking | Fetching | Bumping(ch: byte) | Waiting

  /** The module's variables, then what has been received and handed over so far. */
  datatype State = State(
    buf: Ring, idxI: nat, idxO: nat, flag: bool, region: Option<Region>,
    callback: Callback, getchar: Getchar,
    received: seq<byte>, announced: nat, delivered: seq<byte>)

  datatype Action =
    | Receive(b: byte)          // the driver stores an octet
    | Event                     // line idle or region full: the callback starts
    | AdvanceIn | Rearm | SetFlag
    | Call | Check | Fetch | AdvanceOut | Wake

  /** uart_rx_init, called from the first stdin_getchar. */
  predicate Initial(s: State) {
    && s.idxI == s.idxO == 0 && !s.flag
    && s.region == Some(Region(0, UART_BUFFER_SIZE, 0)) && s.callback == Resting && s.getchar == Checking
    && s.received == [] && s.announced == 0 && s.delivered == []
  }

  predicate Possible(s: State, a: Action) {
    match a
    case Receive(_) => s.region.Some? && s.region.value.num < s.region.value.cap
    case Event => s.callback == Resting && s.region.Some?
    case AdvanceIn => s.callback.Entered?
    case Rearm => s.callback == Counted
    case SetFlag => s.callback == Rearmed
    case Call => s.getchar == Idle
    case Check => s.getchar == Checking
    case Fetch => s.getchar == Fetching
    case AdvanceOut => s.getchar.Bumping?
    case Wake => s.getchar == Waiting && s.flag
  }

  /** A store outside the ring has no meaning here; RegionInv shows that no run makes one. */
  function Store(buf: Ring, i: nat, b: byte): Ring {
    if i < UART_BUFFER_SIZE then buf[i := b] else buf
  }

  function Apply(s: State, a: Action): State
    requires Possible(s, a)
  {
    match a
    case Receive(b) =>
      var r := s.region.value;
      s.(buf := Store(s.buf, r.pos + r.num, b), region := Some(r.(num := r.num + 1)), received := s.received + [b])
    case Event => s.(region := None, callback := Entered(s.region.value.num))
    case AdvanceIn =>
      s.(idxI := (s.idxI + s.callback.num) % INDEX_LIMIT, callback := Counted, announced := s.announced + s.callback.num)
    case Rearm =>
      var idx := s.idxI % UART_BUFFER_SIZE;
      s.(region := Some(Region(idx, UART_BUFFER_SIZE - idx, 0)), callback := Rearmed)
    case SetFlag => s.(flag := true, callback := Resting)
    case Call => s.(getchar := Checking)
    case Check => if (s.idxI - s.idxO) % INDEX_LIMIT > 0 then s.(getchar := Fetching) else s.(getchar := Waiting)
    case Fetch => s.(getchar := Bumping(s.buf[s.idxO % UART_BUFFER_SIZE]))
    case AdvanceOut =>
      s.(idxO := (s.idxO + 1) % INDEX_LIMIT, getchar := Idle, delivered := s.delivered + [s.getchar.ch])
    case Wake => s.(flag := false, getchar := Checking)
  }

  /** The octets fetched from the ring, the last perhaps not handed over yet. */
  function Fetched(s: State): seq<byte> {
    s.delivered + if s.getchar.Bumping? then [s.getchar.ch] else []
  }

  /** How many octets have been received and not yet fetched. */
  function Unfetched(s: State): int {
    |s.received| - |Fetched(s)|
  }

  /** The sender keeps to a room: an octet arrives only while one more unfetched one is allowed. */
  predicate Paced(s: State, a: Action, room: nat) {
    a.Receive? ==> Unfetched(s) < room
  }

  // ---------------------------------------------------------------- the invariant

  /** The region starts where the announced octets end and never crosses the buffer's end. */
  predicate RegionInv(s: State) {
    match s.callback
    case Entered(num) => s.region.None? && s.announced + num == |s.received|
    case Counted => s.region.None? && s.announced == |s.received|
    case _ =>
      s.region.Some? && var r := s.region.value;
      && r.pos == s.announced % UART_BUFFER_SIZE && r.pos + r.cap == UART_BUFFER_SIZE
      && r.num <= r.cap && s.announced + r.num == |s.received|
  }

  /** The ring still holds every octet not yet fetched. */
  predicate Window(s: State) {
    |s.buf| == UART_BUFFER_SIZE
    && forall j | |Fetched(s)| <= j < |s.received| :: s.buf[j % UART_BUFFER_SIZE] == s.received[j]
  }

  /** A waiting reader with something to read has its flag set, or is about to get it. */
  predicate NoLostWakeup(s: State) {
    s.getchar == Waiting && |s.delivered| < s.announced ==> s.flag || s.callback == Counted || s.callback == Rearmed
  }

  /** Indices, region and wake-up, which do not depend on what the ring holds. */
  predicate Control(s: State) {
    && |Fetched(s)| <= s.announced <= |s.received| && Unfetched(s) < INDEX_LIMIT
    && s.idxI == s.announced % INDEX_LIMIT && s.idxO == |s.delivered| % INDEX_LIMIT
    && (s.getchar == Fetching ==> |s.delivered| < s.announced)
    && RegionInv(s) && NoLostWakeup(s)
  }

  predicate Inv(s: State) {
    Control(s) && Unfetched(s) <= UART_BUFFER_SIZE && Window(s) && Fetched(s) <= s.received
  }

  /** Both wraps agree: the index limit is a multiple of the ring's size. */
  lemma MaskOfWrapped(n: nat)
    ensures n % INDEX_LIMIT % UART_BUFFER_SIZE == n % UART_BUFFER_SIZE
  {
  }

  lemma WrappedSum(n: nat, k: nat)
    ensures (n % INDEX_LIMIT + k) % INDEX_LIMIT == (n + k) % INDEX_LIMIT
  {
  }

  /** The wrapped difference of the free-running indices is the true one. */
  lemma WrappedDifference(i: nat, o: nat)
    requires o <= i < o + INDEX_LIMIT
    ensures (i % INDEX_LIMIT - o % INDEX_LIMIT) % INDEX_LIMIT == i - o
  {
  }

  lemma NextSlot(n: nat, k: nat)
    requires n % UART_BUFFER_SIZE + k < UART_BUFFER_SIZE
    ensures (n + k) % UART_BUFFER_SIZE == n % UART_BUFFER_SIZE + k
  {
  }

  lemma DistinctSlots(j: nat, n: nat)
    requires j < n < j + UART_BUFFER_SIZE
    ensures j % UART_BUFFER_SIZE != n % UART_BUFFER_SIZE
  {
  }

  lemma InitialInv(s: State)
    requires Initial(s)
    ensures Inv(s)
  {
  }

  /** The armed region's next octet goes to the slot of its number. */
  lemma ReceiveSlot(s: State, b: byte)
    requires RegionInv(s) && Possible(s, Receive(b))
    ensures s.region.value.pos + s.region.value.num == |s.received| % UART_BUFFER_SIZE < UART_BUFFER_SIZE
    ensures Apply(s, Receive(b)).buf == s.buf[|s.received| % UART_BUFFER_SIZE := b]
  {
    NextSlot(s.announced, s.region.value.num);
  }

  lemma ReceiveKeepsInv(s: State, b: byte)
    requires Inv(s) && Possible(s, Receive(b)) && Paced(s, Receive(b), UART_BUFFER_SIZE)
    ensures Inv(Apply(s, Receive(b)))
  {
    hide RegionInv, NoLostWakeup;
    var s', n := Apply(s, Receive(b)), |s.received|;
    ReceiveSlot(s, b);
    StepKeepsControl(s, Receive(b));
    forall j | |Fetched(s')| <= j < |s'.received|
      ensures s'.buf[j % UART_BUFFER_SIZE] == s'.received[j]
    {
      if j < n { DistinctSlots(j, n); }
    }
    assert Fetched(s') == Fetched(s);
  }

  lemma CallbackKeepsInv(s: State, a: Action)
    requires Inv(s) && Possible(s, a) && (a.Event? || a.AdvanceIn? || a.Rearm? || a.SetFlag?)
    ensures Inv(Apply(s, a))
  {
    hide Control;
    StepKeepsControl(s, a);
  }

  lemma GetcharKeepsInv(s: State, a: Action)
    requires Inv(s) && Possible(s, a) && ByReader(a)
    ensures Inv(Apply(s, a))
  {
    hide Control, Fetched;
    StepKeepsControl(s, a);
    FetchedAfter(s, a);
    if a.Fetch? { SlotFetched(s); }
  }

  /** Only a fetch changes what has been fetched. */
  lemma FetchedAfter(s: State, a: Action)
    requires Possible(s, a)
    ensures Fetched(Apply(s, a)) == if a.Fetch? then Fetched(s) + [s.buf[s.idxO % UART_BUFFER_SIZE]] else Fetched(s)
  {
  }

  /** A fetch takes the slot of the oldest unfetched octet, and one has been received. */
  lemma SlotFetched(s: State)
    requires Control(s) && Possible(s, Fetch)
    ensures Fetched(s) == s.delivered && |s.delivered| < |s.received|
    ensures s.idxO % UART_BUFFER_SIZE == |s.delivered| % UART_BUFFER_SIZE
  {
    MaskOfWrapped(|s.delivered|);
  }

  /** Indices, region and wake-up keep right however far the sender outruns the ring. */
  lemma StepKeepsControl(s: State, a: Action)
    requires Control(s) && Possible(s, a) && Paced(s, a, INDEX_LIMIT - 1)
    ensures Control(Apply(s, a))
  {
    if ByReader(a) { ReaderKeepsControl(s, a); } else { DriverKeepsControl(s, a); }
  }

  lemma ReaderKeepsControl(s: State, a: Action)
    requires Control(s) && Possible(s, a) && ByReader(a)
    ensures Control(Apply(s, a))
  {
    hide RegionInv;
    if a.Check? { WrappedDifference(s.announced, |s.delivered|); }
    if a.AdvanceOut? { WrappedSum(|s.delivered|, 1); }
    assert RegionInv(Apply(s, a)) by { RegionUntouched(s, a); }
  }

  lemma RegionUntouched(s: State, a: Action)
    requires RegionInv(s) && Possible(s, a) && ByReader(a)
    ensures RegionInv(Apply(s, a))
  {
  }

  lemma DriverKeepsControl(s: State, a: Action)
    requires Control(s) && Possible(s, a) && !ByReader(a) && Paced(s, a, INDEX_LIMIT - 1)
    ensures Control(Apply(s, a))
  {
    if a.AdvanceIn? { WrappedSum(s.announced, s.callback.num); }
    if a.Rearm? { MaskOfWrapped(s.announced); }
  }

  lemma StepKeepsInv(s: State, a: Action)
    requires Inv(s) && Possible(s, a) && Paced(s, a, UART_BUFFER_SIZE)
    ensures Inv(Apply(s, a))
  {
    hide Inv;
    match a
    case Receive(b) => ReceiveKeepsInv(s, b);
    case Event | AdvanceIn | Rearm | SetFlag => CallbackKeepsInv(s, a);
    case _ => GetcharKeepsInv(s, a);
  }

  // ---------------------------------------------------------------- runs

  /** Any interleaving of driver, callback and reader. */
  predicate IsRun(s: State, acts: seq<Action>)
    decreases |acts|
  {
    acts == [] || (Possible(s, acts[0]) && IsRun(Apply(s, acts[0]), acts[1..]))
  }

  function After(s: State, acts: seq<Action>): State
    requires IsRun(s, acts)
    decreases |acts|
  {
    if acts == [] then s else After(Apply(s, acts[0]), acts[1..])
  }

  /** Every octet of the run arrives while another one is allowed. */
  predicate KeepsPace(s: State, acts: seq<Action>, room: nat)
    requires IsRun(s, acts)
    decreases |acts|
  {
    acts == [] || (Paced(s, acts[0], room) && KeepsPace(Apply(s, acts[0]), acts[1..], room))
  }

  /** The octets that arrived on the line, in order. */
  function Arrivals(acts: seq<Action>): seq<byte> {
    if acts == [] then [] else (if acts[0].Receive? then [acts[0].b] else []) + Arrivals(acts[1..])
  }

  lemma {:induction false} RunReceives(s: State, acts: seq<Action>)
    requires IsRun(s, acts)
    ensures After(s, acts).received == s.received + Arrivals(acts)
    decreases |acts|
  {
    if acts != [] { RunReceives(Apply(s, acts[0]), acts[1..]); }
  }

  lemma {:induction false} RunKeepsInv(s: State, acts: seq<Action>)
    requires Inv(s) && IsRun(s, acts) && KeepsPace(s, acts, UART_BUFFER_SIZE)
    ensures Inv(After(s, acts))
    decreases |acts|
  {
    hide Inv, Paced;
    if acts != [] {
      StepKeepsInv(s, acts[0]);
      RunKeepsInv(Apply(s, acts[0]), acts[1..]);
    }
  }

  lemma {:induction false} RunKeepsControl(s: State, acts: seq<Action>)
    requires Control(s) && IsRun(s, acts) && KeepsPace(s, acts, INDEX_LIMIT - 1)
    ensures Control(After(s, acts))
    decreases |acts|
  {
    hide Control, Paced;
    if acts != [] {
      StepKeepsControl(s, acts[0]);
      RunKeepsControl(Apply(s, acts[0]), acts[1..]);
    }
  }

  /**
   In every state of every run in which no octet arrives while 2048 lie unfetched: what
   stdin_getchar has returned is, in order and once each, the first part of what arrived.
   */
  lemma EveryRunIsFifo(s0: State, acts: seq<Action>)
    requires Initial(s0) && IsRun(s0, acts) && KeepsPace(s0, acts, 2048)
    ensures var s := After(s0, acts);
            s.delivered <= Arrivals(acts) && |s.delivered| <= s.announced <= |Arrivals(acts)|
  {
    InitialInv(s0);
    RunKeepsInv(s0, acts);
    RunReceives(s0, acts);
    assert s0.received + Arrivals(acts) == Arrivals(acts);
  }

  /**
   In every state of every run, even one that outruns the ring, as long as fewer than 2^32
   octets lie unfetched: a reception never reaches past the buffer, and a reader that waits
   while announced octets are unread is about to be woken.
   */
  lemma EveryRunWakes(s0: State, acts: seq<Action>)
    requires Initial(s0) && IsRun(s0, acts) && KeepsPace(s0, acts, 0xFFFF_FFFF)
    ensures var s := After(s0, acts);
            && (s.region.Some? ==> s.region.value.pos + s.region.value.cap == 2048
                                   && s.region.value.num <= s.region.value.cap)
            && NoLostWakeup(s)
  {
    RunKeepsControl(s0, acts);
  }

  // ---------------------------------------------------------------- calls and waits

  function Count(acts: seq<Action>, a: Action): nat {
    if acts == [] then 0 else (if acts[0] == a then 1 else 0) + Count(acts[1..], a)
  }

  /** Whether a call of stdin_getchar is under way. */
  function InCall(s: State): nat {
    if s.getchar == Idle then 0 else 1
  }

  lemma {:induction false} CallsCounted(s: State, acts: seq<Action>)
    requires IsRun(s, acts)
    ensures var s' := After(s, acts);
            |s'.delivered| + InCall(s') == |s.delivered| + InCall(s) + Count(acts, Call)
    decreases |acts|
  {
    if acts != [] { CallsCounted(Apply(s, acts[0]), acts[1..]); }
  }

  /**
   Over every run, whatever its pace: of the calls begun, the first included, each that has
   ended has returned exactly one octet, and at most one has not ended.
   */
  lemma EachCallReturnsOne(s0: State, acts: seq<Action>)
    requires Initial(s0) && IsRun(s0, acts)
    ensures var s, calls := After(s0, acts), 1 + Count(acts, Call);
            calls == if s.getchar == Idle then |s.delivered| else |s.delivered| + 1
  {
    CallsCounted(s0, acts);
  }

  /** A check sends the reader to wait exactly when everything announced has been handed over. */
  lemma WaitsExactlyWhenEmpty(s: State)
    requires Control(s) && s.getchar == Checking
    ensures Possible(s, Check)
    ensures Apply(s, Check).getchar == if s.announced == |s.delivered| then Waiting else Fetching
  {
    WrappedDifference(s.announced, |s.delivered|);
  }

  /** The reader is held up nowhere else: it has a step exactly when it is not waiting for a flag that is clear. */
  lemma OnlyTheFlagBlocks(s: State)
    ensures (exists a :: ByReader(a) && Possible(s, a)) <==> (s.getchar == Waiting ==> s.flag)
  {
    var a := match s.getchar
             case Idle => Call case Checking => Check case Fetching => Fetch case Bumping(_) => AdvanceOut case Waiting => Wake;
    assert ByReader(a) && (Possible(s, a) <==> (s.getchar == Waiting ==> s.flag));
  }

  lemma {:induction false} WakesCounted(s: State, acts: seq<Action>)
    requires IsRun(s, acts)
    ensures Count(acts, Wake) + (if After(s, acts).flag then 1 else 0) <= Count(acts, SetFlag) + (if s.flag then 1 else 0)
    decreases |acts|
  {
    if acts != [] { WakesCounted(Apply(s, acts[0]), acts[1..]); }
  }

  /** The reader does not spin: over every run it is woken at most as often as the callback signals. */
  lemma EachWakeIsSignalled(s0: State, acts: seq<Action>)
    requires Initial(s0) && IsRun(s0, acts)
    ensures Count(acts, Wake) <= Count(acts, SetFlag)
  {
    WakesCounted(s0, acts);
  }

  /** How many steps the callback is away from a region with room. */
  function Deaf(s: State): nat {
    if s.region.Some? && s.region.value.num < s.region.value.cap then 0
    else match s.callback case Rearmed => 4 case Resting => 3 case Entered(_) => 2 case Counted => 1
  }

  /** The callback's next step; it can be started whenever it rests. */
  function NextInCallback(s: State): Action {
    match s.callback case Resting => Event case Entered(_) => AdvanceIn case Counted => Rearm case Rearmed => SetFlag
  }

  lemma CallbackGoesOn(s: State)
    requires Control(s)
    ensures Possible(s, NextInCallback(s)) && Control(Apply(s, NextInCallback(s)))
    ensures Deaf(s) > 0 ==> Deaf(Apply(s, NextInCallback(s))) == Deaf(s) - 1
    ensures Deaf(s) == 0 ==> forall b: byte :: Possible(s, Receive(b))
  {
    StepKeepsControl(s, NextInCallback(s));
  }

  /**
   The line is never deaf for long: from any state the callback alone, within four steps, gets
   to one in which every octet can be received.
   */
  lemma {:induction false} CallbackRearms(s: State) returns (acts: seq<Action>)
    requires Control(s)
    ensures |acts| <= 4 && IsRun(s, acts) && (forall i | 0 <= i < |acts| :: acts[i] in {Event, AdvanceIn, Rearm, SetFlag})
    ensures Control(After(s, acts)) && forall b: byte :: Possible(After(s, acts), Receive(b))
    ensures |acts| == Deaf(s)
    decreases Deaf(s)
  {
    hide Control, Possible, Apply;
    CallbackGoesOn(s);
    acts := [];
    if Deaf(s) > 0 {
      var a := NextInCallback(s);
      var more := CallbackRearms(Apply(s, a));
      acts := [a] + more;
      assert acts[1..] == more;
    }
  }

  // ---------------------------------------------------------------- progress

  predicate ByReader(a: Action) {
    a.Call? || a.Check? || a.Fetch? || a.AdvanceOut? || a.Wake?
  }

  predicate OnlyReader(acts: seq<Action>) {
    forall i | 0 <= i < |acts| :: ByReader(acts[i])
  }

  lemma {:induction false} ReaderKeepsPace(s: State, acts: seq<Action>, room: nat)
    requires IsRun(s, acts) && OnlyReader(acts)
    ensures KeepsPace(s, acts, room) && Arrivals(acts) == []
    decreases |acts|
  {
    if acts != [] {
      assert ByReader(acts[0]);
      ReaderKeepsPace(Apply(s, acts[0]), acts[1..], room);
    }
  }

  /** One more octet handed over, nothing else changed but the reader. */
  predicate OneMore(s: State, s': State) {
    && |s'.delivered| == |s.delivered| + 1 && s'.callback == s.callback
    && s'.announced == s.announced && s'.received == s.received
  }

  /**
   With an announced octet unread and no wake-up pending in the callback, the reader alone
   hands over one more within four steps, wherever in its loop it stands.
   */
  lemma ReaderGoesOn(s: State) returns (acts: seq<Action>)
    requires Control(s) && s.callback.Resting? && |s.delivered| < s.announced
    ensures |acts| <= 4 && OnlyReader(acts) && IsRun(s, acts) && Control(After(s, acts)) && OneMore(s, After(s, acts))
  {
    hide Control;
    ControlParts(s);
    if s.getchar == Idle || s.getchar == Waiting {
      var a := if s.getchar == Idle then Call else Wake;
      StepKeepsControl(s, a);
      var more := DeliverFrom(Apply(s, a));
      acts := [a] + more;
      assert acts[1..] == more;
    } else {
      acts := DeliverFrom(s);
    }
  }

  lemma ControlParts(s: State)
    requires Control(s)
    ensures |s.delivered| <= s.announced <= |s.received|
    ensures s.idxI == s.announced % INDEX_LIMIT && s.idxO == |s.delivered| % INDEX_LIMIT
    ensures s.getchar == Checking ==> s.announced < |s.delivered| + INDEX_LIMIT
    ensures NoLostWakeup(s)
  {
  }

  /** The rest of the way, from a reader that is past waiting. */
  lemma DeliverFrom(s: State) returns (acts: seq<Action>)
    requires Control(s) && |s.delivered| < s.announced
    requires s.getchar == Checking || s.getchar == Fetching || s.getchar.Bumping?
    ensures |acts| == if s.getchar == Checking then 3 else if s.getchar == Fetching then 2 else 1
    ensures OnlyReader(acts) && IsRun(s, acts) && Control(After(s, acts)) && OneMore(s, After(s, acts))
    decreases if s.getchar == Checking then 2 else if s.getchar == Fetching then 1 else 0
  {
    hide Control;
    ControlParts(s);
    var a := if s.getchar == Checking then Check else if s.getchar == Fetching then Fetch else AdvanceOut;
    if a.Check? { WrappedDifference(s.announced, |s.delivered|); }
    StepKeepsControl(s, a);
    if a.AdvanceOut? {
      acts := [a];
      assert acts[1..] == [];
    } else {
      var more := DeliverFrom(Apply(s, a));
      acts := [a] + more;
      assert acts[1..] == more;
    }
  }

  /** And while the sender keeps pace, the octet handed over is exactly the next one. */
  lemma ReaderDeliversNext(s: State) returns (acts: seq<Action>)
    requires Inv(s) && s.callback == Resting && |s.delivered| < s.announced
    ensures |acts| <= 4 && OnlyReader(acts) && IsRun(s, acts)
    ensures var s' := After(s, acts);
            s'.delivered == s.delivered + [s.received[|s.delivered|]] && s'.callback == Resting && Inv(s')
            && s'.announced == s.announced && s'.received == s.received
  {
    acts := ReaderGoesOn(s);
    ReaderKeepsPace(s, acts, UART_BUFFER_SIZE);
    RunKeepsInv(s, acts);
    NextOctet(s, After(s, acts));
  }

  lemma NextOctet(s: State, s': State)
    requires Inv(s) && Inv(s') && OneMore(s, s')
    ensures |s.delivered| < |s.received| && s'.delivered == s.delivered + [s.received[|s.delivered|]]
  {
    hide Control, Window;
    var n := |s.delivered|;
    assert s'.delivered == Fetched(s')[..n + 1] == s.received[..n + 1];
    assert s.delivered == Fetched(s)[..n] == s.received[..n];
  }

  lemma {:induction false} RunsCompose(s: State, a: seq<Action>, b: seq<Action>)
    requires IsRun(s, a) && IsRun(After(s, a), b)
    ensures IsRun(s, a + b) && After(s, a + b) == After(After(s, a), b)
    decreases |a|
  {
    if a == [] {
      assert a + b == b;
    } else {
      RunsCompose(Apply(s, a[0]), a[1..], b);
      assert (a + b)[0] == a[0] && (a + b)[1..] == a[1..] + b;
    }
  }

  /** Left to itself, the reader goes on to hand over everything that has been announced. */
  lemma {:induction false} ReaderDrains(s: State) returns (acts: seq<Action>)
    requires Inv(s) && s.callback == Resting
    ensures OnlyReader(acts) && IsRun(s, acts)
    ensures After(s, acts).delivered == s.received[..s.announced]
    decreases s.announced - |s.delivered|
  {
    if |s.delivered| == s.announced {
      acts := [];
    } else {
      var first := ReaderDeliversNext(s);
      var more := ReaderDrains(After(s, first));
      RunsCompose(s, first, more);
      acts := first + more;
    }
  }

  // ---------------------------------------------------------------- why the sender must keep pace

  /** The same on the ring and the history alone: slot o is written again one lap later. */
  lemma LapSpoils(buf: Ring, received: seq<byte>, o: nat, b: byte)
    requires |received| == o + UART_BUFFER_SIZE
    requires forall j | o <= j < |received| :: buf[j % UART_BUFFER_SIZE] == received[j]
    ensures var buf', received' := buf[o % UART_BUFFER_SIZE := b], received + [b];
            (forall j | o <= j < |received'| :: buf'[j % UART_BUFFER_SIZE] == received'[j]) <==> b == received[o]
  {
    var buf', received', n := buf[o % UART_BUFFER_SIZE := b], received + [b], |received|;
    NextLap(o);
    assert received'[o] == received[o];
    forall j | o < j < n
      ensures buf'[j % UART_BUFFER_SIZE] == received'[j]
    {
      DistinctSlots(o, j);
    }
  }

  lemma NextLap(n: nat)
    ensures (n + UART_BUFFER_SIZE) % UART_BUFFER_SIZE == n % UART_BUFFER_SIZE
  {
  }

  /** Octet o has been overwritten by b, which has not been overwritten in turn. */
  predicate Lapped(s: State, o: nat, b: byte) {
    && Control(s) && o + UART_BUFFER_SIZE < |s.received| <= o + 2 * UART_BUFFER_SIZE
    && s.buf[o % UART_BUFFER_SIZE] == b
    && Misled(Fetched(s), s.received, o, b)
  }

  /** The first o octets are right, and the one after them, if fetched, is b. */
  predicate Misled(fetched: seq<byte>, received: seq<byte>, o: nat, b: byte) {
    o <= |fetched| && o <= |received| && fetched[..o] == received[..o] && (|fetched| > o ==> fetched[o] == b)
  }

  /** The octet that arrives when 2048 lie unfetched takes the place of the oldest of them. */
  lemma OverrunLaps(s: State, b: byte)
    requires Inv(s) && Possible(s, Receive(b)) && Unfetched(s) == UART_BUFFER_SIZE
    ensures var s', o := Apply(s, Receive(b)), |Fetched(s)|;
            && Lapped(s', o, b) && o < s'.announced
            && (s'.callback.Resting? || s'.callback.Rearmed?)
            && (Window(s') <==> b == s.received[o])
  {
    hide NoLostWakeup;
    var s', o := Apply(s, Receive(b)), |Fetched(s)|;
    ReceiveSlot(s, b);
    NextLap(o);
    StepKeepsControl(s, Receive(b));
    LapSpoils(s.buf, s.received, o, b);
    assert Fetched(s') == Fetched(s) && Fetched(s)[..o] == s.received[..o] == s'.received[..o];
  }

  lemma StepKeepsLapped(s: State, a: Action, o: nat, b: byte)
    requires Lapped(s, o, b) && Possible(s, a)
    requires a.Receive? ==> |s.received| < o + 2 * UART_BUFFER_SIZE
    ensures Lapped(Apply(s, a), o, b)
  {
    hide NoLostWakeup, RegionInv;
    var s' := Apply(s, a);
    StepKeepsControl(s, a);
    if a.Receive? {
      ReceiveSlot(s, a.b);
      NextLap(o);
      DistinctSlots(o + UART_BUFFER_SIZE, |s.received|);
      assert s'.received[..o] == s.received[..o];
    }
    FetchedAfter(s, a);
    if a.Fetch? {
      SlotFetched(s);
      assert Fetched(s')[..o] == Fetched(s)[..o];
    }
  }

  lemma {:induction false} RunKeepsLapped(s: State, acts: seq<Action>, o: nat, b: byte)
    requires Lapped(s, o, b) && IsRun(s, acts) && |s.received| + |Arrivals(acts)| <= o + 2 * UART_BUFFER_SIZE
    ensures Lapped(After(s, acts), o, b)
    decreases |acts|
  {
    hide Lapped;
    if acts != [] {
      StepKeepsLapped(s, acts[0], o, b);
      RunKeepsLapped(Apply(s, acts[0]), acts[1..], o, b);
    }
  }

  /**
   Wherever the reader and the callback stand: an octet b that arrives while 2048 lie
   unfetched is what the reader hands over in place of the oldest of them, whatever happens
   after it, fewer than 2048 further arrivals included. So what it hands over up to there is
   what arrived exactly when b equals the octet it overwrote.
   */
  lemma OverrunSpoils(s: State, b: byte, acts: seq<Action>)
    requires Inv(s) && Possible(s, Receive(b)) && Unfetched(s) == 2048
    requires IsRun(Apply(s, Receive(b)), acts) && |Arrivals(acts)| < 2048
    ensures var s', o := After(Apply(s, Receive(b)), acts), |Fetched(s)|;
            |s'.delivered| > o ==>
              && s'.delivered[..o] <= s'.received && s'.delivered[o] == b
              && (s'.delivered[..o + 1] <= s'.received <==> b == s.received[o])
    ensures Window(Apply(s, Receive(b))) <==> b == s.received[|Fetched(s)|]
  {
    hide Inv, Window, Lapped;
    var s1, o := Apply(s, Receive(b)), |Fetched(s)|;
    OverrunLaps(s, b);
    assert o + UART_BUFFER_SIZE + 1 == |s1.received|;
    RunKeepsLapped(s1, acts, o, b);
    RunReceives(s1, acts);
    var s' := After(s1, acts);
    LappedMeans(s', o, b);
    assert s'.received[o] == s.received[o];
    if |s'.delivered| > o {
      assert s'.delivered[..o + 1] == s'.delivered[..o] + [b];
      assert s'.received[..o + 1] == s'.received[..o] + [s.received[o]];
    }
  }

  lemma LappedMeans(s: State, o: nat, b: byte)
    requires Lapped(s, o, b)
    ensures |s.received| > o && (|s.delivered| > o ==> s.delivered[..o] == s.received[..o] && s.delivered[o] == b)
  {
    if |s.delivered| > o { assert s.delivered[..o] == Fetched(s)[..o]; }
  }

  /** And the reader does get there: nothing more need arrive for it to hand over b. */
  lemma OverrunIsRead(s: State, b: byte) returns (acts: seq<Action>)
    requires Inv(s) && Possible(s, Receive(b)) && Unfetched(s) == UART_BUFFER_SIZE
    ensures var s1 := Apply(s, Receive(b));
            IsRun(s1, acts) && Arrivals(acts) == [] && |After(s1, acts).delivered| > |Fetched(s)|
  {
    hide Inv, Control;
    var s1, o := Apply(s, Receive(b)), |Fetched(s)|;
    OverrunLaps(s, b);
    acts := ReadUpTo(s1, o);
  }

  /** From any state, callback included, the reader gets to hand over octet o once it is announced. */
  lemma {:induction false} ReadUpTo(s: State, o: nat) returns (acts: seq<Action>)
    requires Control(s) && o < s.announced && (s.callback.Resting? || s.callback.Rearmed?)
    ensures IsRun(s, acts) && Arrivals(acts) == [] && |After(s, acts).delivered| > o
    decreases s.callback.Rearmed?, o - |s.delivered|
  {
    if |s.delivered| > o {
      acts := [];
    } else if s.callback.Rearmed? {
      StepKeepsControl(s, SetFlag);
      var more := ReadUpTo(Apply(s, SetFlag), o);
      acts := [SetFlag] + more;
      assert acts[1..] == more;
    } else {
      var first := ReaderGoesOn(s);
      var more := ReadUpTo(After(s, first), o);
      ReaderKeepsPace(s, first, 0);
      RunsCompose(s, first, more);
      ArrivalsCompose(first, more);
      acts := first + more;
    }
  }

  lemma {:induction false} ArrivalsCompose(a: seq<Action>, b: seq<Action>)
    ensures Arrivals(a + b) == Arrivals(a) + Arrivals(b)
  {
    if a == [] {
      assert a + b == b;
    } else {
      ArrivalsCompose(a[1..], b);
      var first := if a[0].Receive? then [a[0].b] else [];
      assert (a + b)[0] == a[0] && (a + b)[1..] == a[1..] + b;
      assert Arrivals(a + b) == first + Arrivals(a[1..] + b) == first + Arrivals(a[1..]) + Arrivals(b);
    }
  }
}
