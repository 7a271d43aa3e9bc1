/** The life of one SSDP server as seen on the network: the caller (constructor,
    announce, suppress, destructor), the thread running annouceThread, the receive loop
    answering searches, and the clock, in every interleaving. Times are in milliseconds
    since the constructor started the thread. */
module Discovery {
  import opened Text
  import opened Lease
  import opened Ssdp

  const SSDP_THREAD_SLEEP := 5000
  const REANNOUNCE_SECONDS := 60

  /** A NOTIFY message in short: ssdp:alive or ssdp:byebye for one namespace. */
  datatype Kind = Up | Down
  datatype Signal = Signal(kind: Kind, nt: string)

  /** up and down are what one alive burst and one byebye burst send, react is what
      handle_receive does. jitter bounds how late a sleep may end; work bounds a burst, and
      the start of the thread. tracked is the namespace one control point watches; it misses
      fewer than patience consecutive bursts of the thread. */
  datatype World = World(up: seq<Signal>, down: seq<Signal>, react: Request -> Reaction, jitter: nat, work: nat,
                         tracked: string, patience: nat)
  {
    /** Bound on the time from the end of one burst to the start of the next: the twelfth
        poll finds 60 s passed, and the poll before the one that does found less. */
    function Wait(): nat {
      if 60000 + 12 * jitter < 64999 + jitter then 60000 + 12 * jitter else 64999 + jitter
    }

    /** The clock arithmetic does not wrap between two polls. */
    predicate Timed() {
      Wait() < SECONDS_WRAP * 1000
    }

    /** Bound on the distance of two consecutive burst starts. */
    function Gap(): nat { Wait() + work }
  }

  datatype ThreadPc =
    | Starting
    | Testing
    | Checking
    | Bursting(start: nat, i: nat)
    | Sleeping(since: nat)
    | Exited

  datatype Call = NoCall | SuppressCall | AnnounceCall

  datatype CallerPc =
    | Idle(last: Call)
    | Calling(call: Call, i: nat)
    | Joining
    | Closing(i: nat)
    | Gone

  datatype Event = Notify(signal: Signal, byThread: bool) | Answer(notice: Notice)

  datatype Burst = Burst(start: nat, stop: nat)

  /** A control point's record of the tracked namespace: when it was last touched, how
      many bursts of the thread went unheard since, and whether this burst was heard. */
  datatype Ear = Ear(record: Option<nat>, missed: nat, heard: bool)

  /** stamp is _announce_time, polls counts the sleeps since; queue holds the replies the
      receive loop has still to send for the search it is handling. */
  datatype State = State(now: nat, run: bool, stamp: nat, polls: nat, thread: ThreadPc, caller: CallerPc,
                         queue: seq<Notice>, trace: seq<Event>, bursts: seq<Burst>, late: nat, closedAt: nat, ear: Ear)

  datatype Step =
    | Tick(d: nat)
    | Thread(delivered: bool)
    | Start(call: Call)
    | Caller(delivered: bool)
    | Shutdown
    | Search(request: Request)
    | Reply

  function Script(w: World, call: Call): seq<Signal> {
    match call
    case NoCall => []
    case SuppressCall => w.down
    case AnnounceCall => w.down + w.up
  }

  function Init(): State {
    State(0, true, 0, 0, Starting, Idle(NoCall), [], [], [], 0, 0, Ear(None, 0, false))
  }

  // ------------------------------------------------------------------- steps

  /** A NOTIFY reaches the control point, or is lost. */
  function Hear(w: World, ear: Ear, signal: Signal, now: nat, delivered: bool): Ear {
    if !delivered || signal.nt != w.tracked then ear
    else if signal.kind.Up? then Ear(Some(now), 0, true)
    else ear.(record := None)
  }

  function EndBurst(ear: Ear): Ear {
    if ear.heard then ear else ear.(missed := ear.missed + 1)
  }

  function Send(w: World, s: State, signal: Signal, byThread: bool, delivered: bool): State {
    s.(trace := s.trace + [Notify(signal, byThread)], ear := Hear(w, s.ear, signal, s.now, delivered))
  }

  /** How far time may run while the thread stands at its present statement. */
  predicate MayWait(w: World, thread: ThreadPc, until: nat) {
    match thread
    case Starting => until <= w.work
    case Testing => false
    case Checking => false
    case Bursting(start, _) => until <= start + w.work
    case Sleeping(since) => until <= since + SSDP_THREAD_SLEEP + w.jitter
    case Exited => true
  }

  /** The receive loop takes one request at a time, until the destructor of the server is
      through; a reply under way is still sent. A request on which an assertion fails ends
      the process, so it is no step. */
  predicate Enabled(w: World, s: State, step: Step) {
    match step
    case Tick(d) => d > 0 && MayWait(w, s.thread, s.now + d)
    case Thread(_) =>
      (match s.thread
       case Bursting(_, i) =>
         i < |w.up| || s.ear.record == None || EndBurst(s.ear).missed < w.patience
       case Sleeping(since) => s.now >= since + SSDP_THREAD_SLEEP
       case Exited => false
       case _ => true)
    case Start(call) => s.caller.Idle? && call != NoCall
    case Caller(_) => s.caller.Calling? || (s.caller.Joining? && s.thread.Exited?) || s.caller.Closing?
    case Shutdown => s.caller.Idle?
    case Search(request) => !s.caller.Gone? && s.queue == [] && w.react(request).Handled?
    case Reply => s.queue != []
  }

  function ThreadEffect(w: World, s: State, delivered: bool): State {
    match s.thread
    case Starting => s.(stamp := s.now, polls := 0, thread := Testing)
    case Testing => s.(thread := if s.run then Checking else Exited)
    case Checking =>
      if s.stamp <= s.now && ElapsedSeconds(s.now - s.stamp) >= REANNOUNCE_SECONDS
      then s.(thread := Bursting(s.now, 0), ear := s.ear.(heard := false),
              late := if s.run then s.late else s.late + 1)
      else s.(thread := Sleeping(s.now))
    case Bursting(start, i) =>
      var script := w.up;
      if i < |script| then Send(w, s, script[i], true, delivered).(thread := Bursting(start, i + 1))
      else s.(stamp := s.now, polls := 0, thread := Sleeping(s.now), ear := EndBurst(s.ear),
              bursts := s.bursts + [Burst(start, s.now)])
    case Sleeping(_) => s.(polls := s.polls + 1, thread := Testing)
    case Exited => s
  }

  function CallerEffect(w: World, s: State, delivered: bool): State {
    match s.caller
    case Calling(call, i) =>
      var script := Script(w, call);
      if i < |script| then Send(w, s, script[i], false, delivered).(caller := Calling(call, i + 1))
      else s.(caller := Idle(call))
    case Joining => s.(caller := Closing(0), closedAt := |s.trace|)
    case Closing(i) =>
      var script := w.down;
      if i < |script| then Send(w, s, script[i], false, delivered).(caller := Closing(i + 1))
      else s.(caller := Gone)
    case _ => s
  }

  function Effect(w: World, s: State, step: Step): State
    requires Enabled(w, s, step)
  {
    match step
    case Tick(d) => s.(now := s.now + d)
    case Thread(delivered) => ThreadEffect(w, s, delivered)
    case Start(call) => s.(caller := Calling(call, 0))
    case Caller(delivered) => CallerEffect(w, s, delivered)
    case Shutdown => s.(run := false, caller := Joining)
    case Search(request) => s.(queue := w.react(request).replies)
    case Reply => s.(trace := s.trace + [Answer(s.queue[0])], queue := s.queue[1..])
  }

  /** The state a sequence of steps leads to, if every step is possible in turn. */
  function Run(w: World, steps: seq<Step>): Option<State> {
    if steps == [] then Some(Init())
    else
      match Run(w, steps[..|steps| - 1])
      case None => None
      case Some(s) =>
        if Enabled(w, s, steps[|steps| - 1]) then Some(Effect(w, s, steps[|steps| - 1])) else None
  }

  lemma RunSnoc(w: World, steps: seq<Step>, s: State, step: Step)
    requires Run(w, steps) == Some(s) && Enabled(w, s, step)
    ensures Run(w, steps + [step]) == Some(Effect(w, s, step))
  {
    assert (steps + [step])[..|steps|] == steps;
  }

  // ----------------------------------------------------------------- cadence

  /** Consecutive bursts of the thread start at least 60 s after the previous one ended,
      and at most Wait() after it; a burst takes no longer than work. */
  predicate Paced(w: World, bursts: seq<Burst>) {
    && (forall i | 0 <= i < |bursts| :: bursts[i].start <= bursts[i].stop <= bursts[i].start + w.work)
    && (forall i | 0 < i < |bursts| ::
          bursts[i - 1].stop + 60000 <= bursts[i].start <= bursts[i - 1].stop + w.Wait())
  }

  /** The clock after so many sleeps since the stamp. */
  predicate Slept(w: World, at: nat, stamp: nat, polls: nat) {
    stamp + Multiple(polls, SSDP_THREAD_SLEEP) <= at <= stamp + Multiple(polls, SSDP_THREAD_SLEEP + w.jitter)
  }

  /** Where the clock may stand while the thread is at each of its statements. */
  predicate Clocked(w: World, now: nat, stamp: nat, polls: nat, thread: ThreadPc) {
    && stamp <= now
    && match thread
       case Starting => now <= w.work && stamp == 0
       case Testing => Slept(w, now, stamp, polls) && now <= stamp + w.Wait()
       case Checking => Slept(w, now, stamp, polls) && now <= stamp + w.Wait()
       case Bursting(start, _) => stamp + 60000 <= start <= stamp + w.Wait() && start <= now <= start + w.work
       case Sleeping(since) =>
         && Slept(w, since, stamp, polls) && since < stamp + 60000
         && since <= now <= since + SSDP_THREAD_SLEEP + w.jitter && now <= stamp + w.Wait()
       case Exited => true
  }

  predicate ThreadInv(w: World, s: State) {
    && Clocked(w, s.now, s.stamp, s.polls, s.thread)
    && Paced(w, s.bursts)
    && (s.bursts == [] ==> s.stamp <= w.work)
    && (s.bursts != [] ==> s.stamp == s.bursts[|s.bursts| - 1].stop && !s.thread.Starting?)
  }

  /** While less than 60 s passed at the last poll, there were at most eleven sleeps, so the
      one that follows ends within Wait() of the stamp. */
  lemma SleepEnds(w: World, stamp: nat, polls: nat, since: nat, until: nat)
    requires Slept(w, since, stamp, polls) && since < stamp + 60000
    requires until <= since + SSDP_THREAD_SLEEP + w.jitter
    ensures until <= stamp + w.Wait()
  {
    MultipleIsProduct(polls, SSDP_THREAD_SLEEP);
    assert polls < 12;
    MultipleMonotone(polls + 1, 12, SSDP_THREAD_SLEEP + w.jitter);
    MultipleIsProduct(12, SSDP_THREAD_SLEEP + w.jitter);
  }

  lemma PacedSnoc(w: World, bursts: seq<Burst>, b: Burst)
    requires Paced(w, bursts) && b.start <= b.stop <= b.start + w.work
    requires bursts != [] ==>
               bursts[|bursts| - 1].stop + 60000 <= b.start <= bursts[|bursts| - 1].stop + w.Wait()
    ensures Paced(w, bursts + [b])
  {
    var all := bursts + [b];
    forall i | 0 < i < |all| ensures all[i - 1].stop + 60000 <= all[i].start <= all[i - 1].stop + w.Wait() {
      if i < |bursts| { assert all[i] == bursts[i] && all[i - 1] == bursts[i - 1]; }
    }
  }

  /** The test against REANNOUNCE_SECONDS passes exactly where the time modulo 2^32 s
      reaches 60000 ms, which below the wrap is from 60000 ms on. */
  lemma PollExact(ms: nat)
    ensures ElapsedSeconds(ms) >= REANNOUNCE_SECONDS <==> ms % (SECONDS_WRAP * 1000) >= 60000
    ensures ms < SECONDS_WRAP * 1000 ==> (ElapsedSeconds(ms) >= REANNOUNCE_SECONDS <==> ms >= 60000)
  {
    ElapsedIsRemainder(ms, REANNOUNCE_SECONDS);
    RemainderBelow(ms, SECONDS_WRAP * 1000);
  }

  lemma PollBelowWrap(ms: nat)
    requires ms < SECONDS_WRAP * 1000
    ensures ElapsedSeconds(ms) >= REANNOUNCE_SECONDS <==> ms >= 60000
  {
    PollExact(ms);
  }

  lemma ThreadInvStep(w: World, s: State, step: Step)
    requires w.Timed() && ThreadInv(w, s) && Enabled(w, s, step)
    ensures ThreadInv(w, Effect(w, s, step))
  {
    match step
    case Tick(d) =>
      if s.thread.Sleeping? { SleepEnds(w, s.stamp, s.polls, s.thread.since, s.now + d); }
    case Start(_) => assert Effect(w, s, step).bursts == s.bursts;
    case Shutdown => assert Effect(w, s, step).bursts == s.bursts;
    case Search(_) => assert Effect(w, s, step).bursts == s.bursts;
    case Reply => assert Effect(w, s, step).bursts == s.bursts;
    case Caller(delivered) => CallerKeepsClock(w, s, delivered);
    case Thread(delivered) => ThreadInvThread(w, s, delivered);
  }

  lemma CallerKeepsClock(w: World, s: State, delivered: bool)
    ensures var s' := CallerEffect(w, s, delivered);
            && s'.now == s.now && s'.stamp == s.stamp && s'.polls == s.polls && s'.thread == s.thread
            && s'.bursts == s.bursts && s'.run == s.run && s'.queue == s.queue
  {
  }

  lemma ThreadInvThread(w: World, s: State, delivered: bool)
    requires w.Timed() && ThreadInv(w, s)
    requires s.thread.Sleeping? ==> s.now >= s.thread.since + SSDP_THREAD_SLEEP
    ensures ThreadInv(w, ThreadEffect(w, s, delivered))
  {
    match s.thread
    case Checking => ThreadInvChecks(w, s, delivered);
    case Bursting(_, _) => ThreadInvBurst(w, s, delivered);
    case Sleeping(_) => ThreadInvWakes(w, s, delivered);
    case _ =>
  }

  lemma ThreadInvChecks(w: World, s: State, delivered: bool)
    requires w.Timed() && ThreadInv(w, s) && s.thread.Checking?
    ensures ThreadInv(w, ThreadEffect(w, s, delivered))
  {
    CheckIsComparison(w, s, delivered);
  }

  /** Below the wrap, a look at the clock starts a burst from 60 s on and a sleep before. */
  lemma CheckIsComparison(w: World, s: State, delivered: bool)
    requires s.thread.Checking? && s.stamp <= s.now < s.stamp + SECONDS_WRAP * 1000
    ensures ThreadEffect(w, s, delivered) ==
            if s.now - s.stamp >= 60000
            then s.(thread := Bursting(s.now, 0), ear := s.ear.(heard := false),
                    late := if s.run then s.late else s.late + 1)
            else s.(thread := Sleeping(s.now))
  {
    PollBelowWrap(s.now - s.stamp);
  }

  lemma ThreadInvWakes(w: World, s: State, delivered: bool)
    requires ThreadInv(w, s) && s.thread.Sleeping? && s.now >= s.thread.since + SSDP_THREAD_SLEEP
    ensures ThreadInv(w, ThreadEffect(w, s, delivered))
  {
    assert Multiple(s.polls + 1, SSDP_THREAD_SLEEP) == Multiple(s.polls, SSDP_THREAD_SLEEP) + SSDP_THREAD_SLEEP;
    assert ThreadEffect(w, s, delivered) == s.(polls := s.polls + 1, thread := Testing);
  }

  lemma ThreadInvBurst(w: World, s: State, delivered: bool)
    requires ThreadInv(w, s) && s.thread.Bursting?
    ensures ThreadInv(w, ThreadEffect(w, s, delivered))
  {
    if s.thread.i >= |w.up| { PacedSnoc(w, s.bursts, Burst(s.thread.start, s.now)); }
  }

  lemma {:induction false} ThreadInvAlways(w: World, steps: seq<Step>)
    requires w.Timed() && Run(w, steps).Some?
    ensures ThreadInv(w, Run(w, steps).value)
  {
    if steps != [] {
      var before := steps[..|steps| - 1];
      ThreadInvAlways(w, before);
      ThreadInvStep(w, Run(w, before).value, steps[|steps| - 1]);
    }
  }

  lemma {:induction false} BurstDistance(w: World, bursts: seq<Burst>, i: nat, j: nat)
    requires Paced(w, bursts) && i <= j < |bursts|
    ensures bursts[i].start + (j - i) * 60000 <= bursts[j].start
  {
    if i < j { BurstDistance(w, bursts, i, j - 1); }
  }

  /** Number of bursts from i to j when both start within one window of ms milliseconds. */
  predicate InWindow(bursts: seq<Burst>, i: nat, j: nat, ms: nat) {
    i <= j < |bursts| && bursts[j].start <= bursts[i].start + ms
  }

  /** The bursts begun so far, the one in progress as far as it got. */
  function Begun(s: State): seq<Burst> {
    if s.thread.Bursting? then s.bursts + [Burst(s.thread.start, s.now)] else s.bursts
  }

  /** When the last burst ended; the thread starts its clock within work. */
  function LastStop(w: World, s: State): nat {
    if s.bursts == [] then w.work else s.bursts[|s.bursts| - 1].stop
  }

  lemma WindowHolds(w: World, bursts: seq<Burst>, i: nat, j: nat, ms: nat)
    requires Paced(w, bursts) && InWindow(bursts, i, j, ms)
    ensures j - i + 1 <= 1 + ms / 60000
  {
    BurstDistance(w, bursts, i, j);
    assert (j - i) * 60000 <= ms;
  }

  lemma BegunPaced(w: World, s: State)
    requires ThreadInv(w, s)
    ensures Paced(w, Begun(s))
  {
    if s.thread.Bursting? { PacedSnoc(w, s.bursts, Burst(s.thread.start, s.now)); }
  }

  lemma NeverOverdue(w: World, s: State)
    requires ThreadInv(w, s) && !s.thread.Bursting? && !s.thread.Exited?
    ensures s.now <= LastStop(w, s) + w.Wait()
  {
  }

  /** No burst starts half a lease after the one before. */
  predicate WithinHalfLease(bursts: seq<Burst>) {
    forall i | 0 < i < |bursts| :: 2 * (bursts[i].start - bursts[i - 1].start) < ANNOUNCE_INTERVAL * 1000
  }

  lemma PacedHalfLease(w: World, bursts: seq<Burst>)
    requires Paced(w, bursts) && w.jitter + w.work < 835000
    ensures WithinHalfLease(bursts)
  {
  }

  /** Any window of length ms holds at most 1 + ms / 60000 burst starts. */
  ghost predicate Sparse(bursts: seq<Burst>) {
    forall i, j, ms :: InWindow(bursts, i, j, ms) ==> j - i + 1 <= 1 + ms / 60000
  }

  lemma PacedSparse(w: World, bursts: seq<Burst>)
    requires Paced(w, bursts)
    ensures Sparse(bursts)
  {
    forall i, j, ms | InWindow(bursts, i, j, ms) ensures j - i + 1 <= 1 + ms / 60000 {
      WindowHolds(w, bursts, i, j, ms);
    }
  }

  /** Cadence of every run, the burst in progress included: the pacing above, any window of
      length ms holds at most 1 + ms / 60000 burst starts, and while jitter + work < 835 s
      two starts are less than half the advertised max-age apart. And bursts do not cease:
      while the flag is set the clock does not pass the last stop by more than Wait()
      without a burst being in progress. */
  lemma AnnouncementCadence(w: World, steps: seq<Step>)
    requires w.Timed() && Run(w, steps).Some?
    ensures var s := Run(w, steps).value;
            && Paced(w, Begun(s))
            && Sparse(Begun(s))
            && (w.jitter + w.work < 835000 ==> WithinHalfLease(Begun(s)))
            && (s.run && !s.thread.Bursting? ==> s.now <= LastStop(w, s) + w.Wait())
  {
    ThreadInvAlways(w, steps);
    RunFlag(w, steps);
    var s := Run(w, steps).value;
    BegunPaced(w, s);
    PacedSparse(w, Begun(s));
    if w.jitter + w.work < 835000 { PacedHalfLease(w, Begun(s)); }
    if s.run && !s.thread.Bursting? { NeverOverdue(w, s); }
  }

  // --------------------------------------------------------- lease freshness

  /** With m bursts missed since the record was touched, the thread's last stamp, or the
      start of the burst in progress, lies at most so many gaps after the record. */
  predicate EarInv(w: World, now: nat, stamp: nat, thread: ThreadPc, ear: Ear) {
    ear.record.Some? ==>
      var t, m := ear.record.value, ear.missed;
      && t <= now
      && m < w.patience
      && match thread
         case Starting => m == 0
         case Bursting(start, _) =>
           if ear.heard then m == 0 && start <= t else start <= t + Multiple(m, w.Gap()) + w.Gap()
         case Exited => true
         case _ => stamp <= t + Multiple(m, w.Gap()) + w.work
  }

  lemma EarInvSend(w: World, s: State, signal: Signal, delivered: bool)
    requires w.patience > 0
    requires Clocked(w, s.now, s.stamp, s.polls, s.thread) && EarInv(w, s.now, s.stamp, s.thread, s.ear)
    ensures EarInv(w, s.now, s.stamp, s.thread, Hear(w, s.ear, signal, s.now, delivered))
  {
  }

  lemma EarInvThread(w: World, s: State, delivered: bool)
    requires w.Timed() && w.patience > 0 && Enabled(w, s, Thread(delivered))
    requires Clocked(w, s.now, s.stamp, s.polls, s.thread) && EarInv(w, s.now, s.stamp, s.thread, s.ear)
    ensures var s' := ThreadEffect(w, s, delivered);
            EarInv(w, s'.now, s'.stamp, s'.thread, s'.ear)
  {
    if s.thread.Bursting? && s.thread.i < |w.up| {
      EarInvSend(w, s, w.up[s.thread.i], delivered);
    }
  }

  lemma EarInvStep(w: World, s: State, step: Step)
    requires w.Timed() && w.patience > 0 && Enabled(w, s, step)
    requires Clocked(w, s.now, s.stamp, s.polls, s.thread) && EarInv(w, s.now, s.stamp, s.thread, s.ear)
    ensures var s' := Effect(w, s, step);
            EarInv(w, s'.now, s'.stamp, s'.thread, s'.ear)
  {
    match step
    case Thread(delivered) => EarInvThread(w, s, delivered);
    case Caller(delivered) =>
      CallerKeepsClock(w, s, delivered);
      var s' := CallerEffect(w, s, delivered);
      if s'.ear != s.ear {
        var signal :| s'.ear == Hear(w, s.ear, signal, s.now, delivered);
        EarInvSend(w, s, signal, delivered);
      }
    case _ =>
  }

  lemma {:induction false} EarInvAlways(w: World, steps: seq<Step>)
    requires w.Timed() && w.patience > 0 && Run(w, steps).Some?
    ensures var s := Run(w, steps).value;
            ThreadInv(w, s) && EarInv(w, s.now, s.stamp, s.thread, s.ear)
  {
    ThreadInvAlways(w, steps);
    if steps != [] {
      var before := steps[..|steps| - 1];
      EarInvAlways(w, before);
      EarInvStep(w, Run(w, before).value, steps[|steps| - 1]);
    }
  }

  /** The record is at most one gap for each burst missed, one more gap, and one burst old. */
  lemma AgeBound(w: World, s: State)
    requires ThreadInv(w, s) && EarInv(w, s.now, s.stamp, s.thread, s.ear)
    requires !s.thread.Exited? && s.ear.record.Some?
    ensures s.ear.record.value <= s.now <= s.ear.record.value + Multiple(s.ear.missed + 1, w.Gap()) + w.work
    ensures s.ear.missed < w.patience
  {
    assert Multiple(s.ear.missed + 1, w.Gap()) == Multiple(s.ear.missed, w.Gap()) + w.Gap();
  }

  lemma MultipleBound(m: nat, k: nat, g: nat)
    requires m <= k
    ensures Multiple(m, g) <= k * g
  {
    MultipleMonotone(m, k, g);
    MultipleIsProduct(k, g);
  }

  lemma OneGap(k: nat, g: nat)
    requires k > 0
    ensures g <= k * g
  {
    MultipleBound(1, k, g);
    assert Multiple(1, g) == Multiple(0, g) + g;
  }

  /** The record a control point holds has not timed out, or there is none. */
  predicate Fresh(s: State) {
    s.run && s.ear.record.Some? ==>
      s.ear.record.value <= s.now && !TimedOut(s.now, s.ear.record.value, ANNOUNCE_INTERVAL)
  }

  lemma YoungIsFresh(s: State, age: nat)
    requires s.run && s.ear.record.Some? ==> s.ear.record.value <= s.now <= s.ear.record.value + age
    requires age < ANNOUNCE_INTERVAL * 1000
    ensures Fresh(s)
  {
    if s.run && s.ear.record.Some? { PassesForAliveExactly(s.now, s.ear.record.value, ANNOUNCE_INTERVAL); }
  }

  lemma FreshState(w: World, s: State)
    requires w.patience > 0 && ThreadInv(w, s) && EarInv(w, s.now, s.stamp, s.thread, s.ear)
    requires s.thread.Exited? ==> !s.run
    requires w.patience * w.Gap() + w.work < ANNOUNCE_INTERVAL * 1000
    ensures Fresh(s)
    ensures s.run && s.ear.record.Some? ==> s.now <= s.ear.record.value + w.patience * w.Gap() + w.work
  {
    if s.run && s.ear.record.Some? {
      AgeBound(w, s);
      MultipleBound(s.ear.missed + 1, w.patience, w.Gap());
    }
    YoungIsFresh(s, w.patience * w.Gap() + w.work);
  }

  /** Lease freshness. A control point that misses fewer than k bursts of the thread in a
      row, with k * (Wait() + work) + work < 1800 s, never finds a record it holds timed out
      while the run flag is set, whatever the caller does meanwhile. */
  lemma LeaseFreshness(w: World, steps: seq<Step>)
    requires w.patience > 0 && Run(w, steps).Some?
    requires w.patience * w.Gap() + w.work < ANNOUNCE_INTERVAL * 1000
    ensures var s := Run(w, steps).value;
            && Fresh(s)
            && (s.run && s.ear.record.Some? ==> s.now <= s.ear.record.value + w.patience * w.Gap() + w.work)
  {
    OneGap(w.patience, w.Gap());
    EarInvAlways(w, steps);
    RunFlag(w, steps);
    FreshState(w, Run(w, steps).value);
  }

  /** The thread leaves its loop only after the flag was cleared. */
  lemma {:induction false} RunFlag(w: World, steps: seq<Step>)
    requires Run(w, steps).Some?
    ensures Run(w, steps).value.thread.Exited? ==> !Run(w, steps).value.run
  {
    if steps != [] {
      var before := steps[..|steps| - 1];
      RunFlag(w, before);
      var s, step := Run(w, before).value, steps[|steps| - 1];
      if step.Caller? { CallerKeepsClock(w, s, step.delivered); }
    }
  }

  // ------------------------------------------------- what the trace says last

  /** The last NOTIFY for a namespace. */
  function Last(trace: seq<Event>, nt: string): Option<Kind> {
    if trace == [] then None
    else
      var e := trace[|trace| - 1];
      if e.Notify? && e.signal.nt == nt then Some(e.signal.kind) else Last(trace[..|trace| - 1], nt)
  }

  lemma LastSnoc(trace: seq<Event>, e: Event)
    ensures forall nt :: Last(trace + [e], nt) ==
              if e.Notify? && e.signal.nt == nt then Some(e.signal.kind) else Last(trace, nt)
  {
    assert (trace + [e])[..|trace|] == trace;
  }

  /** The message of this step, if it sends one, is not lost. */
  predicate Arrives(step: Step) {
    match step
    case Thread(delivered) => delivered
    case Caller(delivered) => delivered
    case _ => true
  }

  /** The control point holds a record exactly when it was last told of an alive. */
  predicate RecordIsLast(w: World, s: State) {
    s.ear.record.Some? <==> Last(s.trace, w.tracked) == Some(Up)
  }

  lemma SentIsHeard(w: World, s: State, signal: Signal, byThread: bool)
    requires RecordIsLast(w, s)
    ensures RecordIsLast(w, Send(w, s, signal, byThread, true))
  {
    LastSnoc(s.trace, Notify(signal, byThread));
  }

  lemma RecordStep(w: World, s: State, step: Step)
    requires RecordIsLast(w, s) && Enabled(w, s, step) && Arrives(step)
    ensures RecordIsLast(w, Effect(w, s, step))
  {
    match step
    case Thread(_) =>
      if s.thread.Bursting? && s.thread.i < |w.up| { SentIsHeard(w, s, w.up[s.thread.i], true); }
    case Caller(_) =>
      if s.caller.Calling? && s.caller.i < |Script(w, s.caller.call)| {
        SentIsHeard(w, s, Script(w, s.caller.call)[s.caller.i], false);
      }
      if s.caller.Closing? && s.caller.i < |w.down| { SentIsHeard(w, s, w.down[s.caller.i], false); }
    case Reply => LastSnoc(s.trace, Answer(s.queue[0]));
    case _ =>
  }

  /** In every run without loss, a control point holds a record exactly while the last NOTIFY
      about the namespace is an alive. */
  lemma {:induction false} RecordFollowsTrace(w: World, steps: seq<Step>)
    requires Run(w, steps).Some? && forall i | 0 <= i < |steps| :: Arrives(steps[i])
    ensures RecordIsLast(w, Run(w, steps).value)
  {
    if steps != [] {
      var before := steps[..|steps| - 1];
      RecordFollowsTrace(w, before);
      RecordStep(w, Run(w, before).value, steps[|steps| - 1]);
    }
  }

  /** A burst: all of one kind, about registered namespaces, naming each of them in its
      first round. */
  predicate Covers(script: seq<Signal>, kind: Kind, keys: seq<string>) {
    && |keys| <= |script|
    && (forall i | 0 <= i < |script| :: script[i].kind == kind && script[i].nt in keys)
    && (forall i | 0 <= i < |keys| :: script[i].nt == keys[i])
  }

  predicate Scripted(w: World, keys: seq<string>) {
    Covers(w.up, Up, keys) && Covers(w.down, Down, keys)
  }

  predicate AllLast(trace: seq<Event>, keys: seq<string>, n: int, kind: Kind) {
    forall j | 0 <= j < n && j < |keys| :: Last(trace, keys[j]) == Some(kind)
  }

  ghost predicate OnlyKeys(trace: seq<Event>, keys: seq<string>) {
    forall nt :: Last(trace, nt).Some? ==> nt in keys
  }

  /** From position at on, every NOTIFY is a byebye of the caller. */
  predicate OnlyByesFrom(trace: seq<Event>, at: nat) {
    && at <= |trace|
    && forall i | at <= i < |trace| && trace[i].Notify? :: trace[i].signal.kind.Down? && !trace[i].byThread
  }

  ghost predicate OrderInv(w: World, keys: seq<string>, s: State) {
    && (s.run <==> s.caller.Idle? || s.caller.Calling?)
    && (s.thread.Exited? ==> !s.run)
    && (s.run ==> s.late == 0)
    && s.late + (if !s.run && s.thread.Checking? then 1 else 0) <= 1
    && OnlyKeys(s.trace, keys)
    && match s.caller
       case Idle(last) => last.AnnounceCall? ==> AllLast(s.trace, keys, |keys|, Up)
       case Calling(call, i) => call.AnnounceCall? ==> AllLast(s.trace, keys, i - |w.down|, Up)
       case Joining => true
       case Closing(i) => s.thread.Exited? && OnlyByesFrom(s.trace, s.closedAt) && AllLast(s.trace, keys, i, Down)
       case Gone => s.thread.Exited? && OnlyByesFrom(s.trace, s.closedAt) && AllLast(s.trace, keys, |keys|, Down)
  }

  /** Sending one more alive keeps what is known to be alive. */
  lemma UpKeeps(trace: seq<Event>, keys: seq<string>, n: int, signal: Signal, byThread: bool)
    requires signal.kind.Up? && signal.nt in keys
    ensures AllLast(trace, keys, n, Up) ==> AllLast(trace + [Notify(signal, byThread)], keys, n, Up)
    ensures OnlyKeys(trace, keys) ==> OnlyKeys(trace + [Notify(signal, byThread)], keys)
  {
    LastSnoc(trace, Notify(signal, byThread));
  }

  lemma DownKeeps(trace: seq<Event>, keys: seq<string>, n: int, signal: Signal, byThread: bool)
    requires signal.kind.Down? && signal.nt in keys
    ensures AllLast(trace, keys, n, Down) ==> AllLast(trace + [Notify(signal, byThread)], keys, n, Down)
    ensures OnlyKeys(trace, keys) ==> OnlyKeys(trace + [Notify(signal, byThread)], keys)
  {
    LastSnoc(trace, Notify(signal, byThread));
  }

  lemma OrderInvThread(w: World, keys: seq<string>, s: State, delivered: bool)
    requires Scripted(w, keys) && OrderInv(w, keys, s) && Enabled(w, s, Thread(delivered))
    ensures OrderInv(w, keys, ThreadEffect(w, s, delivered))
  {
    if s.thread.Bursting? && s.thread.i < |w.up| {
      var signal := w.up[s.thread.i];
      UpKeeps(s.trace, keys, |keys|, signal, true);
      if s.caller.Calling? { UpKeeps(s.trace, keys, s.caller.i - |w.down|, signal, true); }
    }
  }

  lemma OrderInvCalling(w: World, keys: seq<string>, s: State, delivered: bool)
    requires Scripted(w, keys) && OrderInv(w, keys, s) && s.caller.Calling?
    ensures OrderInv(w, keys, CallerEffect(w, s, delivered))
  {
    var call, i := s.caller.call, s.caller.i;
    var script := Script(w, call);
    if i < |script| {
      var signal := script[i];
      LastSnoc(s.trace, Notify(signal, false));
      if call.AnnounceCall? && i >= |w.down| {
        assert signal == w.up[i - |w.down|];
        UpKeeps(s.trace, keys, i - |w.down|, signal, false);
      } else {
        assert signal == w.down[i];
        DownKeeps(s.trace, keys, 0, signal, false);
      }
    }
  }

  lemma OrderInvCaller(w: World, keys: seq<string>, s: State, delivered: bool)
    requires Scripted(w, keys) && OrderInv(w, keys, s) && Enabled(w, s, Caller(delivered))
    ensures OrderInv(w, keys, CallerEffect(w, s, delivered))
  {
    match s.caller
    case Calling(_, _) => OrderInvCalling(w, keys, s, delivered);
    case Closing(i) =>
      if i < |w.down| {
        LastSnoc(s.trace, Notify(w.down[i], false));
        DownKeeps(s.trace, keys, i, w.down[i], false);
      }
    case _ =>
  }

  lemma OrderInvStep(w: World, keys: seq<string>, s: State, step: Step)
    requires Scripted(w, keys) && OrderInv(w, keys, s) && Enabled(w, s, step)
    ensures OrderInv(w, keys, Effect(w, s, step))
  {
    match step
    case Thread(delivered) => OrderInvThread(w, keys, s, delivered);
    case Caller(delivered) => OrderInvCaller(w, keys, s, delivered);
    case Reply => LastSnoc(s.trace, Answer(s.queue[0]));
    case _ =>
  }

  lemma {:induction false} OrderInvAlways(w: World, keys: seq<string>, steps: seq<Step>)
    requires Scripted(w, keys) && Run(w, steps).Some?
    ensures OrderInv(w, keys, Run(w, steps).value)
  {
    if steps != [] {
      var before := steps[..|steps| - 1];
      OrderInvAlways(w, keys, before);
      OrderInvStep(w, keys, Run(w, before).value, steps[|steps| - 1]);
    }
  }

  /** Shutdown safety. After the flag is cleared the thread begins at most one more burst;
      once the destructor begins to send, the thread is gone and every NOTIFY is a byebye
      of the destructor, so no alive comes after its first byebye; and when it is done the
      last NOTIFY about every registered namespace is a byebye. */
  lemma ShutdownSafety(w: World, keys: seq<string>, steps: seq<Step>)
    requires Scripted(w, keys) && Run(w, steps).Some?
    ensures var s := Run(w, steps).value;
            && (s.run ==> s.late == 0)
            && s.late <= 1
            && (s.caller.Closing? || s.caller.Gone? ==>
                  && s.thread.Exited?
                  && (forall i | 0 <= i < |s.trace| && s.trace[i].Notify? ::
                        (s.trace[i].signal.kind.Up? || s.trace[i].byThread ==> i < s.closedAt)))
            && (s.caller.Gone? ==> forall nt | nt in keys :: Last(s.trace, nt) == Some(Down))
  {
    OrderInvAlways(w, keys, steps);
  }
}
