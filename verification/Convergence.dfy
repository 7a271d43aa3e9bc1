/** What a control point's table of live services holds, when it reads the messages of
    the server in the order they are sent. Ties the bursts of Discovery to the messages
    SsdpServer sends. */
module Convergence {
  import opened Text
  import opened StdMap
  import opened Ssdp
  import opened Discovery

  // ----------------------------------------------------- bursts and messages

  /** The message a signal stands for. */
  function Render(c: Config, ns: Namespaces, signal: Signal): Notice {
    if signal.kind.Down? then Bye(c, signal.nt)
    else Alive(c, signal.nt, if signal.nt in ns then ns[signal.nt] else "")
  }

  function RenderAll(c: Config, ns: Namespaces, signals: seq<Signal>): seq<Notice> {
    seq(|signals|, i requires 0 <= i < |signals| => Render(c, ns, signals[i]))
  }

  function Round(kind: Kind, keys: seq<string>): seq<Signal> {
    seq(|keys|, i requires 0 <= i < |keys| => Signal(kind, keys[i]))
  }

  /** The world in which the server with these namespaces runs. */
  predicate Serves(w: World, ns: Namespaces) {
    && w.up == Repeat(Round(Up, Keys(ns)), NETWORK_COUNT)
    && w.down == Repeat(Round(Down, Keys(ns)), NETWORK_COUNT)
  }

  lemma {:induction false} RenderRepeat(c: Config, ns: Namespaces, round: seq<Signal>, n: nat)
    ensures RenderAll(c, ns, Repeat(round, n)) == Repeat(RenderAll(c, ns, round), n)
  {
    if n > 0 {
      RenderRepeat(c, ns, round, n - 1);
      RenderConcat(c, ns, Repeat(round, n - 1), round);
    }
  }

  lemma RenderConcat(c: Config, ns: Namespaces, a: seq<Signal>, b: seq<Signal>)
    ensures RenderAll(c, ns, a + b) == RenderAll(c, ns, a) + RenderAll(c, ns, b)
  {
  }

  lemma RenderRounds(c: Config, ns: Namespaces)
    ensures RenderAll(c, ns, Round(Up, Keys(ns))) == AliveRound(c, ns)
    ensures RenderAll(c, ns, Round(Down, Keys(ns))) == ByeRound(c, ns)
  {
  }

  /** The bursts of the protocol are exactly the messages SsdpServer sends for them. */
  lemma BurstsAreMessages(w: World, c: Config, ns: Namespaces)
    requires Serves(w, ns)
    ensures RenderAll(c, ns, w.up) == AliveBurst(c, ns)
    ensures RenderAll(c, ns, w.down) == ByeBurst(c, ns)
    ensures RenderAll(c, ns, Script(w, SuppressCall)) == ByeBurst(c, ns)
    ensures RenderAll(c, ns, Script(w, AnnounceCall)) == ByeBurst(c, ns) + AliveBurst(c, ns)
  {
    RenderRepeat(c, ns, Round(Up, Keys(ns)), NETWORK_COUNT);
    RenderRepeat(c, ns, Round(Down, Keys(ns)), NETWORK_COUNT);
    RenderRounds(c, ns);
    RenderConcat(c, ns, w.down, w.up);
  }

  lemma BurstCovers(kind: Kind, keys: seq<string>)
    ensures Covers(Repeat(Round(kind, keys), NETWORK_COUNT), kind, keys)
  {
    var round := Round(kind, keys);
    var burst := Repeat(round, NETWORK_COUNT);
    RepeatLength(round, NETWORK_COUNT);
    forall i | 0 <= i < |burst|
      ensures burst[i].kind == kind && burst[i].nt in keys && (i < |keys| ==> burst[i].nt == keys[i])
    {
      RepeatEntries(round, NETWORK_COUNT, i);
      var j :| 0 <= j < |round| && burst[i] == round[j] && (i < |round| ==> j == i);
      assert round[j].nt == keys[j];
    }
  }

  lemma ServesScripted(w: World, ns: Namespaces)
    requires Serves(w, ns)
    ensures Scripted(w, Keys(ns))
  {
    BurstCovers(Up, Keys(ns));
    BurstCovers(Down, Keys(ns));
  }

  // --------------------------------------------------------------- the table

  type Table = map<string, string>

  function Field(m: Notice, name: string): string {
    if name in m.headers then m.headers[name] else ""
  }

  /** A control point reads a NOTIFY: alive adds the USN with its location, byebye drops it. */
  function Learn(table: Table, m: Notice): Table {
    if Field(m, "NTS") == STATUS_ALIVE then table[Field(m, "USN") := Field(m, "LOCATION")]
    else if Field(m, "NTS") == STATUS_BYE then table - {Field(m, "USN")}
    else table
  }

  function LearnAll(c: Config, ns: Namespaces, trace: seq<Event>): Table {
    if trace == [] then map[]
    else
      var before := LearnAll(c, ns, trace[..|trace| - 1]);
      match trace[|trace| - 1]
      case Notify(signal, _) => Learn(before, Render(c, ns, signal))
      case Answer(_) => before
  }

  lemma LearnRendered(c: Config, ns: Namespaces, table: Table, nt: string)
    requires nt in ns
    ensures Learn(table, Render(c, ns, Signal(Up, nt))) == table[Usn(c, nt) := ns[nt]]
    ensures Learn(table, Render(c, ns, Signal(Down, nt))) == table - {Usn(c, nt)}
  {
    BuilderFields(c, nt, ns[nt]);
  }

  /** What a control point does with the texts of a NOTIFY. */
  lemma LearnTexts(c: Config, table: Table, nt: string, location: string, m: Notice)
    ensures Learn(table, AliveText(c, nt, location)) == table["uuid:" + c.uuid + "::" + nt := location]
    ensures Learn(table, ByeText(c, nt)) == table - {"uuid:" + c.uuid + "::" + nt}
    ensures Field(m, "NTS") != "ssdp:alive" && Field(m, "NTS") != "ssdp:byebye" ==> Learn(table, m) == table
  {
  }

  /** The table holds this namespace exactly if its last NOTIFY is an alive. */
  predicate TableAt(c: Config, ns: Namespaces, trace: seq<Event>, table: Table, nt: string)
    requires nt in ns
  {
    && (Last(trace, nt) == Some(Up) <==> Usn(c, nt) in table)
    && (Usn(c, nt) in table ==> table[Usn(c, nt)] == ns[nt])
  }

  /** The USN is one of this server's namespaces. */
  predicate Ours(c: Config, ns: Namespaces, usn: string) {
    exists nt | nt in ns :: usn == Usn(c, nt)
  }

  /** The table holds exactly the namespaces whose last NOTIFY is an alive. */
  predicate TableIsLast(c: Config, ns: Namespaces, trace: seq<Event>, table: Table) {
    && (forall nt | nt in ns :: TableAt(c, ns, trace, table, nt))
    && (forall u | u in table :: Ours(c, ns, u))
  }

  predicate Registered(ns: Namespaces, trace: seq<Event>) {
    forall i | 0 <= i < |trace| && trace[i].Notify? :: trace[i].signal.nt in ns
  }

  lemma TableAtStep(c: Config, ns: Namespaces, trace: seq<Event>, table: Table, signal: Signal, byThread: bool,
                    nt: string)
    requires signal.nt in ns && nt in ns && TableAt(c, ns, trace, table, nt)
    ensures TableAt(c, ns, trace + [Notify(signal, byThread)], Learn(table, Render(c, ns, signal)), nt)
  {
    LastSnoc(trace, Notify(signal, byThread));
    LearnRendered(c, ns, table, signal.nt);
    if Usn(c, nt) == Usn(c, signal.nt) { UsnInjective(c, nt, signal.nt); }
  }

  lemma TableStep(c: Config, ns: Namespaces, trace: seq<Event>, table: Table, signal: Signal, byThread: bool)
    requires signal.nt in ns && TableIsLast(c, ns, trace, table)
    ensures TableIsLast(c, ns, trace + [Notify(signal, byThread)], Learn(table, Render(c, ns, signal)))
  {
    var table' := Learn(table, Render(c, ns, signal));
    forall nt | nt in ns ensures TableAt(c, ns, trace + [Notify(signal, byThread)], table', nt) {
      TableAtStep(c, ns, trace, table, signal, byThread, nt);
    }
    LearnRendered(c, ns, table, signal.nt);
    assert Ours(c, ns, Usn(c, signal.nt));
  }

  lemma {:induction false} TableFollowsLast(c: Config, ns: Namespaces, trace: seq<Event>)
    requires Registered(ns, trace)
    ensures TableIsLast(c, ns, trace, LearnAll(c, ns, trace))
  {
    if trace != [] {
      var before, e := trace[..|trace| - 1], trace[|trace| - 1];
      assert trace == before + [e];
      TableFollowsLast(c, ns, before);
      match e
      case Notify(signal, byThread) => TableStep(c, ns, before, LearnAll(c, ns, before), signal, byThread);
      case Answer(_) => LastSnoc(before, e);
    }
  }

  lemma {:induction false} NotifiedIsLast(trace: seq<Event>, i: nat)
    requires i < |trace| && trace[i].Notify?
    ensures Last(trace, trace[i].signal.nt).Some?
  {
    if i < |trace| - 1 {
      NotifiedIsLast(trace[..|trace| - 1], i);
    }
  }

  lemma RunRegistered(w: World, ns: Namespaces, steps: seq<Step>)
    requires Serves(w, ns) && Run(w, steps).Some?
    ensures Registered(ns, Run(w, steps).value.trace)
    ensures OrderInv(w, Keys(ns), Run(w, steps).value)
  {
    var keys := Keys(ns);
    ServesScripted(w, ns);
    OrderInvAlways(w, keys, steps);
    var trace := Run(w, steps).value.trace;
    forall i | 0 <= i < |trace| && trace[i].Notify? ensures trace[i].signal.nt in ns {
      NotifiedIsLast(trace, i);
    }
  }

  lemma TableOf(c: Config, ns: Namespaces, trace: seq<Event>, table: Table, kind: Kind)
    requires TableIsLast(c, ns, trace, table)
    requires forall nt | nt in ns :: Last(trace, nt) == Some(kind)
    ensures kind.Up? ==> forall nt | nt in ns :: Usn(c, nt) in table && table[Usn(c, nt)] == ns[nt]
    ensures kind.Down? ==> table == map[]
  {
    forall nt | nt in ns ensures kind.Up? <==> Usn(c, nt) in table { assert TableAt(c, ns, trace, table, nt); }
    forall nt | nt in ns && kind.Up? ensures table[Usn(c, nt)] == ns[nt] { assert TableAt(c, ns, trace, table, nt); }
    if kind.Down? {
      assert forall u | u in table :: Ours(c, ns, u);
      assert forall u :: u !in table;
    }
  }

  lemma AllLastKeys(ns: Namespaces, trace: seq<Event>, kind: Kind)
    requires AllLast(trace, Keys(ns), |Keys(ns)|, kind)
    ensures forall nt | nt in ns :: Last(trace, nt) == Some(kind)
  {
    var keys := SortedKeys(ns.Keys);
    forall nt | nt in ns ensures Last(trace, nt) == Some(kind) {
      assert nt in keys;
      var j :| 0 <= j < |keys| && keys[j] == nt;
    }
  }

  /** Start-up convergence. However the thread's bursts interleave with announce, once
      announce has returned (and until the caller does something else) the table of a
      control point maps the USN of every registered namespace to its location and holds
      nothing else from this server; once the destructor is done it holds nothing at all. */
  lemma StartupConvergence(w: World, c: Config, ns: Namespaces, steps: seq<Step>)
    requires Serves(w, ns) && Run(w, steps).Some?
    ensures var s := Run(w, steps).value;
            var table := LearnAll(c, ns, s.trace);
            && (s.caller == Idle(AnnounceCall) ==>
                  && (forall nt | nt in ns :: Usn(c, nt) in table && table[Usn(c, nt)] == ns[nt])
                  && (forall u | u in table :: Ours(c, ns, u)))
            && (s.caller.Gone? ==> table == map[])
  {
    RunRegistered(w, ns, steps);
    var s := Run(w, steps).value;
    var table := LearnAll(c, ns, s.trace);
    TableFollowsLast(c, ns, s.trace);
    if s.caller == Idle(AnnounceCall) {
      AllLastKeys(ns, s.trace, Up);
      TableOf(c, ns, s.trace, table, Up);
    } else if s.caller.Gone? {
      AllLastKeys(ns, s.trace, Down);
      TableOf(c, ns, s.trace, table, Down);
    }
  }

  // ------------------------------------------------- search answers at the end

  /** The world's receive loop is handle_receive of the server with these namespaces. */
  ghost predicate Receives(w: World, c: Config, ns: Namespaces) {
    forall r :: w.react(r) == React(c, ns, r)
  }

  /** The destructor is through, and the last message of all is a search answer. */
  predicate EndsInAnswer(w: World, steps: seq<Step>) {
    && Run(w, steps).Some?
    && var s := Run(w, steps).value;
       s.caller.Gone? && s.trace != [] && s.trace[|s.trace| - 1].Answer?
  }

  /** Shutdown at once: the thread sees the cleared flag, and the caller joins it. */
  lemma StopsAtOnce(w: World) returns (steps: seq<Step>, s: State)
    ensures Run(w, steps) == Some(s) && s.caller == Closing(0) && s.trace == [] && s.queue == []
  {
    var s1 := Effect(w, Init(), Thread(true));
    var s2 := Effect(w, s1, Shutdown);
    var s3 := Effect(w, s2, Thread(true));
    RunSnoc(w, [], Init(), Thread(true));
    RunSnoc(w, [] + [Thread(true)], s1, Shutdown);
    RunSnoc(w, [] + [Thread(true)] + [Shutdown], s2, Thread(true));
    RunSnoc(w, [] + [Thread(true)] + [Shutdown] + [Thread(true)], s3, Caller(true));
    steps := [] + [Thread(true)] + [Shutdown] + [Thread(true)] + [Caller(true)];
    s := Effect(w, s3, Caller(true));
  }

  function Byes(w: World, n: nat): seq<Event>
    requires n <= |w.down|
  {
    seq(n, i requires 0 <= i < n => Notify(w.down[i], false))
  }

  /** One byebye of the destructor. */
  lemma Closes(w: World, steps: seq<Step>, s: State, i: nat) returns (after: State)
    requires Run(w, steps) == Some(s) && s.caller == Closing(i) && i < |w.down|
    ensures Run(w, steps + [Caller(true)]) == Some(after)
    ensures after.caller == Closing(i + 1) && after.trace == s.trace + [Notify(w.down[i], false)]
    ensures after.queue == s.queue
  {
    RunSnoc(w, steps, s, Caller(true));
    after := Effect(w, s, Caller(true));
  }

  lemma ClosesAll(w: World) returns (steps: seq<Step>, s: State)
    ensures Run(w, steps) == Some(s) && s.caller == Closing(|w.down|)
    ensures s.trace == Byes(w, |w.down|) && s.queue == []
  {
    steps, s := StopsAtOnce(w);
    for i := 0 to |w.down|
      invariant Run(w, steps) == Some(s) && s.caller == Closing(i) && s.trace == Byes(w, i) && s.queue == []
    {
      s := Closes(w, steps, s, i);
      steps := steps + [Caller(true)];
    }
  }

  /** A request that is owed a reply, received between the last byebye and the end. */
  lemma AnswersLast(w: World, r: Request) returns (steps: seq<Step>)
    requires w.react(r).Handled? && w.react(r).replies != []
    ensures Run(w, steps).Some? && Run(w, steps).value.caller.Gone?
    ensures Run(w, steps).value.trace == Byes(w, |w.down|) + [Answer(w.react(r).replies[0])]
  {
    var before, s := ClosesAll(w);
    RunSnoc(w, before, s, Search(r));
    var s1 := Effect(w, s, Search(r));
    RunSnoc(w, before + [Search(r)], s1, Reply);
    var s2 := Effect(w, s1, Reply);
    RunSnoc(w, before + [Search(r)] + [Reply], s2, Caller(true));
    steps := before + [Search(r)] + [Reply] + [Caller(true)];
  }

  predicate NoAnswer(s: State) {
    s.queue == [] && forall i | 0 <= i < |s.trace| :: s.trace[i].Notify?
  }

  lemma NoAnswerStep(w: World, s: State, step: Step)
    requires NoAnswer(s) && Enabled(w, s, step)
    requires step.Search? ==> w.react(step.request) == Handled([])
    ensures NoAnswer(Effect(w, s, step))
  {
  }

  /** A server that owes nobody a reply never sends one. */
  lemma {:induction false} NothingOwed(w: World, steps: seq<Step>)
    requires forall r :: w.react(r).Handled? ==> w.react(r).replies == []
    requires Run(w, steps).Some?
    ensures NoAnswer(Run(w, steps).value)
  {
    if steps != [] {
      var before := steps[..|steps| - 1];
      NothingOwed(w, before);
      NoAnswerStep(w, Run(w, before).value, steps[|steps| - 1]);
    }
  }

  lemma SearchIsOwed(c: Config, ns: Namespaces, nt: string)
    requires c.uuid != "" && nt in ns
    ensures RepliesOf(React(c, ns, Request(MSEARCH, map["ST" := nt]))) != []
  {
    var r := Request(MSEARCH, map["ST" := nt]);
    assert Param(r, "ST") == nt && Param(r, "USN") == "";
    assert !Contains("", c.uuid);
    KeysExact(ns);
  }

  lemma NobodyIsOwed(c: Config, ns: Namespaces, r: Request)
    requires c.uuid == "" || ns == map[]
    ensures RepliesOf(React(c, ns, r)) == []
  {
    if c.uuid == "" {
      EmptyUuidAnswersNobody(c, ns, r);
    } else {
      KeysExact(ns);
    }
  }

  /** Some request is owed a reply exactly when the uuid is not empty and something is
      registered. */
  lemma SomebodyIsOwed(c: Config, ns: Namespaces)
    ensures (exists r :: RepliesOf(React(c, ns, r)) != []) <==> c.uuid != "" && ns != map[]
  {
    if c.uuid != "" && ns != map[] {
      var nt :| nt in ns;
      SearchIsOwed(c, ns, nt);
    } else {
      forall r ensures RepliesOf(React(c, ns, r)) == [] { NobodyIsOwed(c, ns, r); }
    }
  }

  /** The receive loop still answers searches while the destructor says goodbye, so the
      ordering claims cover NOTIFY only. The last message of a server can be a search answer,
      after all byebyes, exactly when the server has a uuid and something registered. */
  lemma AnswerAfterByebye(w: World, c: Config, ns: Namespaces)
    requires Receives(w, c, ns)
    ensures (exists steps :: EndsInAnswer(w, steps)) <==> c.uuid != "" && ns != map[]
    ensures c.uuid != "" && ns != map[] ==>
              exists steps, notice :: EndsInAnswer(w, steps)
                && Run(w, steps).value.trace == Byes(w, |w.down|) + [Answer(notice)]
  {
    SomebodyIsOwed(c, ns);
    if c.uuid != "" && ns != map[] {
      var r :| RepliesOf(React(c, ns, r)) != [];
      var steps := AnswersLast(w, r);
      assert EndsInAnswer(w, steps);
    } else {
      forall r | w.react(r).Handled? ensures w.react(r).replies == [] { assert RepliesOf(React(c, ns, r)) == []; }
      forall steps ensures !EndsInAnswer(w, steps) {
        if Run(w, steps).Some? { NothingOwed(w, steps); }
      }
    }
  }
}
