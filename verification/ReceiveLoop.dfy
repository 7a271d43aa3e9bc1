/** The receive loop of src/ssdpserverconnection.cpp: one shared sender_endpoint and one
    shared buffer, overwritten by every completed receive and read again by every reply.
    Each step below is one event the io_service can interleave with the others. */
module ReceiveLoop {
  import opened Text
  import opened Ssdp

  type Endpoint = string

  /** The handler given to the connection, SSDPServerImpl::handle_receive. */
  type Handler = Request -> Reaction

  datatype Datagram = Datagram(from: Endpoint, request: Request)

  datatype Sent = Sent(to: Endpoint, notice: Notice)

  datatype Phase =
    | Free
    | Replying(replies: seq<Notice>, i: nat)
    | Dead

  /** outstanding counts armed receives, pending counts completed ones whose callback has
      not run yet, failed tells that the last one completed with an error; endpoint and data
      are the shared variables. */
  datatype Loop = Loop(outstanding: nat, pending: nat, failed: bool, endpoint: Endpoint, data: Request,
                       phase: Phase, log: seq<Sent>, taken: seq<Datagram>)

  datatype Step = Complete(d: Datagram) | Fail | Begin | Reply | Rearm

  /** The constructor arms the first receive. */
  function Init(): Loop {
    Loop(1, 0, false, "", Request("", map[]), Free, [], [])
  }

  predicate Enabled(l: Loop, step: Step) {
    match step
    case Complete(_) => l.outstanding > 0
    case Fail => l.outstanding > 0
    case Begin => l.pending > 0 && l.phase.Free?
    case Reply => l.phase.Replying? && l.phase.i < |l.phase.replies|
    case Rearm => l.phase.Replying? && l.phase.i >= |l.phase.replies|
  }

  function Effect(handler: Handler, l: Loop, step: Step): Loop
    requires Enabled(l, step)
  {
    match step
    case Complete(d) =>
      l.(outstanding := l.outstanding - 1, pending := l.pending + 1, endpoint := d.from, data := d.request,
         taken := l.taken + [d])
    case Fail => l.(outstanding := l.outstanding - 1, pending := l.pending + 1, failed := true)
    case Begin =>
      if l.failed then l.(pending := l.pending - 1)
      else
        (match handler(l.data)
         case Handled(replies) => l.(pending := l.pending - 1, phase := Replying(replies, 0))
         case AssertFailed => l.(pending := l.pending - 1, phase := Dead))
    case Reply =>
      l.(log := l.log + [Sent(l.endpoint, l.phase.replies[l.phase.i])],
         phase := Replying(l.phase.replies, l.phase.i + 1))
    case Rearm => l.(outstanding := l.outstanding + 1, phase := Free)
  }

  function Run(handler: Handler, steps: seq<Step>): Option<Loop> {
    if steps == [] then Some(Init())
    else
      match Run(handler, steps[..|steps| - 1])
      case None => None
      case Some(l) =>
        if Enabled(l, steps[|steps| - 1]) then Some(Effect(handler, l, steps[|steps| - 1])) else None
  }

  lemma RunSnoc(handler: Handler, steps: seq<Step>, l: Loop, step: Step)
    requires Run(handler, steps) == Some(l) && Enabled(l, step)
    ensures Run(handler, steps + [step]) == Some(Effect(handler, l, step))
  {
    assert (steps + [step])[..|steps|] == steps;
  }

  // ------------------------------------------------------- what should be sent

  function Addressed(to: Endpoint, notices: seq<Notice>): seq<Sent> {
    seq(|notices|, i requires 0 <= i < |notices| => Sent(to, notices[i]))
  }

  /** One datagram after the other, each answered to its own sender. */
  function Answers(handler: Handler, ds: seq<Datagram>): seq<Sent> {
    if ds == [] then []
    else
      var d := ds[|ds| - 1];
      Answers(handler, ds[..|ds| - 1]) + Addressed(d.from, RepliesOf(handler(d.request)))
  }

  // --------------------------------------------------------------- invariant

  /** Receives armed, completed, or being handled. */
  function Tokens(l: Loop): nat {
    l.outstanding + l.pending + if l.phase.Replying? then 1 else 0
  }

  /** The loop has ended: the handler failed its assertion, or a receive failed and its
      callback has run, which arms no other. */
  predicate Ended(l: Loop) {
    l.phase.Dead? || (l.failed && l.pending == 0)
  }

  /** While a datagram is in hand, the shared variables are still its own. */
  predicate InHand(l: Loop) {
    l.taken != [] && l.endpoint == l.taken[|l.taken| - 1].from && l.data == l.taken[|l.taken| - 1].request
  }

  predicate Inv(handler: Handler, l: Loop) {
    && Tokens(l) == (if Ended(l) then 0 else 1)
    && (l.failed ==> l.outstanding == 0 && !l.phase.Replying?)
    && if l.pending > 0 && !l.failed then
         InHand(l) && l.phase.Free? && l.log == Answers(handler, l.taken[..|l.taken| - 1])
       else if l.phase.Replying? then
         && InHand(l)
         && handler(l.data) == Handled(l.phase.replies)
         && l.phase.i <= |l.phase.replies|
         && l.log == Answers(handler, l.taken[..|l.taken| - 1]) + Addressed(l.endpoint, l.phase.replies[..l.phase.i])
       else
         l.log == Answers(handler, l.taken)
  }

  lemma InvBegin(handler: Handler, l: Loop)
    requires Inv(handler, l) && Enabled(l, Begin)
    ensures Inv(handler, Effect(handler, l, Begin))
  {
    if !l.failed {
      var before := Answers(handler, l.taken[..|l.taken| - 1]);
      assert before + [] == before;
      assert Addressed(l.endpoint, []) == [];
    }
  }

  lemma InvReply(handler: Handler, l: Loop)
    requires Inv(handler, l) && Enabled(l, Reply)
    ensures Inv(handler, Effect(handler, l, Reply))
  {
    AddressedSnoc(l.endpoint, l.phase.replies, l.phase.i);
  }

  lemma InvRearm(handler: Handler, l: Loop)
    requires Inv(handler, l) && Enabled(l, Rearm)
    ensures Inv(handler, Effect(handler, l, Rearm))
  {
    assert l.phase.replies[..l.phase.i] == l.phase.replies;
  }

  lemma InvStep(handler: Handler, l: Loop, step: Step)
    requires Inv(handler, l) && Enabled(l, step)
    ensures Inv(handler, Effect(handler, l, step))
  {
    match step
    case Complete(d) => assert (l.taken + [d])[..|l.taken|] == l.taken;
    case Fail =>
    case Begin => InvBegin(handler, l);
    case Reply => InvReply(handler, l);
    case Rearm => InvRearm(handler, l);
  }

  lemma {:induction false} InvAlways(handler: Handler, steps: seq<Step>)
    requires Run(handler, steps).Some?
    ensures Inv(handler, Run(handler, steps).value)
  {
    if steps != [] {
      var before := steps[..|steps| - 1];
      InvAlways(handler, before);
      InvStep(handler, Run(handler, before).value, steps[|steps| - 1]);
    }
  }

  /** Reply routing. In every run at most one receive is outstanding, none while a request
      is handled, and what was sent so far is a prefix of answering each datagram to the
      endpoint it came from: all of it whenever no datagram is in hand. */
  lemma ReplyRouting(handler: Handler, steps: seq<Step>)
    requires Run(handler, steps).Some?
    ensures var l := Run(handler, steps).value;
            && l.outstanding <= 1
            && (l.pending > 0 || l.phase.Replying? ==> forall d :: !Enabled(l, Complete(d)))
            && l.log <= Answers(handler, l.taken)
            && (l.outstanding == 1 ==> l.log == Answers(handler, l.taken))
  {
    InvAlways(handler, steps);
    var l := Run(handler, steps).value;
    if l.phase.Replying? {
      assert Addressed(l.endpoint, l.phase.replies[..l.phase.i]) <= Addressed(l.endpoint, l.phase.replies);
    }
  }

  /** In every run there is exactly one receive, armed, completed or being handled, until
      the loop has ended; and exactly then no step is left, so that after one failed receive
      no search is ever answered again. */
  lemma ListensExactly(handler: Handler, steps: seq<Step>)
    requires Run(handler, steps).Some?
    ensures var l := Run(handler, steps).value;
            && Tokens(l) == (if Ended(l) then 0 else 1)
            && (Ended(l) <==> forall step :: !Enabled(l, step))
  {
    InvAlways(handler, steps);
    var l := Run(handler, steps).value;
    if !Ended(l) {
      assert l.outstanding > 0 ==> Enabled(l, Fail);
      assert l.phase.Replying? ==> Enabled(l, Reply) || Enabled(l, Rearm);
      assert l.pending > 0 && l.phase.Free? ==> Enabled(l, Begin);
    }
  }

  lemma AddressedSnoc(to: Endpoint, notices: seq<Notice>, i: nat)
    requires i < |notices|
    ensures Addressed(to, notices[..i + 1]) == Addressed(to, notices[..i]) + [Sent(to, notices[i])]
  {
  }

  // ------------------------------------------------------------- the callback

  function Replies(n: nat): seq<Step> {
    seq(n, _ => Reply)
  }

  /** The steps of one call of the callback: none of them can be delayed by another call. */
  function Callback(handler: Handler, l: Loop): seq<Step> {
    if l.failed || handler(l.data).AssertFailed? then [Begin]
    else [Begin] + Replies(|handler(l.data).replies|) + [Rearm]
  }

  /** What the call leaves behind. */
  function AfterCallback(handler: Handler, l: Loop): Loop
    requires l.pending > 0
  {
    if l.failed then l.(pending := l.pending - 1)
    else if handler(l.data).AssertFailed? then l.(pending := l.pending - 1, phase := Dead)
    else
      l.(pending := l.pending - 1, outstanding := l.outstanding + 1,
         log := l.log + Addressed(l.endpoint, handler(l.data).replies))
  }

  lemma {:induction false} RepliesRun(handler: Handler, steps: seq<Step>, l: Loop, n: nat)
    requires Run(handler, steps) == Some(l) && l.phase.Replying? && l.phase.i == 0 && n <= |l.phase.replies|
    ensures Run(handler, steps + Replies(n)) ==
            Some(l.(log := l.log + Addressed(l.endpoint, l.phase.replies[..n]), phase := Replying(l.phase.replies, n)))
  {
    if n == 0 {
      assert steps + Replies(0) == steps;
      assert l.log + Addressed(l.endpoint, []) == l.log;
    } else {
      RepliesRun(handler, steps, l, n - 1);
      AddressedSnoc(l.endpoint, l.phase.replies, n - 1);
      assert steps + Replies(n) == steps + Replies(n - 1) + [Reply];
      var before := l.(log := l.log + Addressed(l.endpoint, l.phase.replies[..n - 1]),
                       phase := Replying(l.phase.replies, n - 1));
      RunSnoc(handler, steps + Replies(n - 1), before, Reply);
      assert Effect(handler, before, Reply).log == l.log + Addressed(l.endpoint, l.phase.replies[..n]);
    }
  }

  lemma CallbackRuns(handler: Handler, steps: seq<Step>, l: Loop)
    requires Run(handler, steps) == Some(l) && Enabled(l, Begin)
    ensures Run(handler, steps + Callback(handler, l)) == Some(AfterCallback(handler, l))
  {
    RunSnoc(handler, steps, l, Begin);
    if !l.failed && handler(l.data).Handled? {
      var replies := handler(l.data).replies;
      var n, begun := |replies|, Effect(handler, l, Begin);
      RepliesRun(handler, steps + [Begin], begun, n);
      assert replies[..n] == replies;
      var done := begun.(log := l.log + Addressed(l.endpoint, replies), phase := Replying(replies, n));
      RunSnoc(handler, steps + [Begin] + Replies(n), done, Rearm);
      assert steps + Callback(handler, l) == steps + [Begin] + Replies(n) + [Rearm];
      assert AfterCallback(handler, l) == Effect(handler, done, Rearm);
    }
  }

  /** SSDPServerConnection. steps is its history as a run of the loop above; taken and
      pending are what asio delivered and has still to report. */
  class Connection {
    const handler: Handler
    var outstanding: nat
    var senderEndpoint: Endpoint
    var data: Request
    var log: seq<Sent>
    ghost var pending: nat
    ghost var failed: bool
    ghost var dead: bool
    ghost var taken: seq<Datagram>
    ghost var steps: seq<Step>

    ghost function View(): Loop
      reads this
    {
      Loop(outstanding, pending, failed, senderEndpoint, data, if dead then Dead else Free, log, taken)
    }

    ghost predicate Valid()
      reads this
    {
      Run(handler, steps) == Some(View())
    }

    constructor (handler: Handler)
      ensures Valid() && this.handler == handler && steps == []
    {
      this.handler := handler;
      outstanding, log := 1, [];
      senderEndpoint, data := "", Request("", map[]);
      pending, failed, dead, taken, steps := 0, false, false, [], [];
    }

    /** asio fills the shared variables and will call back. */
    method Completes(d: Datagram)
      requires Valid() && outstanding > 0
      modifies this
      ensures Valid() && steps == old(steps) + [Complete(d)]
      ensures senderEndpoint == d.from && data == d.request && log == old(log) && pending > 0
    {
      RunSnoc(handler, steps, View(), Complete(d));
      senderEndpoint, data := d.from, d.request;
      outstanding := outstanding - 1;
      pending, taken, steps := pending + 1, taken + [d], steps + [Complete(d)];
    }

    method Fails()
      requires Valid() && outstanding > 0
      modifies this
      ensures Valid() && steps == old(steps) + [Fail]
      ensures log == old(log) && pending > 0 && failed
    {
      RunSnoc(handler, steps, View(), Fail);
      outstanding := outstanding - 1;
      pending, failed, steps := pending + 1, true, steps + [Fail];
    }

    method SendResponse(response: Notice)
      modifies this`log
      ensures log == old(log) + [Sent(senderEndpoint, response)]
    {
      log := log + [Sent(senderEndpoint, response)];
    }

    /** The callback; ok is false where the handler reaches assert( false ). It takes its
        steps of the loop in one go, so all that holds of every run of the loop holds of the
        object after every call. */
    method HandleReceiveFrom(error: bool) returns (ok: bool)
      requires Valid() && pending > 0 && !dead && error == failed
      modifies this`outstanding, this`log, this`pending, this`dead, this`steps
      ensures Valid() && steps == old(steps) + Callback(handler, old(View()))
      ensures ok == (error || handler(data).Handled?)
      ensures log == old(log) + if error then [] else Addressed(senderEndpoint, RepliesOf(handler(data)))
      ensures outstanding == old(outstanding) + if error || !ok then 0 else 1
      ensures outstanding == 1 ==> log == Answers(handler, taken)
    {
      ghost var l := View();
      CallbackRuns(handler, steps, l);
      steps, pending := steps + Callback(handler, l), pending - 1;
      if error {
        ok := true;
      } else {
        var reaction := handler(data);
        ok := reaction.Handled?;
        if !ok {
          dead := true;
        } else {
          SendAll(reaction.replies);
          outstanding := outstanding + 1;
        }
      }
      assert View() == AfterCallback(handler, l);
      ReplyRouting(handler, steps);
    }

    /** The replies the handler sends, one after the other. */
    method SendAll(replies: seq<Notice>)
      modifies this`log
      ensures log == old(log) + Addressed(senderEndpoint, replies)
    {
      for i := 0 to |replies|
        invariant log == old(log) + Addressed(senderEndpoint, replies[..i])
      {
        AddressedSnoc(senderEndpoint, replies, i);
        SendResponse(replies[i]);
      }
      assert replies[..|replies|] == replies;
    }
  }

  // -------------------------------------------------------------- accounting

  /** The handler is handle_receive of a server with this configuration and registry. */
  ghost predicate Handles(handler: Handler, c: Config, ns: Namespaces) {
    forall r :: handler(r) == React(c, ns, r)
  }

  /** Replies a request is owed: one per namespace for a foreign ssdp:all, one for a
      registered target, none otherwise; no server with an empty uuid owes any. */
  function Owed(c: Config, ns: Namespaces, r: Request): nat {
    if c.uuid == "" || r.verb != MSEARCH || Contains(Param(r, "USN"), c.uuid) then 0
    else if Param(r, "ST") == NS_ALL then |ns|
    else if Param(r, "ST") in ns then 1
    else 0
  }

  function OwedAll(c: Config, ns: Namespaces, ds: seq<Datagram>): nat {
    if ds == [] then 0
    else OwedAll(c, ns, ds[..|ds| - 1]) + Owed(c, ns, ds[|ds| - 1].request)
  }

  lemma OwedIsSent(handler: Handler, c: Config, ns: Namespaces, r: Request)
    requires handler(r) == React(c, ns, r)
    ensures |RepliesOf(handler(r))| == Owed(c, ns, r)
  {
    if c.uuid == "" { EmptyUuidAnswersNobody(c, ns, r); }
    AllResponsesExact(c, ns);
  }

  lemma {:induction false} AnswersCount(handler: Handler, c: Config, ns: Namespaces, ds: seq<Datagram>)
    requires Handles(handler, c, ns)
    ensures |Answers(handler, ds)| == OwedAll(c, ns, ds)
  {
    if ds != [] {
      AnswersCount(handler, c, ns, ds[..|ds| - 1]);
      OwedIsSent(handler, c, ns, ds[|ds| - 1].request);
    }
  }

  /** Reply accounting: whenever the loop waits for the next datagram, the number of
      replies sent is the sum of what the datagrams so far were owed. */
  lemma ReplyAccounting(handler: Handler, c: Config, ns: Namespaces, steps: seq<Step>)
    requires Handles(handler, c, ns)
    requires Run(handler, steps).Some? && Run(handler, steps).value.outstanding == 1
    ensures var l := Run(handler, steps).value;
            |l.log| == OwedAll(c, ns, l.taken)
  {
    ReplyRouting(handler, steps);
    AnswersCount(handler, c, ns, Run(handler, steps).value.taken);
  }
}
