/** The bound on the bursts a control point may miss is the best one, for every jitter and
    every length of a burst: a run in which each burst comes as late and takes as long as it
    may, and all but the first are missed, reaches the age that Discovery allows. */
module Tightness {
  import opened Text
  import opened Lease
  import opened Discovery

  /** The bursts of the thread are alives, one of them about the watched namespace, and the
      clock does not wrap from one burst to the end of the next. */
  predicate Announces(w: World) {
    && w.patience > 0 && w.Gap() + w.work < SECONDS_WRAP * 1000
    && Signal(Up, w.tracked) in w.up
    && forall i | 0 <= i < |w.up| :: w.up[i].kind.Up?
  }

  /** The thread has just gone to sleep, or is about to look at the clock, in a run. */
  predicate Asleep(w: World, steps: seq<Step>, s: State) {
    Run(w, steps) == Some(s) && s.run && s.thread == Sleeping(s.now) && s.stamp <= s.now
  }

  predicate Looking(w: World, steps: seq<Step>, s: State) {
    Run(w, steps) == Some(s) && s.run && s.thread == Checking && s.stamp <= s.now
  }

  predicate InBurst(w: World, steps: seq<Step>, s: State, start: nat, i: nat) {
    Run(w, steps) == Some(s) && s.run && s.thread == Bursting(start, i)
  }

  /** A sleep that ends late. */
  lemma Sleeps(w: World, steps: seq<Step>, s: State, late: nat) returns (steps': seq<Step>, s': State)
    requires Asleep(w, steps, s) && late <= w.jitter
    ensures Looking(w, steps', s')
    ensures s'.now == s.now + SSDP_THREAD_SLEEP + late && s'.stamp == s.stamp && s'.ear == s.ear
  {
    var tick := Tick(SSDP_THREAD_SLEEP + late);
    var s1 := Effect(w, s, tick);
    RunSnoc(w, steps, s, tick);
    var s2 := Effect(w, s1, Thread(true));
    RunSnoc(w, steps + [tick], s1, Thread(true));
    s' := Effect(w, s2, Thread(true));
    RunSnoc(w, steps + [tick] + [Thread(true)], s2, Thread(true));
    steps' := steps + [tick] + [Thread(true)] + [Thread(true)];
  }

  lemma Looks(w: World, steps: seq<Step>, s: State) returns (s': State)
    requires Looking(w, steps, s) && s.now - s.stamp < SECONDS_WRAP * 1000
    ensures Run(w, steps + [Thread(true)]) == Some(s') && s'.run && s'.now == s.now
    ensures if s.now - s.stamp < 60000 then s' == s.(thread := Sleeping(s.now))
            else s'.thread == Bursting(s.now, 0) && s'.ear == s.ear.(heard := false)
  {
    CheckIsComparison(w, s, true);
    RunSnoc(w, steps, s, Thread(true));
    s' := Effect(w, s, Thread(true));
  }

  /** How late the i-th poll comes when every sleep ends as late as leaves the eleventh poll
      before 60 s. */
  function Late(w: World, i: nat): nat {
    if Multiple(i, w.jitter) < 4999 then Multiple(i, w.jitter) else 4999
  }

  lemma LateStep(w: World, i: nat)
    ensures Late(w, i) <= Late(w, i + 1) <= Late(w, i) + w.jitter
  {
    assert Multiple(i + 1, w.jitter) == Multiple(i, w.jitter) + w.jitter;
  }

  /** The twelfth sleep ends late by the whole jitter, and that is the longest wait. */
  lemma LateIsWait(w: World)
    ensures 60000 + Late(w, 11) + w.jitter == w.Wait()
  {
    MultipleIsProduct(11, w.jitter);
  }

  /** A poll that comes too early for a burst. */
  lemma Polls(w: World, steps: seq<Step>, s: State, late: nat) returns (steps': seq<Step>, s': State)
    requires Asleep(w, steps, s) && late <= w.jitter
    requires s.now + SSDP_THREAD_SLEEP + late < s.stamp + 60000
    ensures Asleep(w, steps', s')
    ensures s'.now == s.now + SSDP_THREAD_SLEEP + late && s'.stamp == s.stamp && s'.ear == s.ear
  {
    var steps1, s1 := Sleeps(w, steps, s, late);
    s' := Looks(w, steps1, s1);
    steps' := steps1 + [Thread(true)];
  }

  /** The latest next burst. */
  lemma NextBurst(w: World, steps: seq<Step>, s: State) returns (steps': seq<Step>, s': State)
    requires w.Timed() && Asleep(w, steps, s) && s.stamp == s.now
    ensures InBurst(w, steps', s', s'.now, 0)
    ensures s'.now == s.now + w.Wait() && s'.ear == s.ear.(heard := false)
  {
    steps', s' := steps, s;
    for i := 0 to 11
      invariant Asleep(w, steps', s') && s'.stamp == s.stamp && s'.ear == s.ear
      invariant s'.now == s.now + 5000 * i + Late(w, i)
    {
      LateStep(w, i);
      steps', s' := Polls(w, steps', s', Late(w, i + 1) - Late(w, i));
    }
    LateIsWait(w);
    steps', s' := PollsInTime(w, steps', s');
  }

  /** A poll that starts a burst. */
  lemma PollsInTime(w: World, steps: seq<Step>, s: State) returns (steps': seq<Step>, s': State)
    requires Asleep(w, steps, s)
    requires s.stamp + 60000 <= s.now + SSDP_THREAD_SLEEP + w.jitter < s.stamp + SECONDS_WRAP * 1000
    ensures InBurst(w, steps', s', s'.now, 0)
    ensures s'.now == s.now + SSDP_THREAD_SLEEP + w.jitter && s'.ear == s.ear.(heard := false)
  {
    var steps1, s1 := Sleeps(w, steps, s, w.jitter);
    s' := Looks(w, steps1, s1);
    steps' := steps1 + [Thread(true)];
  }

  /** One message of a burst. */
  lemma Sends(w: World, steps: seq<Step>, s: State, start: nat, i: nat, delivered: bool) returns (s': State)
    requires InBurst(w, steps, s, start, i) && i < |w.up|
    ensures InBurst(w, steps + [Thread(delivered)], s', start, i + 1)
    ensures s'.now == s.now && s'.ear == Hear(w, s.ear, w.up[i], s.now, delivered)
  {
    RunSnoc(w, steps, s, Thread(delivered));
    s' := Effect(w, s, Thread(delivered));
  }

  /** A burst takes as long as it may. */
  lemma Lasts(w: World, steps: seq<Step>, s: State, i: nat) returns (steps': seq<Step>, s': State)
    requires InBurst(w, steps, s, s.now, i)
    ensures InBurst(w, steps', s', s.now, i)
    ensures s'.now == s.now + w.work && s'.ear == s.ear
  {
    steps', s' := steps, s;
    if w.work > 0 {
      RunSnoc(w, steps, s, Tick(w.work));
      steps', s' := steps + [Tick(w.work)], Effect(w, s, Tick(w.work));
    }
  }

  lemma Ends(w: World, steps: seq<Step>, s: State, start: nat) returns (s': State)
    requires InBurst(w, steps, s, start, |w.up|)
    requires EndBurst(s.ear).missed < w.patience
    ensures Asleep(w, steps + [Thread(true)], s')
    ensures s'.stamp == s'.now == s.now && s'.ear == EndBurst(s.ear)
  {
    RunSnoc(w, steps, s, Thread(true));
    s' := Effect(w, s, Thread(true));
  }

  /** What the k-th message of an alive burst and the ones after it leave in the record. */
  predicate HasHeard(ear: Ear, now: nat, k: nat, i: nat) {
    k < i ==> ear == Ear(Some(now), 0, true)
  }

  lemma Hears(w: World, ear: Ear, now: nat, k: nat, i: nat)
    requires i < |w.up| && w.up[i].kind.Up? && (i == k ==> w.up[i].nt == w.tracked)
    requires HasHeard(ear, now, k, i)
    ensures HasHeard(Hear(w, ear, w.up[i], now, true), now, k, i + 1)
  {
  }

  /** The control point hears a burst, all of it at its start. */
  lemma Heard(w: World, steps: seq<Step>, s: State) returns (steps': seq<Step>, s': State)
    requires Announces(w) && InBurst(w, steps, s, s.now, 0)
    ensures Asleep(w, steps', s')
    ensures s'.stamp == s'.now == s.now + w.work && s'.ear == Ear(Some(s.now), 0, true)
  {
    var k :| 0 <= k < |w.up| && w.up[k] == Signal(Up, w.tracked);
    steps', s' := steps, s;
    for i := 0 to |w.up|
      invariant InBurst(w, steps', s', s.now, i) && s'.now == s.now
      invariant HasHeard(s'.ear, s.now, k, i)
    {
      Hears(w, s'.ear, s.now, k, i);
      s' := Sends(w, steps', s', s.now, i, true);
      steps' := steps' + [Thread(true)];
    }
    steps', s' := Lasts(w, steps', s', |w.up|);
    s' := Ends(w, steps', s', s.now);
    steps' := steps' + [Thread(true)];
  }

  /** Or it misses one. */
  lemma Missed(w: World, steps: seq<Step>, s: State) returns (steps': seq<Step>, s': State)
    requires InBurst(w, steps, s, s.now, 0)
    requires !s.ear.heard && s.ear.missed + 1 < w.patience
    ensures Asleep(w, steps', s')
    ensures s'.stamp == s'.now == s.now + w.work && s'.ear == s.ear.(missed := s.ear.missed + 1)
  {
    steps', s' := steps, s;
    for i := 0 to |w.up|
      invariant InBurst(w, steps', s', s.now, i) && s'.now == s.now
      invariant s'.ear == s.ear
    {
      s' := Sends(w, steps', s', s.now, i, false);
      steps' := steps' + [Thread(false)];
    }
    steps', s' := Lasts(w, steps', s', |w.up|);
    s' := Ends(w, steps', s', s.now);
    steps' := steps' + [Thread(true)];
  }

  lemma Wakes(w: World) returns (steps: seq<Step>, s: State)
    ensures Asleep(w, steps, s) && s.stamp == s.now == 0
  {
    var s1 := Effect(w, Init(), Thread(true));
    RunSnoc(w, [], Init(), Thread(true));
    var s2 := Effect(w, s1, Thread(true));
    RunSnoc(w, [] + [Thread(true)], s1, Thread(true));
    steps := [] + [Thread(true)] + [Thread(true)];
    s := Looks(w, steps, s2);
    steps := steps + [Thread(true)];
  }

  /** From the end of one burst to the end of the next, which is missed. */
  lemma MissesNext(w: World, steps: seq<Step>, s: State) returns (steps': seq<Step>, s': State)
    requires Announces(w) && Asleep(w, steps, s) && s.stamp == s.now && s.ear.missed + 1 < w.patience
    ensures Asleep(w, steps', s') && s'.stamp == s'.now == s.now + w.Gap()
    ensures s'.ear.record == s.ear.record && s'.ear.missed == s.ear.missed + 1
  {
    steps', s' := NextBurst(w, steps, s);
    steps', s' := Missed(w, steps', s');
  }

  lemma MissesSome(w: World, steps: seq<Step>, s: State, n: nat) returns (steps': seq<Step>, s': State)
    requires Announces(w) && Asleep(w, steps, s) && s.stamp == s.now && s.ear.missed + n < w.patience
    ensures Asleep(w, steps', s') && s'.stamp == s'.now == s.now + Multiple(n, w.Gap())
    ensures s'.ear.record == s.ear.record
  {
    steps', s' := steps, s;
    for m := 0 to n
      invariant Asleep(w, steps', s') && s'.stamp == s'.now == s.now + Multiple(m, w.Gap())
      invariant s'.ear.record == s.ear.record && s'.ear.missed == s.ear.missed + m
    {
      steps', s' := MissesNext(w, steps', s');
    }
  }

  /** The first burst is heard; the clock stands at its end. */
  lemma HearsFirst(w: World) returns (steps: seq<Step>, s: State, t: nat)
    requires Announces(w)
    ensures Asleep(w, steps, s) && s.stamp == s.now == t + w.work && s.ear == Ear(Some(t), 0, true)
  {
    var steps0, s0 := Wakes(w);
    var steps1, s1 := NextBurst(w, steps0, s0);
    t := s1.now;
    steps, s := Heard(w, steps1, s1);
  }

  /** One burst heard, n - 1 missed, and the whole of the next one. */
  lemma OldRecord(w: World, n: nat) returns (steps: seq<Step>, s: State)
    requires Announces(w) && 0 < n <= w.patience
    ensures Run(w, steps) == Some(s) && s.run && s.ear.record.Some?
    ensures s.now == s.ear.record.value + Multiple(n, w.Gap()) + w.work
  {
    var steps0, s0, t := HearsFirst(w);
    var steps1, s1 := MissesSome(w, steps0, s0, n - 1);
    assert s1.now == t + w.work + Multiple(n - 1, w.Gap());
    var steps2, s2 := NextBurst(w, steps1, s1);
    steps, s := Lasts(w, steps2, s2, 0);
    assert Multiple(n, w.Gap()) == Multiple(n - 1, w.Gap()) + w.Gap();
  }

  /** The age LeaseFreshness allows is reached. */
  lemma OldestRecord(w: World) returns (steps: seq<Step>, s: State)
    requires Announces(w)
    ensures Run(w, steps) == Some(s) && s.run && s.ear.record.Some?
    ensures s.now == s.ear.record.value + w.patience * w.Gap() + w.work
  {
    steps, s := OldRecord(w, w.patience);
    MultipleIsProduct(w.patience, w.Gap());
  }

  /** The first number of bursts whose age reaches the lease: that age lies below the wrap. */
  lemma FirstTooOld(w: World) returns (n: nat)
    requires Announces(w) && w.patience * w.Gap() + w.work >= ANNOUNCE_INTERVAL * 1000
    ensures 0 < n <= w.patience
    ensures ANNOUNCE_INTERVAL * 1000 <= Multiple(n, w.Gap()) + w.work < SECONDS_WRAP * 1000
  {
    n := 1;
    MultipleIsProduct(w.patience, w.Gap());
    while Multiple(n, w.Gap()) + w.work < ANNOUNCE_INTERVAL * 1000
      invariant 0 < n <= w.patience
      invariant n == 1 || Multiple(n - 1, w.Gap()) + w.work < ANNOUNCE_INTERVAL * 1000
      decreases w.patience - n
    {
      n := n + 1;
    }
    assert Multiple(n, w.Gap()) == Multiple(n - 1, w.Gap()) + w.Gap();
    if n > 1 { assert Multiple(n - 1, w.Gap()) == Multiple(n - 2, w.Gap()) + w.Gap(); }
  }

  /** Freshness, for every jitter and work: no run lets the lease of a held record run out,
      exactly when the bound of LeaseFreshness lies below the lease. */
  lemma FreshExactly(w: World)
    requires Announces(w)
    ensures (forall steps :: Run(w, steps).Some? ==> Fresh(Run(w, steps).value)) <==>
            w.patience * w.Gap() + w.work < ANNOUNCE_INTERVAL * 1000
  {
    if w.patience * w.Gap() + w.work < ANNOUNCE_INTERVAL * 1000 {
      forall steps | Run(w, steps).Some? ensures Fresh(Run(w, steps).value) { LeaseFreshness(w, steps); }
    } else {
      var n := FirstTooOld(w);
      var steps, s := OldRecord(w, n);
      PassesForAliveExactly(s.now, s.ear.record.value, ANNOUNCE_INTERVAL);
      assert !Fresh(Run(w, steps).value);
    }
  }

  /** Without jitter and with instant bursts that means missing at most 28 in a row. */
  lemma FreshWithin29Bursts(w: World)
    requires Announces(w) && w.jitter == 0 && w.work == 0
    ensures (forall steps :: Run(w, steps).Some? ==> Fresh(Run(w, steps).value)) <==> w.patience <= 29
  {
    FreshExactly(w);
    assert w.Gap() == 60000;
    assert w.patience * w.Gap() == 60000 * w.patience;
  }
}
