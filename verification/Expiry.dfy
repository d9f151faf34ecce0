/**
 When peers expire (src/updater.rs:15-79).

 Main results: `FreshPeersStay` (nobody seen within 3 tau of a collection is expired by it),
 `RegularPeersStay` (in a map of n peers it is enough to be heard every 3 n / min(cutoff, n) cycles),
 `OneTokenInFlight` (exactly one collection is always scheduled), `SilentPeersGo` (a silent peer
 is gone after the grace period and one collection interval) and `CollectionReachesGreatest`
 (repeated collection stops at the greatest set of peers that justify each other;
 `OneCollectionIsEnoughIff` says exactly when it stops at once).
 */
module Expiry {
  import opened Ordering
  import opened Text
  import opened Peers
  import opened Delays
  import opened Updater

  // ---- soundness ----

  lemma YoungIsWithinGrace(r: Rate, n: nat, age: nat)
    requires ValidRate(r) && n >= 1 && age < 3 * r.tau
    ensures WithinGrace(r, n, age)
  {
    var m := Min(r.cutoff, n);
    assert 1 <= m <= n;
    assert age * m < 3 * r.tau * m;
    MulBound(3 * r.tau, m, 3 * r.tau, n);
  }

  /** The larger the map, the longer the grace period. */
  lemma GraceIsMonotone(r: Rate, n: nat, m: nat, age: nat)
    requires ValidRate(r) && 1 <= n <= m && WithinGrace(r, n, age)
    ensures WithinGrace(r, m, age)
  {
    var t := 3 * r.tau;
    var c := r.cutoff;
    if m <= c {
      Cancel(age, t, n);
      Scale(age, t, m);
    } else if n <= c {
      Cancel(age, t, n);
      Scale(age, t, c);
      MulBound(t, c, t, m);
    } else {
      MulBound(t, n, t, m);
    }
  }

  lemma Cancel(age: nat, t: nat, n: nat)
    requires n >= 1 && age * n < t * n
    ensures age < t
  {
    if age >= t {
      MulBound(t, n, age, n);
    }
  }

  lemma Scale(age: nat, t: nat, n: nat)
    requires n >= 1 && age < t
    ensures age * n < t * n
  {
    assert t * n == age * n + (t - age) * n;
    MulBound(1, 1, t - age, n);
  }

  /** Whenever a collection happens while the peer is known, its last response is less than 3 tau old. */
  ghost predicate Fresh(r: Rate, h: seq<Timed>, from: nat, id: Str) {
    forall i :: from <= i < |h| && h[i].input.GC? && id in After(r, h[..i]).peers ==>
      Age(h[i].now, After(r, h[..i]).peers[id].lastSeen) < 3 * r.tau
  }

  lemma FreshStep(r: Rate, s: State, input: Input, now: nat, id: Str)
    requires ValidRate(r) && id in s.peers
    requires input.GC? ==> Age(now, s.peers[id].lastSeen) < 3 * r.tau
    ensures id in Handle(r, s, input, now).peers
  {
    hide Handle, WithinGrace;
    if input.GC? {
      YoungIsWithinGrace(r, |s.peers|, Age(now, s.peers[id].lastSeen));
      PeersAreCollected(r, s, now);
      HandleGc(r, s, now);
    } else {
      OthersKeep(r, s, input, now);
    }
  }

  lemma FreshPrefix(r: Rate, h: seq<Timed>, from: nat, id: Str)
    requires |h| > 0 && Fresh(r, h, from, id)
    ensures Fresh(r, h[..|h| - 1], from, id)
  {
    hide After;
    assert forall i :: 0 <= i < |h| ==> h[..|h| - 1][..i] == h[..i];
  }

  /** A peer that was heard less than 3 tau before every collection is never expired. */
  lemma {:induction false} FreshPeersStay(r: Rate, h: seq<Timed>, from: nat, id: Str)
    requires ValidRate(r) && from <= |h| && id in After(r, h[..from]).peers && Fresh(r, h, from, id)
    ensures id in After(r, h).peers
    decreases |h|
  {
    hide Handle;
    if from == |h| {
      WholePrefix(h);
    } else {
      var n := |h| - 1;
      assert h[..n][..from] == h[..from];
      FreshPrefix(r, h, from, id);
      FreshPeersStay(r, h[..n], from, id);
      FreshStep(r, After(r, h[..n]), h[n].input, h[n].now, id);
    }
  }

  // ---- soundness in large maps ----

  ghost predicate Names(input: Input, id: Str) {
    input.NewPeers? && id in input.msg
  }

  /** The responses of a peer are processed in the order of their time stamps. */
  ghost predicate InOrder(h: seq<Timed>, id: Str) {
    forall i, j :: 0 <= i < j < |h| && Names(h[i].input, id) && Names(h[j].input, id) ==>
      h[i].input.msg[id].lastSeen <= h[j].input.msg[id].lastSeen
  }

  /** The peer's response at position j is less than 3 tau * n / min(cutoff, n) old. */
  ghost predicate HeardAt(r: Rate, h: seq<Timed>, id: Str, n: nat, now: nat, j: nat) {
    && j < |h| && Names(h[j].input, id)
    && (now - h[j].input.msg[id].lastSeen) * Min(r.cutoff, n) < 3 * r.tau * n
  }

  /** At every collection there are at least n peers and there is such a response among the messages so far. */
  ghost predicate HeardOften(r: Rate, h: seq<Timed>, from: nat, id: Str, n: nat) {
    forall i :: from <= i < |h| && h[i].input.GC? ==>
      |After(r, h[..i]).peers| >= n && exists j :: HeardAt(r, h[..i], id, n, h[i].now, j)
  }

  /** The record of a known peer is as young as any of its responses. */
  lemma {:induction false} RecordIsNewest(r: Rate, h: seq<Timed>, id: Str, j: nat)
    requires InOrder(h, id) && id in After(r, h).peers && j < |h| && Names(h[j].input, id)
    ensures After(r, h).peers[id].lastSeen >= h[j].input.msg[id].lastSeen
  {
    hide Handle;
    var n := |h| - 1;
    var init, last := h[..n], h[n];
    NextRecord(r, After(r, init), last.input, last.now, id);
    if !Names(last.input, id) {
      RecordIsNewest(r, init, id, j);
    }
  }

  lemma NextRecord(r: Rate, s: State, input: Input, now: nat, id: Str)
    requires id in Handle(r, s, input, now).peers
    ensures if Names(input, id) then Handle(r, s, input, now).peers[id] == input.msg[id]
            else id in s.peers && Handle(r, s, input, now).peers[id] == s.peers[id]
  {
    hide InsertAll, Collect;
    match input {
      case NewPeers(msg) => PeersAreMerged(r, s, msg, now);
      case GC => PeersAreCollected(r, s, now);
      case SizeSubscription(_) =>
    }
  }

  lemma HeardStep(r: Rate, h: seq<Timed>, id: Str, n: nat, now: nat, j: nat)
    requires ValidRate(r) && n >= 1 && InOrder(h, id) && id in After(r, h).peers
    requires |After(r, h).peers| >= n && HeardAt(r, h, id, n, now, j)
    ensures id in Handle(r, After(r, h), GC, now).peers
  {
    hide After, Handle, WithinGrace;
    var s := After(r, h);
    RecordIsNewest(r, h, id, j);
    StillWithinGrace(r, n, now, h[j].input.msg[id].lastSeen, s.peers[id].lastSeen);
    GraceIsMonotone(r, n, |s.peers|, Age(now, s.peers[id].lastSeen));
    PeersAreCollected(r, s, now);
    HandleGc(r, s, now);
  }

  lemma StillWithinGrace(r: Rate, n: nat, now: nat, seen: nat, newer: nat)
    requires ValidRate(r) && n >= 1 && seen <= newer && (now - seen) * Min(r.cutoff, n) < 3 * r.tau * n
    ensures WithinGrace(r, n, Age(now, newer))
  {
    if now < newer {
      YoungIsWithinGrace(r, n, 0);
    } else {
      MulBound(now - newer, Min(r.cutoff, n), now - seen, Min(r.cutoff, n));
    }
  }

  lemma HeardPrefix(r: Rate, h: seq<Timed>, from: nat, id: Str, n: nat)
    requires |h| > 0 && HeardOften(r, h, from, id, n) && InOrder(h, id)
    ensures HeardOften(r, h[..|h| - 1], from, id, n) && InOrder(h[..|h| - 1], id)
  {
    hide After, HeardAt, Names;
    assert forall i :: 0 <= i < |h| ==> h[..|h| - 1][..i] == h[..i];
  }

  /**
   A peer heard at least once in every 3 n / min(cutoff, n) cycles of tau is never expired while the map
   has at least n entries: the larger the swarm, the more rarely a peer needs to respond.
   */
  lemma {:induction false} RegularPeersStay(r: Rate, h: seq<Timed>, from: nat, id: Str, n: nat)
    requires ValidRate(r) && n >= 1 && from <= |h| && id in After(r, h[..from]).peers
    requires InOrder(h, id) && HeardOften(r, h, from, id, n)
    ensures id in After(r, h).peers
    decreases |h|
  {
    hide Handle, HeardAt, InOrder;
    if from == |h| {
      WholePrefix(h);
    } else {
      var k := |h| - 1;
      assert h[..k][..from] == h[..from];
      HeardPrefix(r, h, from, id, n);
      RegularPeersStay(r, h[..k], from, id, n);
      if h[k].input.GC? {
        var j :| HeardAt(r, h[..k], id, n, h[k].now, j);
        HeardStep(r, h[..k], id, n, h[k].now, j);
      } else {
        OthersKeep(r, After(r, h[..k]), h[k].input, h[k].now);
      }
    }
  }

  lemma HandleGc(r: Rate, s: State, now: nat)
    ensures Handle(r, s, GC, now) == Collect(r, s, now)
  {
  }

  lemma OthersKeep(r: Rate, s: State, input: Input, now: nat)
    requires !input.GC?
    ensures s.peers.Keys <= Handle(r, s, input, now).peers.Keys
  {
    hide InsertAll;
    if input.NewPeers? {
      PeersAreMerged(r, s, input.msg, now);
    }
  }

  // ---- the actor with its mailbox and its collection timer ----

  function Interval(r: Rate): nat {
    r.tau * 12345 / 9999
  }

  const RETRY: nat := 10 * MILLISECOND

  /** `sleeping` holds the due times of timers that will send a collection request. */
  datatype Machine = Machine(state: State, mailbox: seq<Input>, sleeping: multiset<nat>, now: nat, lastGc: nat)

  datatype Event =
    | Tick(elapsed: nat)
    | Post(input: Input)
    | Wake(due: nat, delivered: bool)
    | Process

  function Boot(r: Rate): Machine {
    Machine(INITIAL, [], multiset{Interval(r)}, 0, 0)
  }

  predicate Enabled(m: Machine, e: Event) {
    match e
    case Tick(_) => true
    case Post(input) => !input.GC?
    case Wake(due, _) => due in m.sleeping && due <= m.now
    case Process => m.mailbox != []
  }

  function Next(r: Rate, m: Machine, e: Event): Machine
    requires Enabled(m, e)
  {
    match e
    case Tick(elapsed) => m.(now := m.now + elapsed)
    case Post(input) => m.(mailbox := m.mailbox + [input])
    case Wake(due, delivered) =>
      if delivered then m.(sleeping := m.sleeping - multiset{due}, mailbox := m.mailbox + [GC])
      else m.(sleeping := m.sleeping - multiset{due} + multiset{m.now + RETRY})
    case Process =>
      var input := m.mailbox[0];
      var t := m.(state := Handle(r, m.state, input, m.now), mailbox := m.mailbox[1..]);
      if input.GC? then t.(sleeping := t.sleeping + multiset{m.now + Interval(r)}, lastGc := m.now) else t
  }

  function Requests(mailbox: seq<Input>): nat {
    if mailbox == [] then 0 else (if mailbox[0].GC? then 1 else 0) + Requests(mailbox[1..])
  }

  /** Collections that are scheduled or requested. */
  function Outstanding(m: Machine): nat {
    |m.sleeping| + Requests(m.mailbox)
  }

  lemma {:induction false} RequestsAppend(mailbox: seq<Input>, input: Input)
    ensures Requests(mailbox + [input]) == Requests(mailbox) + if input.GC? then 1 else 0
  {
    if mailbox == [] {
      assert [input][1..] == [];
    } else {
      RequestsAppend(mailbox[1..], input);
      assert (mailbox + [input])[1..] == mailbox[1..] + [input];
    }
  }

  lemma StepKeepsOneToken(r: Rate, m: Machine, e: Event)
    requires Enabled(m, e) && Outstanding(m) == 1
    ensures Outstanding(Next(r, m, e)) == 1
  {
    hide Handle;
    match e {
      case Post(input) => RequestsAppend(m.mailbox, input);
      case Wake(due, _) => RequestsAppend(m.mailbox, GC);
      case _ =>
    }
  }

  /** What is assumed about the timing of a run. */
  datatype Timing = Any | PromptWith(most: nat)

  ghost predicate Run(r: Rate, timing: Timing, es: seq<Event>)
    decreases |es|, 0
  {
    es == [] ||
    (&& Run(r, timing, es[..|es| - 1])
     && Enabled(Reached(r, timing, es[..|es| - 1]), es[|es| - 1])
     && (timing.PromptWith? ==> Prompt(timing.most, Reached(r, timing, es[..|es| - 1]), es[|es| - 1])))
  }

  ghost function Reached(r: Rate, timing: Timing, es: seq<Event>): Machine
    requires Run(r, timing, es)
    decreases |es|, 1
  {
    if es == [] then Boot(r) else Next(r, Reached(r, timing, es[..|es| - 1]), es[|es| - 1])
  }

  /** In every run exactly one collection is scheduled or requested, even if requests fail to be delivered. */
  lemma {:induction false} OneTokenInFlight(r: Rate, timing: Timing, es: seq<Event>)
    requires Run(r, timing, es)
    ensures Outstanding(Reached(r, timing, es)) == 1
  {
    hide Next, Enabled, Prompt;
    if es != [] {
      var init := es[..|es| - 1];
      OneTokenInFlight(r, timing, init);
      StepKeepsOneToken(r, Reached(r, timing, init), es[|es| - 1]);
    }
  }

  // ---- bounded completeness ----

  /**
   Timers and messages are handled without delay, requests are delivered, responses are stamped when
   they arrive and the map never holds more than `most` peers.
   */
  ghost predicate Prompt(most: nat, m: Machine, e: Event) {
    && (e.Tick? ==> m.mailbox == [] && forall due :: due in m.sleeping ==> m.now + e.elapsed <= due)
    && (e.Wake? ==> e.delivered)
    && (e.Post? && e.input.NewPeers? ==> forall id :: id in e.input.msg ==> e.input.msg[id].lastSeen == m.now)
    && |m.state.peers| <= most
  }

  /** A peer last seen at `seen` was within the largest possible grace period at the last collection. */
  ghost predicate Justified(r: Rate, most: nat, m: Machine, seen: nat) {
    seen <= m.now && (m.lastGc <= seen || WithinGrace(r, most, m.lastGc - seen))
  }

  ghost predicate OnSchedule(r: Rate, most: nat, m: Machine) {
    && Outstanding(m) == 1
    && m.lastGc <= m.now <= m.lastGc + Interval(r)
    && (forall due :: due in m.sleeping ==> due == m.lastGc + Interval(r))
    && (Requests(m.mailbox) > 0 ==> m.now == m.lastGc + Interval(r))
    && (forall i :: 0 <= i < |m.mailbox| && m.mailbox[i].NewPeers? ==>
          forall id :: id in m.mailbox[i].msg ==> m.mailbox[i].msg[id].lastSeen == m.now)
    && (forall id :: id in m.state.peers ==> Justified(r, most, m, m.state.peers[id].lastSeen))
  }

  ghost predicate AllJustified(r: Rate, most: nat, m: Machine) {
    forall id :: id in m.state.peers ==> Justified(r, most, m, m.state.peers[id].lastSeen)
  }

  lemma MergeKeepsJustified(r: Rate, most: nat, m: Machine)
    requires AllJustified(r, most, m) && m.mailbox != [] && m.mailbox[0].NewPeers? && m.lastGc <= m.now
    requires forall id :: id in m.mailbox[0].msg ==> m.mailbox[0].msg[id].lastSeen == m.now
    ensures AllJustified(r, most, Next(r, m, Process))
  {
    hide WithinGrace, Handle;
    PeersAreMerged(r, m.state, m.mailbox[0].msg, m.now);
  }

  lemma CollectKeepsJustified(r: Rate, most: nat, m: Machine)
    requires ValidRate(r) && AllJustified(r, most, m) && m.mailbox != [] && m.mailbox[0].GC? && |m.state.peers| <= most
    ensures AllJustified(r, most, Next(r, m, Process))
  {
    hide WithinGrace, Collect, Interval;
    var t := Next(r, m, Process);
    PeersAreCollected(r, m.state, m.now);
    forall id | id in t.state.peers ensures Justified(r, most, t, t.state.peers[id].lastSeen) {
      GraceIsMonotone(r, |m.state.peers|, most, Age(m.now, m.state.peers[id].lastSeen));
    }
  }

  lemma ProcessKeepsSchedule(r: Rate, most: nat, m: Machine)
    requires ValidRate(r) && OnSchedule(r, most, m) && m.mailbox != [] && |m.state.peers| <= most
    ensures OnSchedule(r, most, Next(r, m, Process))
  {
    hide WithinGrace, Handle, Interval, Justified;
    var t := Next(r, m, Process);
    StepKeepsOneToken(r, m, Process);
    assert AllJustified(r, most, m);
    match m.mailbox[0] {
      case NewPeers(msg) =>
        MergeKeepsJustified(r, most, m);
      case GC =>
        CollectKeepsJustified(r, most, m);
        assert m.sleeping == multiset{};
      case SizeSubscription(_) =>
        SubscriptionKeepsJustified(r, most, m);
    }
    assert AllJustified(r, most, t);
  }

  lemma SubscriptionKeepsJustified(r: Rate, most: nat, m: Machine)
    requires AllJustified(r, most, m) && m.mailbox != [] && m.mailbox[0].SizeSubscription?
    ensures AllJustified(r, most, Next(r, m, Process))
  {
    hide WithinGrace;
  }

  lemma StepKeepsSchedule(r: Rate, most: nat, m: Machine, e: Event)
    requires ValidRate(r) && OnSchedule(r, most, m) && Enabled(m, e) && Prompt(most, m, e)
    ensures OnSchedule(r, most, Next(r, m, e))
  {
    hide WithinGrace, Handle, Interval;
    match e {
      case Tick(elapsed) =>
        assert Requests(m.mailbox) == 0;
        var due :| due in m.sleeping;
      case Post(input) =>
        RequestsAppend(m.mailbox, input);
      case Wake(due, _) =>
        RequestsAppend(m.mailbox, GC);
        StepKeepsOneToken(r, m, e);
      case Process =>
        ProcessKeepsSchedule(r, most, m);
    }
  }

  lemma {:induction false} RunKeepsSchedule(r: Rate, most: nat, es: seq<Event>)
    requires ValidRate(r) && Run(r, PromptWith(most), es)
    ensures OnSchedule(r, most, Reached(r, PromptWith(most), es))
  {
    hide Next, Enabled, Prompt, OnSchedule;
    if es == [] {
      BootIsOnSchedule(r, most);
    } else {
      var init := es[..|es| - 1];
      RunKeepsSchedule(r, most, init);
      StepKeepsSchedule(r, most, Reached(r, PromptWith(most), init), es[|es| - 1]);
    }
  }

  lemma BootIsOnSchedule(r: Rate, most: nat)
    ensures OnSchedule(r, most, Boot(r))
  {
  }

  /**
   In every prompt run with at most `most` peers: a peer still known that was last seen at time s
   satisfies now - interval < s + 3 * tau * most / min(cutoff, most), so a peer silent since s is
   removed by s + grace(most) + interval.
   */
  lemma SilentPeersGo(r: Rate, most: nat, es: seq<Event>, id: Str)
    requires ValidRate(r) && most >= 1 && Run(r, PromptWith(most), es)
    requires id in Reached(r, PromptWith(most), es).state.peers
    ensures var m := Reached(r, PromptWith(most), es);
      (m.now - Interval(r) - m.state.peers[id].lastSeen) * Min(r.cutoff, most) < 3 * r.tau * most
  {
    hide WithinGrace, Run, Reached, Interval;
    RunKeepsSchedule(r, most, es);
    var m := Reached(r, PromptWith(most), es);
    var seen := m.state.peers[id].lastSeen;
    var c := Min(r.cutoff, most);
    var silence := m.now - Interval(r) - seen;
    var age := if m.lastGc <= seen then 0 else m.lastGc - seen;
    assert Justified(r, most, m, seen);
    YoungOrJustified(r, most, m, seen);
    GraceMeans(r, most, age);
    SilenceIsShort(silence, age, c, 3 * r.tau * most) by {
      assert 3 * r.tau * most >= 1 by { MulBound(1, 1, 3 * r.tau, most); }
    }
  }

  lemma SilenceIsShort(silence: int, age: nat, c: nat, grace: nat)
    requires silence <= age && age * c < grace
    ensures silence * c < grace
  {
    if silence > 0 {
      MulBound(silence, c, age, c);
    } else {
      NonPositive(silence, c);
    }
  }

  lemma GraceMeans(r: Rate, n: nat, age: nat)
    requires WithinGrace(r, n, age)
    ensures age * Min(r.cutoff, n) < 3 * r.tau * n
  {
  }

  lemma YoungOrJustified(r: Rate, most: nat, m: Machine, seen: nat)
    requires ValidRate(r) && most >= 1 && Justified(r, most, m, seen)
    ensures WithinGrace(r, most, if m.lastGc <= seen then 0 else m.lastGc - seen)
  {
    YoungIsWithinGrace(r, most, 0);
  }

  lemma NonPositive(a: int, c: nat)
    requires a <= 0
    ensures a * c <= 0
  {
  }

  // ---- repeated collection ----

  /** The peers that survive a collection of the set q, given how long ago each was seen. */
  function Survivors(r: Rate, ages: map<Str, nat>, q: set<Str>): set<Str>
    requires q <= ages.Keys
  {
    set id | id in q && WithinGrace(r, |q|, ages[id])
  }

  /** Every member is within the grace period that the size of the set itself justifies. */
  ghost predicate SelfJustified(r: Rate, ages: map<Str, nat>, q: set<Str>) {
    q <= ages.Keys && forall id :: id in q ==> WithinGrace(r, |q|, ages[id])
  }

  function Rounds(r: Rate, ages: map<Str, nat>, k: nat): (q: set<Str>)
    ensures q <= ages.Keys
  {
    if k == 0 then ages.Keys else Survivors(r, ages, Rounds(r, ages, k - 1))
  }

  /** No self-justified set ever loses a member. */
  lemma {:induction false} SelfJustifiedStays(r: Rate, ages: map<Str, nat>, q: set<Str>, k: nat)
    requires ValidRate(r) && SelfJustified(r, ages, q)
    ensures q <= Rounds(r, ages, k)
  {
    hide WithinGrace;
    if k > 0 {
      SelfJustifiedStays(r, ages, q, k - 1);
      var p := Rounds(r, ages, k - 1);
      SubsetSize(q, p);
      forall id | id in q ensures id in Survivors(r, ages, p) {
        assert |q| >= 1;
        GraceIsMonotone(r, |q|, |p|, ages[id]);
      }
    }
  }

  lemma {:induction false} RoundsShrink(r: Rate, ages: map<Str, nat>, k: nat)
    ensures SelfJustified(r, ages, Rounds(r, ages, k)) || |Rounds(r, ages, k)| + k <= |ages|
  {
    hide WithinGrace;
    assert |ages.Keys| == |ages|;
    if k > 0 {
      RoundsShrink(r, ages, k - 1);
      var p, q := Rounds(r, ages, k - 1), Rounds(r, ages, k);
      SubsetSize(q, p);
      assert q == p ==> SelfJustified(r, ages, q);
      assert SelfJustified(r, ages, p) ==> q == p;
    }
  }

  /**
   Collecting again and again at the same moment reaches, within as many rounds as there are peers,
   a self-justified set that contains every other self-justified set, and then changes nothing more.
   */
  lemma CollectionReachesGreatest(r: Rate, ages: map<Str, nat>)
    requires ValidRate(r)
    ensures var q := Rounds(r, ages, |ages|);
      && SelfJustified(r, ages, q)
      && Survivors(r, ages, q) == q
      && forall p :: SelfJustified(r, ages, p) ==> p <= q
  {
    hide WithinGrace;
    var q := Rounds(r, ages, |ages|);
    RoundsShrink(r, ages, |ages|);
    assert |q| == 0 ==> q == {};
    forall p | SelfJustified(r, ages, p) ensures p <= q {
      SelfJustifiedStays(r, ages, p, |ages|);
    }
  }

  function AgesAt(peers: map<Str, Peer>, now: nat): map<Str, nat> {
    map id | id in peers :: Age(now, peers[id].lastSeen)
  }

  function CollectTimes(r: Rate, s: State, now: nat, k: nat): State {
    if k == 0 then s else Collect(r, CollectTimes(r, s, now, k - 1), now)
  }

  /** The rounds are what repeated collections by the updater do. */
  lemma {:induction false} CollectionsAreRounds(r: Rate, s: State, now: nat, k: nat)
    ensures CollectTimes(r, s, now, k).peers.Keys == Rounds(r, AgesAt(s.peers, now), k)
    ensures forall id :: id in CollectTimes(r, s, now, k).peers ==>
              id in s.peers && CollectTimes(r, s, now, k).peers[id] == s.peers[id]
  {
    hide WithinGrace, Collect;
    if k > 0 {
      CollectionsAreRounds(r, s, now, k - 1);
      var t := CollectTimes(r, s, now, k - 1);
      PeersAreCollected(r, t, now);
      assert |t.peers.Keys| == |t.peers|;
    }
  }

  // ---- when one collection is enough ----

  /** The peers within the grace period of the whole map: those that a first collection keeps. */
  function Kept(r: Rate, ages: map<Str, nat>): set<Str> {
    set id | id in ages && WithinGrace(r, |ages|, ages[id])
  }

  /** No age lies between the grace period of the peers that are kept and that of the whole map. */
  ghost predicate NoAgeInGap(r: Rate, ages: map<Str, nat>) {
    forall id :: id in ages && WithinGrace(r, |ages|, ages[id]) ==> WithinGrace(r, |Kept(r, ages)|, ages[id])
  }

  lemma FirstRound(r: Rate, ages: map<Str, nat>)
    ensures Rounds(r, ages, 1) == Kept(r, ages)
    ensures Rounds(r, ages, 2) == Survivors(r, ages, Kept(r, ages))
  {
    hide WithinGrace;
    assert |ages.Keys| == |ages|;
    assert Rounds(r, ages, 0) == ages.Keys;
    assert Rounds(r, ages, 1) == Survivors(r, ages, ages.Keys);
    assert Rounds(r, ages, 2) == Survivors(r, ages, Rounds(r, ages, 1));
  }

  lemma {:induction false} StableOnceRepeated(r: Rate, ages: map<Str, nat>, k: nat)
    requires k >= 1 && Rounds(r, ages, 2) == Rounds(r, ages, 1)
    ensures Rounds(r, ages, k) == Rounds(r, ages, 1)
  {
    hide Survivors;
    if k > 1 {
      StableOnceRepeated(r, ages, k - 1);
      assert Rounds(r, ages, k) == Survivors(r, ages, Rounds(r, ages, k - 1));
      assert Rounds(r, ages, 2) == Survivors(r, ages, Rounds(r, ages, 1));
    }
  }

  /**
   A second round changes nothing - and then no further one does - if and only if no age lies between
   the grace period of the peers that the first one keeps and that of the whole map.
   */
  lemma OneRoundIsEnoughIff(r: Rate, ages: map<Str, nat>)
    ensures Rounds(r, ages, 2) == Rounds(r, ages, 1) <==> NoAgeInGap(r, ages)
    ensures NoAgeInGap(r, ages) ==> forall k: nat :: k >= 1 ==> Rounds(r, ages, k) == Rounds(r, ages, 1)
  {
    hide WithinGrace, Rounds;
    FirstRound(r, ages);
    var q := Kept(r, ages);
    assert Survivors(r, ages, q) == q <==> NoAgeInGap(r, ages) by {
      assert NoAgeInGap(r, ages) <==> forall id :: id in q ==> WithinGrace(r, |q|, ages[id]);
    }
    if NoAgeInGap(r, ages) {
      forall k: nat | k >= 1 ensures Rounds(r, ages, k) == Rounds(r, ages, 1) {
        StableOnceRepeated(r, ages, k);
      }
    }
  }

  /** In a map of at most cutoff peers one round is always enough: the grace period is 3 tau for every size. */
  lemma SmallMapsHaveNoGap(r: Rate, ages: map<Str, nat>)
    requires ValidRate(r) && |ages| <= r.cutoff
    ensures NoAgeInGap(r, ages)
  {
    hide WithinGrace;
    forall id | id in ages && WithinGrace(r, |ages|, ages[id]) ensures WithinGrace(r, |Kept(r, ages)|, ages[id]) {
      assert id in Kept(r, ages);
      GraceMeans(r, |ages|, ages[id]);
      Cancel(ages[id], 3 * r.tau, |ages|);
      YoungIsWithinGrace(r, |Kept(r, ages)|, ages[id]);
    }
  }

  /**
   Collecting again at the same moment removes nobody if and only if no age lies in the gap; in
   particular nobody is removed if the map had at most cutoff peers.
   */
  lemma OneCollectionIsEnoughIff(r: Rate, s: State, now: nat)
    requires ValidRate(r)
    ensures var t := Collect(r, s, now);
      && (Collect(r, t, now).peers == t.peers <==> NoAgeInGap(r, AgesAt(s.peers, now)))
      && (|s.peers| <= r.cutoff ==> Collect(r, t, now).peers == t.peers)
  {
    hide Collect, NoAgeInGap, Rounds;
    var ages, t := AgesAt(s.peers, now), Collect(r, s, now);
    assert |ages| == |s.peers| by { assert ages.Keys == s.peers.Keys && |ages.Keys| == |ages| && |s.peers.Keys| == |s.peers|; }
    TwoCollections(r, s, now);
    OneRoundIsEnoughIff(r, ages);
    if |s.peers| <= r.cutoff {
      SmallMapsHaveNoGap(r, ages);
    }
  }

  lemma TwoCollections(r: Rate, s: State, now: nat)
    ensures var ages, t := AgesAt(s.peers, now), Collect(r, s, now);
      Collect(r, t, now).peers == t.peers <==> Rounds(r, ages, 2) == Rounds(r, ages, 1)
  {
    hide Collect, Rounds;
    var t := Collect(r, s, now);
    assert CollectTimes(r, s, now, 0) == s;
    assert CollectTimes(r, s, now, 1) == t;
    assert CollectTimes(r, s, now, 2) == Collect(r, t, now);
    CollectionsAreRounds(r, s, now, 1);
    CollectionsAreRounds(r, s, now, 2);
  }

  /** An age in the gap: a first collection removes one of two peers and a second one the other. */
  lemma OneCollectionIsNotEnough()
    ensures var r, ages := Rate(1, 1), map[[1] := 5, [2] := 7];
      Rounds(r, ages, 2) != Rounds(r, ages, 1)
  {
    var r, ages := Rate(1, 1), map[[1] := 5, [2] := 7];
    var a: Str, b: Str := [1], [2];
    assert a[0] != b[0];
    assert ages.Keys == {a, b} && |ages.Keys| == 2;
    assert Rounds(r, ages, 0) == {a, b};
    assert Rounds(r, ages, 1) == {a};
    assert Rounds(r, ages, 2) == {};
    assert a in Rounds(r, ages, 1);
  }
}
