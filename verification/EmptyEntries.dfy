/**
 Entries that have lost all their addresses (src/sender.rs:243-254, src/receiver.rs:165-178).

 Such a node still sends response packets, which count for nothing at their receivers, so the packets
 of a round are not limited by cutoff. Main results: how many packets a round can have (`MostPackets`
 with `Suppression.ExactSuppression`), exactly when they are limited (`LimitedIff`), that they are if
 no entry is ever without addresses (`AddressedBandwidth`), and that otherwise there is no bound at
 all (`EmptyAnnouncersAreNotLimited`).
 */
module EmptyEntries {
  import opened Wrappers
  import opened Ordering
  import opened Text
  import Dns
  import opened Peers
  import Announcement
  import opened Delays
  import opened Sender
  import opened Swarm
  import opened Suppression
  import Bandwidth

  // ---- the most packets that a round can have ----

  /** Packets of a round that carry no address. */
  function Idle(log: seq<Sent>): int {
    PacketsSince(log) - Since(log)
  }

  lemma {:induction false} IdleGrows(cfg: Config, announcers: set<Str>, withEntry: set<Str>, s: Swarm, es: seq<Event>)
    requires ValidConfig(cfg) && Progress(cfg, announcers, withEntry, s)
    requires Run(cfg, Atomic, s, es) && forall e :: e in es ==> InRound(e)
    ensures Idle(After(cfg, Atomic, s, es).log) >= Idle(s.log)
  {
    hide Next, Enabled, Obeys, Progress, Since, PacketsSince;
    if es != [] {
      var n := |es| - 1;
      PrefixStep(es, n);
      assert InRound(es[n]);
      IdleGrows(cfg, announcers, withEntry, s, es[..n]);
      RoundKeepsProgress(cfg, announcers, withEntry, s, es[..n]);
      IdleStep(cfg, announcers, withEntry, After(cfg, Atomic, s, es[..n]), es[n]);
    }
  }

  lemma IdleStep(cfg: Config, announcers: set<Str>, withEntry: set<Str>, s: Swarm, e: Event)
    requires ValidConfig(cfg) && Progress(cfg, announcers, withEntry, s) && Enabled(s, e) && InRound(e)
    ensures Idle(Next(cfg, s, e).log) >= Idle(s.log)
  {
    hide Next, Enabled, Since, PacketsSince, Sound, Announcers, WithEntry;
    if e.ResponseTimeout? {
      AnnouncersHaveEntries(s);
      RespondCounts(cfg, s, e);
    } else {
      OtherKeepsRest(cfg, s, e);
    }
  }

  /** The timers of the entries without addresses fire first. */
  lemma {:induction false} EmptiesFirst(cfg: Config, announcers: set<Str>, withEntry: set<Str>, s: Swarm)
    returns (es: seq<Event>)
    requires ValidConfig(cfg) && Progress(cfg, announcers, withEntry, s) && announcers <= Waiting(s)
    ensures Run(cfg, Atomic, s, es) && forall e :: e in es ==> InRound(e)
    ensures var t := After(cfg, Atomic, s, es);
      && Progress(cfg, announcers, withEntry, t)
      && announcers <= Waiting(t) && Waiting(t) * (withEntry - announcers) == {}
    decreases |Waiting(s)|
  {
    hide Next, Progress, Enabled, Obeys, InRound;
    if Waiting(s) * (withEntry - announcers) == {} {
      es := [];
    } else {
      var who :| who in Waiting(s) * (withEntry - announcers);
      var first := FireNext(cfg, announcers, withEntry, s, who);
      var rest := EmptiesFirst(cfg, announcers, withEntry, After(cfg, Atomic, s, first));
      RunAppend(cfg, Atomic, s, first, rest);
      es := first + rest;
    }
  }

  lemma AllEmptiesHaveFired(cfg: Config, announcers: set<Str>, withEntry: set<Str>, s: Swarm)
    requires ValidConfig(cfg) && Progress(cfg, announcers, withEntry, s)
    requires announcers <= Waiting(s) && Waiting(s) * (withEntry - announcers) == {}
    ensures Idle(s.log) == |withEntry - announcers|
  {
    hide Sound, LogFits, Announcers, WithEntry, Since, PacketsSince;
    assert announcers - Waiting(s) == {};
    assert announcers <= withEntry by { AnnouncersHaveEntries(s); }
    assert withEntry - Waiting(s) == withEntry - announcers;
  }

  /** Some complete round has as many packets as `ExactSuppression` allows. */
  lemma MostPackets(cfg: Config, s: Swarm, query: Event) returns (es: seq<Event>)
    requires ValidConfig(cfg) && Opens(cfg, s, query)
    ensures Completes(cfg, Next(cfg, s, query), es)
    ensures PacketsSince(After(cfg, Atomic, Next(cfg, s, query), es).log) ==
            Min(|Announcers(s)|, cfg.cutoff) + |WithEntry(s) - Announcers(s)|
  {
    hide Next, Enabled, Obeys, Progress, Waiting, Announcers, WithEntry, Since, PacketsSince, Sound;
    var announcers, withEntry, s1 := Announcers(s), WithEntry(s), Next(cfg, s, query);
    QueryOpensRound(cfg, s, query);
    assert announcers <= s.nodes.Keys by { AnnouncersAreNodes(s); }
    var first := EmptiesFirst(cfg, announcers, withEntry, s1);
    var t := After(cfg, Atomic, s1, first);
    AllEmptiesHaveFired(cfg, announcers, withEntry, t);
    var rest := RoundsCanFinish(cfg, announcers, withEntry, t);
    RunAppend(cfg, Atomic, s1, first, rest);
    es := first + rest;
    ExactSuppression(cfg, s, query, es);
    IdleGrows(cfg, announcers, withEntry, t, rest);
  }

  lemma AnnouncersAreNodes(s: Swarm)
    ensures Announcers(s) <= s.nodes.Keys
  {
  }

  // ---- exactly when packets are limited ----

  /** The number of response packets of a complete round. */
  ghost function RoundPackets(cfg: Config, s: Swarm, query: Event, es: seq<Event>): nat
    requires ValidConfig(cfg) && Opens(cfg, s, query) && Completes(cfg, Next(cfg, s, query), es)
  {
    PacketsSince(After(cfg, Atomic, Next(cfg, s, query), es).log)
  }

  /**
   Every completion of a round sends at most cutoff packets if and only if at most cutoff nodes have
   an entry or every entry has an address; every completion sends exactly
   min(announcing nodes, cutoff) packets if and only if every entry has an address.
   */
  lemma LimitedIff(cfg: Config, s: Swarm, query: Event)
    requires ValidConfig(cfg) && Opens(cfg, s, query)
    ensures (forall es :: Completes(cfg, Next(cfg, s, query), es) ==> RoundPackets(cfg, s, query, es) <= cfg.cutoff)
            <==> |WithEntry(s)| <= cfg.cutoff || Announcers(s) == WithEntry(s)
    ensures (forall es :: Completes(cfg, Next(cfg, s, query), es) ==>
               RoundPackets(cfg, s, query, es) == Min(|Announcers(s)|, cfg.cutoff))
            <==> Announcers(s) == WithEntry(s)
  {
    hide Next, Enabled, Sound, LogFits, Waiting, Completes, Announcers, WithEntry, PacketsSince;
    var announcers, withEntry := Announcers(s), WithEntry(s);
    AnnouncersHaveEntries(s);
    assert withEntry == announcers + (withEntry - announcers);
    var worst := MostPackets(cfg, s, query);
    forall es | Completes(cfg, Next(cfg, s, query), es)
      ensures Min(|announcers|, cfg.cutoff) <= RoundPackets(cfg, s, query, es) <= RoundPackets(cfg, s, query, worst)
    {
      ExactSuppression(cfg, s, query, es);
    }
  }

  // ---- over whole runs ----

  /** No node has an entry without addresses. */
  ghost predicate EntriesAddressed(s: Swarm) {
    forall id :: id in s.nodes && Entered(s.nodes[id]) ==> Announces(s.nodes[id])
  }

  ghost predicate AlwaysAddressed(cfg: Config, r: Regime, s: Swarm, es: seq<Event>)
    requires ValidConfig(cfg) && Run(cfg, r, s, es)
  {
    && EntriesAddressed(After(cfg, r, s, es))
    && (es == [] || AlwaysAddressed(cfg, r, s, es[..|es| - 1]))
  }

  ghost predicate AllCarry(log: seq<Sent>) {
    forall i :: 0 <= i < |log| && log[i].ResponseSent? ==> log[i].Carries()
  }

  lemma StepCarries(cfg: Config, s: Swarm, e: Event)
    requires ValidConfig(cfg) && Sound(cfg, s) && EntriesAddressed(s) && AllCarry(s.log) && Enabled(s, e)
    ensures AllCarry(Next(cfg, s, e).log)
  {
    hide Next, Enabled, Sound, Heard;
    if e.ResponseTimeout? {
      RespondLog(cfg, s, e);
      if Heard(cfg, s, e.responder).Some? {
        RespondersAreNodes(s, e);
        HeardCounts(cfg, s, e.responder);
      }
    } else {
      LogStep(cfg, s, e);
    }
  }

  lemma RespondersAreNodes(s: Swarm, e: Event)
    requires e.ResponseTimeout? && Enabled(s, e)
    ensures e.responder in s.nodes
  {
  }

  lemma {:induction false} RunCarries(cfg: Config, r: Regime, s: Swarm, es: seq<Event>)
    requires ValidConfig(cfg) && Run(cfg, r, s, es) && AlwaysAddressed(cfg, r, s, es)
    requires Sound(cfg, s) && AllCarry(s.log)
    ensures AllCarry(After(cfg, r, s, es).log)
  {
    hide Next, Enabled, Obeys, Sound, EntriesAddressed, AllCarry;
    if es != [] {
      var n := |es| - 1;
      assert AlwaysAddressed(cfg, r, s, es[..n]);
      RunCarries(cfg, r, s, es[..n]);
      RunKeepsSound(cfg, r, s, es[..n]);
      StepCarries(cfg, After(cfg, r, s, es[..n]), es[n]);
    }
  }

  lemma {:induction false} AllPacketsCarry(log: seq<Sent>, a: int, b: int)
    requires AllCarry(log)
    ensures Packets(log, a, b) == Responses(log, a, b)
  {
    if log != [] {
      var init := log[..|log| - 1];
      assert forall i :: 0 <= i < |init| ==> init[i] == log[i];
      AllPacketsCarry(init, a, b);
    }
  }

  /**
   If no node ever has an entry without addresses, the bound on address-carrying responses is a bound
   on all response packets.
   */
  lemma AddressedBandwidth(cfg: Config, most: nat, es: seq<Event>, a: int, t: nat)
    requires ValidConfig(cfg) && Run(cfg, Missing(most), EMPTY, es) && AlwaysAddressed(cfg, Missing(most), EMPTY, es)
    ensures Packets(After(cfg, Missing(most), EMPTY, es).log, a, a + t) <= (t / cfg.tau + 2) * (cfg.cutoff + most)
  {
    hide Run, AlwaysAddressed;
    assert Sound(cfg, EMPTY) by { EmptyIsSound(cfg); }
    RunCarries(cfg, Missing(most), EMPTY, es);
    AllPacketsCarry(After(cfg, Missing(most), EMPTY, es).log, a, a + t);
    Bandwidth.Bandwidth(cfg, most, es, a, t);
  }

  /** The same under atomic broadcast, where nothing is missed. */
  lemma AtomicAddressedBandwidth(cfg: Config, es: seq<Event>, a: int, t: nat)
    requires ValidConfig(cfg) && Run(cfg, Atomic, EMPTY, es) && AlwaysAddressed(cfg, Atomic, EMPTY, es)
    ensures Packets(After(cfg, Atomic, EMPTY, es).log, a, a + t) <= (t / cfg.tau + 2) * cfg.cutoff
  {
    hide Run, AlwaysAddressed;
    assert Sound(cfg, EMPTY) by { EmptyIsSound(cfg); }
    RunCarries(cfg, Atomic, EMPTY, es);
    AllPacketsCarry(After(cfg, Atomic, EMPTY, es).log, a, a + t);
    Bandwidth.AtomicBandwidth(cfg, es, a, t);
  }

  // ---- otherwise there is no bound ----

  function Names(n: nat): set<Str> {
    set i | 0 <= i < n :: Decimal(i)
  }

  lemma {:induction false} NamesAreDistinct(n: nat)
    ensures |Names(n)| == n && Decimal(n) !in Names(n)
    ensures Names(n + 1) == Names(n) + {Decimal(n)}
  {
    DecimalRoundTrip(n);
    forall i | 0 <= i < n ensures Decimal(i) != Decimal(n) {
      DecimalRoundTrip(i);
    }
    if n > 0 {
      NamesAreDistinct(n - 1);
    }
  }

  lemma NumbersAreIds(i: nat)
    requires i < Pow10(57)
    ensures LabelId(Decimal(i))
  {
    DecimalLength(i, 57, Pow10(57));
    AsciiIsUtf8(Decimal(i));
  }

  // the one address that every node of the crowd has when it joins
  const PORT: Dns.Port := 1234
  const ADDRESSED := Announcement.Announced([Addr(V4(1), PORT)], map[])

  /** The first of these joins with an address, the second one takes it away. */
  function JoinAndRemove(id: Str): (Event, Event) {
    (Join(id, Some(ADDRESSED), 0), Order(id, Announcement.RemovePort(PORT)))
  }

  /** Nodes that have lost their addresses, all in their query phase and due at tau. */
  ghost predicate Crowd(cfg: Config, n: nat, s: Swarm) {
    && s.now == 0 && s.log == [] && s.nodes.Keys == Names(n)
    && forall id :: id in s.nodes ==>
         && s.nodes[id].auto.phase.Querying?
         && s.nodes[id].auto.own == Some(Announcement.NOTHING)
         && s.nodes[id].deadline == cfg.tau
  }

  lemma RemovalLeavesNothing()
    ensures Announcement.Apply(Some(ADDRESSED), Announcement.RemovePort(PORT)) == Some(Announcement.NOTHING)
  {
    assert (set a | a in ADDRESSED.addrs && a.port != PORT) == {};
  }

  lemma NewcomerHasAddress(cfg: Config, id: Str)
    ensures var k := Newcomer(cfg, 0, id, Some(ADDRESSED), 0);
      && k.auto.phase.Querying? && k.auto.own == Some(ADDRESSED) && k.deadline == cfg.tau
  {
    hide QueryInterval;
  }

  lemma OrderApplies(cfg: Config, now: nat, id: Str, n: Node, c: Announcement.Command)
    requires ValidConfig(cfg) && n.auto.phase.Querying?
    ensures var k := React(cfg, now, id, n, Update(c), 0);
      k.auto.phase.Querying? && k.auto.own == Announcement.Apply(n.auto.own, c) && k.deadline == n.deadline
  {
    hide Announcement.Apply;
  }

  lemma CanJoin(s: Swarm, id: Str)
    requires id !in s.nodes && LabelId(id)
    ensures Enabled(s, JoinAndRemove(id).0)
  {
  }

  lemma NextOfCrowd(cfg: Config, n: nat, s: Swarm)
    requires ValidConfig(cfg) && Crowd(cfg, n, s) && Enabled(s, JoinAndRemove(Decimal(n)).0)
    ensures var t := Next(cfg, s, JoinAndRemove(Decimal(n)).0);
      && Enabled(t, JoinAndRemove(Decimal(n)).1)
      && Crowd(cfg, n + 1, Next(cfg, t, JoinAndRemove(Decimal(n)).1))
  {
    hide Decimal, LabelId, Newcomer, Names, React;
    var id := Decimal(n);
    NamesAreDistinct(n);
    NewcomerHasAddress(cfg, id);
    RemovalLeavesNothing();
    OrderApplies(cfg, 0, id, Newcomer(cfg, 0, id, Some(ADDRESSED), 0), Announcement.RemovePort(PORT));
  }

  lemma {:induction false} CrowdGathers(cfg: Config, n: nat) returns (es: seq<Event>)
    requires ValidConfig(cfg) && n <= Pow10(57)
    ensures Run(cfg, Atomic, EMPTY, es)
    ensures Crowd(cfg, n, After(cfg, Atomic, EMPTY, es))
  {
    hide Next, Decimal, LabelId, Enabled;
    if n == 0 {
      es := [];
    } else {
      var init := CrowdGathers(cfg, n - 1);
      var s := After(cfg, Atomic, EMPTY, init);
      NamesAreDistinct(n - 1);
      NumbersAreIds(n - 1);
      var (join, remove) := JoinAndRemove(Decimal(n - 1));
      CanJoin(s, Decimal(n - 1));
      NextOfCrowd(cfg, n - 1, s);
      RunOne(cfg, Atomic, s, join);
      RunAppend(cfg, Atomic, EMPTY, init, [join]);
      RunOne(cfg, Atomic, Next(cfg, s, join), remove);
      RunAppend(cfg, Atomic, EMPTY, init + [join], [remove]);
      es := init + [join] + [remove];
    }
  }

  /** The crowd is idle once its timers are due: nobody waits for responses and nobody announces an address. */
  lemma CrowdIsReady(cfg: Config, n: nat, s: Swarm)
    requires ValidConfig(cfg) && 1 <= n && Crowd(cfg, n, s)
    ensures var t := Next(cfg, s, Tick(cfg.tau));
      && LogFits(t) && Waiting(t) == {} && Announcers(t) == {} && |WithEntry(t)| == n
      && Enabled(t, QueryTimeout(Decimal(0), (x: Str) => false, (x: Str) => 0))
  {
    hide Decimal;
    var t := Next(cfg, s, Tick(cfg.tau));
    NamesAreDistinct(n);
    assert WithEntry(t) == Names(n);
    assert Decimal(0) in Names(n);
  }

  /** The crowd gathers and waits until its timers are due. */
  lemma ReadyCrowd(cfg: Config, n: nat) returns (es: seq<Event>)
    requires ValidConfig(cfg) && 1 <= n <= Pow10(57)
    ensures Run(cfg, Atomic, EMPTY, es)
    ensures var t := After(cfg, Atomic, EMPTY, es);
      && Opens(cfg, t, QueryTimeout(Decimal(0), (x: Str) => false, (x: Str) => 0))
      && Announcers(t) == {} && |WithEntry(t)| == n
  {
    hide Next, Enabled, Decimal, Sound;
    var gather := CrowdGathers(cfg, n);
    var s := After(cfg, Atomic, EMPTY, gather);
    assert Sound(cfg, EMPTY) by { EmptyIsSound(cfg); }
    RunKeepsSound(cfg, Atomic, EMPTY, gather);
    CrowdIsReady(cfg, n, s);
    EnabledTick(s, cfg.tau);
    StepKeepsSound(cfg, s, Tick(cfg.tau));
    RunOne(cfg, Atomic, s, Tick(cfg.tau));
    RunAppend(cfg, Atomic, EMPTY, gather, [Tick(cfg.tau)]);
    es := gather + [Tick(cfg.tau)];
  }

  lemma EmptyIsSound(cfg: Config)
    ensures Sound(cfg, EMPTY)
  {
  }

  /**
   For every n there is a run in which n nodes join with an address, lose it by a command, and then
   send n response packets in a single round.
   */
  lemma EmptyAnnouncersAreNotLimited(cfg: Config, n: nat)
    requires ValidConfig(cfg) && 1 <= n <= Pow10(57)
    ensures exists es :: Run(cfg, Atomic, EMPTY, es) && PacketsSince(After(cfg, Atomic, EMPTY, es).log) == n
  {
    hide Next, Enabled, Decimal, Sound, Waiting, Announcers, WithEntry, LogFits, PacketsSince;
    var start := ReadyCrowd(cfg, n);
    var t := After(cfg, Atomic, EMPTY, start);
    var query := QueryTimeout(Decimal(0), (x: Str) => false, (x: Str) => 0);
    var round := MostPackets(cfg, t, query);
    assert WithEntry(t) - {} == WithEntry(t);
    RunOne(cfg, Atomic, t, query);
    RunAppend(cfg, Atomic, EMPTY, start, [query]);
    RunAppend(cfg, Atomic, EMPTY, start + [query], round);
  }

  lemma EnabledTick(s: Swarm, elapsed: nat)
    ensures Enabled(s, Tick(elapsed))
  {
  }
}
