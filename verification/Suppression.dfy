/**
 One round of the swarm under atomic broadcast (src/sender.rs:96-151): from a query that finds every
 node in its query phase until every node is back in it.

 Main results: `ExactSuppression` and `RoundsCanFinish`. What entries without addresses do to the
 number of packets is the subject of `EmptyEntries`.
 */
module Suppression {
  import opened Ordering
  import opened Text
  import opened Peers
  import opened Delays
  import opened Sender
  import opened Swarm
  import Receiver
  import Codec
  import W = Response

  // ---- reachable nodes are sound ----

  ghost predicate Sound(cfg: Config, s: Swarm) {
    forall id :: id in s.nodes ==> LabelId(id) && Invariant(cfg, id, s.nodes[id].auto)
  }

  lemma ReactIsSound(cfg: Config, now: nat, id: Str, n: Node, m: Msg, draw: nat)
    requires ValidConfig(cfg) && Invariant(cfg, id, n.auto) && RoutedMsg(m)
    ensures Invariant(cfg, id, React(cfg, now, id, n, m, draw).auto)
  {
    hide Step, Invariant, RoutedMsg;
    StepKeepsInvariant(cfg, id, n.auto, m, draw);
  }

  lemma StepKeepsSound(cfg: Config, s: Swarm, e: Event)
    requires ValidConfig(cfg) && Sound(cfg, s) && Enabled(s, e)
    ensures Sound(cfg, Next(cfg, s, e))
  {
    hide React, Invariant, Receiver.DecodePeers;
    forall id | id in Next(cfg, s, e).nodes ensures LabelId(id) && Invariant(cfg, id, Next(cfg, s, e).nodes[id].auto) {
      if id in s.nodes {
        var n := s.nodes[id];
        match e {
          case QueryTimeout(who, overV6, draws) =>
            ReactIsSound(cfg, s.now, id, n, Timeout(n.auto.timeoutCount), draws(id));
            ReactIsSound(cfg, s.now, id, if id == who then TimedOut(cfg, s.now, id, n, draws(id)) else n, QueryMsg(overV6(id)), draws(id));
            QueryIsHeard(cfg, s, e);
          case ResponseTimeout(who, reached, draws) =>
            ReactIsSound(cfg, s.now, id, n, Timeout(n.auto.timeoutCount), draws(id));
            if Heard(cfg, s, who).Some? {
              var peers := Heard(cfg, s, who).value;
              ReactIsSound(cfg, s.now, id, if id == who then TimedOut(cfg, s.now, id, n, draws(id)) else n, Response(peers), draws(id));
            }
            ResponseIsHeard(cfg, s, e);
          case LateResponse(_, i, draw) => ReactIsSound(cfg, s.now, id, n, Response(ReadAt(s.log[i].heard, s.now)), draw);
          case Stray(_, peers, draw) => ReactIsSound(cfg, s.now, id, n, Response(peers), draw);
          case Resize(_, size) => ReactIsSound(cfg, s.now, id, n, SizeUpdate(size), 0);
          case Order(_, c) => RoutedOrder(cfg, s.now, id, n, s, e);
          case _ =>
        }
      } else {
        StartEstablishesInvariant(cfg, id, e.own, e.jdraw);
      }
    }
  }

  lemma RoutedOrder(cfg: Config, now: nat, id: Str, n: Node, s: Swarm, e: Event)
    requires ValidConfig(cfg) && Invariant(cfg, id, n.auto) && e.Order? && Enabled(s, e)
    ensures Invariant(cfg, id, React(cfg, now, id, n, Update(e.command), 0).auto)
  {
    hide React, Invariant;
    ReactIsSound(cfg, now, id, n, Update(e.command), 0);
  }

  lemma {:induction false} RunKeepsSound(cfg: Config, r: Regime, s: Swarm, es: seq<Event>)
    requires ValidConfig(cfg) && Run(cfg, r, s, es) && Sound(cfg, s)
    ensures Sound(cfg, After(cfg, r, s, es))
  {
    hide Next, Enabled, Obeys, Sound;
    if es != [] {
      var n := |es| - 1;
      RunKeepsSound(cfg, r, s, es[..n]);
      StepKeepsSound(cfg, After(cfg, r, s, es[..n]), es[n]);
    }
  }

  // ---- what a sound node's response counts for ----

  predicate Entered(n: Node) {
    n.auto.own.Some?
  }

  predicate Announces(n: Node) {
    n.auto.own.Some? && n.auto.own.value.addrs != []
  }

  /** A response counts as one exactly if it carries an address; a node without an entry sends none. */
  lemma HeardCounts(cfg: Config, s: Swarm, id: Str)
    requires Sound(cfg, s) && id in s.nodes
    ensures Heard(cfg, s, id).Some? <==> Entered(s.nodes[id])
    ensures Heard(cfg, s, id).Some? ==> |Heard(cfg, s, id).value| == if Announces(s.nodes[id]) then 1 else 0
    ensures Heard(cfg, s, id).Some? ==> (Heard(cfg, s, id).value != map[] <==> Announces(s.nodes[id]))
  {
    hide Receiver.DecodePeers, W.Response;
    var a := s.nodes[id].auto;
    if a.own.Some? {
      var announcer := Codec.Announcer(id, a.own.value);
      Codec.PacketDecodes(announcer, cfg.service, s.now);
      assert Codec.Packet(announcer, cfg.service) == W.Response(id, cfg.service, a.own.value);
    }
  }

  /** No node takes the response of a sound node for a query, over either version of IP. */
  lemma HeardAsResponse(cfg: Config, s: Swarm, id: Str, overV6: bool, later: nat)
    requires Sound(cfg, s) && id in s.nodes && Heard(cfg, s, id).Some?
    ensures Receiver.Decode(s.nodes[id].auto.response.value, cfg.service, overV6, later) ==
            Receiver.Response(ReadAt(Heard(cfg, s, id).value, later))
  {
    hide Receiver.DecodePeers, ReadAt;
    DecodedLater(s.nodes[id].auto.response.value, cfg.service, s.now, later);
  }

  // ---- a round ----

  function Waiting(s: Swarm): set<Str> {
    set id | id in s.nodes && s.nodes[id].auto.phase.Responding?
  }

  function WithEntry(s: Swarm): set<Str> {
    set id | id in s.nodes && Entered(s.nodes[id])
  }

  function Announcers(s: Swarm): set<Str> {
    set id | id in s.nodes && Announces(s.nodes[id])
  }

  predicate InRound(e: Event) {
    e.Tick? || e.ResponseTimeout? || e.Resize?
  }

  /**
   While the round is open, exactly the nodes that no longer wait have sent their response; once it
   has been cut off, nobody waits.
   */
  ghost predicate Tally(cutoff: nat, announcers: set<Str>, withEntry: set<Str>, waiting: set<Str>, sent: nat, packets: nat) {
    || (sent < cutoff && sent == |announcers - waiting| && packets == |withEntry - waiting|)
    || (sent == cutoff <= |announcers| && waiting == {} && sent <= packets <= sent + |withEntry - announcers|)
  }

  /** Every waiting node has counted all address-carrying responses of the round. */
  ghost predicate AllCounted(s: Swarm) {
    forall id :: id in Waiting(s) ==> s.nodes[id].auto.phase.responseCount == Since(s.log)
  }

  ghost predicate Progress(cfg: Config, announcers: set<Str>, withEntry: set<Str>, s: Swarm) {
    && Sound(cfg, s) && LogFits(s)
    && Announcers(s) == announcers && WithEntry(s) == withEntry
    && Tally(cfg.cutoff, announcers, withEntry, Waiting(s), Since(s.log), PacketsSince(s.log))
    && AllCounted(s)
  }

  lemma QueryOpensRound(cfg: Config, s: Swarm, e: Event)
    requires ValidConfig(cfg) && Sound(cfg, s) && LogFits(s) && Waiting(s) == {}
    requires e.QueryTimeout? && Enabled(s, e)
    ensures Progress(cfg, Announcers(s), WithEntry(s), Next(cfg, s, e))
    ensures Waiting(Next(cfg, s, e)) == s.nodes.Keys
  {
    hide Next, Enabled, React, TimedOut, Sound, Since, PacketsSince;
    var t := Next(cfg, s, e);
    StepKeepsSound(cfg, s, e);
    LogGrows(s, QuerySent(s.now, e.querier));
    LogStep(cfg, s, e);
    QueryIsHeard(cfg, s, e);
    forall id | id in s.nodes
      ensures id !in Waiting(s)
      ensures t.nodes[id].auto.phase.Responding? && t.nodes[id].auto.phase.responseCount == 0
      ensures SameRest(s.nodes[id], t.nodes[id])
    {
      AfterQuery(cfg, s, e, id);
    }
    assert Announcers(s) - Waiting(t) == {} && WithEntry(s) - Waiting(t) == {};
  }

  lemma SameEntries(cfg: Config, s: Swarm, e: Event)
    requires ValidConfig(cfg) && e.ResponseTimeout? && Enabled(s, e)
    ensures Announcers(Next(cfg, s, e)) == Announcers(s) && WithEntry(Next(cfg, s, e)) == WithEntry(s)
  {
    hide Next, Enabled, Heard;
    RespondLog(cfg, s, e);
    forall id | id in s.nodes ensures SameRest(s.nodes[id], Next(cfg, s, e).nodes[id]) {
      AfterRespond(cfg, s, e, id);
    }
  }

  /** Who waits after a response under atomic broadcast, and with which count. */
  lemma WhoWaits(cfg: Config, s: Swarm, e: Event, sent: nat)
    requires ValidConfig(cfg) && e.ResponseTimeout? && Enabled(s, e) && Obeys(Atomic, s, e)
    requires Sound(cfg, s)
    requires sent < cfg.cutoff
    requires forall id :: id in Waiting(s) ==> s.nodes[id].auto.phase.responseCount == sent
    ensures var t, more := Next(cfg, s, e), if Announces(s.nodes[e.responder]) then 1 else 0;
      if sent + more < cfg.cutoff then
        && Waiting(t) == Waiting(s) - {e.responder}
        && forall id :: id in Waiting(t) ==> t.nodes[id].auto.phase.responseCount == sent + more
      else
        Waiting(t) == {}
  {
    hide Next, Heard, Sound;
    RespondLog(cfg, s, e);
    HeardCounts(cfg, s, e.responder);
    forall id | id in s.nodes
      ensures var n, k, more := s.nodes[id], Next(cfg, s, e).nodes[id], if Announces(s.nodes[e.responder]) then 1 else 0;
        if n.auto.phase.Querying? || id == e.responder || sent + more >= cfg.cutoff then k.auto.phase.Querying?
        else k.auto.phase.Responding? && k.auto.phase.responseCount == sent + more
    {
      AfterRespond(cfg, s, e, id);
      assert s.nodes[id].auto.phase.Responding? ==> id in Waiting(s);
    }
  }

  lemma OneLessWaiting(group: set<Str>, waiting: set<Str>, who: Str)
    requires who in waiting
    ensures |group - (waiting - {who})| == |group - waiting| + if who in group then 1 else 0
    ensures |group - (waiting - {who})| <= |group|
    ensures |waiting - {who}| < |waiting|
  {
    var less := waiting - {who};
    if who in group {
      assert group - less == (group - waiting) + {who};
    } else {
      assert group - less == group - waiting;
    }
    assert group == (group - less) + (group * less);
  }

  lemma Responder(s: Swarm, e: Event)
    requires e.ResponseTimeout? && Enabled(s, e)
    ensures e.responder in s.nodes && e.responder in Waiting(s)
    ensures e.responder in Announcers(s) <==> Announces(s.nodes[e.responder])
    ensures e.responder in WithEntry(s) <==> Entered(s.nodes[e.responder])
    ensures Announces(s.nodes[e.responder]) ==> Entered(s.nodes[e.responder])
  {
  }

  lemma TallyStep(cutoff: nat, announcers: set<Str>, withEntry: set<Str>, waiting: set<Str>, sent: nat, packets: nat, who: Str)
    requires Tally(cutoff, announcers, withEntry, waiting, sent, packets) && who in waiting
    requires announcers <= withEntry
    ensures var sent', packets' :=
              sent + (if who in announcers then 1 else 0), packets + (if who in withEntry then 1 else 0);
      && (sent' < cutoff ==> Tally(cutoff, announcers, withEntry, waiting - {who}, sent', packets'))
      && (sent' >= cutoff ==> Tally(cutoff, announcers, withEntry, {}, sent', packets'))
  {
    OneLessWaiting(announcers, waiting, who);
    OneLessWaiting(withEntry, waiting, who);
    var rest := withEntry - announcers;
    assert withEntry - waiting == (announcers - waiting) + (rest - waiting);
    assert rest == (rest - waiting) + (rest * waiting);
    if who in withEntry && who !in announcers {
      assert rest * waiting == (rest * waiting - {who}) + {who};
    }
  }

  lemma OpenTally(cutoff: nat, announcers: set<Str>, withEntry: set<Str>, waiting: set<Str>, sent: nat, packets: nat, who: Str)
    requires Tally(cutoff, announcers, withEntry, waiting, sent, packets) && who in waiting
    ensures sent < cutoff
  {
  }

  lemma AnnouncersHaveEntries(s: Swarm)
    ensures Announcers(s) <= WithEntry(s)
  {
  }

  lemma RespondCounts(cfg: Config, s: Swarm, e: Event)
    requires ValidConfig(cfg) && Sound(cfg, s) && LogFits(s) && e.ResponseTimeout? && Enabled(s, e)
    ensures LogFits(Next(cfg, s, e))
    ensures Since(Next(cfg, s, e).log) == Since(s.log) + if e.responder in Announcers(s) then 1 else 0
    ensures PacketsSince(Next(cfg, s, e).log) == PacketsSince(s.log) + if e.responder in WithEntry(s) then 1 else 0
  {
    hide Next, Enabled, Heard, Sound, Waiting, Announcers, WithEntry, Announces, Entered, Since, PacketsSince;
    var who := e.responder;
    Responder(s, e);
    HeardCounts(cfg, s, who);
    RespondLog(cfg, s, e);
    if Heard(cfg, s, who).Some? {
      LogGrows(s, ResponseSent(s.now, who, Heard(cfg, s, who).value));
    } else {
      assert s.log + [] == s.log;
    }
  }

  /** Who waits after a response, in terms of the log. */
  lemma RespondKeepsAllCounted(cfg: Config, s: Swarm, e: Event)
    requires ValidConfig(cfg) && Sound(cfg, s) && LogFits(s) && AllCounted(s) && Since(s.log) < cfg.cutoff
    requires e.ResponseTimeout? && Enabled(s, e) && Obeys(Atomic, s, e)
    ensures var t := Next(cfg, s, e);
      && AllCounted(t)
      && Waiting(t) == if Since(t.log) < cfg.cutoff then Waiting(s) - {e.responder} else {}
  {
    hide Next, Enabled, Obeys, LogFits, Sound, Waiting, Announcers, Announces, Entered, Since, PacketsSince;
    Responder(s, e);
    WhoWaits(cfg, s, e, Since(s.log));
    RespondCounts(cfg, s, e);
  }

  lemma RespondKeepsProgress(cfg: Config, announcers: set<Str>, withEntry: set<Str>, s: Swarm, e: Event)
    requires ValidConfig(cfg) && Progress(cfg, announcers, withEntry, s)
    requires e.ResponseTimeout? && Enabled(s, e) && Obeys(Atomic, s, e)
    ensures Progress(cfg, announcers, withEntry, Next(cfg, s, e))
    ensures |Waiting(Next(cfg, s, e))| < |Waiting(s)|
    ensures e.responder !in announcers ==>
              Waiting(Next(cfg, s, e)) == Waiting(s) - {e.responder}
  {
    hide Next, Enabled, Obeys, LogFits, Sound, Waiting, Announcers, WithEntry, Announces, Entered, Since, PacketsSince,
         Tally, AllCounted;
    var who := e.responder;
    Responder(s, e);
    OpenTally(cfg.cutoff, announcers, withEntry, Waiting(s), Since(s.log), PacketsSince(s.log), who);
    StepKeepsSound(cfg, s, e);
    SameEntries(cfg, s, e);
    RespondKeepsAllCounted(cfg, s, e);
    RespondCounts(cfg, s, e);
    AnnouncersHaveEntries(s);
    TallyStep(cfg.cutoff, announcers, withEntry, Waiting(s), Since(s.log), PacketsSince(s.log), who);
    OneLessWaiting({}, Waiting(s), who);
  }

  lemma OtherKeepsPhases(cfg: Config, s: Swarm, e: Event, id: Str)
    requires ValidConfig(cfg) && (e.Tick? || e.Resize?) && Enabled(s, e) && id in s.nodes
    ensures id in Next(cfg, s, e).nodes
    ensures var n, k := s.nodes[id], Next(cfg, s, e).nodes[id]; k.auto.phase == n.auto.phase && k.auto.own == n.auto.own
  {
    hide React;
    if e.Resize? {
      OnOther(cfg, s.now, e.resized, s.nodes[e.resized], SizeUpdate(e.size), 0);
    }
  }

  lemma OtherKeepsProgress(cfg: Config, announcers: set<Str>, withEntry: set<Str>, s: Swarm, e: Event)
    requires ValidConfig(cfg) && Progress(cfg, announcers, withEntry, s)
    requires (e.Tick? || e.Resize?) && Enabled(s, e)
    ensures Progress(cfg, announcers, withEntry, Next(cfg, s, e))
    ensures Waiting(Next(cfg, s, e)) == Waiting(s)
  {
    hide Next, Enabled, Sound, Since, PacketsSince, Tally;
    StepKeepsSound(cfg, s, e);
    OtherKeepsRest(cfg, s, e);
    forall id | id in s.nodes
      ensures Next(cfg, s, e).nodes[id].auto.phase == s.nodes[id].auto.phase
      ensures Next(cfg, s, e).nodes[id].auto.own == s.nodes[id].auto.own
    {
      OtherKeepsPhases(cfg, s, e, id);
    }
    assert Waiting(Next(cfg, s, e)) == Waiting(s);
  }

  lemma OtherKeepsRest(cfg: Config, s: Swarm, e: Event)
    requires ValidConfig(cfg) && (e.Tick? || e.Resize?) && Enabled(s, e)
    ensures var t := Next(cfg, s, e); t.nodes.Keys == s.nodes.Keys && t.log == s.log && t.now >= s.now
  {
    hide React;
  }

  lemma {:induction false} RoundKeepsProgress(
      cfg: Config, announcers: set<Str>, withEntry: set<Str>, s: Swarm, es: seq<Event>)
    requires ValidConfig(cfg) && Progress(cfg, announcers, withEntry, s)
    requires Run(cfg, Atomic, s, es) && forall e :: e in es ==> InRound(e)
    ensures Progress(cfg, announcers, withEntry, After(cfg, Atomic, s, es))
  {
    hide Next, Enabled, Obeys, Progress;
    if es != [] {
      var n := |es| - 1;
      PrefixStep(es, n);
      RoundKeepsProgress(cfg, announcers, withEntry, s, es[..n]);
      var t := After(cfg, Atomic, s, es[..n]);
      assert InRound(es[n]);
      if es[n].ResponseTimeout? {
        RespondKeepsProgress(cfg, announcers, withEntry, t, es[n]);
      } else {
        OtherKeepsProgress(cfg, announcers, withEntry, t, es[n]);
      }
    }
  }

  /** An idle swarm - every node is in its query phase - in which a query timer is due. */
  ghost predicate Opens(cfg: Config, s: Swarm, query: Event) {
    Sound(cfg, s) && LogFits(s) && Waiting(s) == {} && query.QueryTimeout? && Enabled(s, query)
  }

  /** The events take every node back to its query phase. */
  ghost predicate Completes(cfg: Config, s: Swarm, es: seq<Event>)
    requires ValidConfig(cfg)
  {
    && Run(cfg, Atomic, s, es)
    && (forall e :: e in es ==> InRound(e))
    && Waiting(After(cfg, Atomic, s, es)) == {}
  }

  /**
   A complete round sends exactly min(announcing nodes, cutoff) address-carrying responses, in
   whatever order the timers fire. Entries without addresses may add a packet each, and they do if
   fewer nodes than cutoff announce an address.
   */
  lemma ExactSuppression(cfg: Config, s: Swarm, query: Event, es: seq<Event>)
    requires ValidConfig(cfg) && Opens(cfg, s, query) && Completes(cfg, Next(cfg, s, query), es)
    ensures var log, least := After(cfg, Atomic, Next(cfg, s, query), es).log, Min(|Announcers(s)|, cfg.cutoff);
      && Since(log) == least
      && least <= PacketsSince(log) <= least + |WithEntry(s) - Announcers(s)|
      && (|Announcers(s)| < cfg.cutoff ==> PacketsSince(log) == |WithEntry(s)|)
  {
    hide Next, Enabled, Sound, Announcers, WithEntry, Waiting, Since, PacketsSince;
    AnnouncersHaveEntries(s);
    QueryOpensRound(cfg, s, query);
    RoundKeepsProgress(cfg, Announcers(s), WithEntry(s), Next(cfg, s, query), es);
    ClosedTally(cfg.cutoff, Announcers(s), WithEntry(s), After(cfg, Atomic, Next(cfg, s, query), es).log);
  }

  lemma ClosedTally(cutoff: nat, announcers: set<Str>, withEntry: set<Str>, log: seq<Sent>)
    requires announcers <= withEntry
    requires Tally(cutoff, announcers, withEntry, {}, Since(log), PacketsSince(log))
    ensures var least := Min(|announcers|, cutoff);
      && Since(log) == least
      && least <= PacketsSince(log) <= least + |withEntry - announcers|
      && (|announcers| < cutoff ==> PacketsSince(log) == |withEntry|)
  {
    assert announcers - {} == announcers && withEntry - {} == withEntry;
    assert withEntry == announcers + (withEntry - announcers);
  }

  // ---- rounds can finish ----

  /** In a round, the timer of any waiting node can be the next to fire. */
  lemma FireNext(cfg: Config, announcers: set<Str>, withEntry: set<Str>, s: Swarm, who: Str)
    returns (es: seq<Event>)
    requires ValidConfig(cfg) && Progress(cfg, announcers, withEntry, s) && who in Waiting(s)
    ensures Run(cfg, Atomic, s, es) && forall e :: e in es ==> InRound(e)
    ensures var t := After(cfg, Atomic, s, es);
      && Progress(cfg, announcers, withEntry, t)
      && |Waiting(t)| < |Waiting(s)|
      && (who !in announcers ==> Waiting(t) == Waiting(s) - {who})
  {
    hide Next, Progress;
    var due := s.nodes[who].deadline;
    var wait := Tick(if due > s.now then due - s.now else 0);
    var s1 := Next(cfg, s, wait);
    OtherKeepsProgress(cfg, announcers, withEntry, s, wait);
    WaitingReady(cfg, s, who);
    var fire := ResponseTimeout(who, s1.nodes.Keys, (x: Str) => 0);
    RespondKeepsProgress(cfg, announcers, withEntry, s1, fire);
    RunOne(cfg, Atomic, s, wait);
    RunOne(cfg, Atomic, s1, fire);
    RunAppend(cfg, Atomic, s, [wait], [fire]);
    es := [wait] + [fire];
  }

  /** From every state of a round some firing order of the timers completes it. */
  lemma {:induction false} RoundsCanFinish(cfg: Config, announcers: set<Str>, withEntry: set<Str>, s: Swarm)
    returns (es: seq<Event>)
    requires ValidConfig(cfg) && Progress(cfg, announcers, withEntry, s)
    ensures Completes(cfg, s, es)
    decreases |Waiting(s)|
  {
    hide Next, Progress, Enabled, Obeys;
    if Waiting(s) == {} {
      es := [];
    } else {
      var who :| who in Waiting(s);
      var first := FireNext(cfg, announcers, withEntry, s, who);
      var rest := RoundsCanFinish(cfg, announcers, withEntry, After(cfg, Atomic, s, first));
      RunAppend(cfg, Atomic, s, first, rest);
      es := first + rest;
    }
  }

  lemma WaitingReady(cfg: Config, s: Swarm, who: Str)
    requires ValidConfig(cfg) && who in Waiting(s)
    ensures var due := s.nodes[who].deadline;
            var t := Next(cfg, s, Tick(if due > s.now then due - s.now else 0));
            t.nodes == s.nodes && CanTimeOut(t, who) && t.nodes[who].auto.phase.Responding?
  {
  }
}
