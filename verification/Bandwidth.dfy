/**
 The swarm's traffic is bounded independently of its size (README.md:3, src/sender.rs:52-152).

 Main results: `QuerySpacing`, `MissedInRun` (whoever may still respond has counted every response that
 has been delivered to it), `ResponseCap`, `Bandwidth` and `AtomicBandwidth`.
 */
module Bandwidth {
  import opened Text
  import opened Peers
  import opened Delays
  import opened Sender
  import opened Swarm

  // ---- query spacing ----

  /** A node in its query phase will not query before tau has passed since the last query. */
  ghost predicate Patient(cfg: Config, s: Swarm) {
    forall id :: id in s.nodes && s.nodes[id].auto.phase.Querying? && LastQuery(s.log).Some? ==>
      LastQuery(s.log).value + cfg.tau <= s.nodes[id].deadline
  }

  ghost predicate Spacing(cfg: Config, s: Swarm) {
    LogFits(s) && Spaced(s.log, cfg.tau) && Patient(cfg, s)
  }

  lemma QueryKeepsSpacing(cfg: Config, s: Swarm, e: Event)
    requires ValidConfig(cfg) && Spacing(cfg, s) && e.QueryTimeout? && Enabled(s, e)
    ensures Spacing(cfg, Next(cfg, s, e))
  {
    hide Next, React, TimedOut;
    LogStep(cfg, s, e);
    KeysStay(cfg, s, e);
    LogGrows(s, QuerySent(s.now, e.querier));
    LastQueryIsLast(s.log);
    forall id | id in s.nodes ensures Next(cfg, s, e).nodes[id].auto.phase.Responding? {
      AfterQuery(cfg, s, e, id);
    }
  }

  lemma SpacedGrows(log: seq<Sent>, tau: nat, x: Sent)
    requires Spaced(log, tau) && x.ResponseSent?
    ensures Spaced(log + [x], tau)
  {
  }

  /** A response leaves the queries of the log as they are. */
  lemma RespondKeepsLog(cfg: Config, s: Swarm, e: Event)
    requires ValidConfig(cfg) && LogFits(s) && Spaced(s.log, cfg.tau) && e.ResponseTimeout? && Enabled(s, e)
    ensures LogFits(Next(cfg, s, e)) && Spaced(Next(cfg, s, e).log, cfg.tau)
    ensures LastQuery(Next(cfg, s, e).log) == LastQuery(s.log)
  {
    hide Next, Enabled, Heard, Since, PacketsSince, Chronological, Spaced, LastQuery;
    var heard := Heard(cfg, s, e.responder);
    RespondLog(cfg, s, e);
    if heard.Some? {
      LogGrows(s, ResponseSent(s.now, e.responder, heard.value));
      SpacedGrows(s.log, cfg.tau, ResponseSent(s.now, e.responder, heard.value));
    } else {
      assert s.log + [] == s.log;
    }
  }

  lemma RespondKeepsSpacing(cfg: Config, s: Swarm, e: Event)
    requires ValidConfig(cfg) && Spacing(cfg, s) && e.ResponseTimeout? && Enabled(s, e)
    ensures Spacing(cfg, Next(cfg, s, e))
  {
    hide Next, Enabled, Heard, Chronological, Spaced, LastQuery;
    RespondLog(cfg, s, e);
    RespondKeepsLog(cfg, s, e);
    LastQueryFits(s);
    forall id | id in s.nodes && Next(cfg, s, e).nodes[id].auto.phase.Querying? && LastQuery(s.log).Some?
      ensures LastQuery(s.log).value + cfg.tau <= Next(cfg, s, e).nodes[id].deadline
    {
      AfterRespond(cfg, s, e, id);
    }
  }

  lemma LastQueryFits(s: Swarm)
    requires LogFits(s)
    ensures LastQuery(s.log).Some? ==> LastQuery(s.log).value <= s.now
  {
    LastQueryIsLast(s.log);
  }

  lemma OtherKeepsSpacing(cfg: Config, s: Swarm, e: Event)
    requires ValidConfig(cfg) && Spacing(cfg, s) && Enabled(s, e) && !e.QueryTimeout? && !e.ResponseTimeout?
    ensures Spacing(cfg, Next(cfg, s, e))
  {
    hide React;
    LastQueryIsLast(s.log);
    forall id | id in Next(cfg, s, e).nodes && Next(cfg, s, e).nodes[id].auto.phase.Querying? && LastQuery(s.log).Some?
      ensures LastQuery(s.log).value + cfg.tau <= Next(cfg, s, e).nodes[id].deadline
    {
      AfterOther(cfg, s, e, id);
    }
  }

  lemma {:induction false} RunKeepsSpacing(cfg: Config, r: Regime, s: Swarm, es: seq<Event>)
    requires ValidConfig(cfg) && Run(cfg, r, s, es) && Spacing(cfg, s)
    ensures Spacing(cfg, After(cfg, r, s, es))
  {
    hide Next, Enabled, Obeys, Spacing;
    if es != [] {
      var n := |es| - 1;
      RunKeepsSpacing(cfg, r, s, es[..n]);
      var t := After(cfg, r, s, es[..n]);
      if es[n].QueryTimeout? {
        QueryKeepsSpacing(cfg, t, es[n]);
      } else if es[n].ResponseTimeout? {
        RespondKeepsSpacing(cfg, t, es[n]);
      } else {
        OtherKeepsSpacing(cfg, t, es[n]);
      }
    }
  }

  /** In every run, even if responses are lost, any two queries anywhere in the swarm are at least tau apart. */
  lemma QuerySpacing(cfg: Config, r: Regime, es: seq<Event>)
    requires ValidConfig(cfg) && Run(cfg, r, EMPTY, es)
    ensures Chronological(After(cfg, r, EMPTY, es).log)
    ensures Spaced(After(cfg, r, EMPTY, es).log, cfg.tau)
  {
    RunKeepsSpacing(cfg, r, EMPTY, es);
  }

  // ---- the cap on responses ----

  /** Nodes in their response phase have not yet seen enough responses. */
  ghost predicate Undecided(cfg: Config, s: Swarm) {
    forall id :: id in s.nodes && s.nodes[id].auto.phase.Responding? ==> s.nodes[id].auto.phase.responseCount < cfg.cutoff
  }

  lemma StepKeepsUndecided(cfg: Config, s: Swarm, e: Event)
    requires ValidConfig(cfg) && Undecided(cfg, s) && Enabled(s, e)
    ensures Undecided(cfg, Next(cfg, s, e))
  {
    hide Next, Enabled, Heard;
    var t := Next(cfg, s, e);
    forall id | id in t.nodes && t.nodes[id].auto.phase.Responding?
      ensures t.nodes[id].auto.phase.responseCount < cfg.cutoff
    {
      if e.QueryTimeout? {
        KeysStay(cfg, s, e);
        AfterQuery(cfg, s, e, id);
      } else if e.ResponseTimeout? {
        KeysStay(cfg, s, e);
        AfterRespond(cfg, s, e, id);
      } else {
        AfterOther(cfg, s, e, id);
      }
    }
  }

  lemma KeysStay(cfg: Config, s: Swarm, e: Event)
    requires ValidConfig(cfg) && Enabled(s, e) && (e.QueryTimeout? || e.ResponseTimeout?)
    ensures Next(cfg, s, e).nodes.Keys == s.nodes.Keys
  {
    hide Next, React, TimedOut;
    if e.QueryTimeout? {
      QueryIsHeard(cfg, s, e);
    } else {
      RespondLog(cfg, s, e);
    }
  }

  lemma CappedGrows(log: seq<Sent>, x: Sent, most: nat)
    requires Capped(log, most)
    requires x.Carries() ==> Since(log) < most
    ensures Capped(log + [x], most)
  {
    var log' := log + [x];
    assert log'[..|log|] == log;
    assert log[..|log|] == log;
    forall i | 0 <= i <= |log'| ensures Since(log'[..i]) <= most {
      if i <= |log| {
        assert log'[..i] == log[..i];
      } else {
        assert log'[..i] == log';
      }
    }
  }

  // ---- deliveries are counted ----

  /**
   A node in its response phase has counted every address-carrying response since the last query that
   has been delivered to it; it may have counted more.
   */
  ghost predicate Counted(s: Swarm) {
    forall id :: id in s.nodes ==> CountedBy(s, id)
  }

  ghost predicate CountedBy(s: Swarm, id: Str)
    requires id in s.nodes
  {
    && (forall i :: i in s.nodes[id].received ==> i < |s.log|)
    && (s.nodes[id].auto.phase.Responding? ==>
          |Carriers(s.log) * s.nodes[id].received| <= s.nodes[id].auto.phase.responseCount)
  }

  lemma OneMore(c: set<nat>, r: set<nat>, i: nat)
    ensures |c * (r + {i})| <= |c * r| + if i in c then 1 else 0
  {
    if i in c {
      assert c * (r + {i}) == c * r + {i};
    } else {
      assert c * (r + {i}) == c * r;
    }
  }

  lemma QueryKeepsCounted(cfg: Config, s: Swarm, e: Event)
    requires ValidConfig(cfg) && Counted(s) && e.QueryTimeout? && Enabled(s, e)
    ensures Counted(Next(cfg, s, e))
  {
    hide Next, Enabled, Carriers;
    LogStep(cfg, s, e);
    KeysStay(cfg, s, e);
    CarriersGrow(s.log, QuerySent(s.now, e.querier));
    forall id | id in s.nodes ensures Next(cfg, s, e).nodes[id].received == s.nodes[id].received {
      AfterQuery(cfg, s, e, id);
    }
    assert forall r: set<nat> :: {} * r == {};
  }

  /** How a response changes the carriers. */
  lemma RespondCarries(cfg: Config, s: Swarm, e: Event)
    requires ValidConfig(cfg) && e.ResponseTimeout? && Enabled(s, e)
    ensures var t, heard := Next(cfg, s, e), Heard(cfg, s, e.responder);
      && |t.log| == |s.log| + (if heard.Some? then 1 else 0)
      && Carriers(t.log) == Carriers(s.log) + if heard.Some? && heard.value != map[] then {|s.log|} else {}
  {
    hide Next, Enabled, Heard, Carriers;
    var heard := Heard(cfg, s, e.responder);
    RespondLog(cfg, s, e);
    if heard.Some? {
      CarriersGrow(s.log, ResponseSent(s.now, e.responder, heard.value));
    } else {
      assert s.log + [] == s.log;
    }
  }

  /** A delivery of the next response adds at most what the response counts for. */
  lemma DeliveryCounts(c: set<nat>, r: set<nat>, n: nat, heard: map<Str, Peer>, delivered: bool)
    requires n !in c && n !in r
    ensures var c' := c + if heard != map[] then {n} else {};
      && (delivered ==> |c' * (r + {n})| <= |c * r| + |heard|)
      && (!delivered ==> c' * r == c * r)
  {
    assert (c + {n}) * (r + {n}) == c * r + {n};
    assert (c + {n}) * r == c * r;
    assert c * (r + {n}) == c * r;
    assert heard != map[] ==> |heard| >= 1;
  }

  lemma RespondKeepsCounted(cfg: Config, s: Swarm, e: Event)
    requires ValidConfig(cfg) && Counted(s) && e.ResponseTimeout? && Enabled(s, e)
    ensures Counted(Next(cfg, s, e))
  {
    hide Next, Enabled, CountedBy;
    RespondLog(cfg, s, e);
    forall id | id in Next(cfg, s, e).nodes ensures CountedBy(Next(cfg, s, e), id) {
      RespondKeepsCountedBy(cfg, s, e, id);
    }
  }

  lemma RespondKeepsCountedBy(cfg: Config, s: Swarm, e: Event, id: Str)
    requires ValidConfig(cfg) && id in s.nodes && CountedBy(s, id) && e.ResponseTimeout? && Enabled(s, e)
    ensures id in Next(cfg, s, e).nodes && CountedBy(Next(cfg, s, e), id)
  {
    hide Next, Enabled, Heard, Carriers;
    RespondCarries(cfg, s, e);
    SinceIsSize(s.log);
    AfterRespond(cfg, s, e, id);
    if Heard(cfg, s, e.responder).Some? {
      DeliveryCounts(
        Carriers(s.log), s.nodes[id].received, |s.log|, Heard(cfg, s, e.responder).value, id in e.reached);
    }
  }

  lemma OtherKeepsCounted(cfg: Config, s: Swarm, e: Event)
    requires ValidConfig(cfg) && Counted(s) && !e.QueryTimeout? && !e.ResponseTimeout? && Enabled(s, e)
    ensures Counted(Next(cfg, s, e))
  {
    hide Next, Carriers, Receives;
    var t := Next(cfg, s, e);
    forall id | id in t.nodes ensures CountedBy(t, id) {
      AfterOther(cfg, s, e, id);
      if id !in s.nodes {
        assert t.nodes[id].received == {} by { NewcomerHasNothing(cfg, s, e); }
      } else if e.LateResponse? && e.receiver == id {
        OneMore(Carriers(s.log), s.nodes[id].received, e.index);
        LateCounts(s, e);
      }
    }
  }

  lemma NewcomerHasNothing(cfg: Config, s: Swarm, e: Event)
    requires ValidConfig(cfg) && e.Join? && Enabled(s, e)
    ensures Next(cfg, s, e).nodes[e.newcomer].received == {}
  {
  }

  /** A late delivery counts at least as much as it delivers. */
  lemma LateCounts(s: Swarm, e: Event)
    requires e.LateResponse? && Enabled(s, e)
    ensures Receives(s, e, e.receiver).Some?
    ensures e.index in Carriers(s.log) ==> |Receives(s, e, e.receiver).value| >= 1
  {
    var heard := s.log[e.index].heard;
    if e.index in Carriers(s.log) {
      var id :| id in heard;
      assert id in ReadAt(heard, s.now);
    }
  }

  lemma StepKeepsCounted(cfg: Config, s: Swarm, e: Event)
    requires ValidConfig(cfg) && Counted(s) && Enabled(s, e)
    ensures Counted(Next(cfg, s, e))
  {
    hide Next, Enabled, Counted;
    if e.QueryTimeout? {
      QueryKeepsCounted(cfg, s, e);
    } else if e.ResponseTimeout? {
      RespondKeepsCounted(cfg, s, e);
    } else {
      OtherKeepsCounted(cfg, s, e);
    }
  }

  /** Whoever is in its response phase has counted all responses since the last query but those it has missed. */
  lemma OnlyMissedAreUncounted(s: Swarm, id: Str)
    requires Counted(s) && id in s.nodes && s.nodes[id].auto.phase.Responding?
    ensures Since(s.log) <= s.nodes[id].auto.phase.responseCount + |Missed(s, id)|
  {
    hide Carriers;
    var c, r := Carriers(s.log), s.nodes[id].received;
    SinceIsSize(s.log);
    assert c == c * r + (c - r);
  }

  lemma {:induction false} RunKeepsCounted(cfg: Config, r: Regime, s: Swarm, es: seq<Event>)
    requires ValidConfig(cfg) && Run(cfg, r, s, es) && Counted(s)
    ensures Counted(After(cfg, r, s, es))
  {
    hide Next, Enabled, Obeys, Counted;
    if es != [] {
      var n := |es| - 1;
      RunKeepsCounted(cfg, r, s, es[..n]);
      StepKeepsCounted(cfg, After(cfg, r, s, es[..n]), es[n]);
    }
  }

  /** In every run, a node in its response phase has counted all responses since the last query but those it has missed. */
  lemma MissedInRun(cfg: Config, r: Regime, es: seq<Event>, id: Str)
    requires ValidConfig(cfg) && Run(cfg, r, EMPTY, es)
    requires var s := After(cfg, r, EMPTY, es); id in s.nodes && s.nodes[id].auto.phase.Responding?
    ensures var s := After(cfg, r, EMPTY, es);
            Since(s.log) <= s.nodes[id].auto.phase.responseCount + |Missed(s, id)|
  {
    RunKeepsCounted(cfg, r, EMPTY, es);
    OnlyMissedAreUncounted(After(cfg, r, EMPTY, es), id);
  }

  lemma ResponderIsWaiting(cfg: Config, most: nat, s: Swarm, e: Event)
    requires ValidConfig(cfg) && Undecided(cfg, s) && Counted(s) && Enabled(s, e) && Obeys(Missing(most), s, e)
    ensures e.ResponseTimeout? ==> Since(s.log) < cfg.cutoff + most
  {
    hide Counted, Missed, Since;
    if e.ResponseTimeout? {
      OnlyMissedAreUncounted(s, e.responder);
    }
  }

  lemma {:induction false} RunKeepsCap(cfg: Config, most: nat, s: Swarm, es: seq<Event>)
    requires ValidConfig(cfg) && Run(cfg, Missing(most), s, es)
    requires Undecided(cfg, s) && Counted(s) && Capped(s.log, cfg.cutoff + most)
    ensures Undecided(cfg, After(cfg, Missing(most), s, es)) && Counted(After(cfg, Missing(most), s, es))
    ensures Capped(After(cfg, Missing(most), s, es).log, cfg.cutoff + most)
  {
    hide Next, Enabled, Obeys, Undecided, Counted, Capped, Since;
    if es != [] {
      var n := |es| - 1;
      RunKeepsCap(cfg, most, s, es[..n]);
      var t, e := After(cfg, Missing(most), s, es[..n]), es[n];
      StepKeepsUndecided(cfg, t, e);
      StepKeepsCounted(cfg, t, e);
      LogStep(cfg, t, e);
      ResponderIsWaiting(cfg, most, t, e);
      var log' := Next(cfg, t, e).log;
      if log' != t.log {
        CappedGrows(t.log, log'[|t.log|], cfg.cutoff + most);
      }
    }
  }

  /**
   If every node that responds has missed - not been delivered - at most `most` of the
   address-carrying responses since the last query, at most cutoff + most of them are sent between
   two queries, whatever the swarm size.
   */
  lemma ResponseCap(cfg: Config, most: nat, es: seq<Event>)
    requires ValidConfig(cfg) && Run(cfg, Missing(most), EMPTY, es)
    ensures Capped(After(cfg, Missing(most), EMPTY, es).log, cfg.cutoff + most)
  {
    RunKeepsCap(cfg, most, EMPTY, es);
  }

  // ---- atomic broadcasts are never missed ----

  ghost predicate AllDelivered(s: Swarm) {
    forall id :: id in s.nodes && s.nodes[id].auto.phase.Responding? ==> Missed(s, id) == {}
  }

  lemma AtomicQueryKeepsDelivered(cfg: Config, s: Swarm, e: Event)
    requires ValidConfig(cfg) && e.QueryTimeout? && Enabled(s, e)
    ensures AllDelivered(Next(cfg, s, e))
  {
    hide Next, Enabled, Carriers;
    LogStep(cfg, s, e);
    CarriersGrow(s.log, QuerySent(s.now, e.querier));
  }

  lemma AtomicRespondKeepsDelivered(cfg: Config, s: Swarm, e: Event)
    requires ValidConfig(cfg) && AllDelivered(s) && e.ResponseTimeout? && Enabled(s, e) && Obeys(Atomic, s, e)
    ensures AllDelivered(Next(cfg, s, e))
  {
    hide Next, Heard, Carriers;
    RespondLog(cfg, s, e);
    RespondCarries(cfg, s, e);
    forall id | id in s.nodes && Next(cfg, s, e).nodes[id].auto.phase.Responding?
      ensures Missed(Next(cfg, s, e), id) == {}
    {
      AfterRespond(cfg, s, e, id);
      assert Missed(s, id) == {};
    }
  }

  lemma AtomicStepKeepsDelivered(cfg: Config, s: Swarm, e: Event)
    requires ValidConfig(cfg) && AllDelivered(s) && Enabled(s, e) && Obeys(Atomic, s, e)
    ensures AllDelivered(Next(cfg, s, e))
  {
    hide Next, Carriers;
    if e.QueryTimeout? {
      AtomicQueryKeepsDelivered(cfg, s, e);
    } else if e.ResponseTimeout? {
      AtomicRespondKeepsDelivered(cfg, s, e);
    } else {
      forall id | id in Next(cfg, s, e).nodes && Next(cfg, s, e).nodes[id].auto.phase.Responding?
        ensures Missed(Next(cfg, s, e), id) == {}
      {
        AfterOther(cfg, s, e, id);
        assert Missed(s, id) == {};
      }
    }
  }

  /** Under atomic broadcast no node has missed a response when it responds. */
  lemma {:induction false} AtomicMissesNothing(cfg: Config, s: Swarm, es: seq<Event>)
    requires ValidConfig(cfg) && Run(cfg, Atomic, s, es) && AllDelivered(s)
    ensures Run(cfg, Missing(0), s, es)
    ensures After(cfg, Missing(0), s, es) == After(cfg, Atomic, s, es)
    ensures AllDelivered(After(cfg, Atomic, s, es))
  {
    hide Next, Enabled, AllDelivered;
    if es != [] {
      var n := |es| - 1;
      AtomicMissesNothing(cfg, s, es[..n]);
      var t := After(cfg, Atomic, s, es[..n]);
      AtomicStepKeepsDelivered(cfg, t, es[n]);
      DeliveredResponder(t, es[n]);
    }
  }

  lemma DeliveredResponder(s: Swarm, e: Event)
    requires AllDelivered(s) && Enabled(s, e)
    ensures Obeys(Missing(0), s, e)
  {
    hide Missed;
  }

  // ---- bandwidth ----

  lemma {:induction false} QueriesBefore(log: seq<Sent>, a: int, b: int, c: int)
    requires forall i :: 0 <= i < |log| && log[i].QuerySent? ==> log[i].at <= c
    ensures c <= b ==> Queries(log, a, b) == Queries(log, a, c)
  {
    if log != [] {
      var init := log[..|log| - 1];
      assert forall i :: 0 <= i < |init| ==> init[i] == log[i];
      QueriesBefore(init, a, b, c);
    }
  }

  lemma {:induction false} NoQueriesInEmptyWindow(log: seq<Sent>, a: int, b: int)
    requires b < a
    ensures Queries(log, a, b) == 0
  {
    if log != [] {
      NoQueriesInEmptyWindow(log[..|log| - 1], a, b);
    }
  }

  /** The most queries that fit into a window of the given length. */
  function MostQueries(length: nat, tau: nat): nat
    requires tau >= 1
  {
    length / tau + 1
  }

  lemma WindowStep(tau: nat, a: int, at: int, b: int)
    requires tau >= 1 && a <= at - tau && at <= b
    ensures MostQueries(at - tau - a, tau) + 1 <= MostQueries(b - a, tau)
  {
    DivStep(at - a, tau);
    DivMono(at - a, b - a, tau);
  }

  lemma SomeQueryFits(length: nat, tau: nat)
    requires tau >= 1
    ensures MostQueries(length, tau) >= 1
  {
  }

  lemma {:induction false} QueriesInWindow(log: seq<Sent>, tau: nat, a: int, b: int)
    requires tau >= 1 && Spaced(log, tau) && a <= b
    ensures Queries(log, a, b) <= MostQueries(b - a, tau)
  {
    hide MostQueries;
    SomeQueryFits(b - a, tau);
    if log != [] {
      var init := log[..|log| - 1];
      var x := log[|log| - 1];
      assert forall i :: 0 <= i < |init| ==> init[i] == log[i];
      if x.QuerySent? && a <= x.at <= b {
        QueriesBefore(init, a, b, x.at - tau);
        if x.at - tau < a {
          NoQueriesInEmptyWindow(init, a, x.at - tau);
        } else {
          QueriesInWindow(init, tau, a, x.at - tau);
          WindowStep(tau, a, x.at, b);
        }
      } else {
        QueriesInWindow(init, tau, a, b);
      }
    }
  }

  lemma CappedInit(log: seq<Sent>, most: nat)
    requires Capped(log, most)
    ensures Since(log) <= most
    ensures log != [] ==> Capped(log[..|log| - 1], most)
  {
    assert log[..|log|] == log;
    if log != [] {
      var init := log[..|log| - 1];
      forall i | 0 <= i <= |init| ensures Since(init[..i]) <= most {
        assert init[..i] == log[..i];
      }
    }
  }

  lemma ChronologicalInit(log: seq<Sent>)
    requires Chronological(log) && log != []
    ensures var init := log[..|log| - 1];
      Chronological(init) && forall i :: 0 <= i < |init| ==> init[i].at <= init[|init| - 1].at <= log[|log| - 1].at
  {
    var init := log[..|log| - 1];
    assert forall i :: 0 <= i < |init| ==> init[i] == log[i];
  }

  lemma {:induction false} NoResponsesBefore(log: seq<Sent>, a: int, b: int)
    requires forall i :: 0 <= i < |log| ==> log[i].at < a
    ensures Responses(log, a, b) == 0
  {
    if log != [] {
      var init := log[..|log| - 1];
      assert forall i :: 0 <= i < |init| ==> init[i] == log[i];
      NoResponsesBefore(init, a, b);
    }
  }

  lemma OneFactorMore(most: nat, q: nat)
    ensures most * (q + 1) == most * q + most
  {
  }

  /** Within a window, responses are limited by the queries in it and by what was sent since the last query. */
  lemma {:induction false} ResponsesInWindow(log: seq<Sent>, most: nat, a: int, b: int)
    requires Chronological(log) && Capped(log, most)
    ensures Responses(log, a, b) <= most * (Queries(log, a, b) + 1)
    ensures log != [] && a <= log[|log| - 1].at <= b ==> Responses(log, a, b) <= most * Queries(log, a, b) + Since(log)
  {
    hide Chronological, Capped;
    if log == [] {
      assert most * 1 == most;
    } else {
      var init := log[..|log| - 1];
      var x := log[|log| - 1];
      assert forall i :: 0 <= i < |init| ==> init[i] == log[i];
      CappedInit(log, most);
      CappedInit(init, most);
      ChronologicalInit(log);
      ResponsesInWindow(init, most, a, b);
      var q := Queries(init, a, b);
      OneFactorMore(most, q);
      OneFactorMore(most, q + 1);
      if a <= x.at <= b && init != [] && init[|init| - 1].at < a {
        assert forall i :: 0 <= i < |init| ==> init[i].at < a;
        NoResponsesBefore(init, a, b);
      }
    }
  }

  lemma WindowBound(log: seq<Sent>, tau: nat, most: nat, a: int, t: nat)
    requires tau >= 1 && Chronological(log) && Spaced(log, tau) && Capped(log, most)
    ensures Queries(log, a, a + t) <= t / tau + 1
    ensures Responses(log, a, a + t) <= (t / tau + 2) * most
  {
    hide Queries, Responses, Spaced, Capped, Chronological;
    QueriesInWindow(log, tau, a, a + t);
    ResponsesInWindow(log, most, a, a + t);
    var k := t / tau;
    MulBound(most, Queries(log, a, a + t) + 1, most, k + 2);
    assert (k + 2) * most == most * (k + 2);
  }

  /**
   In every window [a, a + t] of every run there are at most t / tau + 1 queries and at most
   (t / tau + 2) * (cutoff + most) address-carrying responses, independently of the swarm size.
   */
  lemma Bandwidth(cfg: Config, most: nat, es: seq<Event>, a: int, t: nat)
    requires ValidConfig(cfg) && Run(cfg, Missing(most), EMPTY, es)
    ensures var log := After(cfg, Missing(most), EMPTY, es).log;
      && Queries(log, a, a + t) <= t / cfg.tau + 1
      && Responses(log, a, a + t) <= (t / cfg.tau + 2) * (cfg.cutoff + most)
  {
    hide Spaced, Capped, Chronological;
    QuerySpacing(cfg, Missing(most), es);
    ResponseCap(cfg, most, es);
    WindowBound(After(cfg, Missing(most), EMPTY, es).log, cfg.tau, cfg.cutoff + most, a, t);
  }

  /** The bound under atomic broadcast: no response is ever missed. */
  lemma AtomicBandwidth(cfg: Config, es: seq<Event>, a: int, t: nat)
    requires ValidConfig(cfg) && Run(cfg, Atomic, EMPTY, es)
    ensures var log := After(cfg, Atomic, EMPTY, es).log;
      && Queries(log, a, a + t) <= t / cfg.tau + 1
      && Responses(log, a, a + t) <= (t / cfg.tau + 2) * cfg.cutoff
  {
    AtomicMissesNothing(cfg, EMPTY, es);
    Bandwidth(cfg, 0, es, a, t);
  }
}
