/**
 The swarm keeps talking (README.md, "a steady flow of packets"): if timers fire on time, the next
 query is never further away than the longest query-response cycle.
 */
module Cadence {
  import opened Wrappers
  import opened Text
  import opened Delays
  import opened Sender
  import opened Swarm

  /** The longest query phase if no node believes the swarm to be larger than `bound`. */
  function QuerySpan(cfg: Config, bound: nat): nat {
    cfg.tau + cfg.tau * bound / 10
  }

  /** The longest response phase. */
  function ResponseSpan(cfg: Config, bound: nat): nat
    requires ValidConfig(cfg)
  {
    RESPONSE_DELAY * bound / cfg.cutoff + 10 * RESPONSE_DELAY
  }

  ghost predicate Tame(bound: nat, n: Node) {
    n.auto.swarmSize <= bound && ValidExtra(n.auto.extraDelay)
  }

  /** Either the timer runs on in the same phase, or a new one of bounded length has been armed. */
  ghost predicate Rearmed(cfg: Config, bound: nat, now: nat, n: Node, k: Node)
    requires ValidConfig(cfg)
  {
    && k.joined == n.joined
    && Tame(bound, k)
    && if k.auto.phase.Querying? == n.auto.phase.Querying? then k.deadline == n.deadline
       else now <= k.deadline <= now + if k.auto.phase.Querying? then QuerySpan(cfg, bound) else ResponseSpan(cfg, bound)
  }

  lemma ReactRearms(cfg: Config, bound: nat, now: nat, id: Str, n: Node, m: Msg, draw: nat)
    requires ValidConfig(cfg) && draw < DRAWS && Tame(bound, n)
    requires m.SizeUpdate? ==> m.size <= bound
    ensures Rearmed(cfg, bound, now, n, React(cfg, now, id, n, m, draw))
  {
    hide QueryDelay, ResponseDelay, ExtraDelay, ValidExtra, Announcement.Apply, Discovery.UpdatedResponse;
    var a := n.auto;
    var extra := ExtraDelay(a.extraDelay, a.hasResponded, a.swarmSize, cfg.cutoff);
    ExtraDelayIsValid(a.extraDelay, a.hasResponded, a.swarmSize, cfg.cutoff);
    ValidExtraIsSmall(extra);
    QueryDelayBounds(cfg.tau, a.swarmSize, bound, draw);
    ResponseDelayBounds(cfg.cutoff, a.swarmSize, bound, draw, extra);
  }

  lemma ValidExtraIsSmall(extra: nat)
    requires ValidExtra(extra)
    ensures extra <= 10 * RESPONSE_DELAY
  {
  }

  ghost predicate Bounded(bound: nat, s: Swarm) {
    forall id :: id in s.nodes ==> Tame(bound, s.nodes[id])
  }

  /** Every node that stays is rearmed; only a query starts response phases. */
  lemma EventRearms(cfg: Config, bound: nat, s: Swarm, e: Event, id: Str)
    requires ValidConfig(cfg) && Enabled(s, e) && Obeys(Prompt(bound), s, e) && Bounded(bound, s)
    requires id in s.nodes && id in Next(cfg, s, e).nodes
    ensures Rearmed(cfg, bound, s.now, s.nodes[id], Next(cfg, s, e).nodes[id])
  {
    hide React, QuerySpan, ResponseSpan, Receiver.DecodePeers;
    var n := s.nodes[id];
    match e {
      case QueryTimeout(who, overV6, draws) =>
        QueryIsHeard(cfg, s, e);
        var n1 := if id == who then TimedOut(cfg, s.now, id, n, draws(id)) else n;
        OnTimeout(cfg, s.now, id, n, draws(id));
        OnQuery(cfg, s.now, id, n1, overV6(id), draws(id));
        ReactRearms(cfg, bound, s.now, id, n, Timeout(n.auto.timeoutCount), draws(id));
        ReactRearms(cfg, bound, s.now, id, n, QueryMsg(overV6(id)), draws(id));
      case ResponseTimeout(who, reached, draws) =>
        OnTimeout(cfg, s.now, id, n, draws(id));
        ReactRearms(cfg, bound, s.now, id, n, Timeout(n.auto.timeoutCount), draws(id));
        ResponseIsHeard(cfg, s, e);
        if Heard(cfg, s, who).Some? {
          var peers := Heard(cfg, s, who).value;
          ReactRearms(cfg, bound, s.now, id, n, Response(peers), draws(id));
          OnResponse(cfg, s.now, id, TimedOut(cfg, s.now, id, n, draws(id)), peers, draws(id));
        }
      case LateResponse(who, i, draw) =>
        ReactRearms(cfg, bound, s.now, who, s.nodes[who], Response(ReadAt(s.log[i].heard, s.now)), draw);
      case Stray(who, peers, draw) => ReactRearms(cfg, bound, s.now, who, s.nodes[who], Response(peers), draw);
      case Resize(who, size) => ReactRearms(cfg, bound, s.now, who, s.nodes[who], SizeUpdate(size), 0);
      case Order(who, c) => ReactRearms(cfg, bound, s.now, who, s.nodes[who], Update(c), 0);
      case _ =>
    }
  }

  /** The last query that concerns a node: it also waits a full cycle after joining. */
  function Base(s: Swarm, n: Node): nat {
    match LastQuery(s.log)
    case Some(at) => Max(at, n.joined)
    case None => n.joined
  }

  ghost predicate OnTime(cfg: Config, bound: nat, s: Swarm, n: Node)
    requires ValidConfig(cfg)
  {
    && Tame(bound, n)
    && n.joined <= s.now <= n.deadline
    && n.deadline <= Base(s, n) + ResponseSpan(cfg, bound) + if n.auto.phase.Querying? then QuerySpan(cfg, bound) else 0
  }

  ghost predicate Punctual(cfg: Config, bound: nat, s: Swarm)
    requires ValidConfig(cfg)
  {
    LogFits(s) && forall id :: id in s.nodes ==> OnTime(cfg, bound, s, s.nodes[id])
  }

  lemma NewcomerIsOnTime(cfg: Config, bound: nat, s: Swarm, e: Event)
    requires ValidConfig(cfg) && bound >= 1 && Enabled(s, e) && e.Join?
    ensures OnTime(cfg, bound, Next(cfg, s, e), Next(cfg, s, e).nodes[e.newcomer])
  {
    hide QueryDelay;
    QueryDelayBounds(cfg.tau, 1, bound, e.jdraw);
    assert RESPONSE_DELAY * 0 == 0;
  }

  lemma StepKeepsPunctual(cfg: Config, bound: nat, s: Swarm, e: Event)
    requires ValidConfig(cfg) && bound >= 1 && Enabled(s, e) && Obeys(Prompt(bound), s, e)
    requires Punctual(cfg, bound, s)
    ensures Punctual(cfg, bound, Next(cfg, s, e))
  {
    hide React, TimedOut, QuerySpan, ResponseSpan, Tame;
    var t := Next(cfg, s, e);
    LogStepLast(cfg, s, e);
    LastQueryIsLast(s.log);
    forall id | id in t.nodes ensures OnTime(cfg, bound, t, t.nodes[id]) {
      if id !in s.nodes {
        NewcomerIsOnTime(cfg, bound, s, e);
      } else {
        EventRearms(cfg, bound, s, e, id);
        if e.QueryTimeout? {
          AfterQuery(cfg, s, e, id);
        } else if e.ResponseTimeout? {
          AfterRespond(cfg, s, e, id);
        } else {
          AfterOther(cfg, s, e, id);
        }
      }
    }
  }

  lemma LogStepLast(cfg: Config, s: Swarm, e: Event)
    requires ValidConfig(cfg) && Enabled(s, e) && LogFits(s)
    ensures LogFits(Next(cfg, s, e))
    ensures LastQuery(Next(cfg, s, e).log) == if e.QueryTimeout? then Some(s.now) else LastQuery(s.log)
    ensures Next(cfg, s, e).now == s.now + if e.Tick? then e.elapsed else 0
  {
    hide Next, Enabled, LastQuery, Since, PacketsSince;
    LogStep(cfg, s, e);
    var log' := Next(cfg, s, e).log;
    if log' != s.log {
      LogGrows(s, log'[|s.log|]);
    }
  }

  lemma {:induction false} RunKeepsPunctual(cfg: Config, bound: nat, s: Swarm, es: seq<Event>)
    requires ValidConfig(cfg) && bound >= 1 && Run(cfg, Prompt(bound), s, es) && Punctual(cfg, bound, s)
    ensures Punctual(cfg, bound, After(cfg, Prompt(bound), s, es))
  {
    hide Next, Enabled, Obeys, Punctual;
    if es != [] {
      var n := |es| - 1;
      RunKeepsPunctual(cfg, bound, s, es[..n]);
      StepKeepsPunctual(cfg, bound, After(cfg, Prompt(bound), s, es[..n]), es[n]);
    }
  }

  /**
   In every run with prompt timers and size estimates of at most `bound`: as long as any node is
   present, no more than tau + tau * bound / 10 + 100ms * bound / cutoff + 1s pass without a query
   since the last one or since that node joined.
   */
  lemma SteadyCadence(cfg: Config, bound: nat, es: seq<Event>)
    requires ValidConfig(cfg) && bound >= 1 && Run(cfg, Prompt(bound), EMPTY, es)
    ensures var s := After(cfg, Prompt(bound), EMPTY, es);
      forall id :: id in s.nodes ==> s.now <= Base(s, s.nodes[id]) + QuerySpan(cfg, bound) + ResponseSpan(cfg, bound)
  {
    hide QuerySpan, ResponseSpan, Run, After;
    EmptyIsPunctual(cfg, bound);
    RunKeepsPunctual(cfg, bound, EMPTY, es);
  }

  lemma EmptyIsPunctual(cfg: Config, bound: nat)
    requires ValidConfig(cfg)
    ensures Punctual(cfg, bound, EMPTY)
  {
  }
}
