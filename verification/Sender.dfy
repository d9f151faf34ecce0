/**
 The sender automaton (src/sender.rs `sender`).

 `Step` is the reaction to one message; `Actor.Run` is the source's loop with its two phases, proved to
 perform exactly these steps.
 */
module Sender {
  import opened Wrappers
  import opened Ordering
  import opened Text
  import opened Dns
  import opened Peers
  import opened Announcement
  import opened Discovery
  import opened Delays
  import W = Response

  /** What all members of a swarm agree on; cutoff is ceil(tau * phi). */
  datatype Config = Config(tau: nat, cutoff: nat, service: Name)

  predicate ValidConfig(cfg: Config) {
    cfg.tau >= 1 && cfg.cutoff >= 1
  }

  datatype Mode = ViaV4 | ViaV6 | Any

  datatype Msg =
    | QueryV4
    | QueryV6
    | Response(peers: map<Str, Peer>)
    | Timeout(count: nat)
    | SizeUpdate(size: nat)
    | Update(command: Command)

  datatype Phase = Querying | Responding(mode: Mode, responseCount: nat)

  datatype State = State(
    phase: Phase,
    timeoutCount: nat,
    swarmSize: nat,
    extraDelay: nat,
    hasResponded: bool,
    own: Option<Announced>,
    response: Option<Message>)

  datatype Packet = Packet(content: Message, via: Mode)

  /**
   What one step does to the outside: the packet it sends, the peers it hands to the updater,
   whether it aborts the current timer and the delay of the timer it arms. The new timer carries
   the new value of `timeoutCount`.
   */
  datatype Effects = Effects(
    sent: Option<Packet>,
    toUpdater: Option<map<Str, Peer>>,
    aborts: bool,
    armed: Option<nat>)

  const QUIET := Effects(None, None, false, None)

  // ---- the automaton ----

  function Start(cfg: Config, id: Str, own: Option<Announced>, draw: nat): (State, Effects) {
    (State(Querying, 0, 1, 0, false, own, W.ResponseFor(id, cfg.service, own)),
     QUIET.(armed := Some(QueryDelay(cfg.tau, 1, draw))))
  }

  function EnterResponding(cfg: Config, s: State, mode: Mode, draw: nat, e: Effects): (State, Effects)
    requires ValidConfig(cfg)
  {
    var extra := ExtraDelay(s.extraDelay, s.hasResponded, s.swarmSize, cfg.cutoff);
    (s.(phase := Responding(mode, 0), timeoutCount := s.timeoutCount + 1, extraDelay := extra, hasResponded := false),
     e.(armed := Some(ResponseDelay(cfg.cutoff, s.swarmSize, draw, extra))))
  }

  function EnterQuerying(cfg: Config, s: State, draw: nat, e: Effects): (State, Effects) {
    (s.(phase := Querying, timeoutCount := s.timeoutCount + 1),
     e.(armed := Some(QueryDelay(cfg.tau, s.swarmSize, draw))))
  }

  function Execute(cfg: Config, id: Str, s: State, c: Command): State {
    var own := Apply(s.own, c);
    s.(own := own, response := UpdatedResponse(id, cfg.service, own, c))
  }

  function Step(cfg: Config, id: Str, s: State, m: Msg, draw: nat): (State, Effects)
    requires ValidConfig(cfg)
  {
    match s.phase
    case Querying => (
      match m
      case QueryV4 => EnterResponding(cfg, s, ViaV4, draw, QUIET.(aborts := true))
      case QueryV6 => EnterResponding(cfg, s, ViaV6, draw, QUIET.(aborts := true))
      case Response(peers) => (s, QUIET.(toUpdater := Some(peers)))
      case Timeout(count) =>
        if count == s.timeoutCount then
          EnterResponding(cfg, s, Any, draw, QUIET.(sent := Some(Packet(W.MakeQuery(cfg.service), Any))))
        else (s, QUIET)
      case SizeUpdate(size) => (s.(swarmSize := size), QUIET)
      case Update(c) => (Execute(cfg, id, s, c), QUIET)
    )
    case Responding(mode, responseCount) => (
      match m
      case Response(peers) =>
        var count := responseCount + |peers|;
        var t := s.(phase := Responding(mode, count));
        var e := QUIET.(toUpdater := Some(peers));
        if count >= cfg.cutoff then EnterQuerying(cfg, t, draw, e.(aborts := true)) else (t, e)
      case Timeout(count) =>
        if count == s.timeoutCount then
          (match s.response
           case Some(r) =>
             EnterQuerying(cfg, s.(hasResponded := true), draw, QUIET.(sent := Some(Packet(r, mode))))
           case None => EnterQuerying(cfg, s, draw, QUIET))
        else (s, QUIET)
      case SizeUpdate(size) => (s.(swarmSize := size), QUIET)
      case Update(c) => (Execute(cfg, id, s, c), QUIET)
      case QueryV4 => (s, QUIET)
      case QueryV6 => (s, QUIET)
    )
  }

  // ---- runs of one sender: draw(i) is the random number available to message i - 1 ----

  function StateAfter(cfg: Config, id: Str, own: Option<Announced>, inbox: seq<Msg>, draw: nat -> nat): State
    requires ValidConfig(cfg)
  {
    if inbox == [] then Start(cfg, id, own, draw(0)).0
    else
      var n := |inbox| - 1;
      Step(cfg, id, StateAfter(cfg, id, own, inbox[..n], draw), inbox[n], draw(n + 1)).0
  }

  function EffectsAfter(cfg: Config, id: Str, own: Option<Announced>, inbox: seq<Msg>, draw: nat -> nat): seq<Effects>
    requires ValidConfig(cfg)
  {
    if inbox == [] then [Start(cfg, id, own, draw(0)).1]
    else
      var n := |inbox| - 1;
      EffectsAfter(cfg, id, own, inbox[..n], draw)
      + [Step(cfg, id, StateAfter(cfg, id, own, inbox[..n], draw), inbox[n], draw(n + 1)).1]
  }

  lemma RunStart(cfg: Config, id: Str, own: Option<Announced>, inbox: seq<Msg>, draw: nat -> nat)
    requires ValidConfig(cfg)
    ensures StateAfter(cfg, id, own, inbox[..0], draw) == Start(cfg, id, own, draw(0)).0
    ensures EffectsAfter(cfg, id, own, inbox[..0], draw) == [Start(cfg, id, own, draw(0)).1]
  {
  }

  lemma RunStep(cfg: Config, id: Str, own: Option<Announced>, inbox: seq<Msg>, draw: nat -> nat, i: nat)
    requires ValidConfig(cfg) && i < |inbox|
    ensures StateAfter(cfg, id, own, inbox[..i + 1], draw) ==
            Step(cfg, id, StateAfter(cfg, id, own, inbox[..i], draw), inbox[i], draw(i + 1)).0
    ensures EffectsAfter(cfg, id, own, inbox[..i + 1], draw) ==
            EffectsAfter(cfg, id, own, inbox[..i], draw)
            + [Step(cfg, id, StateAfter(cfg, id, own, inbox[..i], draw), inbox[i], draw(i + 1)).1]
  {
    hide Step;
    PrefixStep(inbox, i);
  }

  /**
   The actor: two phases in an endless loop, each arming a timer and then receiving messages until
   it ends. `inbox` are the messages received so far, of which the first `i` have been processed.
   */
  class Actor {
    const cfg: Config
    const d: Discoverer
    ghost const own0: Option<Announced>
    var timeoutCount: nat
    var swarmSize: nat
    var extraDelay: nat
    var hasResponded: bool
    var response: Option<Message>
    var effects: seq<Effects>

    constructor (cfg: Config, d: Discoverer)
      requires ValidConfig(cfg) && d.Valid() && d.service == cfg.service
      ensures this.cfg == cfg && this.d == d && own0 == d.Own()
      ensures timeoutCount == 0 && swarmSize == 1 && extraDelay == 0 && !hasResponded
      ensures response == W.ResponseFor(d.peerId, cfg.service, d.Own()) && effects == []
    {
      this.cfg, this.d, own0 := cfg, d, d.Own();
      timeoutCount, swarmSize, extraDelay, hasResponded, effects := 0, 1, 0, false, [];
      var r := d.MakeResponse();
      response := r;
    }

    function Here(phase: Phase): State
      reads this, d
    {
      State(phase, timeoutCount, swarmSize, extraDelay, hasResponded, d.Own(), response)
    }

    ghost predicate Valid()
      reads this, d
    {
      ValidConfig(cfg) && d.Valid() && d.service == cfg.service
    }

    /** Processing the first i messages leads to state s and has had the effects es. */
    ghost predicate Reached(s: State, es: seq<Effects>, inbox: seq<Msg>, i: nat, draw: nat -> nat)
      requires ValidConfig(cfg)
    {
      && i <= |inbox|
      && s == StateAfter(cfg, d.peerId, own0, inbox[..i], draw)
      && es == EffectsAfter(cfg, d.peerId, own0, inbox[..i], draw)
    }

    lemma Advance(inbox: seq<Msg>, i: nat, draw: nat -> nat, s: State, es: seq<Effects>)
      requires ValidConfig(cfg) && i < |inbox| && Reached(s, es, inbox, i, draw)
      ensures var r := Step(cfg, d.peerId, s, inbox[i], draw(i + 1));
              Reached(r.0, es + [r.1], inbox, i + 1, draw)
    {
      hide Step;
      RunStep(cfg, d.peerId, own0, inbox, draw, i);
    }

    /** Waits for a query or the timer; yields the mode of the response phase that follows. */
    method QueryPhase(inbox: seq<Msg>, from: nat, draw: nat -> nat, now: nat)
      returns (i: nat, mode: Option<Mode>, pending: Effects)
      requires Valid() && from <= |inbox| && Reached(Here(Querying), effects, inbox, from, draw)
      modifies this, d
      ensures Valid() && from <= i <= |inbox|
      ensures mode.None? ==> i == |inbox| && Reached(Here(Querying), effects, inbox, i, draw)
      ensures mode.Some? ==>
                var r := EnterResponding(cfg, Here(Querying), mode.value, draw(i), pending);
                from < i && Reached(r.0, effects + [r.1], inbox, i, draw)
    {
      hide Apply, W.ResponseFor, UpdatedResponse, EnterResponding, Reached;
      pending, i := QUIET, from;
      while i < |inbox|
        invariant Valid() && from <= i <= |inbox|
        invariant Reached(Here(Querying), effects, inbox, i, draw)
      {
        var msg := inbox[i];
        Advance(inbox, i, draw, Here(Querying), effects);
        i := i + 1;
        match msg {
          case QueryV4 =>
            return i, Some(ViaV4), QUIET.(aborts := true);
          case QueryV6 =>
            return i, Some(ViaV6), QUIET.(aborts := true);
          case Response(peers) =>
            effects := effects + [QUIET.(toUpdater := Some(peers))];
          case Timeout(count) =>
            if count == timeoutCount {
              return i, Some(Any), QUIET.(sent := Some(Packet(W.MakeQuery(cfg.service), Any)));
            }
            effects := effects + [QUIET];
          case SizeUpdate(size) =>
            swarmSize := size;
            effects := effects + [QUIET];
          case Update(c) =>
            response := d.UpdateResponse(c, now);
            effects := effects + [QUIET];
        }
      }
      mode := None;
    }

    /** Counts responses until there are enough of them or the timer says that it is our turn. */
    method ResponsePhase(inbox: seq<Msg>, from: nat, draw: nat -> nat, now: nat, mode: Mode)
      returns (i: nat, responseCount: nat, finished: bool, pending: Effects)
      requires Valid() && !hasResponded && from <= |inbox| && Reached(Here(Responding(mode, 0)), effects, inbox, from, draw)
      modifies this, d
      ensures Valid() && from <= i <= |inbox|
      ensures !finished ==> i == |inbox| && Reached(Here(Responding(mode, responseCount)), effects, inbox, i, draw)
      ensures finished ==>
                var r := EnterQuerying(cfg, Here(Querying), draw(i), pending);
                from < i && Reached(r.0, effects + [r.1], inbox, i, draw)
    {
      hide Apply, W.ResponseFor, UpdatedResponse, Reached;
      responseCount := 0;
      pending, i, finished := QUIET, from, false;
      while i < |inbox|
        invariant Valid() && from <= i <= |inbox|
        invariant !hasResponded && Reached(Here(Responding(mode, responseCount)), effects, inbox, i, draw)
      {
        var msg := inbox[i];
        Advance(inbox, i, draw, Here(Responding(mode, responseCount)), effects);
        i := i + 1;
        match msg {
          case Response(peers) =>
            responseCount := responseCount + |peers|;
            if responseCount >= cfg.cutoff {
              return i, responseCount, true, QUIET.(toUpdater := Some(peers), aborts := true);
            }
            effects := effects + [QUIET.(toUpdater := Some(peers))];
          case Timeout(count) =>
            if count == timeoutCount {
              if response.Some? {
                hasResponded := true;
                return i, responseCount, true, QUIET.(sent := Some(Packet(response.value, mode)));
              }
              return i, responseCount, true, QUIET;
            }
            effects := effects + [QUIET];
          case SizeUpdate(size) =>
            swarmSize := size;
            effects := effects + [QUIET];
          case Update(c) =>
            response := d.UpdateResponse(c, now);
            effects := effects + [QUIET];
          case _ =>
            effects := effects + [QUIET];
        }
      }
    }

    method Run(inbox: seq<Msg>, draw: nat -> nat, now: nat) returns (phase: Phase)
      requires Valid() && own0 == d.Own()
      requires timeoutCount == 0 && swarmSize == 1 && extraDelay == 0 && !hasResponded
      requires response == W.ResponseFor(d.peerId, cfg.service, d.Own()) && effects == []
      modifies this, d
      ensures Valid()
      ensures Here(phase) == StateAfter(cfg, d.peerId, own0, inbox, draw)
      ensures effects == EffectsAfter(cfg, d.peerId, own0, inbox, draw)
    {
      hide Apply, W.ResponseFor, UpdatedResponse, QueryDelay, ResponseDelay, StateAfter, EffectsAfter;
      RunStart(cfg, d.peerId, own0, inbox, draw);
      WholePrefix(inbox);
      var i: nat, pending := 0, QUIET;
      while true
        invariant Valid() && i <= |inbox|
        invariant Reached(Here(Querying),
                          effects + [pending.(armed := Some(QueryDelay(cfg.tau, swarmSize, draw(i))))], inbox, i, draw)
        decreases |inbox| - i
      {
        effects := effects + [pending.(armed := Some(QueryDelay(cfg.tau, swarmSize, draw(i))))];
        var mode;
        i, mode, pending := QueryPhase(inbox, i, draw, now);
        if mode.None? {
          return Querying;
        }

        timeoutCount := timeoutCount + 1;

        // for fairness: a node that has just responded lets others go first
        if hasResponded {
          extraDelay := RESPONSE_DELAY * Min(swarmSize / cfg.cutoff, 10);
        } else {
          extraDelay := if extraDelay < RESPONSE_DELAY then 0 else extraDelay - RESPONSE_DELAY;
        }
        effects := effects + [pending.(armed := Some(ResponseDelay(cfg.cutoff, swarmSize, draw(i), extraDelay)))];
        hasResponded := false;
        var responseCount, finished;
        i, responseCount, finished, pending := ResponsePhase(inbox, i, draw, now, mode.value);
        if !finished {
          return Responding(mode.value, responseCount);
        }

        timeoutCount := timeoutCount + 1;
      }
    }
  }

  // ---- what every step keeps ----

  /** The cached response is the response for the current entry. */
  ghost predicate CacheAgrees(cfg: Config, id: Str, s: State) {
    s.response == W.ResponseFor(id, cfg.service, s.own)
  }

  ghost predicate Invariant(cfg: Config, id: Str, s: State) {
    && CacheAgrees(cfg, id, s)
    && WellFormed(s.own)
    && ValidExtra(s.extraDelay)
    && (s.phase.Querying? <==> s.timeoutCount % 2 == 0)
    && (s.phase.Responding? ==> s.phase.responseCount < cfg.cutoff && !s.hasResponded)
  }

  /** The guardian routes only validated commands that are not about interfaces. */
  predicate RoutedMsg(m: Msg) {
    m.Update? ==> Validated(m.command) && !ForInterface(m.command)
  }

  lemma StartEstablishesInvariant(cfg: Config, id: Str, own: Option<Announced>, draw: nat)
    requires ValidConfig(cfg) && WellFormed(own)
    ensures Invariant(cfg, id, Start(cfg, id, own, draw).0)
  {
    assert RESPONSE_DELAY * 0 == 0;
  }

  lemma StepKeepsInvariant(cfg: Config, id: Str, s: State, m: Msg, draw: nat)
    requires ValidConfig(cfg) && Invariant(cfg, id, s) && RoutedMsg(m)
    ensures Invariant(cfg, id, Step(cfg, id, s, m, draw).0)
  {
    hide Apply, W.Response, WellFormed;
    ExtraDelayIsValid(s.extraDelay, s.hasResponded, s.swarmSize, cfg.cutoff);
    if m.Update? {
      ApplyKeepsWellFormed(s.own, m.command);
    }
  }

  lemma {:induction false} RunKeepsInvariant(cfg: Config, id: Str, own: Option<Announced>, inbox: seq<Msg>, draw: nat -> nat)
    requires ValidConfig(cfg) && WellFormed(own)
    requires forall m :: m in inbox ==> RoutedMsg(m)
    ensures Invariant(cfg, id, StateAfter(cfg, id, own, inbox, draw))
  {
    hide Step, Start, Invariant, RoutedMsg;
    if inbox == [] {
      StartEstablishesInvariant(cfg, id, own, draw(0));
    } else {
      var n := |inbox| - 1;
      PrefixStep(inbox, n);
      RunKeepsInvariant(cfg, id, own, inbox[..n], draw);
      StepKeepsInvariant(cfg, id, StateAfter(cfg, id, own, inbox[..n], draw), inbox[n], draw(n + 1));
    }
  }
}
