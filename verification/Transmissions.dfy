/**
 What a sender does to the outside, message by message and over whole runs (src/sender.rs:52-152):
 which packets it sends and on which way, what it forwards, when it aborts a timer and for how long
 it arms the next one.

 Main results: `SentInRun` (queries are sent by the timers of query phases, responses by those of
 response phases and on the way on which the query came) and `ArmedDelay`.
 */
module Transmissions {
  import opened Wrappers
  import opened Ordering
  import opened Text
  import opened Announcement
  import opened Discovery
  import opened Delays
  import opened Sender
  import W = Response

  // ---- one message ----

  /** The message is the wake-up of the current phase. */
  predicate WakesUp(s: State, m: Msg) {
    m == Timeout(s.timeoutCount)
  }

  /** The way on which a response phase that the message opens will answer. */
  function Opening(s: State, m: Msg): Option<Mode> {
    if s.phase.Responding? then None
    else if m.QueryV4? then Some(ViaV4)
    else if m.QueryV6? then Some(ViaV6)
    else if WakesUp(s, m) then Some(Any)
    else None
  }

  /** The message makes the number of counted responses reach cutoff. */
  predicate Suppresses(cfg: Config, s: State, m: Msg) {
    s.phase.Responding? && m.Response? && s.phase.responseCount + |m.peers| >= cfg.cutoff
  }

  /** A wake-up sends a query over everything, or the cached response on the way of the phase; nothing else sends. */
  ghost predicate SendsRight(cfg: Config, s: State, m: Msg, sent: Option<Packet>) {
    if !WakesUp(s, m) then sent == None
    else if s.phase.Querying? then sent == Some(Packet(W.MakeQuery(cfg.service), Any))
    else if s.response.None? then sent == None
    else sent == Some(Packet(s.response.value, s.phase.mode))
  }

  lemma StepSends(cfg: Config, id: Str, s: State, m: Msg, draw: nat)
    requires ValidConfig(cfg)
    ensures var e := Step(cfg, id, s, m, draw).1;
      && SendsRight(cfg, s, m, e.sent)
      && e.toUpdater == (if m.Response? then Some(m.peers) else None)
      && (e.aborts <==> Suppresses(cfg, s, m) || (s.phase.Querying? && (m.QueryV4? || m.QueryV6?)))
      && (e.armed.Some? <==> e.aborts || WakesUp(s, m))
  {
    hide Apply, UpdatedResponse;
  }

  /** The phase changes with a query, a wake-up or the last response that is needed, and otherwise counts. */
  lemma StepMoves(cfg: Config, id: Str, s: State, m: Msg, draw: nat)
    requires ValidConfig(cfg)
    ensures var t := Step(cfg, id, s, m, draw).0;
      && (s.phase.Querying? ==>
            t.phase == match Opening(s, m) case Some(mode) => Responding(mode, 0) case None => Querying)
      && (s.phase.Responding? ==>
            if WakesUp(s, m) || Suppresses(cfg, s, m) then t.phase == Querying
            else t.phase == Responding(s.phase.mode, s.phase.responseCount + if m.Response? then |m.peers| else 0))
      && t.hasResponded == (if s.phase.Querying? then s.hasResponded && Opening(s, m).None?
                            else s.hasResponded || (WakesUp(s, m) && s.response.Some?))
      && t.swarmSize == if m.SizeUpdate? then m.size else s.swarmSize
  {
    hide Apply, UpdatedResponse;
  }

  /** Further queries change nothing in a response phase. */
  lemma LaterQueriesDoNothing(cfg: Config, id: Str, s: State, draw: nat)
    requires ValidConfig(cfg) && s.phase.Responding?
    ensures Step(cfg, id, s, QueryV4, draw) == (s, QUIET)
    ensures Step(cfg, id, s, QueryV6, draw) == (s, QUIET)
  {
    hide Apply, UpdatedResponse;
  }

  /**
   The next query is scheduled tau from now plus the drawn fraction of tau * S / 10, our response the
   handicap from now plus the drawn fraction of 100ms * S / cutoff, in both cases short of less than 1ms.
   */
  lemma ArmedDelay(cfg: Config, id: Str, s: State, m: Msg, draw: nat)
    requires ValidConfig(cfg) && draw < DRAWS
    ensures var (t, e) := Step(cfg, id, s, m, draw);
      e.armed.Some? ==>
        if t.phase.Querying? then
          var random := e.armed.value - cfg.tau;
          random * 10_000_000 <= cfg.tau * s.swarmSize * draw < (random + MILLISECOND) * 10_000_000
        else
          var random := e.armed.value - t.extraDelay;
          random * (1_000_000 * cfg.cutoff) <= 100 * MILLISECOND * s.swarmSize * draw
          < (random + MILLISECOND) * (1_000_000 * cfg.cutoff)
  {
    hide QueryDelay, ResponseDelay;
    QueryDelayIsIdeal(cfg.tau, s.swarmSize, draw);
    var t := Step(cfg, id, s, m, draw).0;
    ResponseDelayIsIdeal(cfg.cutoff, s.swarmSize, draw, t.extraDelay);
    ArmedBy(cfg, id, s, m, draw);
  }

  /** The first query is scheduled like the later ones, for a swarm of one. */
  lemma FirstDelay(cfg: Config, id: Str, own: Option<Announced>, draw: nat)
    requires draw < DRAWS
    ensures var e := Start(cfg, id, own, draw).1;
      && e.sent.None? && e.toUpdater.None? && !e.aborts && e.armed.Some?
      && var random := e.armed.value - cfg.tau;
         random * 10_000_000 <= cfg.tau * draw < (random + MILLISECOND) * 10_000_000
  {
    hide QueryDelay, W.ResponseFor;
    QueryDelayIsIdeal(cfg.tau, 1, draw);
  }

  lemma ArmedBy(cfg: Config, id: Str, s: State, m: Msg, draw: nat)
    requires ValidConfig(cfg)
    ensures var (t, e) := Step(cfg, id, s, m, draw);
      e.armed.Some? ==>
        e.armed.value == if t.phase.Querying? then QueryDelay(cfg.tau, s.swarmSize, draw)
                         else ResponseDelay(cfg.cutoff, s.swarmSize, draw, t.extraDelay)
  {
    hide QueryDelay, ResponseDelay, ExtraDelay, Apply, UpdatedResponse;
  }

  // ---- whole runs ----

  /** The j-th message opened the response phase that has lasted since. */
  ghost predicate OpenedBy(cfg: Config, id: Str, own: Option<Announced>, inbox: seq<Msg>, draw: nat -> nat, j: nat, mode: Mode)
    requires ValidConfig(cfg)
  {
    && j < |inbox|
    && Opening(StateAfter(cfg, id, own, inbox[..j], draw), inbox[j]) == Some(mode)
    && forall k :: j < k <= |inbox| ==> StateAfter(cfg, id, own, inbox[..k], draw).phase.Responding?
  }

  lemma StillOpen(cfg: Config, id: Str, own: Option<Announced>, inbox: seq<Msg>, draw: nat -> nat, j: nat, mode: Mode)
    requires ValidConfig(cfg) && inbox != [] && OpenedBy(cfg, id, own, inbox[..|inbox| - 1], draw, j, mode)
    requires StateAfter(cfg, id, own, inbox, draw).phase.Responding?
    ensures OpenedBy(cfg, id, own, inbox, draw, j, mode)
  {
    hide StateAfter, Opening;
    WholePrefix(inbox);
    assert forall k :: 0 <= k < |inbox| ==> inbox[..|inbox| - 1][..k] == inbox[..k];
  }

  lemma JustOpened(cfg: Config, id: Str, own: Option<Announced>, inbox: seq<Msg>, draw: nat -> nat, mode: Mode)
    requires ValidConfig(cfg) && inbox != []
    requires Opening(StateAfter(cfg, id, own, inbox[..|inbox| - 1], draw), inbox[|inbox| - 1]) == Some(mode)
    requires StateAfter(cfg, id, own, inbox, draw).phase.Responding?
    ensures OpenedBy(cfg, id, own, inbox, draw, |inbox| - 1, mode)
  {
    hide StateAfter, Opening;
    WholePrefix(inbox);
  }

  lemma LastMove(cfg: Config, id: Str, own: Option<Announced>, inbox: seq<Msg>, draw: nat -> nat)
    requires ValidConfig(cfg) && inbox != [] && StateAfter(cfg, id, own, inbox, draw).phase.Responding?
    ensures var n, mode := |inbox| - 1, StateAfter(cfg, id, own, inbox, draw).phase.mode;
      var s := StateAfter(cfg, id, own, inbox[..n], draw);
      if s.phase.Querying? then Opening(s, inbox[n]) == Some(mode) else s.phase.mode == mode
  {
    hide Step, Opening;
    var n := |inbox| - 1;
    StepMoves(cfg, id, StateAfter(cfg, id, own, inbox[..n], draw), inbox[n], draw(n + 1));
  }

  /** A response phase answers on the way of the message that opened it. */
  lemma {:induction false} ModeOfPhase(cfg: Config, id: Str, own: Option<Announced>, inbox: seq<Msg>, draw: nat -> nat)
    returns (j: nat)
    requires ValidConfig(cfg) && StateAfter(cfg, id, own, inbox, draw).phase.Responding?
    ensures OpenedBy(cfg, id, own, inbox, draw, j, StateAfter(cfg, id, own, inbox, draw).phase.mode)
  {
    hide StateAfter, Opening, OpenedBy;
    NotAtStart(cfg, id, own, draw);
    assert inbox != [];
    var n := |inbox| - 1;
    LastMove(cfg, id, own, inbox, draw);
    if StateAfter(cfg, id, own, inbox[..n], draw).phase.Querying? {
      j := n;
      JustOpened(cfg, id, own, inbox, draw, StateAfter(cfg, id, own, inbox, draw).phase.mode);
    } else {
      j := ModeOfPhase(cfg, id, own, inbox[..n], draw);
      StillOpen(cfg, id, own, inbox, draw, j, StateAfter(cfg, id, own, inbox, draw).phase.mode);
    }
  }

  lemma NotAtStart(cfg: Config, id: Str, own: Option<Announced>, draw: nat -> nat)
    requires ValidConfig(cfg)
    ensures StateAfter(cfg, id, own, [], draw).phase.Querying?
  {
  }

  lemma {:induction false} EffectOf(cfg: Config, id: Str, own: Option<Announced>, inbox: seq<Msg>, draw: nat -> nat, i: nat)
    requires ValidConfig(cfg) && i < |inbox|
    ensures |EffectsAfter(cfg, id, own, inbox, draw)| == |inbox| + 1
    ensures EffectsAfter(cfg, id, own, inbox, draw)[i + 1] ==
            Step(cfg, id, StateAfter(cfg, id, own, inbox[..i], draw), inbox[i], draw(i + 1)).1
  {
    hide Step, StateAfter;
    var n := |inbox| - 1;
    if i < n {
      EffectOf(cfg, id, own, inbox[..n], draw, i);
      assert inbox[..n][..i] == inbox[..i];
    } else if n > 0 {
      EffectOf(cfg, id, own, inbox[..n], draw, n - 1);
    } else {
      assert inbox[..0] == [];
    }
  }

  /**
   In every run, the packet sent in reaction to a message is: a query for the service, over everything,
   if the message is the wake-up of a query phase; the cached response, on the way on which the query
   came that opened the phase, if it is the wake-up of a response phase; none otherwise.
   */
  lemma SentInRun(cfg: Config, id: Str, own: Option<Announced>, inbox: seq<Msg>, draw: nat -> nat, i: nat)
    requires ValidConfig(cfg) && i < |inbox|
    ensures |EffectsAfter(cfg, id, own, inbox, draw)| == |inbox| + 1
    ensures var s, sent := StateAfter(cfg, id, own, inbox[..i], draw), EffectsAfter(cfg, id, own, inbox, draw)[i + 1].sent;
      && SendsRight(cfg, s, inbox[i], sent)
      && (s.phase.Responding? && sent.Some? ==>
            exists j :: OpenedBy(cfg, id, own, inbox[..i], draw, j, sent.value.via))
  {
    hide Step, StateAfter, EffectsAfter, OpenedBy;
    var s := StateAfter(cfg, id, own, inbox[..i], draw);
    EffectOf(cfg, id, own, inbox, draw, i);
    StepSends(cfg, id, s, inbox[i], draw(i + 1));
    if s.phase.Responding? {
      var j := ModeOfPhase(cfg, id, own, inbox[..i], draw);
    }
  }

  ghost predicate LastSize(inbox: seq<Msg>, i: nat) {
    i < |inbox| && inbox[i].SizeUpdate? && forall j :: i < j < |inbox| ==> !inbox[j].SizeUpdate?
  }

  /** The swarm size is that of the last update, or 1. */
  lemma {:induction false} SizeInRun(cfg: Config, id: Str, own: Option<Announced>, inbox: seq<Msg>, draw: nat -> nat)
    requires ValidConfig(cfg)
    ensures forall i: nat :: LastSize(inbox, i) ==> StateAfter(cfg, id, own, inbox, draw).swarmSize == inbox[i].size
    ensures (forall m :: m in inbox ==> !m.SizeUpdate?) ==> StateAfter(cfg, id, own, inbox, draw).swarmSize == 1
  {
    hide Step;
    if inbox != [] {
      var n := |inbox| - 1;
      PrefixStep(inbox, n);
      SizeInRun(cfg, id, own, inbox[..n], draw);
      StepMoves(cfg, id, StateAfter(cfg, id, own, inbox[..n], draw), inbox[n], draw(n + 1));
      forall i: nat | LastSize(inbox, i) && i < n ensures LastSize(inbox[..n], i) && inbox[..n][i] == inbox[i] {
      }
      assert inbox[n].SizeUpdate? ==> forall i: nat :: LastSize(inbox, i) ==> i == n;
    }
  }
}
