/**
 How long a node that has responded gives way to others (src/sender.rs:99-104): the handicap over
 any stretch of a run in which the node does not respond again.
 */
module Handicap {
  import opened Wrappers
  import opened Ordering
  import opened Text
  import opened Announcement
  import opened Discovery
  import opened Delays
  import opened Sender

  /** The swarm sizes known whenever a response phase was entered after the first `from` messages. */
  function EntrySizes(cfg: Config, id: Str, own: Option<Announced>, inbox: seq<Msg>, draw: nat -> nat, from: nat): seq<nat>
    requires ValidConfig(cfg) && from <= |inbox|
    decreases |inbox|
  {
    if |inbox| == from then []
    else
      var n := |inbox| - 1;
      var s := StateAfter(cfg, id, own, inbox[..n], draw);
      var enters := s.phase.Querying? && Step(cfg, id, s, inbox[n], draw(n + 1)).0.phase.Responding?;
      EntrySizes(cfg, id, own, inbox[..n], draw, from) + if enters then [s.swarmSize] else []
  }

  /** The message makes the node send its response. */
  predicate Responds(s: State, m: Msg) {
    s.phase.Responding? && m == Timeout(s.timeoutCount) && s.response.Some?
  }

  ghost predicate Silent(cfg: Config, id: Str, own: Option<Announced>, inbox: seq<Msg>, draw: nat -> nat, from: nat)
    requires ValidConfig(cfg)
  {
    forall i :: from <= i < |inbox| ==> !Responds(StateAfter(cfg, id, own, inbox[..i], draw), inbox[i])
  }

  lemma SilentStep(cfg: Config, id: Str, s: State, m: Msg, draw: nat)
    requires ValidConfig(cfg) && !Responds(s, m)
    ensures var t := Step(cfg, id, s, m, draw).0;
      if s.phase.Querying? && t.phase.Responding? then
        t.extraDelay == ExtraDelay(s.extraDelay, s.hasResponded, s.swarmSize, cfg.cutoff) && !t.hasResponded
      else
        && t.extraDelay == s.extraDelay && t.hasResponded == s.hasResponded
        && (t.phase.Querying? || s.phase.Responding?)
  {
    hide Apply, UpdatedResponse, ExtraDelay;
  }

  /** The state of a node that has entered response phases with the given sizes since its response. */
  ghost predicate GivesWay(cfg: Config, previous: nat, sizes: seq<nat>, t: State)
    requires ValidConfig(cfg)
  {
    && t.extraDelay == HandicapAfter(previous, sizes, cfg.cutoff)
    && (t.hasResponded <==> sizes == [])
    && (sizes == [] ==> t.phase.Querying?)
  }

  lemma StepGivesWay(cfg: Config, id: Str, previous: nat, sizes: seq<nat>, s: State, m: Msg, draw: nat)
    requires ValidConfig(cfg) && GivesWay(cfg, previous, sizes, s) && !Responds(s, m)
    ensures var t := Step(cfg, id, s, m, draw).0;
      GivesWay(cfg, previous, sizes + if s.phase.Querying? && t.phase.Responding? then [s.swarmSize] else [], t)
  {
    hide Step, ExtraDelay, Responds;
    SilentStep(cfg, id, s, m, draw);
    assert (sizes + [s.swarmSize])[..|sizes|] == sizes;
    assert sizes + [] == sizes;
  }

  lemma SilentPrefix(cfg: Config, id: Str, own: Option<Announced>, inbox: seq<Msg>, draw: nat -> nat, from: nat)
    requires ValidConfig(cfg) && from < |inbox| && Silent(cfg, id, own, inbox, draw, from)
    ensures Silent(cfg, id, own, inbox[..|inbox| - 1], draw, from)
    ensures !Responds(StateAfter(cfg, id, own, inbox[..|inbox| - 1], draw), inbox[|inbox| - 1])
  {
    hide StateAfter, Responds;
    assert forall i :: 0 <= i < |inbox| ==> inbox[..|inbox| - 1][..i] == inbox[..i];
  }

  lemma LastStep(cfg: Config, id: Str, own: Option<Announced>, inbox: seq<Msg>, draw: nat -> nat, from: nat)
    requires ValidConfig(cfg) && from < |inbox|
    ensures var n := |inbox| - 1;
      var s, t := StateAfter(cfg, id, own, inbox[..n], draw), StateAfter(cfg, id, own, inbox, draw);
      && t == Step(cfg, id, s, inbox[n], draw(n + 1)).0
      && EntrySizes(cfg, id, own, inbox, draw, from) ==
         EntrySizes(cfg, id, own, inbox[..n], draw, from)
         + if s.phase.Querying? && t.phase.Responding? then [s.swarmSize] else []
  {
    hide Step;
  }

  lemma {:induction false} HandicapFollowsEntries(
      cfg: Config, id: Str, own: Option<Announced>, inbox: seq<Msg>, draw: nat -> nat, from: nat)
    requires ValidConfig(cfg) && from <= |inbox| && Silent(cfg, id, own, inbox, draw, from)
    requires var s := StateAfter(cfg, id, own, inbox[..from], draw); s.phase.Querying? && s.hasResponded
    ensures GivesWay(cfg, StateAfter(cfg, id, own, inbox[..from], draw).extraDelay,
                     EntrySizes(cfg, id, own, inbox, draw, from), StateAfter(cfg, id, own, inbox, draw))
    decreases |inbox|
  {
    hide Step, StateAfter, Silent, Responds;
    if |inbox| == from {
      WholePrefix(inbox);
    } else {
      var n := |inbox| - 1;
      assert inbox[..n][..from] == inbox[..from];
      SilentPrefix(cfg, id, own, inbox, draw, from);
      HandicapFollowsEntries(cfg, id, own, inbox[..n], draw, from);
      LastStep(cfg, id, own, inbox, draw, from);
      StepGivesWay(cfg, id, StateAfter(cfg, id, own, inbox[..from], draw).extraDelay,
                   EntrySizes(cfg, id, own, inbox[..n], draw, from),
                   StateAfter(cfg, id, own, inbox[..n], draw), inbox[n], draw(n + 1));
    }
  }

  /** Sending its response ends a node's response phase and is remembered. */
  lemma ResponseIsRemembered(cfg: Config, id: Str, s: State, m: Msg, draw: nat)
    requires ValidConfig(cfg) && Responds(s, m)
    ensures var (t, e) := Step(cfg, id, s, m, draw);
      t.phase.Querying? && t.hasResponded && e.sent.Some? && t.extraDelay == s.extraDelay
  {
    hide Apply, UpdatedResponse;
  }

  /**
   After a response, as long as the node does not respond again: once it has entered k >= 1 response
   phases, its handicap is 100ms * max(0, min(10, S / cutoff) - (k - 1)), where S is the swarm size
   it knew when it entered the first of them; later sizes do not matter.
   */
  lemma HandicapInRun(cfg: Config, id: Str, own: Option<Announced>, inbox: seq<Msg>, draw: nat -> nat, from: nat)
    requires ValidConfig(cfg) && 1 <= from <= |inbox|
    requires Responds(StateAfter(cfg, id, own, inbox[..from - 1], draw), inbox[from - 1])
    requires Silent(cfg, id, own, inbox, draw, from)
    ensures var sizes := EntrySizes(cfg, id, own, inbox, draw, from);
      sizes != [] ==>
        StateAfter(cfg, id, own, inbox, draw).extraDelay ==
        RESPONSE_DELAY * Max(0, Min(10, sizes[0] / cfg.cutoff) - (|sizes| - 1))
  {
    hide EntrySizes, Silent, StateAfter, Step;
    RunStep(cfg, id, own, inbox, draw, from - 1);
    ResponseIsRemembered(cfg, id, StateAfter(cfg, id, own, inbox[..from - 1], draw), inbox[from - 1], draw(from));
    HandicapFollowsEntries(cfg, id, own, inbox, draw, from);
    var sizes := EntrySizes(cfg, id, own, inbox, draw, from);
    if sizes != [] {
      HandicapDecays(StateAfter(cfg, id, own, inbox[..from], draw).extraDelay, sizes, cfg.cutoff);
    }
  }

  /** A node that has not responded yet has no handicap. */
  lemma {:induction false} NoHandicapBefore(cfg: Config, id: Str, own: Option<Announced>, inbox: seq<Msg>, draw: nat -> nat)
    requires ValidConfig(cfg) && Silent(cfg, id, own, inbox, draw, 0)
    ensures StateAfter(cfg, id, own, inbox, draw).extraDelay == 0 && !StateAfter(cfg, id, own, inbox, draw).hasResponded
  {
    hide Step, Silent, Responds;
    if inbox != [] {
      var n := |inbox| - 1;
      SilentPrefix(cfg, id, own, inbox, draw, 0);
      NoHandicapBefore(cfg, id, own, inbox[..n], draw);
      SilentStep(cfg, id, StateAfter(cfg, id, own, inbox[..n], draw), inbox[n], draw(n + 1));
    }
  }
}
