/**
 One sender with its mailbox and its timers in flight (src/sender.rs:42-151).

 Aborting a timer may lose the race: the timer may have put its message into the mailbox already,
 or may still do so later. The messages carry the value of `timeoutCount` for which they were
 armed. Proved here for every run: the current phase always has exactly one wake-up, all other
 timeouts in flight are stale (`Tokens`), firing it ends the phase (`WakeUpEndsPhase`), and
 whether aborts succeed has no influence on what is sent (`AbortsDoNotMatter`).
 */
module StaleTimeouts {
  import opened Wrappers
  import opened Text
  import opened Peers
  import opened Announcement
  import opened Sender

  datatype Output = Output(sent: Option<Packet>, toUpdater: Option<map<Str, Peer>>)

  datatype Node = Node(state: State, timers: multiset<nat>, mailbox: seq<Msg>, out: seq<Output>)

  datatype Event =
    | Deliver(msg: Msg)
    | Fire(count: nat)
    | Process(draw: nat, abortWins: bool)

  function Observed(e: Effects): seq<Output> {
    if e.sent.None? && e.toUpdater.None? then [] else [Output(e.sent, e.toUpdater)]
  }

  // ---- the machine ----

  function Boot(cfg: Config, id: Str, own: Option<Announced>, draw: nat): Node
    requires ValidConfig(cfg)
  {
    var s := Start(cfg, id, own, draw).0;
    Node(s, multiset{s.timeoutCount}, [], [])
  }

  predicate Enabled(n: Node, e: Event) {
    match e
    case Deliver(msg) => !msg.Timeout?
    case Fire(count) => count in n.timers
    case Process(_, _) => n.mailbox != []
  }

  function ProcessHead(cfg: Config, id: Str, n: Node, draw: nat, abortWins: bool): Node
    requires ValidConfig(cfg) && n.mailbox != []
  {
    var (s, e) := Step(cfg, id, n.state, n.mailbox[0], draw);
    var left := if e.aborts && abortWins then n.timers - multiset{n.state.timeoutCount} else n.timers;
    var timers := if e.armed.Some? then left + multiset{s.timeoutCount} else left;
    Node(s, timers, n.mailbox[1..], n.out + Observed(e))
  }

  function Next(cfg: Config, id: Str, n: Node, e: Event): Node
    requires ValidConfig(cfg) && Enabled(n, e)
  {
    match e
    case Deliver(msg) => n.(mailbox := n.mailbox + [msg])
    case Fire(count) => n.(timers := n.timers - multiset{count}, mailbox := n.mailbox + [Timeout(count)])
    case Process(draw, abortWins) => ProcessHead(cfg, id, n, draw, abortWins)
  }

  /** `es` can happen from n if the outcomes of aborts are taken from `outcomes`. */
  predicate Run(cfg: Config, id: Str, n: Node, es: seq<Event>, outcomes: set<bool>)
    requires ValidConfig(cfg)
    decreases |es|
  {
    es == [] ||
    (&& Enabled(n, es[0])
     && (es[0].Process? ==> es[0].abortWins in outcomes)
     && Run(cfg, id, Next(cfg, id, n, es[0]), es[1..], outcomes))
  }

  function After(cfg: Config, id: Str, n: Node, es: seq<Event>, outcomes: set<bool>): Node
    requires ValidConfig(cfg) && Run(cfg, id, n, es, outcomes)
    decreases |es|
  {
    if es == [] then n else After(cfg, id, Next(cfg, id, n, es[0]), es[1..], outcomes)
  }

  // ---- one live wake-up ----

  function Counts(mailbox: seq<Msg>): multiset<nat> {
    if mailbox == [] then multiset{}
    else (if mailbox[0].Timeout? then multiset{mailbox[0].count} else multiset{}) + Counts(mailbox[1..])
  }

  /** The counts of all timers and timeout messages in flight. */
  function Tokens(n: Node): multiset<nat> {
    n.timers + Counts(n.mailbox)
  }

  ghost predicate OneWakeUp(n: Node) {
    && Tokens(n)[n.state.timeoutCount] == 1
    && (forall c :: c in Tokens(n) ==> c <= n.state.timeoutCount)
    && (n.state.phase.Querying? <==> n.state.timeoutCount % 2 == 0)
  }

  lemma {:induction false} CountsAppend(mailbox: seq<Msg>, m: Msg)
    ensures Counts(mailbox + [m]) == Counts(mailbox) + (if m.Timeout? then multiset{m.count} else multiset{})
  {
    if mailbox != [] {
      CountsAppend(mailbox[1..], m);
      assert (mailbox + [m])[1..] == mailbox[1..] + [m];
    } else {
      assert ([m])[1..] == [];
    }
  }

  /** A step either stays in its phase, touching no timer, or enters the next one and arms its timer. */
  lemma PhaseSteps(cfg: Config, id: Str, s: State, m: Msg, draw: nat)
    requires ValidConfig(cfg)
    ensures var (t, e) := Step(cfg, id, s, m, draw);
            if e.armed.Some? then
              t.timeoutCount == s.timeoutCount + 1 && t.phase.Querying? != s.phase.Querying?
            else
              t.timeoutCount == s.timeoutCount && t.phase.Querying? == s.phase.Querying?
              && !e.aborts && m != Timeout(s.timeoutCount)
    ensures m.Timeout? && m.count != s.timeoutCount ==> Step(cfg, id, s, m, draw) == (s, QUIET)
  {
  }

  /** Taking a message from the mailbox leaves all tokens but its own. */
  lemma TokensOfRest(n: Node)
    requires n.mailbox != []
    ensures var rest := n.timers + Counts(n.mailbox[1..]);
      && rest <= Tokens(n)
      && (n.mailbox[0] != Timeout(n.state.timeoutCount) ==> rest[n.state.timeoutCount] == Tokens(n)[n.state.timeoutCount])
  {
  }

  lemma ProcessKeepsOneWakeUp(cfg: Config, id: Str, n: Node, draw: nat, abortWins: bool)
    requires ValidConfig(cfg) && OneWakeUp(n) && n.mailbox != []
    ensures OneWakeUp(ProcessHead(cfg, id, n, draw, abortWins))
  {
    hide Step, Counts;
    PhaseSteps(cfg, id, n.state, n.mailbox[0], draw);
    TokensOfRest(n);
    var (s, e) := Step(cfg, id, n.state, n.mailbox[0], draw);
    if e.armed.Some? {
      var left := if e.aborts && abortWins then n.timers - multiset{n.state.timeoutCount} else n.timers;
      NewWakeUp(n, left);
    } else {
      SameWakeUp(n, ProcessHead(cfg, id, n, draw, abortWins));
    }
  }

  lemma SameWakeUp(n: Node, k: Node)
    requires OneWakeUp(n) && Tokens(k) <= Tokens(n)
    requires k.state.timeoutCount == n.state.timeoutCount && k.state.phase.Querying? == n.state.phase.Querying?
    requires Tokens(k)[n.state.timeoutCount] == Tokens(n)[n.state.timeoutCount]
    ensures OneWakeUp(k)
  {
    hide Tokens;
    assert forall c :: c in Tokens(k) ==> c in Tokens(n);
  }

  /** A new timer is the only one that carries the next count. */
  lemma NewWakeUp(n: Node, left: multiset<nat>)
    requires OneWakeUp(n) && n.mailbox != [] && left <= n.timers
    ensures var current := n.state.timeoutCount;
      var next := left + multiset{current + 1} + Counts(n.mailbox[1..]);
      next[current + 1] == 1 && forall c :: c in next ==> c <= current + 1
  {
    hide Counts;
    TokensOfRest(n);
    var current := n.state.timeoutCount;
    var rest := left + Counts(n.mailbox[1..]);
    var next := left + multiset{current + 1} + Counts(n.mailbox[1..]);
    assert rest <= Tokens(n);
    assert current + 1 !in Tokens(n);
    assert rest[current + 1] == 0;
    forall c | c in next ensures c <= current + 1 {
      if c != current + 1 {
        assert c in rest;
        assert c in Tokens(n);
      }
    }
  }

  lemma StepKeepsOneWakeUp(cfg: Config, id: Str, n: Node, e: Event)
    requires ValidConfig(cfg) && OneWakeUp(n) && Enabled(n, e)
    ensures OneWakeUp(Next(cfg, id, n, e))
  {
    hide ProcessHead;
    match e {
      case Deliver(msg) =>
        CountsAppend(n.mailbox, msg);
        assert Tokens(Next(cfg, id, n, e)) == Tokens(n);
      case Fire(count) =>
        CountsAppend(n.mailbox, Timeout(count));
        assert Tokens(Next(cfg, id, n, e)) == Tokens(n);
      case Process(draw, abortWins) =>
        ProcessKeepsOneWakeUp(cfg, id, n, draw, abortWins);
    }
  }

  lemma {:induction false} RunKeepsOneWakeUp(cfg: Config, id: Str, n: Node, es: seq<Event>, outcomes: set<bool>)
    requires ValidConfig(cfg) && OneWakeUp(n) && Run(cfg, id, n, es, outcomes)
    ensures OneWakeUp(After(cfg, id, n, es, outcomes))
    decreases |es|
  {
    hide Next, OneWakeUp;
    if es != [] {
      StepKeepsOneWakeUp(cfg, id, n, es[0]);
      RunKeepsOneWakeUp(cfg, id, Next(cfg, id, n, es[0]), es[1..], outcomes);
    }
  }

  /** In every run exactly one timer or message is live, in even phases a query timeout, in odd ones a response timeout. */
  lemma EveryPhaseHasOneWakeUp(cfg: Config, id: Str, own: Option<Announced>, draw: nat, es: seq<Event>, outcomes: set<bool>)
    requires ValidConfig(cfg) && Run(cfg, id, Boot(cfg, id, own, draw), es, outcomes)
    ensures OneWakeUp(After(cfg, id, Boot(cfg, id, own, draw), es, outcomes))
  {
    RunKeepsOneWakeUp(cfg, id, Boot(cfg, id, own, draw), es, outcomes);
  }

  // ---- the wake-up ends the phase ----

  function Drain(cfg: Config, id: Str, n: Node, draw: nat): Node
    requires ValidConfig(cfg)
    decreases |n.mailbox|
  {
    if n.mailbox == [] then n else Drain(cfg, id, ProcessHead(cfg, id, n, draw, true), draw)
  }

  lemma {:induction false} DrainIsMonotone(cfg: Config, id: Str, n: Node, draw: nat)
    requires ValidConfig(cfg)
    ensures Drain(cfg, id, n, draw).state.timeoutCount >= n.state.timeoutCount
    decreases |n.mailbox|
  {
    hide Step;
    if n.mailbox != [] {
      PhaseSteps(cfg, id, n.state, n.mailbox[0], draw);
      DrainIsMonotone(cfg, id, ProcessHead(cfg, id, n, draw, true), draw);
    }
  }

  lemma {:induction false} DrainEndsPhase(cfg: Config, id: Str, n: Node, draw: nat)
    requires ValidConfig(cfg) && Timeout(n.state.timeoutCount) in n.mailbox
    ensures Drain(cfg, id, n, draw).state.timeoutCount > n.state.timeoutCount
    decreases |n.mailbox|
  {
    hide Step;
    PhaseSteps(cfg, id, n.state, n.mailbox[0], draw);
    var n' := ProcessHead(cfg, id, n, draw, true);
    assert n.mailbox == [n.mailbox[0]] + n.mailbox[1..];
    if n'.state.timeoutCount == n.state.timeoutCount {
      DrainEndsPhase(cfg, id, n', draw);
    } else {
      DrainIsMonotone(cfg, id, n', draw);
    }
  }

  lemma {:induction false} CountsContain(mailbox: seq<Msg>, c: nat)
    ensures c in Counts(mailbox) <==> Timeout(c) in mailbox
  {
    if mailbox != [] {
      CountsContain(mailbox[1..], c);
      assert mailbox == [mailbox[0]] + mailbox[1..];
    }
  }

  /** No phase can last forever: once the live timer has fired, working off the mailbox ends the phase. */
  lemma WakeUpEndsPhase(cfg: Config, id: Str, n: Node, draw: nat)
    requires ValidConfig(cfg) && OneWakeUp(n)
    ensures
      var c := n.state.timeoutCount;
      var fired := if c in n.timers then Next(cfg, id, n, Fire(c)) else n;
      Drain(cfg, id, fired, draw).state.timeoutCount > c
  {
    var c := n.state.timeoutCount;
    var fired := if c in n.timers then Next(cfg, id, n, Fire(c)) else n;
    CountsContain(n.mailbox, c);
    assert Timeout(c) in fired.mailbox;
    DrainEndsPhase(cfg, id, fired, draw);
  }

  // ---- stale timeouts are harmless ----

  function Live(mailbox: seq<Msg>, current: nat): seq<Msg> {
    if mailbox == [] then []
    else (if mailbox[0].Timeout? && mailbox[0].count != current then [] else [mailbox[0]]) + Live(mailbox[1..], current)
  }

  /** The two nodes differ only in stale timers and stale messages. */
  ghost predicate Similar(n: Node, k: Node) {
    && n.state == k.state
    && n.out == k.out
    && (n.state.timeoutCount in n.timers <==> k.state.timeoutCount in k.timers)
    && Live(n.mailbox, n.state.timeoutCount) == Live(k.mailbox, k.state.timeoutCount)
  }

  lemma {:induction false} LiveAppend(mailbox: seq<Msg>, m: Msg, current: nat)
    ensures Live(mailbox + [m], current) ==
            Live(mailbox, current) + (if m.Timeout? && m.count != current then [] else [m])
  {
    if mailbox != [] {
      LiveAppend(mailbox[1..], m, current);
      assert (mailbox + [m])[1..] == mailbox[1..] + [m];
    } else {
      assert [m][1..] == [];
    }
  }

  /** What is stale now is stale in the next phase. */
  lemma {:induction false} LiveLater(mailbox: seq<Msg>, current: nat)
    requires forall m :: m in mailbox && m.Timeout? ==> m.count <= current
    ensures Live(mailbox, current + 1) == Live(Live(mailbox, current), current + 1)
  {
    if mailbox != [] {
      LiveLater(mailbox[1..], current);
      var m := mailbox[0];
      var rest := Live(mailbox[1..], current);
      assert m in mailbox;
      assert ([m] + rest)[1..] == rest && [] + rest == rest;
      assert [] + Live(rest, current + 1) == Live(rest, current + 1);
    }
  }

  predicate StaleHead(n: Node) {
    n.mailbox != [] && n.mailbox[0].Timeout? && n.mailbox[0].count != n.state.timeoutCount
  }

  lemma StaleHeadIsDropped(cfg: Config, id: Str, n: Node, draw: nat, abortWins: bool)
    requires ValidConfig(cfg) && StaleHead(n)
    ensures Similar(n, ProcessHead(cfg, id, n, draw, abortWins))
    ensures ProcessHead(cfg, id, n, draw, abortWins) == n.(mailbox := n.mailbox[1..])
  {
    hide Step;
    PhaseSteps(cfg, id, n.state, n.mailbox[0], draw);
    assert n.out + [] == n.out;
  }

  lemma LiveHead(mailbox: seq<Msg>, current: nat)
    requires mailbox != [] && !(mailbox[0].Timeout? && mailbox[0].count != current)
    ensures Live(mailbox, current) != [] && Live(mailbox, current)[0] == mailbox[0]
    ensures Live(mailbox, current)[1..] == Live(mailbox[1..], current)
  {
  }

  lemma NothingNewer(n: Node)
    requires OneWakeUp(n)
    ensures forall m :: m in n.mailbox && m.Timeout? ==> m.count <= n.state.timeoutCount
  {
    forall m | m in n.mailbox && m.Timeout? ensures m.count <= n.state.timeoutCount {
      CountsContain(n.mailbox, m.count);
      assert m.count in Tokens(n);
    }
  }

  /** Processing a live message leads similar nodes to similar nodes, whatever happens to the aborts. */
  lemma ProcessKeepsSimilar(cfg: Config, id: Str, n: Node, k: Node, draw: nat, a: bool, b: bool)
    requires ValidConfig(cfg) && OneWakeUp(n) && OneWakeUp(k) && Similar(n, k)
    requires n.mailbox != [] && !StaleHead(n) && k.mailbox != [] && !StaleHead(k)
    ensures Similar(ProcessHead(cfg, id, n, draw, a), ProcessHead(cfg, id, k, draw, b))
  {
    hide Step, OneWakeUp, Live;
    var current := n.state.timeoutCount;
    LiveHead(n.mailbox, current);
    LiveHead(k.mailbox, current);
    PhaseSteps(cfg, id, n.state, n.mailbox[0], draw);
    NothingNewer(n);
    NothingNewer(k);
    LiveLater(n.mailbox[1..], current);
    LiveLater(k.mailbox[1..], current);
  }

  /** The messages that events deliver from outside, in order. */
  function Delivered(es: seq<Event>): seq<Msg> {
    if es == [] then [] else (if es[0].Deliver? then [es[0].msg] else []) + Delivered(es[1..])
  }

  lemma DeliveredStep(es: seq<Event>)
    ensures Delivered(es) ==
            if es == [] then [] else (if es[0].Deliver? then [es[0].msg] else []) + Delivered(es[1..])
  {
  }

  lemma {:induction false} DeliveredAppend(es: seq<Event>, fs: seq<Event>)
    ensures Delivered(es + fs) == Delivered(es) + Delivered(fs)
  {
    hide Delivered;
    DeliveredStep(es);
    if es == [] {
      assert es + fs == fs;
      assert [] + Delivered(fs) == Delivered(fs);
    } else {
      DeliveredAppend(es[1..], fs);
      assert (es + fs)[1..] == es[1..] + fs && (es + fs)[0] == es[0];
      DeliveredStep(es + fs);
    }
  }

  lemma DeliveredOne(e: Event)
    ensures Delivered([e]) == if e.Deliver? then [e.msg] else []
  {
    assert [e][1..] == [];
  }

  /** Works off the stale messages at the head of a mailbox. */
  lemma {:induction false} DropStale(cfg: Config, id: Str, k: Node, outcomes: set<bool>, b: bool) returns (es: seq<Event>)
    requires ValidConfig(cfg) && OneWakeUp(k) && b in outcomes
    ensures Run(cfg, id, k, es, outcomes)
    ensures Similar(k, After(cfg, id, k, es, outcomes)) && OneWakeUp(After(cfg, id, k, es, outcomes))
    ensures !StaleHead(After(cfg, id, k, es, outcomes))
    ensures Delivered(es) == []
    decreases |k.mailbox|
  {
    hide Step, ProcessHead;
    if StaleHead(k) {
      var e := Process(0, b);
      StaleHeadIsDropped(cfg, id, k, 0, b);
      StepKeepsOneWakeUp(cfg, id, k, e);
      var rest := DropStale(cfg, id, Next(cfg, id, k, e), outcomes, b);
      es := [e] + rest;
      assert es[1..] == rest;
    } else {
      es := [];
    }
  }

  lemma {:induction false} RunAppend(cfg: Config, id: Str, n: Node, es: seq<Event>, fs: seq<Event>, outcomes: set<bool>)
    requires ValidConfig(cfg) && Run(cfg, id, n, es, outcomes)
    requires Run(cfg, id, After(cfg, id, n, es, outcomes), fs, outcomes)
    ensures Run(cfg, id, n, es + fs, outcomes)
    ensures After(cfg, id, n, es + fs, outcomes) == After(cfg, id, After(cfg, id, n, es, outcomes), fs, outcomes)
    decreases |es|
  {
    hide Next, Enabled;
    if es == [] {
      assert es + fs == fs;
    } else {
      RunAppend(cfg, id, Next(cfg, id, n, es[0]), es[1..], fs, outcomes);
      assert (es + fs)[1..] == es[1..] + fs;
    }
  }

  /** One event at n is matched by some events at a similar node k, with abort outcomes of k's own. */
  lemma Match(cfg: Config, id: Str, n: Node, k: Node, e: Event, outcomes: set<bool>, b: bool) returns (es: seq<Event>)
    requires ValidConfig(cfg) && OneWakeUp(n) && OneWakeUp(k) && Similar(n, k)
    requires Enabled(n, e) && b in outcomes
    ensures Run(cfg, id, k, es, outcomes)
    ensures Similar(Next(cfg, id, n, e), After(cfg, id, k, es, outcomes))
    ensures Delivered(es) == Delivered([e])
  {
    hide Step, ProcessHead;
    DeliveredOne(e);
    var current := n.state.timeoutCount;
    match e {
      case Deliver(msg) =>
        LiveAppend(n.mailbox, msg, current);
        LiveAppend(k.mailbox, msg, current);
        es := [e];
        RunOne(cfg, id, k, e, outcomes);
      case Fire(count) =>
        LiveAppend(n.mailbox, Timeout(count), current);
        LiveAppend(k.mailbox, Timeout(count), current);
        if count == current {
          CountsContain(n.mailbox, current);
          es := [e];
          RunOne(cfg, id, k, e, outcomes);
        } else {
          es := [];
        }
      case Process(draw, abortWins) =>
        if StaleHead(n) {
          StaleHeadIsDropped(cfg, id, n, draw, abortWins);
          es := [];
        } else {
          es := MatchProcess(cfg, id, n, k, draw, abortWins, outcomes, b);
        }
    }
  }

  lemma RunOne(cfg: Config, id: Str, k: Node, e: Event, outcomes: set<bool>)
    requires ValidConfig(cfg) && Enabled(k, e) && (e.Process? ==> e.abortWins in outcomes)
    ensures Run(cfg, id, k, [e], outcomes) && After(cfg, id, k, [e], outcomes) == Next(cfg, id, k, e)
  {
    hide Next, Enabled;
    assert [e][1..] == [];
    assert Run(cfg, id, Next(cfg, id, k, e), [], outcomes);
  }

  lemma MatchProcess(cfg: Config, id: Str, n: Node, k: Node, draw: nat, a: bool, outcomes: set<bool>, b: bool)
    returns (es: seq<Event>)
    requires ValidConfig(cfg) && OneWakeUp(n) && OneWakeUp(k) && Similar(n, k)
    requires n.mailbox != [] && !StaleHead(n) && b in outcomes
    ensures Run(cfg, id, k, es, outcomes)
    ensures Similar(ProcessHead(cfg, id, n, draw, a), After(cfg, id, k, es, outcomes))
    ensures Delivered(es) == []
  {
    hide Step, ProcessHead, OneWakeUp, Run, After;
    var drop := DropStale(cfg, id, k, outcomes, b);
    var k' := After(cfg, id, k, drop, outcomes);
    LiveHead(n.mailbox, n.state.timeoutCount);
    assert k'.mailbox != [];
    ProcessKeepsSimilar(cfg, id, n, k', draw, a, b);
    var e := Process(draw, b);
    RunOne(cfg, id, k', e, outcomes);
    RunAppend(cfg, id, k, drop, [e], outcomes);
    DeliveredAppend(drop, [e]);
    DeliveredOne(e);
    es := drop + [e];
  }

  lemma {:induction false} Imitate(cfg: Config, id: Str, n: Node, k: Node, es: seq<Event>, p: set<bool>, q: set<bool>, b: bool)
    returns (fs: seq<Event>)
    requires ValidConfig(cfg) && OneWakeUp(n) && OneWakeUp(k) && Similar(n, k)
    requires Run(cfg, id, n, es, p) && b in q
    ensures Run(cfg, id, k, fs, q)
    ensures Similar(After(cfg, id, n, es, p), After(cfg, id, k, fs, q))
    ensures Delivered(fs) == Delivered(es)
    decreases |es|
  {
    hide Next, Enabled, OneWakeUp, Similar;
    if es == [] {
      fs := [];
    } else {
      var first := Match(cfg, id, n, k, es[0], q, b);
      StepKeepsOneWakeUp(cfg, id, n, es[0]);
      RunKeepsOneWakeUp(cfg, id, k, first, q);
      var rest := Imitate(cfg, id, Next(cfg, id, n, es[0]), After(cfg, id, k, first, q), es[1..], p, q, b);
      RunAppend(cfg, id, k, first, rest, q);
      DeliveredAppend(first, rest);
      DeliveredOne(es[0]);
      fs := first + rest;
    }
  }

  /**
   Whatever a sender does when its aborts have outcomes from p, it also does, given the same messages
   in the same order, when they have outcomes from q; with p = {true} and q = {false} or the other way round: a sender whose aborts always
   succeed and one whose aborts never succeed send and forward the same messages.
   */
  lemma AbortsDoNotMatter(cfg: Config, id: Str, own: Option<Announced>, draw: nat, es: seq<Event>, p: set<bool>, q: set<bool>)
    requires ValidConfig(cfg) && Run(cfg, id, Boot(cfg, id, own, draw), es, p)
    requires true in q || false in q
    ensures exists fs ::
      && Run(cfg, id, Boot(cfg, id, own, draw), fs, q)
      && Delivered(fs) == Delivered(es)
      && After(cfg, id, Boot(cfg, id, own, draw), fs, q).out == After(cfg, id, Boot(cfg, id, own, draw), es, p).out
      && After(cfg, id, Boot(cfg, id, own, draw), fs, q).state == After(cfg, id, Boot(cfg, id, own, draw), es, p).state
  {
    var n := Boot(cfg, id, own, draw);
    var b := true in q;
    var fs := Imitate(cfg, id, n, n, es, p, q, b);
  }
}
