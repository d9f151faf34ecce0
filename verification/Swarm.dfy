/**
 Any number of senders on a broadcast medium with a clock.

 A query reaches every node at once, including the one that sent it after it has changed phase. A
 response reaches a set of nodes at once (all of them, if the broadcast is atomic); to others it
 comes late or never, and it may come more than once. Packets may also stray in from elsewhere.
 Nodes join and leave, learn swarm sizes and receive commands at any time. Timers fire no earlier
 than they were set for. The log records what was sent and when; every node's `received` holds the
 positions in the log of the responses that have been delivered to it.
 */
module Swarm {
  import opened Wrappers
  import opened Text
  import opened Dns
  import opened Peers
  import opened Announcement
  import opened Discovery
  import opened Delays
  import opened Sender
  import Receiver
  import Reading
  import Transmissions
  import W = Response

  datatype Node = Node(auto: State, deadline: nat, joined: nat, received: set<nat>)

  datatype Sent =
    | QuerySent(at: nat, peer: Str)
    | ResponseSent(at: nat, peer: Str, heard: map<Str, Peer>)
  {
    /** A response with at least one address; only those count at their receivers. */
    predicate Carries() {
      ResponseSent? && heard != map[]
    }
  }

  datatype Swarm = Swarm(now: nat, nodes: map<Str, Node>, log: seq<Sent>)

  datatype Event =
    | Tick(elapsed: nat)
    | QueryTimeout(querier: Str, overV6: Str -> bool, qdraws: Str -> nat)
    | ResponseTimeout(responder: Str, reached: set<Str>, rdraws: Str -> nat)
    | LateResponse(receiver: Str, index: nat, draw: nat)
    | Stray(listener: Str, peers: map<Str, Peer>, draw: nat)
    | Resize(resized: Str, size: nat)
    | Order(ordered: Str, command: Command)
    | Join(newcomer: Str, own: Option<Announced>, jdraw: nat)
    | Leave(leaver: Str)

  const EMPTY := Swarm(0, map[], [])

  // ---- one event ----

  /** A node processes one message; a timer it arms runs from now. */
  function React(cfg: Config, now: nat, id: Str, n: Node, m: Msg, draw: nat): Node
    requires ValidConfig(cfg)
  {
    var (s, e) := Step(cfg, id, n.auto, m, draw);
    n.(auto := s, deadline := if e.armed.Some? then now + e.armed.value else n.deadline)
  }

  function TimedOut(cfg: Config, now: nat, id: Str, n: Node, draw: nat): Node
    requires ValidConfig(cfg)
  {
    React(cfg, now, id, n, Timeout(n.auto.timeoutCount), draw)
  }

  /** The response at position i of the log is delivered to a node. */
  function Deliver(cfg: Config, now: nat, id: Str, n: Node, i: nat, peers: map<Str, Peer>, draw: nat): Node
    requires ValidConfig(cfg)
  {
    React(cfg, now, id, n, Response(peers), draw).(received := n.received + {i})
  }

  /** What a packet read at one moment yields when it is read at another one. */
  function ReadAt(peers: map<Str, Peer>, now: nat): map<Str, Peer> {
    map id | id in peers :: peers[id].(lastSeen := now)
  }

  lemma DecodedLater(packet: Message, service: Name, now: nat, later: nat)
    ensures Receiver.DecodePeers(packet, service, later) == ReadAt(Receiver.DecodePeers(packet, service, now), later)
  {
  }

  /** The packet that the wake-up of a node sends, if any. */
  function SentBy(cfg: Config, s: Swarm, id: Str, draw: nat): Option<Packet>
    requires ValidConfig(cfg) && id in s.nodes
  {
    Step(cfg, id, s.nodes[id].auto, Timeout(s.nodes[id].auto.timeoutCount), draw).1.sent
  }

  function AsMsg(incoming: Receiver.Incoming): Msg {
    match incoming
    case QueryV4 => QueryV4
    case QueryV6 => QueryV6
    case Response(peers) => Response(peers)
  }

  function AsLogged(now: nat, peer: Str, incoming: Receiver.Incoming): Sent {
    match incoming
    case Response(peers) => ResponseSent(now, peer, peers)
    case _ => QuerySent(now, peer)
  }

  /** The timer of a query phase: every node reads what is sent, over either version of IP. */
  function Query(cfg: Config, s: Swarm, querier: Str, overV6: Str -> bool, draws: Str -> nat): Swarm
    requires ValidConfig(cfg) && querier in s.nodes
  {
    var first := TimedOut(cfg, s.now, querier, s.nodes[querier], draws(querier));
    match SentBy(cfg, s, querier, draws(querier))
    case None => s.(nodes := s.nodes[querier := first])
    case Some(packet) =>
      var nodes := map id | id in s.nodes ::
        var n := if id == querier then first else s.nodes[id];
        React(cfg, s.now, id, n, AsMsg(Receiver.Decode(packet.content, cfg.service, overV6(id), s.now)), draws(id));
      s.(nodes := nodes,
         log := s.log + [AsLogged(s.now, querier, Receiver.Decode(packet.content, cfg.service, false, s.now))])
  }

  /** The timer of a response phase: what is sent is delivered to the nodes it reaches. */
  function Respond(cfg: Config, s: Swarm, responder: Str, reached: set<Str>, draws: Str -> nat): Swarm
    requires ValidConfig(cfg) && responder in s.nodes
  {
    var first := TimedOut(cfg, s.now, responder, s.nodes[responder], draws(responder));
    match SentBy(cfg, s, responder, draws(responder))
    case None => s.(nodes := s.nodes[responder := first])
    case Some(packet) =>
      var peers := Receiver.DecodePeers(packet.content, cfg.service, s.now);
      var nodes := map id | id in s.nodes ::
        var n := if id == responder then first else s.nodes[id];
        if id in reached then Deliver(cfg, s.now, id, n, |s.log|, peers, draws(id)) else n;
      s.(nodes := nodes, log := s.log + [ResponseSent(s.now, responder, peers)])
  }

  predicate CanTimeOut(s: Swarm, id: Str) {
    id in s.nodes && s.nodes[id].deadline <= s.now
  }

  ghost predicate Enabled(s: Swarm, e: Event) {
    match e
    case Tick(_) => true
    case QueryTimeout(id, _, draws) =>
      CanTimeOut(s, id) && s.nodes[id].auto.phase.Querying? && forall x :: draws(x) < DRAWS
    case ResponseTimeout(id, reached, draws) =>
      CanTimeOut(s, id) && s.nodes[id].auto.phase.Responding? && reached <= s.nodes.Keys && forall x :: draws(x) < DRAWS
    case LateResponse(id, i, draw) => id in s.nodes && i < |s.log| && s.log[i].ResponseSent? && draw < DRAWS
    case Stray(id, _, draw) => id in s.nodes && draw < DRAWS
    case Resize(id, _) => id in s.nodes
    case Order(id, c) => id in s.nodes && Validated(c) && !ForInterface(c)
    case Join(id, own, draw) => id !in s.nodes && LabelId(id) && WellFormed(own) && draw < DRAWS
    case Leave(id) => id in s.nodes
  }

  ghost function Next(cfg: Config, s: Swarm, e: Event): Swarm
    requires ValidConfig(cfg) && Enabled(s, e)
  {
    match e
    case Tick(elapsed) => s.(now := s.now + elapsed)
    case QueryTimeout(id, overV6, draws) => Query(cfg, s, id, overV6, draws)
    case ResponseTimeout(id, reached, draws) => Respond(cfg, s, id, reached, draws)
    case LateResponse(id, i, draw) =>
      s.(nodes := s.nodes[id := Deliver(cfg, s.now, id, s.nodes[id], i, ReadAt(s.log[i].heard, s.now), draw)])
    case Stray(id, peers, draw) =>
      s.(nodes := s.nodes[id := React(cfg, s.now, id, s.nodes[id], Response(peers), draw)])
    case Resize(id, size) => s.(nodes := s.nodes[id := React(cfg, s.now, id, s.nodes[id], SizeUpdate(size), 0)])
    case Order(id, c) => s.(nodes := s.nodes[id := React(cfg, s.now, id, s.nodes[id], Update(c), 0)])
    case Join(id, own, draw) => s.(nodes := s.nodes[id := Newcomer(cfg, s.now, id, own, draw)])
    case Leave(id) => s.(nodes := s.nodes - {id})
  }

  function Newcomer(cfg: Config, now: nat, id: Str, own: Option<Announced>, draw: nat): Node {
    var (a, e) := Start(cfg, id, own, draw);
    Node(a, if e.armed.Some? then now + e.armed.value else now, now, {})
  }

  // ---- runs ----

  /** Additional assumptions about a run. */
  datatype Regime =
    | Anything              // responses may be lost or late, timers may fire late
    | Atomic                // every response reaches every node at once
    | Missing(most: nat)    // a node that responds has missed at most so many address-carrying responses since the last query
    | Prompt(maxSize: nat)  // timers fire on time and no node believes the swarm to be larger than this

  ghost predicate Obeys(r: Regime, s: Swarm, e: Event)
    requires Enabled(s, e)
  {
    match r
    case Anything => true
    case Atomic => !e.LateResponse? && !e.Stray? && (e.ResponseTimeout? ==> e.reached == s.nodes.Keys)
    case Missing(most) => e.ResponseTimeout? ==> |Missed(s, e.responder)| <= most
    case Prompt(maxSize) =>
      && (e.Tick? ==> forall id :: id in s.nodes ==> s.now + e.elapsed <= s.nodes[id].deadline)
      && (e.Resize? ==> e.size <= maxSize)
  }

  ghost predicate Run(cfg: Config, r: Regime, s: Swarm, es: seq<Event>)
    requires ValidConfig(cfg)
    decreases |es|, 0
  {
    es == [] ||
    (&& Run(cfg, r, s, es[..|es| - 1])
     && Enabled(After(cfg, r, s, es[..|es| - 1]), es[|es| - 1])
     && Obeys(r, After(cfg, r, s, es[..|es| - 1]), es[|es| - 1]))
  }

  ghost function After(cfg: Config, r: Regime, s: Swarm, es: seq<Event>): Swarm
    requires ValidConfig(cfg) && Run(cfg, r, s, es)
    decreases |es|, 1
  {
    if es == [] then s else Next(cfg, After(cfg, r, s, es[..|es| - 1]), es[|es| - 1])
  }

  lemma {:induction false} RunAppend(cfg: Config, r: Regime, s: Swarm, es: seq<Event>, fs: seq<Event>)
    requires ValidConfig(cfg) && Run(cfg, r, s, es) && Run(cfg, r, After(cfg, r, s, es), fs)
    ensures Run(cfg, r, s, es + fs)
    ensures After(cfg, r, s, es + fs) == After(cfg, r, After(cfg, r, s, es), fs)
    decreases |fs|
  {
    hide Next, Enabled, Obeys;
    if fs == [] {
      assert es + fs == es;
    } else {
      RunAppend(cfg, r, s, es, fs[..|fs| - 1]);
      assert (es + fs)[..|es + fs| - 1] == es + fs[..|fs| - 1];
    }
  }

  lemma RunOne(cfg: Config, r: Regime, s: Swarm, e: Event)
    requires ValidConfig(cfg) && Enabled(s, e) && Obeys(r, s, e)
    ensures Run(cfg, r, s, [e]) && After(cfg, r, s, [e]) == Next(cfg, s, e)
  {
    hide Next, Enabled, Obeys;
    assert [e][..0] == [];
    assert Run(cfg, r, s, []) && After(cfg, r, s, []) == s;
  }

  // ---- reading the log ----

  /** The time of the last query, if there was one. */
  function LastQuery(log: seq<Sent>): Option<nat> {
    if log == [] then None
    else if log[|log| - 1].QuerySent? then Some(log[|log| - 1].at)
    else LastQuery(log[..|log| - 1])
  }

  /** The positions of the address-carrying responses since the last query. */
  function Carriers(log: seq<Sent>): set<nat> {
    set i: nat | i < |log| && log[i].Carries() && NoQueryAfter(log, i)
  }

  predicate NoQueryAfter(log: seq<Sent>, i: nat) {
    forall j :: i < j < |log| ==> !log[j].QuerySent?
  }

  /** The address-carrying responses since the last query that have not been delivered to a node. */
  function Missed(s: Swarm, id: Str): set<nat>
    requires id in s.nodes
  {
    Carriers(s.log) - s.nodes[id].received
  }

  /** The number of address-carrying responses since the last query. */
  function Since(log: seq<Sent>): nat {
    if log == [] || log[|log| - 1].QuerySent? then 0
    else Since(log[..|log| - 1]) + (if log[|log| - 1].Carries() then 1 else 0)
  }

  /** The number of responses since the last query, with or without addresses. */
  function PacketsSince(log: seq<Sent>): nat {
    if log == [] || log[|log| - 1].QuerySent? then 0 else PacketsSince(log[..|log| - 1]) + 1
  }

  /** Queries sent in the window [a, b]. */
  function Queries(log: seq<Sent>, a: int, b: int): nat {
    if log == [] then 0
    else
      var x := log[|log| - 1];
      Queries(log[..|log| - 1], a, b) + (if x.QuerySent? && a <= x.at <= b then 1 else 0)
  }

  /** Address-carrying responses sent in the window [a, b]. */
  function Responses(log: seq<Sent>, a: int, b: int): nat {
    if log == [] then 0
    else
      var x := log[|log| - 1];
      Responses(log[..|log| - 1], a, b) + (if x.Carries() && a <= x.at <= b then 1 else 0)
  }

  /** Responses sent in the window [a, b], with or without addresses. */
  function Packets(log: seq<Sent>, a: int, b: int): nat {
    if log == [] then 0
    else
      var x := log[|log| - 1];
      Packets(log[..|log| - 1], a, b) + (if x.ResponseSent? && a <= x.at <= b then 1 else 0)
  }

  ghost predicate Chronological(log: seq<Sent>) {
    forall i, j :: 0 <= i < j < |log| ==> log[i].at <= log[j].at
  }

  /** Any two queries are at least tau apart. */
  ghost predicate Spaced(log: seq<Sent>, tau: nat) {
    forall i, j :: 0 <= i < j < |log| && log[i].QuerySent? && log[j].QuerySent? ==> log[i].at + tau <= log[j].at
  }

  /** Never more than `most` address-carrying responses between two queries. */
  ghost predicate Capped(log: seq<Sent>, most: nat) {
    forall i :: 0 <= i <= |log| ==> Since(log[..i]) <= most
  }

  // ---- how a node reacts, as far as the swarm is concerned ----

  /** Everything but the phase bookkeeping, the timer and the deliveries. */
  ghost predicate SameRest(n: Node, k: Node) {
    && k.auto.own == n.auto.own && k.auto.response == n.auto.response
    && k.auto.swarmSize == n.auto.swarmSize && k.joined == n.joined
  }

  /** The message with which a query arrives. */
  function QueryMsg(overV6: bool): Msg {
    if overV6 then QueryV6 else QueryV4
  }

  lemma OnQuery(cfg: Config, now: nat, id: Str, n: Node, overV6: bool, draw: nat)
    requires ValidConfig(cfg) && draw < DRAWS
    ensures var k := React(cfg, now, id, n, QueryMsg(overV6), draw);
            if n.auto.phase.Responding? then k == n
            else k.auto.phase == Responding(if overV6 then ViaV6 else ViaV4, 0) && k.deadline >= now && SameRest(n, k) && k.received == n.received
  {
    hide Apply, UpdatedResponse;
  }

  lemma OnResponse(cfg: Config, now: nat, id: Str, n: Node, peers: map<Str, Peer>, draw: nat)
    requires ValidConfig(cfg) && draw < DRAWS
    ensures var k := React(cfg, now, id, n, Response(peers), draw);
            if n.auto.phase.Querying? then k == n
            else if n.auto.phase.responseCount + |peers| >= cfg.cutoff then
              k.auto.phase.Querying? && k.deadline >= now + cfg.tau && SameRest(n, k) && k.received == n.received
            else
              k == n.(auto := n.auto.(phase := Responding(n.auto.phase.mode, n.auto.phase.responseCount + |peers|)))
  {
    hide Apply, UpdatedResponse;
  }

  lemma OnTimeout(cfg: Config, now: nat, id: Str, n: Node, draw: nat)
    requires ValidConfig(cfg) && draw < DRAWS
    ensures var k := TimedOut(cfg, now, id, n, draw);
            && SameRest(n, k) && k.received == n.received
            && if n.auto.phase.Querying? then k.auto.phase == Responding(Any, 0) && k.deadline >= now
               else k.auto.phase.Querying? && k.deadline >= now + cfg.tau
  {
    hide Apply, UpdatedResponse;
  }

  lemma OnOther(cfg: Config, now: nat, id: Str, n: Node, m: Msg, draw: nat)
    requires ValidConfig(cfg) && (m.SizeUpdate? || m.Update?)
    ensures var k := React(cfg, now, id, n, m, draw);
            && k.auto.phase == n.auto.phase && k.deadline == n.deadline && k.joined == n.joined && k.received == n.received
            && (m.SizeUpdate? ==> k.auto == n.auto.(swarmSize := m.size))
            && (m.Update? ==> k.auto.swarmSize == n.auto.swarmSize)
  {
    hide Apply, UpdatedResponse;
  }

  /** What a response sent in s contains; none if the responder announces nothing. */
  function Heard(cfg: Config, s: Swarm, responder: Str): Option<map<Str, Peer>> {
    if responder !in s.nodes || s.nodes[responder].auto.response.None? then None
    else Some(Receiver.DecodePeers(s.nodes[responder].auto.response.value, cfg.service, s.now))
  }

  /** What the wake-up of a query phase sends is read as a query by every node. */
  lemma QueryIsHeard(cfg: Config, s: Swarm, e: Event)
    requires ValidConfig(cfg) && e.QueryTimeout? && Enabled(s, e)
    ensures var t := Next(cfg, s, e);
      && t.log == s.log + [QuerySent(s.now, e.querier)] && t.now == s.now
      && t.nodes == map id | id in s.nodes ::
           var n := if id == e.querier then TimedOut(cfg, s.now, id, s.nodes[id], e.qdraws(id)) else s.nodes[id];
           React(cfg, s.now, id, n, QueryMsg(e.overV6(id)), e.qdraws(id))
  {
    hide React, TimedOut, Receiver.Decode, Step;
    var a := s.nodes[e.querier].auto;
    Transmissions.StepSends(cfg, e.querier, a, Timeout(a.timeoutCount), e.qdraws(e.querier));
    assert SentBy(cfg, s, e.querier, e.qdraws(e.querier)) == Some(Packet(W.MakeQuery(cfg.service), Any));
    forall v6 ensures Receiver.Decode(W.MakeQuery(cfg.service), cfg.service, v6, s.now) == Reading.QueryOver(v6) {
      Reading.OwnQueryIsRecognised(cfg.service, cfg.service, v6, s.now);
    }
  }

  /** What the wake-up of a response phase sends is the cached response. */
  lemma ResponseIsHeard(cfg: Config, s: Swarm, e: Event)
    requires ValidConfig(cfg) && e.ResponseTimeout? && Enabled(s, e)
    ensures var t, heard := Next(cfg, s, e), Heard(cfg, s, e.responder);
      && t.log == s.log + (if heard.None? then [] else [ResponseSent(s.now, e.responder, heard.value)]) && t.now == s.now
      && t.nodes == map id | id in s.nodes ::
           var n := if id == e.responder then TimedOut(cfg, s.now, id, s.nodes[id], e.rdraws(id)) else s.nodes[id];
           if heard.Some? && id in e.reached then Deliver(cfg, s.now, id, n, |s.log|, heard.value, e.rdraws(id)) else n
  {
    hide React, TimedOut, Receiver.DecodePeers, Step, Deliver;
    var a := s.nodes[e.responder].auto;
    Transmissions.StepSends(cfg, e.responder, a, Timeout(a.timeoutCount), e.rdraws(e.responder));
    assert s.log + [] == s.log;
  }

  /** A query puts every node into its response phase and disturbs none that is in it already. */
  lemma AfterQuery(cfg: Config, s: Swarm, e: Event, id: Str)
    requires ValidConfig(cfg) && e.QueryTimeout? && Enabled(s, e) && id in s.nodes
    ensures Next(cfg, s, e).nodes.Keys == s.nodes.Keys
    ensures var n, k := s.nodes[id], Next(cfg, s, e).nodes[id];
            && SameRest(n, k) && k.auto.phase.Responding?
            && k.received == n.received
            && (n.auto.phase.Responding? ==> k == n)
            && (n.auto.phase.Querying? ==> k.auto.phase.responseCount == 0 && k.deadline >= s.now)
  {
    hide Next, React, TimedOut;
    var n := s.nodes[id];
    QueryIsHeard(cfg, s, e);
    OnTimeout(cfg, s.now, id, n, e.qdraws(id));
    OnQuery(cfg, s.now, id, if id == e.querier then TimedOut(cfg, s.now, id, n, e.qdraws(id)) else n, e.overV6(id), e.qdraws(id));
  }

  lemma RespondLog(cfg: Config, s: Swarm, e: Event)
    requires ValidConfig(cfg) && e.ResponseTimeout? && Enabled(s, e)
    ensures var heard := Heard(cfg, s, e.responder);
            Next(cfg, s, e).log == s.log + if heard.None? then [] else [ResponseSent(s.now, e.responder, heard.value)]
    ensures Next(cfg, s, e).nodes.Keys == s.nodes.Keys && Next(cfg, s, e).now == s.now
  {
    hide Next, Heard;
    ResponseIsHeard(cfg, s, e);
  }

  /** How the log grows in one event, and how time passes. */
  lemma LogStep(cfg: Config, s: Swarm, e: Event)
    requires ValidConfig(cfg) && Enabled(s, e)
    ensures var t := Next(cfg, s, e);
      && t.now == s.now + (if e.Tick? then e.elapsed else 0)
      && if e.QueryTimeout? then t.log == s.log + [QuerySent(s.now, e.querier)]
         else if e.ResponseTimeout? then
           t.log == s.log || exists heard :: t.log == s.log + [ResponseSent(s.now, e.responder, heard)]
         else t.log == s.log
  {
    hide React, TimedOut, Query, Respond, Heard;
    if e.QueryTimeout? {
      QueryIsHeard(cfg, s, e);
    } else if e.ResponseTimeout? {
      RespondLog(cfg, s, e);
      assert s.log + [] == s.log;
    }
  }

  /** A response ends the response phase of its sender and of all it reaches that have heard enough. */
  lemma AfterRespond(cfg: Config, s: Swarm, e: Event, id: Str)
    requires ValidConfig(cfg) && e.ResponseTimeout? && Enabled(s, e) && id in s.nodes
    ensures id in Next(cfg, s, e).nodes
    ensures var n, k, heard := s.nodes[id], Next(cfg, s, e).nodes[id], Heard(cfg, s, e.responder);
            && SameRest(n, k)
            && k.received == n.received + (if heard.Some? && id in e.reached then {|s.log|} else {})
            && if id == e.responder then k.auto.phase.Querying? && k.deadline >= s.now + cfg.tau
               else if heard.None? || id !in e.reached || n.auto.phase.Querying? then k.(received := n.received) == n
               else if n.auto.phase.responseCount + |heard.value| >= cfg.cutoff then
                 k.auto.phase.Querying? && k.deadline >= s.now + cfg.tau
               else
                 && k.auto.phase == Responding(n.auto.phase.mode, n.auto.phase.responseCount + |heard.value|)
                 && k.deadline == n.deadline
  {
    hide Next, React, TimedOut, Receiver.DecodePeers;
    ResponseIsHeard(cfg, s, e);
    var n := s.nodes[id];
    var draw := e.rdraws(id);
    OnTimeout(cfg, s.now, id, n, draw);
    if Heard(cfg, s, e.responder).Some? {
      var peers := Heard(cfg, s, e.responder).value;
      OnResponse(cfg, s.now, id, if id == e.responder then TimedOut(cfg, s.now, id, n, draw) else n, peers, draw);
    }
  }

  /** What an event other than a query or response delivers to a node. */
  function Receives(s: Swarm, e: Event, id: Str): Option<map<Str, Peer>> {
    match e
    case LateResponse(who, i, _) =>
      if who == id && i < |s.log| && s.log[i].ResponseSent? then Some(ReadAt(s.log[i].heard, s.now)) else None
    case Stray(who, peers, _) => if who == id then Some(peers) else None
    case _ => None
  }

  /** An event that concerns a single node. */
  lemma AfterOther(cfg: Config, s: Swarm, e: Event, id: Str)
    requires ValidConfig(cfg) && Enabled(s, e) && !e.QueryTimeout? && !e.ResponseTimeout?
    requires id in Next(cfg, s, e).nodes
    ensures Next(cfg, s, e).log == s.log
    ensures var k := Next(cfg, s, e).nodes[id];
            if id !in s.nodes then
              e.Join? && e.newcomer == id && k.auto.phase.Querying? && k.deadline >= s.now + cfg.tau
            else
              var n, heard := s.nodes[id], Receives(s, e, id);
              && k.received == n.received + (if e.LateResponse? && e.receiver == id then {e.index} else {})
              && if n.auto.phase.Querying? then k.auto.phase.Querying? && k.deadline == n.deadline
                 else if heard.Some? && n.auto.phase.responseCount + |heard.value| >= cfg.cutoff then
                   k.auto.phase.Querying? && k.deadline >= s.now + cfg.tau
                 else
                   && k.auto.phase.Responding? && k.deadline == n.deadline
                   && k.auto.phase.responseCount == n.auto.phase.responseCount + (if heard.Some? then |heard.value| else 0)
  {
    hide React;
    match e {
      case LateResponse(who, i, draw) => OnResponse(cfg, s.now, who, s.nodes[who], ReadAt(s.log[i].heard, s.now), draw);
      case Stray(who, peers, draw) => OnResponse(cfg, s.now, who, s.nodes[who], peers, draw);
      case Resize(who, size) => OnOther(cfg, s.now, who, s.nodes[who], SizeUpdate(size), 0);
      case Order(who, c) => OnOther(cfg, s.now, who, s.nodes[who], Update(c), 0);
      case Join(_, _, draw) => QueryDelayBounds(cfg.tau, 1, 1, draw);
      case _ =>
    }
  }

  ghost predicate LogFits(s: Swarm) {
    Chronological(s.log) && forall i :: 0 <= i < |s.log| ==> s.log[i].at <= s.now
  }

  lemma LogGrows(s: Swarm, x: Sent)
    requires LogFits(s) && x.at == s.now
    ensures Chronological(s.log + [x]) && forall i :: 0 <= i <= |s.log| ==> (s.log + [x])[i].at <= s.now
    ensures LastQuery(s.log + [x]) == if x.QuerySent? then Some(x.at) else LastQuery(s.log)
    ensures Since(s.log + [x]) == if x.QuerySent? then 0 else Since(s.log) + (if x.Carries() then 1 else 0)
    ensures PacketsSince(s.log + [x]) == if x.QuerySent? then 0 else PacketsSince(s.log) + 1
  {
    assert (s.log + [x])[..|s.log|] == s.log;
  }

  /** How the address-carrying responses since the last query change as the log grows. */
  lemma CarriersGrow(log: seq<Sent>, x: Sent)
    ensures Carriers(log + [x]) == if x.QuerySent? then {} else Carriers(log) + (if x.Carries() then {|log|} else {})
  {
    var next := log + [x];
    assert next[|log|] == x && forall i :: 0 <= i < |log| ==> next[i] == log[i];
    if x.QuerySent? {
      forall i: nat | i < |log| ensures !NoQueryAfter(next, i) {
        assert next[|log|].QuerySent?;
      }
    } else {
      forall i: nat | i < |log| ensures NoQueryAfter(next, i) <==> NoQueryAfter(log, i) {
        if NoQueryAfter(next, i) {
          assert forall j :: i < j < |log| ==> log[j] == next[j];
        }
      }
    }
  }

  lemma {:induction false} SinceIsSize(log: seq<Sent>)
    ensures |Carriers(log)| == Since(log)
    ensures forall i :: i in Carriers(log) ==> i < |log|
  {
    if log != [] {
      var init := log[..|log| - 1];
      SinceIsSize(init);
      CarriersGrow(init, log[|log| - 1]);
      assert init + [log[|log| - 1]] == log;
    }
  }

  lemma {:induction false} LastQueryIsLast(log: seq<Sent>)
    requires Chronological(log)
    ensures forall i :: 0 <= i < |log| && log[i].QuerySent? ==> LastQuery(log).Some? && log[i].at <= LastQuery(log).value
    ensures LastQuery(log).Some? ==> exists i :: 0 <= i < |log| && log[i].QuerySent? && log[i].at == LastQuery(log).value
  {
    if log != [] && !log[|log| - 1].QuerySent? {
      var init := log[..|log| - 1];
      LastQueryIsLast(init);
      forall i | 0 <= i < |log| && log[i].QuerySent? ensures log[i].at <= LastQuery(log).value {
        assert init[i] == log[i];
      }
    }
  }
}
