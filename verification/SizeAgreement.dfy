/**
 The sender's idea of the swarm size (src/updater.rs:35-83, src/sender.rs:44-48): sender and updater
 exchange messages through mailboxes that keep their order. The sender subscribes before it
 forwards any peers; collection requests may come at any time.
 */
module SizeAgreement {
  import opened Text
  import opened Peers
  import opened Updater

  /** The identity of the sender among the subscribers. */
  const SENDER: nat := 0

  /**
   inbox: messages on their way to the updater; sizes: size updates on their way to the sender;
   everKnown: some peer has been recorded before.
   */
  datatype System = System(
    updater: State,
    inbox: seq<Input>,
    sizes: seq<nat>,
    swarmSize: nat,
    subscribed: bool,
    everKnown: bool)

  const START := System(INITIAL, [], [], 1, false, false)

  datatype Event =
    | Subscribe
    | Forward(msg: map<Str, Peer>)
    | RequestGc
    | UpdaterStep(now: nat)
    | SenderStep

  predicate Enabled(s: System, e: Event) {
    match e
    case Subscribe => !s.subscribed
    case Forward(_) => s.subscribed
    case RequestGc => true
    case UpdaterStep(_) => s.inbox != []
    case SenderStep => s.sizes != []
  }

  /** The sizes that the sender gets from a list of notices. */
  function ForSender(notices: seq<Notice>): seq<nat> {
    if notices == [] then []
    else
      var n := notices[|notices| - 1];
      ForSender(notices[..|notices| - 1]) + if SENDER in n.to then [n.size] else []
  }

  function Next(r: Rate, s: System, e: Event): System
    requires Enabled(s, e)
  {
    match e
    case Subscribe => s.(inbox := s.inbox + [SizeSubscription(SENDER)], subscribed := true)
    case Forward(msg) => s.(inbox := s.inbox + [NewPeers(msg)])
    case RequestGc => s.(inbox := s.inbox + [GC])
    case UpdaterStep(now) =>
      var u := Handle(r, s.updater.(notices := []), s.inbox[0], now);
      s.(updater := u, inbox := s.inbox[1..], sizes := s.sizes + ForSender(u.notices),
         everKnown := s.everKnown || u.peers != map[])
    case SenderStep => s.(swarmSize := s.sizes[0], sizes := s.sizes[1..])
  }

  ghost predicate Run(r: Rate, es: seq<Event>)
    decreases |es|, 0
  {
    es == [] || (Run(r, es[..|es| - 1]) && Enabled(Reached(r, es[..|es| - 1]), es[|es| - 1]))
  }

  ghost function Reached(r: Rate, es: seq<Event>): System
    requires Run(r, es)
    decreases |es|, 1
  {
    if es == [] then START else Next(r, Reached(r, es[..|es| - 1]), es[|es| - 1])
  }

  // ---- what one message to the updater announces ----

  /** The last of the new notices, if there are any, is the current size; without one the size is unchanged. */
  ghost predicate Announced(s: State, t: State) {
    && t.subscribers == s.subscribers
    && (forall i :: 0 <= i < |t.notices| ==> t.notices[i].to == s.subscribers)
    && if t.notices == [] then |t.peers| == |s.peers| else t.notices[|t.notices| - 1].size == |t.peers|
  }

  lemma {:induction false} InsertAllAnnounces(s: State, ids: seq<Str>, msg: map<Str, Peer>)
    requires s.notices == [] && forall id :: id in ids ==> id in msg
    ensures Announced(s, InsertAll(s, ids, msg))
  {
    if ids != [] {
      var n := |ids| - 1;
      InsertAllAnnounces(s, ids[..n], msg);
      var t := InsertAll(s, ids[..n], msg);
      if ids[n] in t.peers {
        assert t.peers[ids[n] := msg[ids[n]]].Keys == t.peers.Keys;
        assert |t.peers.Keys| == |t.peers|;
        assert |t.peers[ids[n] := msg[ids[n]]].Keys| == |t.peers[ids[n] := msg[ids[n]]]|;
      }
    }
  }

  lemma HandleAnnounces(r: Rate, s: State, input: Input, now: nat)
    requires s.notices == [] && !input.SizeSubscription?
    ensures Announced(s, Handle(r, s, input, now))
  {
    hide InsertAll, Sweep;
    match input {
      case NewPeers(msg) => InsertAllAnnounces(s, StrList(msg.Keys), msg);
      case GC => SweptPeers(r, s, StrList(s.peers.Keys), |s.peers|, now);
      case SizeSubscription(_) =>
    }
  }

  lemma {:induction false} SenderGetsAll(notices: seq<Notice>)
    requires forall i :: 0 <= i < |notices| ==> SENDER in notices[i].to
    ensures |ForSender(notices)| == |notices|
    ensures notices != [] ==> ForSender(notices)[|notices| - 1] == notices[|notices| - 1].size
  {
    if notices != [] {
      SenderGetsAll(notices[..|notices| - 1]);
    }
  }

  // ---- agreement ----

  /** The size the sender will believe in once it has read all updates in flight. */
  function Eventual(s: System): nat {
    if s.sizes == [] then s.swarmSize else s.sizes[|s.sizes| - 1]
  }

  /** Peers reach the updater only after the subscription. */
  ghost predicate SubscriptionFirst(s: System) {
    && (SENDER !in s.updater.subscribers ==>
          forall i :: 0 <= i < |s.inbox| && s.inbox[i].NewPeers? ==>
            exists j :: 0 <= j < i && s.inbox[j] == SizeSubscription(SENDER))
    && (s.subscribed ==> SENDER in s.updater.subscribers || SizeSubscription(SENDER) in s.inbox)
  }

  ghost predicate Agreeing(s: System) {
    && (SENDER !in s.updater.subscribers ==> !s.everKnown)
    && (!s.everKnown ==> s.updater.peers == map[])
    && Eventual(s) == (if s.everKnown then |s.updater.peers| else 1)
    && (!s.everKnown ==> s.sizes == [])
  }

  lemma UpdaterStepKeepsOrder(r: Rate, s: System, now: nat)
    requires s.inbox != [] && SubscriptionFirst(s)
    ensures SubscriptionFirst(Next(r, s, UpdaterStep(now)))
  {
    hide Handle;
    var t := Next(r, s, UpdaterStep(now));
    var before := s.updater.(notices := []);
    assert s.inbox == [s.inbox[0]] + s.inbox[1..];
    if s.inbox[0].SizeSubscription? {
      Subscribing(r, before, s.inbox[0], now);
    } else {
      HandleAnnounces(r, before, s.inbox[0], now);
    }
    forall i | SENDER !in t.updater.subscribers && 0 <= i < |t.inbox| && t.inbox[i].NewPeers?
      ensures exists j :: 0 <= j < i && t.inbox[j] == SizeSubscription(SENDER)
    {
      assert s.inbox[i + 1] == t.inbox[i];
      var j :| 0 <= j < i + 1 && s.inbox[j] == SizeSubscription(SENDER);
      assert t.inbox[j - 1] == s.inbox[j];
    }
  }

  lemma ForwardKeepsOrder(r: Rate, s: System, msg: map<Str, Peer>)
    requires s.subscribed && SubscriptionFirst(s)
    ensures SubscriptionFirst(Next(r, s, Forward(msg)))
  {
    var t := Next(r, s, Forward(msg));
    if SENDER !in s.updater.subscribers {
      var j :| 0 <= j < |s.inbox| && s.inbox[j] == SizeSubscription(SENDER);
      assert t.inbox[j] == s.inbox[j];
      forall i | 0 <= i < |s.inbox| && t.inbox[i].NewPeers?
        ensures exists k :: 0 <= k < i && t.inbox[k] == SizeSubscription(SENDER)
      {
        var k :| 0 <= k < i && s.inbox[k] == SizeSubscription(SENDER);
        assert t.inbox[k] == s.inbox[k];
      }
    }
  }

  lemma StepKeepsOrder(r: Rate, s: System, e: Event)
    requires Enabled(s, e) && SubscriptionFirst(s)
    ensures SubscriptionFirst(Next(r, s, e))
  {
    hide Handle, SubscriptionFirst;
    match e {
      case UpdaterStep(now) => UpdaterStepKeepsOrder(r, s, now);
      case Forward(msg) => ForwardKeepsOrder(r, s, msg);
      case Subscribe => AppendedInput(s, Next(r, s, e), SizeSubscription(SENDER));
      case RequestGc => AppendedInput(s, Next(r, s, e), GC);
      case SenderStep => OrderOfInbox(s, Next(r, s, e));
    }
  }

  lemma OrderOfInbox(s: System, t: System)
    requires SubscriptionFirst(s) && t.inbox == s.inbox && t.updater == s.updater && t.subscribed == s.subscribed
    ensures SubscriptionFirst(t)
  {
  }

  lemma AppendedInput(s: System, t: System, input: Input)
    requires SubscriptionFirst(s) && !input.NewPeers?
    requires t.inbox == s.inbox + [input] && t.updater == s.updater
    requires t.subscribed ==> s.subscribed || input == SizeSubscription(SENDER)
    ensures SubscriptionFirst(t)
  {
    forall i | SENDER !in s.updater.subscribers && 0 <= i < |t.inbox| && t.inbox[i].NewPeers?
      ensures exists j :: 0 <= j < i && t.inbox[j] == SizeSubscription(SENDER)
    {
      assert s.inbox[i] == t.inbox[i];
      var k :| 0 <= k < i && s.inbox[k] == SizeSubscription(SENDER);
      assert t.inbox[k] == s.inbox[k];
    }
  }

  lemma UpdaterStepKeepsAgreement(r: Rate, s: System, now: nat)
    requires s.inbox != [] && SubscriptionFirst(s) && Agreeing(s)
    ensures Agreeing(Next(r, s, UpdaterStep(now)))
  {
    hide Handle;
    var t := Next(r, s, UpdaterStep(now));
    var before := s.updater.(notices := []);
    var input := s.inbox[0];
    if input.SizeSubscription? {
      Subscribing(r, before, input, now);
      assert s.sizes + [] == s.sizes;
    } else {
      HandleAnnounces(r, before, input, now);
      if SENDER in before.subscribers {
        SenderGetsAll(t.updater.notices);
        NothingAppears(r, before, input, now);
      } else {
        NothingBefore(r, s, now);
      }
    }
  }

  lemma Subscribing(r: Rate, s: State, input: Input, now: nat)
    requires input.SizeSubscription?
    ensures Handle(r, s, input, now) == s.(subscribers := s.subscribers + {input.subscriber})
  {
  }

  /** A message that leaves the map without notice leaves an empty map empty. */
  lemma NothingAppears(r: Rate, s: State, input: Input, now: nat)
    requires s.notices == [] && Announced(s, Handle(r, s, input, now))
    ensures Handle(r, s, input, now).notices == [] && s.peers == map[] ==> Handle(r, s, input, now).peers == map[]
    ensures input.GC? && s.peers == map[] ==> Handle(r, s, input, now) == s
    ensures s.peers == map[] && Handle(r, s, input, now).notices != [] ==> Handle(r, s, input, now).peers != map[]
  {
    hide InsertAll;
    var t := Handle(r, s, input, now);
    if input.NewPeers? {
      PeersAreMerged(r, s, input.msg, now);
      NoticesMeanPeers(s, StrList(input.msg.Keys), input.msg);
    }
    assert s.peers == map[] && t.notices == [] ==> |t.peers| == 0;
  }

  lemma {:induction false} NoticesMeanPeers(s: State, ids: seq<Str>, msg: map<Str, Peer>)
    requires s.notices == [] && forall id :: id in ids ==> id in msg
    ensures InsertAll(s, ids, msg).notices != [] ==> InsertAll(s, ids, msg).peers != map[]
  {
    if ids != [] {
      NoticesMeanPeers(s, ids[..|ids| - 1], msg);
      assert ids[|ids| - 1] in InsertAll(s, ids, msg).peers;
    }
  }

  /** Before the subscription has been processed, only collections of an empty map can be. */
  lemma NothingBefore(r: Rate, s: System, now: nat)
    requires s.inbox != [] && SubscriptionFirst(s) && Agreeing(s)
    requires SENDER !in s.updater.subscribers && !s.inbox[0].SizeSubscription?
    ensures Handle(r, s.updater.(notices := []), s.inbox[0], now) == s.updater.(notices := [])
  {
  }

  lemma StepKeepsAgreement(r: Rate, s: System, e: Event)
    requires Enabled(s, e) && SubscriptionFirst(s) && Agreeing(s)
    ensures Agreeing(Next(r, s, e))
  {
    hide Handle;
    match e {
      case UpdaterStep(now) => UpdaterStepKeepsAgreement(r, s, now);
      case _ =>
    }
  }

  lemma {:induction false} RunKeepsAgreement(r: Rate, es: seq<Event>)
    requires Run(r, es)
    ensures SubscriptionFirst(Reached(r, es)) && Agreeing(Reached(r, es))
  {
    hide Next, Enabled;
    if es != [] {
      var init := es[..|es| - 1];
      RunKeepsAgreement(r, init);
      StepKeepsOrder(r, Reached(r, init), es[|es| - 1]);
      StepKeepsAgreement(r, Reached(r, init), es[|es| - 1]);
    }
  }

  /**
   Whenever no size update is in flight, the sender's swarm size is the number of peers the updater
   knows, or 1 if it has never known any.
   */
  lemma SizesAgree(r: Rate, es: seq<Event>)
    requires Run(r, es) && Reached(r, es).sizes == []
    ensures var s := Reached(r, es); s.swarmSize == if s.everKnown then |s.updater.peers| else 1
  {
    RunKeepsAgreement(r, es);
  }
}
