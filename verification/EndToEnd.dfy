/**
 From the commands of one application to the callback of another: the announcing node's history,
 its sender, the packet, the receiving node's sender and its updater.
 */
module EndToEnd {
  import opened Wrappers
  import opened Ordering
  import opened Text
  import opened Dns
  import opened Peers
  import opened Announcement
  import opened Discovery
  import Sender
  import Receiver
  import Codec
  import Updater
  import W = Response

  /** The commands among the messages of a sender. */
  function Commands(inbox: seq<Sender.Msg>): seq<Command> {
    if inbox == [] then []
    else
      var m := inbox[|inbox| - 1];
      Commands(inbox[..|inbox| - 1]) + if m.Update? then [m.command] else []
  }

  lemma OwnStep(cfg: Sender.Config, id: Str, s: Sender.State, m: Sender.Msg, draw: nat)
    requires Sender.ValidConfig(cfg)
    ensures Sender.Step(cfg, id, s, m, draw).0.own == if m.Update? then Apply(s.own, m.command) else s.own
  {
    hide Apply, UpdatedResponse;
  }

  lemma AfterStep(h: seq<Command>, c: Command)
    ensures After(h + [c]) == Apply(After(h), c)
  {
    hide Apply;
    assert (h + [c])[..|h|] == h;
  }

  /** At any time a sender's entry is what the commands so far, `before` it started and since, have made it. */
  lemma {:induction false} EntryFollowsCommands(
      cfg: Sender.Config, id: Str, before: seq<Command>, inbox: seq<Sender.Msg>, draw: nat -> nat)
    requires Sender.ValidConfig(cfg)
    ensures Sender.StateAfter(cfg, id, After(before), inbox, draw).own == After(before + Commands(inbox))
  {
    hide Sender.Step, Apply, W.ResponseFor;
    if inbox == [] {
      assert before + [] == before;
    } else {
      var n := |inbox| - 1;
      EntryFollowsCommands(cfg, id, before, inbox[..n], draw);
      OwnStep(cfg, id, Sender.StateAfter(cfg, id, After(before), inbox[..n], draw), inbox[n], draw(n + 1));
      var h := before + Commands(inbox[..n]);
      if inbox[n].Update? {
        AfterStep(h, inbox[n].command);
        assert before + Commands(inbox) == h + [inbox[n].command];
      } else {
        assert before + Commands(inbox) == h;
      }
    }
  }

  /** No packet whatsoever makes the updater record a peer without addresses. */
  lemma DecodedPeersAreAddressed(packet: Message, service: Name, now: nat)
    ensures Updater.Addressed(Updater.NewPeers(Receiver.DecodePeers(packet, service, now)))
  {
    hide Receiver.DecodePeers;
    Codec.JoinMeaning(packet, service, now);
  }

  /** All new peers come out of packets, whatever these contain. */
  ghost predicate FromPackets(service: Name, h: seq<Updater.Timed>) {
    forall i :: 0 <= i < |h| && h[i].input.NewPeers? ==> Decoded(service, h[i].input.msg)
  }

  ghost predicate Decoded(service: Name, peers: map<Str, Peer>) {
    exists packet, at :: peers == Receiver.DecodePeers(packet, service, at)
  }

  /**
   As long as the updater gets its peers from `handle_msg`: at any time replaying the callbacks yields
   exactly the updater's peers, and expiry is reported only for peers known at that moment.
   */
  lemma CallbacksMirrorPeers(service: Name, r: Updater.Rate, h: seq<Updater.Timed>)
    requires FromPackets(service, h)
    ensures Updater.Mirrored(Updater.After(r, h))
  {
    hide Updater.Mirrored, Receiver.DecodePeers;
    forall i | 0 <= i < |h| ensures Updater.Addressed(h[i].input) {
      if h[i].input.NewPeers? {
        assert Decoded(service, h[i].input.msg);
        var packet, at :| h[i].input.msg == Receiver.DecodePeers(packet, service, at);
        DecodedPeersAreAddressed(packet, service, at);
      }
    }
    Updater.CallbacksMirrorPeers(r, h);
  }

  /** The peers that the announcer's next response carries, as a receiver reads them at time now. */
  function OnAir(cfg: Sender.Config, id: Str, s: Sender.State, draw: nat, overV6: bool, now: nat): Receiver.Incoming
    requires Sender.ValidConfig(cfg)
  {
    match Sender.Step(cfg, id, s, Sender.Timeout(s.timeoutCount), draw).1.sent
    case Some(packet) => Receiver.Decode(packet.content, cfg.service, overV6, now)
    case None => Receiver.Response(map[])
  }

  /** A sender hands the peers of a response to its updater in either phase. */
  lemma PeersAreForwarded(cfg: Sender.Config, id: Str, s: Sender.State, peers: map<Str, Peer>, draw: nat)
    requires Sender.ValidConfig(cfg)
    ensures Sender.Step(cfg, id, s, Sender.Response(peers), draw).1.toUpdater == Some(peers)
  {
    hide Apply, UpdatedResponse;
  }

  lemma NextResponseIsSent(cfg: Sender.Config, id: Str, s: Sender.State, draw: nat)
    requires Sender.ValidConfig(cfg) && Sender.CacheAgrees(cfg, id, s) && s.phase.Responding?
    ensures Sender.Step(cfg, id, s, Sender.Timeout(s.timeoutCount), draw).1.sent ==
            match s.own
            case None => None
            case Some(own) => Some(Sender.Packet(W.Response(id, cfg.service, own), s.phase.mode))
  {
    hide Apply, UpdatedResponse, W.Response;
  }

  lemma AnnouncerIsHonest(
      cfg: Sender.Config, id: Str, before: seq<Command>, inbox: seq<Sender.Msg>, draw: nat -> nat)
    requires Sender.ValidConfig(cfg) && LabelId(id)
    requires (forall c :: c in before ==> Validated(c)) && (forall m :: m in inbox ==> Sender.RoutedMsg(m))
    ensures var s := Sender.StateAfter(cfg, id, After(before), inbox, draw);
      && Sender.CacheAgrees(cfg, id, s)
      && (s.own.Some? ==> Codec.Honest(Codec.Announcer(id, s.own.value)))
  {
    hide Sender.StateAfter, Sender.RoutedMsg, After, W.ResponseFor;
    AfterIsWellFormed(before);
    Sender.RunKeepsInvariant(cfg, id, After(before), inbox, draw);
  }

  /** A receiver reads exactly the announcer from its response. */
  lemma ResponseOnAir(cfg: Sender.Config, id: Str, s: Sender.State, draw: nat, overV6: bool, now: nat)
    requires Sender.ValidConfig(cfg) && Sender.CacheAgrees(cfg, id, s) && s.phase.Responding?
    requires s.own.Some? && s.own.value.addrs != [] && Codec.Honest(Codec.Announcer(id, s.own.value))
    ensures OnAir(cfg, id, s, draw, overV6, now) ==
            Receiver.Response(map[id := Codec.Received(Codec.Announcer(id, s.own.value), now)])
  {
    hide Sender.Step, Receiver.DecodePeers, Codec.Received, Codec.Honest;
    var announcer := Codec.Announcer(id, s.own.value);
    NextResponseIsSent(cfg, id, s, draw);
    Codec.PacketDecodes(announcer, cfg.service, now);
    assert Codec.Packet(announcer, cfg.service) == W.Response(id, cfg.service, s.own.value);
  }

  /** What the receiving node knows about the announcer once its updater has processed the response. */
  lemma RecordOfResponse(
      cfg: Sender.Config, id: Str, s: Sender.State, draw: nat, overV6: bool, now: nat, r: Updater.Rate, u: Updater.State)
    requires Sender.ValidConfig(cfg) && Sender.CacheAgrees(cfg, id, s) && s.phase.Responding?
    requires s.own.Some? && s.own.value.addrs != [] && Codec.Honest(Codec.Announcer(id, s.own.value))
    ensures var heard := OnAir(cfg, id, s, draw, overV6, now);
      && heard.Response?
      && var peers := Updater.Handle(r, u, Updater.NewPeers(heard.peers), now).peers;
         && id in peers
         && peers[id].addrs == s.own.value.addrs
         && peers[id].lastSeen == now
         && (peers[id].txt == s.own.value.txt <==> Codec.NoEquals(s.own.value.txt))
         && peers - {id} == u.peers - {id}
  {
    hide OnAir, Updater.Handle, Codec.Written, Receiver.ParseTxt, Codec.NoEquals;
    var own := s.own.value;
    var announcer := Codec.Announcer(id, own);
    ResponseOnAir(cfg, id, s, draw, overV6, now);
    Codec.TxtRoundTrip(own.txt);
    Updater.PeersAreMerged(r, u, map[id := Codec.Received(announcer, now)], now);
  }

  /** Whatever validated commands have been given, every string in the TXT record fits and is a string. */
  lemma WrittenStringsAlwaysFit(h: seq<Command>)
    requires (forall c :: c in h ==> Validated(c)) && After(h).Some?
    ensures forall x :: x in Codec.Written(After(h).value.txt) ==> 1 <= |x| <= 255 && ValidUtf8(x)
  {
    hide After;
    AfterIsWellFormed(h);
    Codec.WrittenStringsFit(StrList(After(h).value.txt.Keys), After(h).value.txt);
  }

  // ---- records against histories ----

  /** The record has exactly the addresses that the history announces. */
  ghost predicate AddrsMatch(h: seq<Command>, p: Peer) {
    StrictlySorted(p.addrs, AddrLe) && forall x :: x in p.addrs <==> LastAdded(h, x)
  }

  /** The record has exactly the attributes that the history sets. */
  ghost predicate TxtMatches(h: seq<Command>, p: Peer) {
    forall k, v :: (k in p.txt && p.txt[k] == v) <==> LastSet(h, k, v)
  }

  ghost predicate NoEqualsSet(h: seq<Command>) {
    forall k, v :: LastSet(h, k, v) ==> EQUALS !in k
  }

  lemma AddrsMatchEntry(h: seq<Command>, own: Announced, p: Peer)
    requires After(h) == Some(own) && p.addrs == own.addrs
    ensures AddrsMatch(h, p)
  {
    hide After, LastAdded;
    History(h);
  }

  lemma TxtMatchesEntry(h: seq<Command>, own: Announced, p: Peer)
    requires After(h) == Some(own)
    ensures TxtMatches(h, p) <==> p.txt == own.txt
    ensures NoEqualsSet(h) <==> Codec.NoEquals(own.txt)
  {
    hide After, LastSet;
    History(h);
    if TxtMatches(h, p) {
      forall k | k in p.txt ensures k in own.txt && own.txt[k] == p.txt[k] {
        assert LastSet(h, k, p.txt[k]);
      }
      forall k | k in own.txt ensures k in p.txt {
        assert LastSet(h, k, own.txt[k]);
      }
    }
    if NoEqualsSet(h) {
      forall k | k in own.txt ensures EQUALS !in k {
        assert LastSet(h, k, own.txt[k]);
      }
    }
  }

  lemma SomeAddress(h: seq<Command>, x: Addr)
    requires LastAdded(h, x)
    ensures After(h).Some? && After(h).value.addrs != []
  {
    hide After, LastAdded;
    History(h);
  }

  /**
   After any commands at node a - before its sender started and since, interleaved with any other
   messages - that leave it with at least one address: its next response makes any receiving
   updater record for a exactly the addresses that a's history announces, and exactly the
   attributes that it sets if and only if none of their keys contains '='; all other records stay
   as they were.
   */
  lemma EndToEndAgreement(
      cfg: Sender.Config, a: Str, before: seq<Command>, inbox: seq<Sender.Msg>, draw: nat -> nat,
      d: nat, overV6: bool, now: nat, r: Updater.Rate, u: Updater.State)
    requires Sender.ValidConfig(cfg) && LabelId(a)
    requires (forall c :: c in before ==> Validated(c)) && (forall m :: m in inbox ==> Sender.RoutedMsg(m))
    requires Sender.StateAfter(cfg, a, After(before), inbox, draw).phase.Responding?
    requires exists x :: LastAdded(before + Commands(inbox), x)
    ensures var h, s := before + Commands(inbox), Sender.StateAfter(cfg, a, After(before), inbox, draw);
      var heard := OnAir(cfg, a, s, d, overV6, now);
      && heard.Response?
      && var peers := Updater.Handle(r, u, Updater.NewPeers(heard.peers), now).peers;
         && a in peers && peers[a].lastSeen == now
         && AddrsMatch(h, peers[a])
         && (TxtMatches(h, peers[a]) <==> NoEqualsSet(h))
         && peers - {a} == u.peers - {a}
  {
    hide Sender.StateAfter, Sender.RoutedMsg, Sender.CacheAgrees, Commands, After, LastAdded,
         Updater.Handle, OnAir, Codec.NoEquals, Codec.Honest, AddrsMatch, TxtMatches, NoEqualsSet;
    var h := before + Commands(inbox);
    var s := Sender.StateAfter(cfg, a, After(before), inbox, draw);
    EntryFollowsCommands(cfg, a, before, inbox, draw);
    AnnouncerIsHonest(cfg, a, before, inbox, draw);
    var x :| LastAdded(h, x);
    SomeAddress(h, x);
    RecordOfResponse(cfg, a, s, d, overV6, now, r, u);
    var peers := Updater.Handle(r, u, Updater.NewPeers(OnAir(cfg, a, s, d, overV6, now).peers), now).peers;
    AddrsMatchEntry(h, s.own.value, peers[a]);
    TxtMatchesEntry(h, s.own.value, peers[a]);
  }
}
