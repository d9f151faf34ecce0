/**
 The updater: the peers currently known, the callbacks that report them and the sizes that are
 announced to subscribers (src/updater.rs).

 `Handle` is the reaction to one message; class `Actor` performs it with the loops of the source.
 Main results: `CallbacksMirrorPeers` and `MirrorKeptIff`.
 */
module Updater {
  import opened Ordering
  import opened Text
  import opened Peers
  import opened Delays

  /** One invocation of the user's callback. */
  datatype Call = Call(id: Str, peer: Peer)

  /** A size sent to every subscriber. */
  datatype Notice = Notice(to: set<nat>, size: nat)

  datatype Input =
    | NewPeers(msg: map<Str, Peer>)
    | GC
    | SizeSubscription(subscriber: nat)

  datatype State = State(peers: map<Str, Peer>, subscribers: set<nat>, calls: seq<Call>, notices: seq<Notice>)

  const INITIAL := State(map[], {}, [], [])

  /** tau and cutoff = ceil(tau * phi). */
  datatype Rate = Rate(tau: nat, cutoff: nat)

  predicate ValidRate(r: Rate) {
    r.tau >= 1 && r.cutoff >= 1
  }

  // ---- expiry ----

  function Age(now: nat, lastSeen: nat): nat {
    if now < lastSeen then 0 else now - lastSeen
  }

  /** `age < 3 * tau * n / min(cutoff, n)`, the grace period of a map with n entries. */
  predicate WithinGrace(r: Rate, n: nat, age: nat) {
    age * Min(r.cutoff, n) < 3 * r.tau * n
  }

  predicate Keep(r: Rate, n: nat, now: nat, p: Peer) {
    WithinGrace(r, n, Age(now, p.lastSeen))
  }

  function Expiry(p: Peer): Peer {
    Peer([], p.lastSeen, map[])
  }

  // ---- one message ----

  function Insert(s: State, id: Str, p: Peer): State {
    var peers := s.peers[id := p];
    State(peers, s.subscribers, s.calls + [Call(id, p)],
          if id in s.peers then s.notices else s.notices + [Notice(s.subscribers, |peers|)])
  }

  function InsertAll(s: State, ids: seq<Str>, msg: map<Str, Peer>): State
    requires forall id :: id in ids ==> id in msg
  {
    if ids == [] then s
    else
      var id := ids[|ids| - 1];
      Insert(InsertAll(s, ids[..|ids| - 1], msg), id, msg[id])
  }

  /** The peers among `ids` that are over the grace period of a map with n entries are removed and reported. */
  function Sweep(r: Rate, s: State, ids: seq<Str>, n: nat, now: nat): State {
    if ids == [] then s
    else
      var id := ids[|ids| - 1];
      SweepOne(r, Sweep(r, s, ids[..|ids| - 1], n, now), id, n, now)
  }

  function Collect(r: Rate, s: State, now: nat): State {
    if s.peers == map[] then s
    else
      var t := Sweep(r, s, StrList(s.peers.Keys), |s.peers|, now);
      t.(notices := t.notices + [Notice(t.subscribers, |t.peers|)])
  }

  function Handle(r: Rate, s: State, input: Input, now: nat): State {
    match input
    case NewPeers(msg) => InsertAll(s, StrList(msg.Keys), msg)
    case GC => Collect(r, s, now)
    case SizeSubscription(subscriber) => s.(subscribers := s.subscribers + {subscriber})
  }

  lemma InsertNone(s: State, msg: map<Str, Peer>)
    ensures InsertAll(s, [], msg) == s
  {
  }

  lemma SweepNone(r: Rate, s: State, n: nat, now: nat)
    ensures Sweep(r, s, [], n, now) == s
  {
  }

  lemma InsertAllStep(s: State, ids: seq<Str>, msg: map<Str, Peer>, i: nat)
    requires i < |ids| && forall id :: id in ids ==> id in msg
    ensures InsertAll(s, ids[..i + 1], msg) == Insert(InsertAll(s, ids[..i], msg), ids[i], msg[ids[i]])
  {
    hide Insert;
    PrefixStep(ids, i);
  }

  function SweepOne(r: Rate, s: State, id: Str, n: nat, now: nat): State {
    if id !in s.peers || Keep(r, n, now, s.peers[id]) then s
    else s.(peers := s.peers - {id}, calls := s.calls + [Call(id, Expiry(s.peers[id]))])
  }

  lemma SweepStep(r: Rate, s: State, ids: seq<Str>, n: nat, now: nat, i: nat)
    requires i < |ids|
    ensures Sweep(r, s, ids[..i + 1], n, now) == SweepOne(r, Sweep(r, s, ids[..i], n, now), ids[i], n, now)
  {
    hide SweepOne;
    PrefixStep(ids, i);
  }

  class Actor {
    const rate: Rate
    var peers: map<Str, Peer>
    var subscribers: set<nat>
    var calls: seq<Call>
    var notices: seq<Notice>

    constructor (rate: Rate)
      ensures this.rate == rate && Now() == INITIAL
    {
      this.rate := rate;
      peers, subscribers, calls, notices := map[], {}, [], [];
    }

    function Now(): State
      reads this
    {
      State(peers, subscribers, calls, notices)
    }

    method OnPeers(msg: map<Str, Peer>)
      modifies this
      ensures Now() == InsertAll(old(Now()), StrList(msg.Keys), msg)
    {
      hide InsertAll;
      var ids := StrList(msg.Keys);
      assert ids[..0] == [] && InsertAll(Now(), [], msg) == Now() by { InsertNone(Now(), msg); }
      for i := 0 to |ids|
        invariant Now() == InsertAll(old(Now()), ids[..i], msg)
      {
        InsertAllStep(old(Now()), ids, msg, i);
        var id := ids[i];
        calls := calls + [Call(id, msg[id])];
        var isNew := id !in peers;
        peers := peers[id := msg[id]];
        if isNew {
          notices := notices + [Notice(subscribers, |peers|)];
        }
      }
      WholePrefix(ids);
    }

    method OnGc(now: nat)
      modifies this
      ensures Now() == Collect(rate, old(Now()), now)
      ensures ValidRate(rate) ==>
                peers == TheRecent(rate, old(peers), now)
    {
      hide Sweep, Keep, TheRecent;
      ghost var before := Now();
      if ValidRate(rate) {
        CollectTheRecent(rate, before, now);
      }
      if peers == map[] {
        return;
      }
      var n := |peers|;
      var ids := StrList(peers.Keys);
      assert ids[..0] == [] && Sweep(rate, Now(), [], n, now) == Now() by { SweepNone(rate, Now(), n, now); }
      for i := 0 to |ids|
        invariant Now() == Sweep(rate, old(Now()), ids[..i], n, now)
      {
        SweepStep(rate, old(Now()), ids, n, now, i);
        var id := ids[i];
        if id in peers && !Keep(rate, n, now, peers[id]) {
          calls := calls + [Call(id, Expiry(peers[id]))];
          peers := peers - {id};
        }
      }
      WholePrefix(ids);
      notices := notices + [Notice(subscribers, |peers|)];
    }

    method Receive(input: Input, now: nat)
      modifies this
      ensures Now() == Handle(rate, old(Now()), input, now)
    {
      match input {
        case NewPeers(msg) => OnPeers(msg);
        case GC => OnGc(now);
        case SizeSubscription(subscriber) => subscribers := subscribers + {subscriber};
      }
    }
  }

  // ---- what the two operations mean ----

  lemma Inserted(s: State, id: Str, p: Peer)
    ensures var t := Insert(s, id, p);
      t.peers == s.peers[id := p] && t.subscribers == s.subscribers && t.calls == s.calls + [Call(id, p)]
  {
  }

  function Part(msg: map<Str, Peer>, ids: seq<Str>): map<Str, Peer> {
    map id | id in ids && id in msg :: msg[id]
  }

  lemma {:induction false} InsertedPeers(s: State, ids: seq<Str>, msg: map<Str, Peer>)
    requires forall id :: id in ids ==> id in msg
    ensures InsertAll(s, ids, msg).peers == s.peers + Part(msg, ids)
    ensures InsertAll(s, ids, msg).subscribers == s.subscribers
  {
    hide Insert;
    if ids != [] {
      var n := |ids| - 1;
      PrefixStep(ids, n);
      InsertedPeers(s, ids[..n], msg);
      Inserted(InsertAll(s, ids[..n], msg), ids[n], msg[ids[n]]);
      assert Part(msg, ids) == Part(msg, ids[..n])[ids[n] := msg[ids[n]]];
    }
  }

  /** New peers replace or extend the known ones. */
  lemma PeersAreMerged(r: Rate, s: State, msg: map<Str, Peer>, now: nat)
    ensures Handle(r, s, NewPeers(msg), now).peers == s.peers + msg
  {
    hide InsertAll;
    InsertedPeers(s, StrList(msg.Keys), msg);
    assert Part(msg, StrList(msg.Keys)) == msg;
  }

  lemma {:induction false} SweptPeers(r: Rate, s: State, ids: seq<Str>, n: nat, now: nat)
    ensures Sweep(r, s, ids, n, now).peers ==
            map id | id in s.peers && (id in ids ==> Keep(r, n, now, s.peers[id])) :: s.peers[id]
    ensures Sweep(r, s, ids, n, now).subscribers == s.subscribers
    ensures Sweep(r, s, ids, n, now).notices == s.notices
  {
    hide Keep;
    if ids != [] {
      PrefixStep(ids, |ids| - 1);
      SweptPeers(r, s, ids[..|ids| - 1], n, now);
    }
  }

  /**
   A collection keeps exactly the peers whose last response is less than 3 tau old or, if there are more
   than cutoff peers, less than 3 tau * n / cutoff, where n is the number of peers before.
   */
  lemma ExactlyTheRecentStay(r: Rate, s: State, now: nat)
    requires ValidRate(r)
    ensures forall id :: id in Collect(r, s, now).peers <==> id in s.peers && Recent(r, |s.peers|, now - s.peers[id].lastSeen)
    ensures forall id :: id in Collect(r, s, now).peers ==> Collect(r, s, now).peers[id] == s.peers[id]
  {
    hide Collect, Keep, Recent;
    PeersAreCollected(r, s, now);
    forall id | id in s.peers ensures Keep(r, |s.peers|, now, s.peers[id]) <==> Recent(r, |s.peers|, now - s.peers[id].lastSeen) {
      assert |s.peers| >= 1;
      KeepMeans(r, |s.peers|, now, s.peers[id]);
    }
  }

  function TheRecent(r: Rate, peers: map<Str, Peer>, now: nat): map<Str, Peer> {
    map id | id in peers && Recent(r, |peers|, now - peers[id].lastSeen) :: peers[id]
  }

  lemma CollectTheRecent(r: Rate, s: State, now: nat)
    requires ValidRate(r)
    ensures Collect(r, s, now).peers == TheRecent(r, s.peers, now)
  {
    hide Collect, Recent;
    ExactlyTheRecentStay(r, s, now);
  }

  /** `elapsed` is negative for a peer that has been seen after the collection began. */
  predicate Recent(r: Rate, n: nat, elapsed: int) {
    if n <= r.cutoff then elapsed < 3 * r.tau else elapsed * r.cutoff < 3 * r.tau * n
  }

  lemma KeepMeans(r: Rate, n: nat, now: nat, p: Peer)
    requires ValidRate(r) && n >= 1
    ensures Keep(r, n, now, p) <==> Recent(r, n, now - p.lastSeen)
  {
    var age := Age(now, p.lastSeen);
    MulBound(1, 1, 3 * r.tau, n);
    if n <= r.cutoff {
      if age < 3 * r.tau {
        MulBound(age + 1, n, 3 * r.tau, n);
        assert (age + 1) * n == age * n + n;
      } else {
        MulBound(3 * r.tau, n, age, n);
      }
    } else if now < p.lastSeen {
      NegativeProduct(now - p.lastSeen, r.cutoff);
    }
  }

  lemma NegativeProduct(a: int, c: nat)
    requires a < 0
    ensures a * c <= 0
  {
  }

  /** A collection keeps exactly the peers within the grace period of the map as it was before. */
  lemma PeersAreCollected(r: Rate, s: State, now: nat)
    ensures Collect(r, s, now).peers == map id | id in s.peers && Keep(r, |s.peers|, now, s.peers[id]) :: s.peers[id]
    ensures Collect(r, s, now).subscribers == s.subscribers
  {
    hide Keep;
    SweptPeers(r, s, StrList(s.peers.Keys), |s.peers|, now);
  }

  // ---- what is reported ----

  /** The calls for some peers, in order. */
  ghost predicate CallsFor(calls: seq<Call>, ids: seq<Str>, msg: map<Str, Peer>)
    requires forall id :: id in ids ==> id in msg
  {
    |calls| == |ids| && forall i :: 0 <= i < |ids| ==> calls[i] == Call(ids[i], msg[ids[i]])
  }

  /** The notices of a map that grows one by one from the given size. */
  ghost predicate Growing(notices: seq<Notice>, to: set<nat>, size: nat) {
    forall i :: 0 <= i < |notices| ==> notices[i] == Notice(to, size + i + 1)
  }

  ghost predicate InsertsReported(s: State, ids: seq<Str>, msg: map<Str, Peer>, t: State)
    requires forall id :: id in ids ==> id in msg
  {
    && |s.calls| <= |t.calls| && t.calls[..|s.calls|] == s.calls
    && CallsFor(t.calls[|s.calls|..], ids, msg)
    && |s.notices| <= |t.notices| && t.notices[..|s.notices|] == s.notices
    && Growing(t.notices[|s.notices|..], s.subscribers, |s.peers|)
    && |t.notices| - |s.notices| == |t.peers| - |s.peers|
    && t.subscribers == s.subscribers
  }

  lemma InsertSize(m: map<Str, Peer>, id: Str, p: Peer)
    ensures |m[id := p]| == |m| + if id in m then 0 else 1
  {
    var next := m[id := p];
    assert next.Keys == m.Keys + {id};
    assert |next.Keys| == |next| && |m.Keys| == |m|;
  }

  lemma InsertReports(s: State, ids: seq<Str>, msg: map<Str, Peer>, t: State, id: Str)
    requires (forall i :: i in ids + [id] ==> i in msg) && (forall i :: i in ids ==> i in msg)
    requires InsertsReported(s, ids, msg, t)
    ensures InsertsReported(s, ids + [id], msg, Insert(t, id, msg[id]))
  {
    var u := Insert(t, id, msg[id]);
    InsertSize(t.peers, id, msg[id]);
    assert u.calls[|s.calls|..] == t.calls[|s.calls|..] + [Call(id, msg[id])];
    if id !in t.peers {
      assert u.notices[|s.notices|..] == t.notices[|s.notices|..] + [Notice(s.subscribers, |u.peers|)];
    }
  }

  lemma {:induction false} InsertAllReports(s: State, ids: seq<Str>, msg: map<Str, Peer>)
    requires forall id :: id in ids ==> id in msg
    ensures InsertsReported(s, ids, msg, InsertAll(s, ids, msg))
  {
    hide Insert;
    if ids == [] {
      NothingReported(s, msg);
    } else {
      var n := |ids| - 1;
      PrefixStep(ids, n);
      WholePrefix(ids);
      InsertAllReports(s, ids[..n], msg);
      InsertReports(s, ids[..n], msg, InsertAll(s, ids[..n], msg), ids[n]);
    }
  }

  lemma NothingReported(s: State, msg: map<Str, Peer>)
    ensures InsertsReported(s, [], msg, s)
  {
  }

  /**
   New peers are reported one by one in the order of their identifiers, and for each that was not
   known the subscribers get the size that the map then has.
   */
  lemma NewPeersAreReported(r: Rate, s: State, msg: map<Str, Peer>, now: nat)
    ensures StrictlySorted(StrList(msg.Keys), StrLe) && |StrList(msg.Keys)| == |msg|
    ensures InsertsReported(s, StrList(msg.Keys), msg, Handle(r, s, NewPeers(msg), now))
  {
    hide InsertAll, StrList, InsertsReported;
    StrListIsSorted(msg.Keys);
    assert |msg.Keys| == |msg|;
    InsertAllReports(s, StrList(msg.Keys), msg);
  }

  /** The call that reports the expiry of a peer: no addresses, no attributes, the time when it was last seen. */
  ghost predicate ReportsExpiry(c: Call, s: State, id: Str)
    requires id in s.peers
  {
    c.id == id && c.peer.addrs == [] && c.peer.txt == map[] && c.peer.lastSeen == s.peers[id].lastSeen
  }

  ghost predicate SweepReported(s: State, t: State) {
    && t.peers.Keys <= s.peers.Keys && (forall id :: id in t.peers ==> t.peers[id] == s.peers[id])
    && |s.calls| <= |t.calls| && t.calls[..|s.calls|] == s.calls
    && |t.calls| - |s.calls| == |s.peers| - |t.peers|
    && (forall i :: |s.calls| <= i < |t.calls| ==>
          t.calls[i].id in s.peers.Keys - t.peers.Keys && ReportsExpiry(t.calls[i], s, t.calls[i].id))
    && (forall i, j :: |s.calls| <= i < j < |t.calls| ==> t.calls[i].id != t.calls[j].id)
    && t.notices == s.notices && t.subscribers == s.subscribers
  }

  lemma RemoveSize(m: map<Str, Peer>, id: Str)
    requires id in m
    ensures |m - {id}| == |m| - 1
  {
    assert (m - {id}).Keys == m.Keys - {id};
    assert |(m - {id}).Keys| == |m - {id}| && |m.Keys| == |m|;
  }

  lemma {:induction false} SweepReports(r: Rate, s: State, ids: seq<Str>, n: nat, now: nat)
    ensures SweepReported(s, Sweep(r, s, ids, n, now))
  {
    hide Keep;
    if ids != [] {
      var id := ids[|ids| - 1];
      SweepReports(r, s, ids[..|ids| - 1], n, now);
      var t := Sweep(r, s, ids[..|ids| - 1], n, now);
      var u := SweepOne(r, t, id, n, now);
      if u != t {
        RemoveSize(t.peers, id);
        assert u.calls == t.calls + [Call(id, Expiry(t.peers[id]))];
        assert u.calls[..|s.calls|] == t.calls[..|s.calls|];
      }
    }
  }

  /**
   A collection reports every peer that it removes exactly once, with the time when it was last seen and
   without addresses or attributes, and then tells the subscribers the size; an empty map is left alone.
   */
  lemma CollectionIsReported(r: Rate, s: State, now: nat)
    ensures var t := Collect(r, s, now);
      if s.peers == map[] then t == s
      else SweepReported(s, t.(notices := s.notices)) && t.notices == s.notices + [Notice(s.subscribers, |t.peers|)]
  {
    hide Sweep, SweepReported;
    if s.peers != map[] {
      SweepReports(r, s, StrList(s.peers.Keys), |s.peers|, now);
      SweptPeers(r, s, StrList(s.peers.Keys), |s.peers|, now);
      var t := Sweep(r, s, StrList(s.peers.Keys), |s.peers|, now);
      assert Collect(r, s, now).(notices := s.notices) == t;
    }
  }

  // ---- runs ----

  datatype Timed = Timed(input: Input, now: nat)

  function After(r: Rate, h: seq<Timed>): State {
    if h == [] then INITIAL
    else Handle(r, After(r, h[..|h| - 1]), h[|h| - 1].input, h[|h| - 1].now)
  }

  /** Every peer in the message has an address. */
  ghost predicate Addressed(input: Input) {
    input.NewPeers? ==> forall id :: id in input.msg ==> !input.msg[id].IsExpiry()
  }

  // ---- callbacks ----

  /** What a user knows who records reported peers and drops expired ones. */
  function Replay(calls: seq<Call>): map<Str, Peer> {
    if calls == [] then map[]
    else
      var c := calls[|calls| - 1];
      var known := Replay(calls[..|calls| - 1]);
      if c.peer.IsExpiry() then known - {c.id} else known[c.id := c.peer]
  }

  ghost predicate ExpiriesAreOfKnownPeers(calls: seq<Call>) {
    forall i :: 0 <= i < |calls| && calls[i].peer.IsExpiry() ==> calls[i].id in Replay(calls[..i])
  }

  ghost predicate Mirrored(s: State) {
    Replay(s.calls) == s.peers && ExpiriesAreOfKnownPeers(s.calls)
  }

  lemma CallAppended(calls: seq<Call>, c: Call)
    ensures Replay(calls + [c]) == if c.peer.IsExpiry() then Replay(calls) - {c.id} else Replay(calls)[c.id := c.peer]
    ensures ExpiriesAreOfKnownPeers(calls) && (c.peer.IsExpiry() ==> c.id in Replay(calls)) ==>
              ExpiriesAreOfKnownPeers(calls + [c])
  {
    var next := calls + [c];
    assert next[..|calls|] == calls;
    assert forall i :: 0 <= i <= |calls| ==> next[..i] == calls[..i];
  }

  lemma {:induction false} InsertAllKeepsMirror(s: State, ids: seq<Str>, msg: map<Str, Peer>)
    requires Mirrored(s) && forall id :: id in ids ==> id in msg && !msg[id].IsExpiry()
    ensures Mirrored(InsertAll(s, ids, msg))
  {
    if ids != [] {
      var n := |ids| - 1;
      PrefixStep(ids, n);
      InsertAllKeepsMirror(s, ids[..n], msg);
      CallAppended(InsertAll(s, ids[..n], msg).calls, Call(ids[n], msg[ids[n]]));
    }
  }

  lemma {:induction false} SweepKeepsMirror(r: Rate, s: State, ids: seq<Str>, n: nat, now: nat)
    requires Mirrored(s)
    ensures Mirrored(Sweep(r, s, ids, n, now))
  {
    hide Keep;
    if ids != [] {
      var last := ids[|ids| - 1];
      SweepKeepsMirror(r, s, ids[..|ids| - 1], n, now);
      var t := Sweep(r, s, ids[..|ids| - 1], n, now);
      if last in t.peers {
        CallAppended(t.calls, Call(last, Expiry(t.peers[last])));
      }
    }
  }

  lemma HandleKeepsMirror(r: Rate, s: State, input: Input, now: nat)
    requires Mirrored(s) && Addressed(input)
    ensures Mirrored(Handle(r, s, input, now))
  {
    hide Mirrored, Sweep, InsertAll;
    match input {
      case NewPeers(msg) =>
        InsertAllKeepsMirror(s, StrList(msg.Keys), msg);
      case GC =>
        SweepKeepsMirror(r, s, StrList(s.peers.Keys), |s.peers|, now);
        SameMirror(s, Sweep(r, s, StrList(s.peers.Keys), |s.peers|, now));
      case SizeSubscription(_) =>
        SameMirror(s, s);
    }
  }

  lemma SameMirror(s: State, t: State)
    ensures forall u: State :: u.peers == t.peers && u.calls == t.calls ==> (Mirrored(u) <==> Mirrored(t))
  {
  }

  /**
   At any time, replaying the callbacks yields exactly the updater's peers, and expiry is reported
   only for peers that were known at that moment.
   */
  lemma {:induction false} CallbacksMirrorPeers(r: Rate, h: seq<Timed>)
    requires forall i :: 0 <= i < |h| ==> Addressed(h[i].input)
    ensures Mirrored(After(r, h))
  {
    hide Handle, Mirrored, Addressed;
    if h == [] {
      assert Mirrored(INITIAL) by { InitiallyMirrored(); }
    } else {
      CallbacksMirrorPeers(r, h[..|h| - 1]);
      HandleKeepsMirror(r, After(r, h[..|h| - 1]), h[|h| - 1].input, h[|h| - 1].now);
    }
  }

  lemma InitiallyMirrored()
    ensures Mirrored(INITIAL)
  {
  }

  lemma {:induction false} ReplayedInserts(s: State, ids: seq<Str>, msg: map<Str, Peer>, bad: Str)
    requires forall id :: id in ids ==> id in msg
    requires forall i, j :: 0 <= i < j < |ids| ==> ids[i] != ids[j]
    requires bad in ids && msg[bad].IsExpiry()
    ensures bad !in Replay(InsertAll(s, ids, msg).calls)
  {
    hide Insert;
    var n := |ids| - 1;
    PrefixStep(ids, n);
    var t := InsertAll(s, ids[..n], msg);
    Inserted(t, ids[n], msg[ids[n]]);
    CallAppended(t.calls, Call(ids[n], msg[ids[n]]));
    if ids[n] != bad {
      ReplayedInserts(s, ids[..n], msg, bad);
    }
  }

  /** The mirror survives a message exactly if every peer in it has an address. */
  lemma MirrorKeptIff(r: Rate, s: State, msg: map<Str, Peer>, now: nat)
    requires Mirrored(s)
    ensures Mirrored(Handle(r, s, NewPeers(msg), now)) <==> Addressed(NewPeers(msg))
  {
    hide InsertAll, ExpiriesAreOfKnownPeers;
    if Addressed(NewPeers(msg)) {
      InsertAllKeepsMirror(s, StrList(msg.Keys), msg);
    } else {
      var bad :| bad in msg && msg[bad].IsExpiry();
      ReplayedInserts(s, StrList(msg.Keys), msg, bad);
      InsertedPeers(s, StrList(msg.Keys), msg);
    }
  }
}
