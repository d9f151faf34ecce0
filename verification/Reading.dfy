/**
 What a packet means to a node, in terms of the fields of its questions and records
 (src/receiver.rs:47-179).

 Main results: `QueryMeaning` and `OwnQueryIsRecognised` (which packets are queries),
 `ForeignRecordsAreIgnored` and `ForeignResponse` (records of other services change nothing) and
 `AttributesMean` (which attributes a peer has). `Codec.JoinMeaning` says which addresses it has.
 */
module Reading {
  import opened Ordering
  import opened Text
  import opened Dns
  import opened Peers
  import opened Announcement
  import opened Receiver
  import opened Codec
  import W = Response

  // ---- queries ----

  /** Some question of class IN and type PTR is for the service. */
  ghost predicate IsQueryFor(packet: Message, service: Name) {
    exists q :: q in packet.queries && q.queryClass == IN && q.queryType == PTR && SameName(q.name, service)
  }

  function QueryOver(overV6: bool): Incoming {
    if overV6 then Incoming.QueryV6 else Incoming.QueryV4
  }

  /** A packet is a query exactly if one of its questions is for the service, whatever else it carries. */
  lemma QueryMeaning(packet: Message, service: Name, overV6: bool, now: nat)
    ensures Decode(packet, service, overV6, now) ==
            if IsQueryFor(packet, service) then QueryOver(overV6) else Incoming.Response(DecodePeers(packet, service, now))
  {
    hide DecodePeers;
    if IsQueryFor(packet, service) {
      var q :| q in packet.queries && q.queryClass == IN && q.queryType == PTR && SameName(q.name, service);
      assert Asks(q, service);
    }
  }

  /** A node's query is recognised by every node that looks for a service of the same name, and by no other. */
  lemma OwnQueryIsRecognised(asked: Name, service: Name, overV6: bool, now: nat)
    ensures Decode(W.MakeQuery(asked), service, overV6, now) ==
            if SameName(asked, service) then QueryOver(overV6) else Incoming.Response(map[])
  {
    hide DecodePeers;
    var packet := W.MakeQuery(asked);
    QueryMeaning(packet, service, overV6, now);
    NoRecordsNoPeers(packet, service, now);
    var question := Query(asked, IN, PTR);
    assert question in packet.queries;
    assert forall q :: q in packet.queries ==> q == question;
  }

  /** A single question is a query exactly if its class is IN, its type is PTR and its name that of the service. */
  lemma SingleQuestion(q: Query, service: Name, overV6: bool, now: nat)
    ensures Decode(Message([q], [], []), service, overV6, now) ==
            if q.queryClass == IN && q.queryType == PTR && SameName(q.name, service) then QueryOver(overV6)
            else Incoming.Response(map[])
  {
    hide DecodePeers;
    var packet := Message([q], [], []);
    QueryMeaning(packet, service, overV6, now);
    NoRecordsNoPeers(packet, service, now);
    assert q in packet.queries;
  }

  lemma NoRecordsNoPeers(packet: Message, service: Name, now: nat)
    requires packet.answers == []
    ensures DecodePeers(packet, service, now) == map[]
  {
    assert Srvs(packet.answers, service) == {};
    assert Join({}, packet.additionals) == {};
  }

  // ---- foreign records ----

  /** An SRV or TXT record of some peer of the service. */
  predicate OfSomePeer(r: Record, service: Name) {
    r.name != [] && OfPeer(r, service, r.name[0]) && (r.data.SRV? || r.data.TXT?)
  }

  /** The address record of some host under "local". */
  predicate OfSomeHost(r: Record) {
    || (r.data.A? && HasAddress(r, V4(r.data.v4)))
    || (r.data.AAAA? && HasAddress(r, V6(r.data.v6)))
  }

  function Filter(rs: seq<Record>, keep: Record -> bool): seq<Record> {
    if rs == [] then []
    else
      var r := rs[|rs| - 1];
      Filter(rs[..|rs| - 1], keep) + if keep(r) then [r] else []
  }

  lemma {:induction false} FilterContains(rs: seq<Record>, keep: Record -> bool, r: Record)
    ensures r in Filter(rs, keep) <==> r in rs && keep(r)
  {
    if rs != [] {
      PrefixStep(rs, |rs| - 1);
      WholePrefix(rs);
      FilterContains(rs[..|rs| - 1], keep, r);
    }
  }

  lemma {:induction false} FilterInsert(x: seq<Record>, r: Record, y: seq<Record>, keep: Record -> bool)
    requires !keep(r)
    ensures Filter(x + [r] + y, keep) == Filter(x + y, keep)
  {
    if y == [] {
      assert x + [r] + [] == x + [r] && x + [] == x;
      assert (x + [r])[..|x|] == x;
      assert Filter(x, keep) + [] == Filter(x, keep);
    } else {
      var n := |y| - 1;
      FilterInsert(x, r, y[..n], keep);
      assert (x + [r] + y)[..|x + [r] + y| - 1] == x + [r] + y[..n];
      assert (x + y)[..|x + y| - 1] == x + y[..n];
    }
  }

  /** The answers and additionals that matter to a service. */
  function Relevant(packet: Message, service: Name): Message {
    Message([], Filter(packet.answers, r => OfSomePeer(r, service)), Filter(packet.additionals, r => OfSomeHost(r)))
  }

  lemma OfSomePeerMeans(r: Record, service: Name)
    ensures OfSomePeer(r, service) <==> OfService(r, service) && (r.data.SRV? || r.data.TXT?)
  {
    if r.name != [] {
      OfPeerMeans(r, service, r.name[0]);
    }
  }

  lemma OfSomeHostMeans(r: Record)
    ensures OfSomeHost(r) <==> IsAddress(r)
  {
    hide HasAddress, IsAddress;
    if r.data.A? {
      HasAddressMeans(r, V4(r.data.v4));
      AddressData(r);
    } else if r.data.AAAA? {
      HasAddressMeans(r, V6(r.data.v6));
      AddressData(r);
    } else {
      AddressData(r);
    }
  }

  lemma AddressData(r: Record)
    ensures IsAddress(r) ==> r.data.A? || r.data.AAAA?
    ensures IsAddress(r) ==> IpOf(r) == if r.data.A? then V4(r.data.v4) else V6(r.data.v6)
  {
  }

  lemma {:induction false} RelevantTxt(answers: seq<Record>, service: Name, id: Str)
    ensures TxtStrings(Filter(answers, r => OfSomePeer(r, service)), service, id) == TxtStrings(answers, service, id)
  {
    hide OfService, OfSomePeer, Usable;
    if answers != [] {
      var n := |answers| - 1;
      var keep := r => OfSomePeer(r, service);
      RelevantTxt(answers[..n], service, id);
      OfSomePeerMeans(answers[n], service);
      var init := Filter(answers[..n], r => OfSomePeer(r, service));
      if OfSomePeer(answers[n], service) {
        assert Filter(answers, r => OfSomePeer(r, service)) == init + [answers[n]];
        assert (init + [answers[n]])[..|init|] == init;
      } else {
        assert Filter(answers, r => OfSomePeer(r, service)) == init;
        assert !IsTxt(answers[n], service, id);
        assert TxtStrings(answers[..n], service, id) + [] == TxtStrings(answers[..n], service, id);
      }
    }
  }

  lemma RelevantSrvs(answers: seq<Record>, service: Name)
    ensures Srvs(Filter(answers, r => OfSomePeer(r, service)), service) == Srvs(answers, service)
  {
    hide OfService, OfSomePeer, Filter;
    forall r | IsSrv(r, service) ensures r in Filter(answers, r => OfSomePeer(r, service)) <==> r in answers {
      FilterContains(answers, r => OfSomePeer(r, service), r);
      OfSomePeerMeans(r, service);
    }
  }

  lemma RelevantJoin(srvs: set<Srv>, additionals: seq<Record>)
    ensures Join(srvs, Filter(additionals, r => OfSomeHost(r))) == Join(srvs, additionals)
  {
    hide OfSomeHost, IsAddress, Filter;
    forall r | IsAddress(r) ensures r in Filter(additionals, r => OfSomeHost(r)) <==> r in additionals {
      FilterContains(additionals, r => OfSomeHost(r), r);
      OfSomeHostMeans(r);
    }
  }

  lemma OnlyRelevantMatters(packet: Message, service: Name, now: nat)
    ensures DecodePeers(Relevant(packet, service), service, now) == DecodePeers(packet, service, now)
  {
    hide Join, Srvs, TxtStrings, ParseTxt, Filter, OfSomePeer, OfSomeHost;
    RelevantSrvs(packet.answers, service);
    RelevantJoin(Srvs(packet.answers, service), packet.additionals);
    forall id ensures TxtStrings(Relevant(packet, service).answers, service, id) == TxtStrings(packet.answers, service, id) {
      RelevantTxt(packet.answers, service, id);
    }
  }

  /** Packets that differ in foreign records only say the same about all peers, addresses and attributes. */
  lemma ForeignRecordsAreIgnored(p: Message, q: Message, service: Name, now: nat)
    requires Relevant(p, service) == Relevant(q, service)
    ensures DecodePeers(p, service, now) == DecodePeers(q, service, now)
  {
    hide DecodePeers, Relevant;
    OnlyRelevantMatters(p, service, now);
    OnlyRelevantMatters(q, service, now);
  }

  /** A foreign record can be inserted or removed anywhere. */
  lemma ForeignRecordInserted(packet: Message, x: seq<Record>, r: Record, y: seq<Record>, service: Name, now: nat)
    ensures !OfSomePeer(r, service) ==>
      DecodePeers(packet.(answers := x + [r] + y), service, now) == DecodePeers(packet.(answers := x + y), service, now)
    ensures !OfSomeHost(r) ==>
      DecodePeers(packet.(additionals := x + [r] + y), service, now) == DecodePeers(packet.(additionals := x + y), service, now)
  {
    hide DecodePeers, OfSomePeer, OfSomeHost, Filter;
    if !OfSomePeer(r, service) {
      FilterInsert(x, r, y, r => OfSomePeer(r, service));
      ForeignRecordsAreIgnored(packet.(answers := x + [r] + y), packet.(answers := x + y), service, now);
    }
    if !OfSomeHost(r) {
      FilterInsert(x, r, y, r => OfSomeHost(r));
      ForeignRecordsAreIgnored(packet.(additionals := x + [r] + y), packet.(additionals := x + y), service, now);
    }
  }

  /** To a service of another name a response says nothing. */
  lemma ForeignResponse(id: Str, made: Name, own: Announced, service: Name, overV6: bool, now: nat)
    requires !SameName(made, service)
    ensures Decode(W.Response(id, made, own), service, overV6, now) == Incoming.Response(map[])
  {
    hide W.Response, DecodePeers, AnnouncedIn, Decode, SameName;
    var packet := W.Response(id, made, own);
    W.ResponseRecords(id, made, own);
    QueryMeaning(packet, service, overV6, now);
    JoinMeaning(packet, service, now);
    forall x, a ensures !AnnouncedIn(packet, service, x, a) {
      NotAnnounced(packet, id, made, service, x, a);
    }
    assert DecodePeers(packet, service, now).Keys == {};
  }

  lemma NotAnnounced(packet: Message, id: Str, made: Name, service: Name, x: Str, a: Addr)
    requires !SameName(made, service) && forall r :: r in packet.answers ==> r.name == [id] + made
    ensures !AnnouncedIn(packet, service, x, a)
  {
    hide SameName;
    forall s | s in packet.answers ensures !Locates(s, service, x, a.port) {
      SameFirst(s.name, service);
      assert BaseName(s.name) == made;
    }
  }

  // ---- attributes ----

  /** The j-th string is a string indeed, is not empty and has the key k. */
  predicate StringAt(strings: seq<Str>, k: Str, j: nat) {
    j < |strings| && strings[j] != [] && ValidUtf8(strings[j]) && KeyOf(strings[j]) == k
  }

  ghost predicate FirstString(strings: seq<Str>, k: Str, j: nat) {
    StringAt(strings, k, j) && forall i :: 0 <= i < j ==> !StringAt(strings, k, i)
  }

  /** The i-th answer is a TXT record of the peer that has the key k. */
  ghost predicate RecordAt(answers: seq<Record>, service: Name, id: Str, k: Str, i: nat) {
    && i < |answers| && OfPeer(answers[i], service, id) && answers[i].data.TXT?
    && exists j :: StringAt(answers[i].data.strings, k, j)
  }

  ghost predicate FirstRecord(answers: seq<Record>, service: Name, id: Str, k: Str, i: nat) {
    RecordAt(answers, service, id, k, i) && forall h :: 0 <= h < i ==> !RecordAt(answers, service, id, k, h)
  }

  lemma {:induction false} ParseAppend(a: seq<Str>, b: seq<Str>, k: Str)
    ensures k in ParseTxt(a + b) <==> k in ParseTxt(a) || k in ParseTxt(b)
    ensures k in ParseTxt(a) ==> ParseTxt(a + b)[k] == ParseTxt(a)[k]
    ensures k !in ParseTxt(a) && k in ParseTxt(b) ==> ParseTxt(a + b)[k] == ParseTxt(b)[k]
  {
    hide KeyOf, ValueOf;
    if b == [] {
      assert a + b == a;
    } else {
      var n := |b| - 1;
      ParseAppend(a, b[..n], k);
      assert (a + b)[..|a + b| - 1] == a + b[..n] && (a + b)[|a + b| - 1] == b[n];
    }
  }

  lemma ParseOne(s: Str)
    ensures ParseTxt([s]) == map[KeyOf(s) := ValueOf(s)]
  {
    assert [s][..0] == [];
  }

  lemma LastString(strings: seq<Str>, k: Str, n: nat)
    requires n == |strings| - 1
    ensures Usable(strings) == Usable(strings[..n]) + if ValidUtf8(strings[n]) && strings[n] != [] then [strings[n]] else []
    ensures forall j: nat :: StringAt(strings, k, j) <==>
              StringAt(strings[..n], k, j) ||
              (j == n && ValidUtf8(strings[n]) && strings[n] != [] && KeyOf(strings[n]) == k)
  {
    hide KeyOf, ValidUtf8;
    assert forall j: nat :: j < n ==> strings[..n][j] == strings[j];
  }

  lemma {:induction false} StringsMean(strings: seq<Str>, k: Str)
    ensures k in ParseTxt(Usable(strings)) <==> exists j :: StringAt(strings, k, j)
    ensures forall j: nat :: FirstString(strings, k, j) ==>
      k in ParseTxt(Usable(strings)) && ParseTxt(Usable(strings))[k] == ValueOf(strings[j])
  {
    hide KeyOf, ValueOf, ParseTxt, ValidUtf8, Usable, StringAt;
    if strings == [] {
      NoStrings(k);
    } else {
      var n := |strings| - 1;
      var init, s := strings[..n], strings[n];
      LastString(strings, k, n);
      StringsMean(init, k);
      ParseAppend(Usable(init), [s], k);
      ParseAppend(Usable(init), [], k);
      ParseOne(s);
      ParseNone();
      StringsInRange(init, k);
      if k in ParseTxt(Usable(init)) {
        var j :| StringAt(init, k, j);
        assert StringAt(strings, k, j);
      }
      forall j: nat | FirstString(strings, k, j) && StringAt(init, k, j)
        ensures FirstString(init, k, j) && init[j] == strings[j]
      {
      }
    }
  }

  lemma StringsInRange(strings: seq<Str>, k: Str)
    ensures forall j: nat :: StringAt(strings, k, j) ==> j < |strings|
  {
  }

  lemma NoStrings(k: Str)
    ensures k !in ParseTxt(Usable([])) && forall j: nat :: !StringAt([], k, j)
  {
  }

  lemma {:induction false} RecordsMean(answers: seq<Record>, service: Name, id: Str, k: Str)
    ensures k in ParseTxt(TxtStrings(answers, service, id)) <==> exists i :: RecordAt(answers, service, id, k, i)
    ensures forall i: nat, j: nat ::
      FirstRecord(answers, service, id, k, i) && FirstString(answers[i].data.strings, k, j) ==>
        && k in ParseTxt(TxtStrings(answers, service, id))
        && ParseTxt(TxtStrings(answers, service, id))[k] == ValueOf(answers[i].data.strings[j])
  {
    hide KeyOf, ValueOf, ParseTxt, Usable, StringAt, OfPeer, SameName, ValidUtf8;
    if answers == [] {
      ParseNone();
    } else {
      var n := |answers| - 1;
      var init, r := answers[..n], answers[n];
      var last := if IsTxt(r, service, id) then Usable(r.data.strings) else [];
      RecordsMean(init, service, id, k);
      ParseAppend(TxtStrings(init, service, id), last, k);
      ParseNone();
      OfPeerMeans(r, service, id);
      if IsTxt(r, service, id) {
        StringsMean(r.data.strings, k);
      }
      assert forall i: nat :: i < n ==> (RecordAt(answers, service, id, k, i) <==> RecordAt(init, service, id, k, i));
      if k in ParseTxt(TxtStrings(init, service, id)) {
        var i :| RecordAt(init, service, id, k, i);
        assert RecordAt(answers, service, id, k, i);
      }
      assert RecordAt(answers, service, id, k, n) <==> k in ParseTxt(last);
      forall i: nat | FirstRecord(answers, service, id, k, i) && i < n
        ensures FirstRecord(init, service, id, k, i) && init[i] == answers[i]
      {
      }
    }
  }

  /**
   A peer has exactly the attributes whose key occurs in a string of some of its TXT records; empty
   strings and those that are no UTF-8 do not count, and the value is that of the first occurrence.
   */
  lemma AttributesMean(packet: Message, service: Name, now: nat, id: Str, k: Str)
    requires id in DecodePeers(packet, service, now)
    ensures var txt := DecodePeers(packet, service, now)[id].txt;
      && (k in txt <==> exists i :: RecordAt(packet.answers, service, id, k, i))
      && forall i: nat, j: nat ::
           FirstRecord(packet.answers, service, id, k, i) && FirstString(packet.answers[i].data.strings, k, j) ==>
             k in txt && txt[k] == ValueOf(packet.answers[i].data.strings[j])
  {
    hide DecodePeers, ParseTxt, TxtStrings, FirstRecord, FirstString, RecordAt;
    DecodedTxt(packet, service, now, id);
    RecordsMean(packet.answers, service, id, k);
  }
}
