/**
 Writing and reading are inverse (src/sender.rs `make_response`, src/receiver.rs `handle_msg`).

 Main results: `JoinMeaning` (what any packet decodes to, in terms of its records),
 `OrderAndDuplicatesIrrelevant`, `FirstOccurrenceWins`, `NoCrossTalk` and `RoundTrip`.
 */
module Codec {
  import opened Wrappers
  import opened Ordering
  import opened Text
  import opened Dns
  import opened Peers
  import opened Announcement
  import W = Response
  import opened Receiver

  // ---- any packet ----

  /** An IN record of the peer `id` of the service, whose name may be spelled in any case. */
  predicate OfPeer(r: Record, service: Name, id: Str) {
    && r.dnsClass == IN
    && r.name != [] && r.name[0] == id && ValidUtf8(id)
    && SameName(r.name, [id] + service)
  }

  predicate Locates(r: Record, service: Name, id: Str, port: Port) {
    OfPeer(r, service, id) && r.data.SRV? && r.data.port == port
  }

  /** An IN record of a host under "local" with the given address. */
  predicate HasAddress(r: Record, ip: Ip) {
    && r.dnsClass == IN
    && r.name != [] && SameName(r.name, [r.name[0]] + LOCAL)
    && r.data == match ip case V4(bits) => A(bits) case V6(bits) => AAAA(bits)
  }

  /** `a` is announced for `id`: some SRV record of `id` has a's port and leads to an address record with a's IP. */
  ghost predicate AnnouncedIn(packet: Message, service: Name, id: Str, a: Addr) {
    exists s, r ::
      && s in packet.answers && Locates(s, service, id, a.port)
      && r in packet.additionals && HasAddress(r, a.ip)
      && SameName(r.name, s.data.target)
  }

  lemma SameFirst(name: Name, domain: Name)
    requires name != []
    ensures SameName(name, [name[0]] + domain) <==> SameName(BaseName(name), domain)
  {
    var n, m := FoldName(name), FoldName([name[0]] + domain);
    assert n == [FoldLabel(name[0])] + FoldName(BaseName(name));
    assert m == [FoldLabel(name[0])] + FoldName(domain);
    assert n[1..] == FoldName(BaseName(name)) && m[1..] == FoldName(domain);
  }

  lemma OfPeerMeans(r: Record, service: Name, id: Str)
    ensures OfPeer(r, service, id) <==> OfService(r, service) && r.name != [] && r.name[0] == id
  {
    if r.name != [] {
      SameFirst(r.name, service);
    }
  }

  lemma HasAddressMeans(r: Record, ip: Ip)
    ensures HasAddress(r, ip) <==> IsAddress(r) && IpOf(r) == ip
  {
    if r.name != [] {
      SameFirst(r.name, LOCAL);
    } else {
      assert |FoldName(r.name)| == 0 && |FoldName(LOCAL)| == 1;
    }
  }

  lemma JoinedIff(packet: Message, service: Name, id: Str, a: Addr)
    ensures Located(id, a) in Join(Srvs(packet.answers, service), packet.additionals) <==>
            AnnouncedIn(packet, service, id, a)
  {
    hide OfPeer, HasAddress, IsAddress;
    var srvs := Srvs(packet.answers, service);
    forall r ensures OfPeer(r, service, id) <==> OfService(r, service) && r.name != [] && r.name[0] == id {
      OfPeerMeans(r, service, id);
    }
    forall r ensures HasAddress(r, a.ip) <==> IsAddress(r) && IpOf(r) == a.ip {
      HasAddressMeans(r, a.ip);
    }
    if AnnouncedIn(packet, service, id, a) {
      var s, r :|
        && s in packet.answers && Locates(s, service, id, a.port)
        && r in packet.additionals && HasAddress(r, a.ip)
        && SameName(r.name, s.data.target);
      assert SrvOf(s, service) in srvs;
    }
    if Located(id, a) in Join(srvs, packet.additionals) {
      var x, r :| x in srvs && r in packet.additionals && IsAddress(r) && FoldName(r.name) == x.target
        && Located(id, a) == Located(x.id, Addr(IpOf(r), x.port));
      var s :| s in packet.answers && IsSrv(s, service) && SrvOf(s, service) == x;
      assert Locates(s, service, id, a.port) && HasAddress(r, a.ip) && SameName(r.name, s.data.target);
    }
  }

  /**
   A packet decodes to exactly the peers for which it announces some address, each with the
   strictly sorted vector of all addresses announced for it.
   */
  lemma JoinMeaning(packet: Message, service: Name, now: nat)
    ensures forall id :: id in DecodePeers(packet, service, now) <==> exists a :: AnnouncedIn(packet, service, id, a)
    ensures forall id :: id in DecodePeers(packet, service, now) ==>
      var p := DecodePeers(packet, service, now)[id];
      p.addrs != [] && StrictlySorted(p.addrs, AddrLe) && p.lastSeen == now
    ensures forall id, a :: id in DecodePeers(packet, service, now) ==>
      (a in DecodePeers(packet, service, now)[id].addrs <==> AnnouncedIn(packet, service, id, a))
  {
    hide Join, Srvs, AnnouncedIn, ParseTxt, TxtStrings;
    var join := Join(Srvs(packet.answers, service), packet.additionals);
    forall id, a ensures Located(id, a) in join <==> AnnouncedIn(packet, service, id, a) {
      JoinedIff(packet, service, id, a);
    }
    forall id | exists a :: AnnouncedIn(packet, service, id, a) ensures id in Ids(join) {
      var a :| AnnouncedIn(packet, service, id, a);
      assert Located(id, a) in join;
    }
    forall id | id in Ids(join)
      ensures exists a :: AnnouncedIn(packet, service, id, a)
      ensures Enum(AddrsOf(join, id)) != []
    {
      var l :| l in join && l.id == id;
      assert l == Located(id, l.addr);
      assert l.addr in Enum(AddrsOf(join, id));
    }
  }

  /** Reordering or repeating answers or additionals changes neither the peers nor their addresses. */
  lemma OrderAndDuplicatesIrrelevant(p: Message, q: Message, service: Name, now: nat)
    requires Elements(p.answers) == Elements(q.answers)
    requires Elements(p.additionals) == Elements(q.additionals)
    ensures DecodePeers(p, service, now).Keys == DecodePeers(q, service, now).Keys
    ensures forall id :: id in DecodePeers(p, service, now) ==>
      DecodePeers(p, service, now)[id].addrs == DecodePeers(q, service, now)[id].addrs
  {
    forall r ensures (r in p.answers <==> r in q.answers) && (r in p.additionals <==> r in q.additionals) {
      assert r in Elements(p.answers) <==> r in Elements(q.answers);
      assert r in Elements(p.additionals) <==> r in Elements(q.additionals);
    }
    assert Srvs(p.answers, service) == Srvs(q.answers, service);
    assert Join(Srvs(p.answers, service), p.additionals) == Join(Srvs(q.answers, service), q.additionals);
  }

  // ---- TXT ----

  ghost predicate FirstWith(strings: seq<Str>, k: Str, i: nat) {
    i < |strings| && KeyOf(strings[i]) == k && forall j :: 0 <= j < i ==> KeyOf(strings[j]) != k
  }

  /** Of several strings with the same key the first one determines the value. */
  lemma {:induction false} FirstOccurrenceWins(strings: seq<Str>, k: Str)
    ensures k in ParseTxt(strings) <==> exists i :: FirstWith(strings, k, i)
    ensures forall i: nat :: FirstWith(strings, k, i) ==> k in ParseTxt(strings) && ParseTxt(strings)[k] == ValueOf(strings[i])
  {
    if strings != [] {
      var n := |strings| - 1;
      var init := strings[..n];
      FirstOccurrenceWins(init, k);
      if k in ParseTxt(init) {
        var i :| FirstWith(init, k, i);
        assert FirstWith(strings, k, i);
      } else {
        forall j | 0 <= j < n ensures KeyOf(strings[j]) != k {
          if KeyOf(init[j]) == k {
            FirstExists(init, k, j);
          }
        }
        assert KeyOf(strings[n]) == k ==> FirstWith(strings, k, n);
      }
      forall i: nat | FirstWith(strings, k, i) && i < n ensures FirstWith(init, k, i) {
        assert strings[i] == init[i];
      }
    }
  }

  lemma {:induction false} FirstExists(strings: seq<Str>, k: Str, j: nat)
    requires j < |strings| && KeyOf(strings[j]) == k
    ensures exists i :: FirstWith(strings, k, i)
  {
    if !FirstWith(strings, k, j) {
      var i :| 0 <= i < j && KeyOf(strings[i]) == k;
      FirstExists(strings, k, i);
    }
  }

  ghost predicate NoEquals(txt: TxtData) {
    forall k :: k in txt ==> EQUALS !in k
  }

  lemma {:induction false} FirstEqualsIs(s: Str, n: nat)
    requires n <= |s| && EQUALS !in s[..n] && (n < |s| ==> s[n] == EQUALS)
    ensures FirstEquals(s) == n
  {
    if n > 0 {
      assert s[0] in s[..n] && s[1..][..n - 1] == s[..n][1..];
      FirstEqualsIs(s[1..], n - 1);
    }
  }

  lemma DecodeAttribute(k: Str, v: Option<Str>)
    requires EQUALS !in k
    ensures KeyOf(EncodeAttribute(k, v)) == k
    ensures ValueOf(EncodeAttribute(k, v)) == v
  {
    var s := EncodeAttribute(k, v);
    assert s[..|k|] == k;
    FirstEqualsIs(s, |k|);
  }

  function Written(txt: TxtData): seq<Str> {
    W.EncodeTxt(StrList(txt.Keys), txt)
  }

  lemma ParseNone()
    ensures ParseTxt([]) == map[]
  {
  }

  lemma {:induction false} ParseWritten(keys: seq<Str>, txt: TxtData)
    requires forall k :: k in keys ==> k in txt && k != [] && EQUALS !in k
    requires forall i, j :: 0 <= i < j < |keys| ==> keys[i] != keys[j]
    ensures ParseTxt(W.EncodeTxt(keys, txt)) == map k | k in keys :: txt[k]
  {
    hide EncodeAttribute, KeyOf, ValueOf, ParseTxt;
    if keys == [] {
      assert ParseTxt([]) == map[] by { ParseNone(); }
    } else {
      var n := |keys| - 1;
      var k := keys[n];
      PrefixStep(keys, n);
      ParseWritten(keys[..n], txt);
      DecodeAttribute(k, txt[k]);
      ParseTxtStep(W.EncodeTxt(keys[..n], txt), EncodeAttribute(k, txt[k]));
    }
  }

  lemma {:induction false} ParsedKeysHaveNoEquals(strings: seq<Str>)
    ensures NoEquals(ParseTxt(strings))
  {
    if strings != [] {
      ParsedKeysHaveNoEquals(strings[..|strings| - 1]);
    }
  }

  /** Attributes survive encoding exactly if no key contains '='. */
  lemma TxtRoundTrip(txt: TxtData)
    requires ValidTxt(txt)
    ensures ParseTxt(Written(txt)) == txt <==> NoEquals(txt)
  {
    ParsedKeysHaveNoEquals(Written(txt));
    if NoEquals(txt) {
      ParseWritten(StrList(txt.Keys), txt);
    }
  }

  /** Every string on the wire is 1 to 255 octets long and valid UTF-8. */
  lemma {:induction false} WrittenStringsFit(keys: seq<Str>, txt: TxtData)
    requires ValidTxt(txt) && forall k :: k in keys ==> k in txt
    ensures forall s :: s in W.EncodeTxt(keys, txt) ==> 1 <= |s| <= 255 && ValidUtf8(s)
  {
    if keys != [] {
      var n := |keys| - 1;
      var k := keys[n];
      WrittenStringsFit(keys[..n], txt);
      if txt[k].Some? {
        assert ValidUtf8([EQUALS]) by { AsciiIsUtf8([EQUALS]); }
        ValidUtf8Append(k, [EQUALS]);
        ValidUtf8Append(k + [EQUALS], txt[k].value);
      }
    }
  }

  lemma {:induction false} AllUsable(strings: seq<Str>)
    requires forall s :: s in strings ==> s != [] && ValidUtf8(s)
    ensures Usable(strings) == strings
  {
    if strings != [] {
      PrefixStep(strings, |strings| - 1);
      AllUsable(strings[..|strings| - 1]);
    }
  }

  // ---- the names in our own packets ----

  /** "PEER-PORT" determines both parts up to case, although PEER may itself contain dashes and digits. */
  lemma TargetInjective(a: Str, p: Port, b: Str, q: Port)
    requires FoldName(W.TargetName(a, p)) == FoldName(W.TargetName(b, q))
    ensures FoldLabel(a) == FoldLabel(b) && p == q
  {
    var x, y := W.TargetLabel(a, p), W.TargetLabel(b, q);
    assert FoldLabel(x) == FoldLabel(y) by {
      assert FoldName(W.TargetName(a, p))[0] == FoldLabel(x);
      assert FoldName(W.TargetName(b, q))[0] == FoldLabel(y);
    }
    assert |x| == |FoldLabel(x)| == |FoldLabel(y)| == |y|;
    forall i | 0 <= i < |x| ensures FoldByte(x[i]) == FoldByte(y[i]) {
      assert FoldLabel(x)[i] == FoldLabel(y)[i];
    }
    assert x[|a|] == DASH && y[|b|] == DASH;
    assert forall i :: |a| < i < |x| ==> x[i] == Decimal(p)[i - |a| - 1];
    assert forall i :: |b| < i < |y| ==> y[i] == Decimal(q)[i - |b| - 1];
    assert |a| == |b|;
    forall i | 0 <= i < |a| ensures FoldLabel(a)[i] == FoldLabel(b)[i] {
      assert x[i] == a[i] && y[i] == b[i];
    }
    assert FoldLabel(a) == FoldLabel(b);
    forall i | 0 <= i < |Decimal(p)| ensures Decimal(p)[i] == Decimal(q)[i] {
      assert x[|a| + 1 + i] == Decimal(p)[i] && y[|a| + 1 + i] == Decimal(q)[i];
    }
    assert Decimal(p) == Decimal(q);
    DecimalRoundTrip(p);
    DecimalRoundTrip(q);
  }

  // ---- packets of honest peers, alone and concatenated ----

  datatype Announcer = Announcer(id: Str, own: Announced)

  ghost predicate Honest(a: Announcer) {
    LabelId(a.id) && StrictlySorted(a.own.addrs, AddrLe) && ValidTxt(a.own.txt)
  }

  ghost predicate AllHonest(group: seq<Announcer>) {
    forall a :: a in group ==> Honest(a)
  }

  /** The identifiers differ even without regard to case. */
  ghost predicate DistinctIds(group: seq<Announcer>) {
    forall i, j :: 0 <= i < j < |group| ==> FoldLabel(group[i].id) != FoldLabel(group[j].id)
  }

  /** No two identifiers differ in case only. */
  ghost predicate OneSpelling(group: seq<Announcer>) {
    forall a, b :: a in group && b in group && FoldLabel(a.id) == FoldLabel(b.id) ==> a.id == b.id
  }

  function Packet(a: Announcer, service: Name): Message {
    W.Response(a.id, service, a.own)
  }

  /** The answer and additional sections of several responses, one after the other. */
  function Combined(group: seq<Announcer>, service: Name): Message {
    if group == [] then Message([], [], [])
    else
      var init, last := Combined(group[..|group| - 1], service), Packet(group[|group| - 1], service);
      Message([], init.answers + last.answers, init.additionals + last.additionals)
  }

  lemma {:induction false} CombinedContains(group: seq<Announcer>, service: Name, r: Record)
    ensures r in Combined(group, service).answers <==> exists a :: a in group && r in Packet(a, service).answers
    ensures r in Combined(group, service).additionals <==> exists a :: a in group && r in Packet(a, service).additionals
  {
    hide Packet;
    if group != [] {
      var n := |group| - 1;
      PrefixStep(group, n);
      CombinedContains(group[..n], service, r);
    }
  }

  lemma SrvInPacket(a: Announcer, service: Name, s: Record)
    requires s in Packet(a, service).answers && IsSrv(s, service)
    ensures exists p :: s == W.SrvRecord(a.id, service, p)
  {
    W.SrvRecordsContain(a.id, service, W.PortList(a.own.addrs), s);
  }

  lemma PacketAnnounces(a: Announcer, service: Name, x: Addr)
    requires Honest(a) && x in a.own.addrs
    ensures
      var s, r := W.SrvRecord(a.id, service, x.port), W.AddrRecord(W.TargetName(a.id, x.port), x.ip);
      && s in Packet(a, service).answers && IsSrv(s, service)
      && r in Packet(a, service).additionals && IsAddress(r) && IpOf(r) == x.ip
  {
    var s, r := W.SrvRecord(a.id, service, x.port), W.AddrRecord(W.TargetName(a.id, x.port), x.ip);
    var ports := W.PortList(a.own.addrs);
    assert x.port in W.Ports(a.own.addrs);
    W.SrvRecordsContain(a.id, service, ports, s);
    W.AdditionalsAll(a.id, a.own.addrs, ports, x);
    assert BaseName(W.TargetName(a.id, x.port)) == LOCAL;
  }

  lemma AddressInPacket(b: Announcer, service: Name, r: Record)
    requires r in Packet(b, service).additionals && IsAddress(r)
    ensures exists y :: y in b.own.addrs && r.name == W.TargetName(b.id, y.port) && IpOf(r) == y.ip
  {
    W.AdditionalsOnly(b.id, b.own.addrs, W.PortList(b.own.addrs), r);
  }

  lemma SameTarget(a: Announcer, p: Port, b: Announcer, q: Port)
    requires Honest(a) && Honest(b)
    requires SameName(W.TargetName(a.id, p), W.TargetName(b.id, q))
    ensures FoldLabel(a.id) == FoldLabel(b.id) && p == q
  {
    TargetInjective(a.id, p, b.id, q);
  }

  lemma CombinedHas(group: seq<Announcer>, service: Name, a: Announcer, x: Addr)
    requires AllHonest(group) && a in group && x in a.own.addrs
    ensures AnnouncedIn(Combined(group, service), service, a.id, x)
  {
    hide Packet, Combined, W.TargetName;
    PacketAnnounces(a, service, x);
    var s, r := W.SrvRecord(a.id, service, x.port), W.AddrRecord(W.TargetName(a.id, x.port), x.ip);
    CombinedContains(group, service, s);
    CombinedContains(group, service, r);
    OfPeerMeans(s, service, a.id);
    HasAddressMeans(r, x.ip);
    assert Locates(s, service, a.id, x.port) && SameName(r.name, s.data.target);
  }

  lemma CombinedOnly(group: seq<Announcer>, service: Name, id: Str, x: Addr) returns (b: Announcer)
    requires AllHonest(group) && OneSpelling(group) && AnnouncedIn(Combined(group, service), service, id, x)
    ensures b in group && b.id == id && x in b.own.addrs
  {
    hide Packet, Combined, W.TargetName;
    var packet := Combined(group, service);
    var s, r :|
      && s in packet.answers && Locates(s, service, id, x.port)
      && r in packet.additionals && HasAddress(r, x.ip)
      && SameName(r.name, s.data.target);
    OfPeerMeans(s, service, id);
    HasAddressMeans(r, x.ip);
    CombinedContains(group, service, s);
    CombinedContains(group, service, r);
    var a :| a in group && s in Packet(a, service).answers;
    b :| b in group && r in Packet(b, service).additionals;
    SrvInPacket(a, service, s);
    var p :| s == W.SrvRecord(a.id, service, p);
    AddressInPacket(b, service, r);
    var y :| y in b.own.addrs && r.name == W.TargetName(b.id, y.port) && IpOf(r) == y.ip;
    SameTarget(b, y.port, a, p);
    assert y == x;
  }

  /** A concatenation of responses announces what its members announce and nothing else. */
  lemma CombinedAnnounces(group: seq<Announcer>, service: Name, id: Str, x: Addr)
    requires AllHonest(group) && OneSpelling(group)
    ensures AnnouncedIn(Combined(group, service), service, id, x) <==>
            exists a :: a in group && a.id == id && x in a.own.addrs
  {
    hide Packet, Combined, AnnouncedIn;
    if AnnouncedIn(Combined(group, service), service, id, x) {
      var b := CombinedOnly(group, service, id, x);
    }
    if a :| a in group && a.id == id && x in a.own.addrs {
      CombinedHas(group, service, a, x);
    }
  }

  lemma {:induction false} TxtStringsAppend(x: seq<Record>, y: seq<Record>, service: Name, id: Str)
    ensures TxtStrings(x + y, service, id) == TxtStrings(x, service, id) + TxtStrings(y, service, id)
  {
    hide Usable;
    if y == [] {
      assert x + y == x;
    } else {
      var n := |y| - 1;
      TxtStringsAppend(x, y[..n], service, id);
      assert (x + y)[..|x + y| - 1] == x + y[..n] && (x + y)[|x + y| - 1] == y[n];
      var last := if IsTxt(y[n], service, id) then Usable(y[n].data.strings) else [];
      assert TxtStrings(y, service, id) == TxtStrings(y[..n], service, id) + last;
    }
  }

  lemma {:induction false} NoTxtInSrvRecords(id: Str, service: Name, ports: seq<Port>, other: Str)
    ensures TxtStrings(W.SrvRecords(id, service, ports), service, other) == []
  {
    if ports != [] {
      var n := |ports| - 1;
      NoTxtInSrvRecords(id, service, ports[..n], other);
      var init, last := W.SrvRecords(id, service, ports[..n]), W.SrvRecord(id, service, ports[n]);
      assert (init + [last])[..|init|] == init;
    }
  }

  lemma TxtStringsOfOne(r: Record, service: Name, id: Str)
    ensures TxtStrings([r], service, id) == if IsTxt(r, service, id) then Usable(r.data.strings) else []
  {
    assert [r][..0] == [];
  }

  lemma WrittenIsUsable(txt: TxtData)
    requires ValidTxt(txt)
    ensures Usable(Written(txt)) == Written(txt)
    ensures txt == map[] ==> Written(txt) == []
  {
    WrittenStringsFit(StrList(txt.Keys), txt);
    AllUsable(Written(txt));
    assert txt == map[] ==> StrList(txt.Keys) == [];
  }

  lemma TxtOfTxtRecords(a: Announcer, service: Name, id: Str)
    requires Honest(a)
    ensures TxtStrings(W.TxtRecords(a.id, service, a.own.txt), service, id) == if a.id == id then Written(a.own.txt) else []
  {
    hide W.EncodeTxt, StrList, Usable, TxtStrings;
    WrittenIsUsable(a.own.txt);
    if a.own.txt == map[] {
      TxtStringsOfNone(service, id);
    } else {
      TxtStringsOfOne(FromRdata(W.SrvName(a.id, service), TXT(Written(a.own.txt))), service, id);
    }
  }

  lemma TxtStringsOfNone(service: Name, id: Str)
    ensures TxtStrings([], service, id) == []
  {
  }

  lemma TxtOfPacket(a: Announcer, service: Name, id: Str)
    requires Honest(a)
    ensures TxtStrings(Packet(a, service).answers, service, id) == if a.id == id then Written(a.own.txt) else []
  {
    hide Written, TxtStrings;
    var ports := W.PortList(a.own.addrs);
    TxtStringsAppend(W.SrvRecords(a.id, service, ports), W.TxtRecords(a.id, service, a.own.txt), service, id);
    NoTxtInSrvRecords(a.id, service, ports, id);
    TxtOfTxtRecords(a, service, id);
  }

  lemma {:induction false} TxtOfCombined(group: seq<Announcer>, service: Name, id: Str)
    requires AllHonest(group) && DistinctIds(group)
    ensures (forall a :: a in group ==> a.id != id) ==> TxtStrings(Combined(group, service).answers, service, id) == []
    ensures forall a :: a in group && a.id == id ==>
      TxtStrings(Combined(group, service).answers, service, id) == Written(a.own.txt)
  {
    hide Packet, Written, TxtStrings, Honest;
    if group == [] {
      TxtStringsOfNone(service, id);
    } else {
      var n := |group| - 1;
      PrefixStep(group, n);
      TxtOfCombined(group[..n], service, id);
      TxtOfPacket(group[n], service, id);
      TxtStringsAppend(Combined(group[..n], service).answers, Packet(group[n], service).answers, service, id);
    }
  }

  /** The peer that a receiver records for an honest announcer. */
  function Received(a: Announcer, now: nat): Peer {
    Peer(a.own.addrs, now, ParseTxt(Written(a.own.txt)))
  }

  lemma CombinedPeer(group: seq<Announcer>, service: Name, now: nat, a: Announcer)
    requires AllHonest(group) && DistinctIds(group) && a in group && a.own.addrs != []
    ensures a.id in DecodePeers(Combined(group, service), service, now)
    ensures DecodePeers(Combined(group, service), service, now)[a.id] == Received(a, now)
  {
    hide Combined, AnnouncedIn, Written, TxtStrings, DecodePeers, ParseTxt;
    var packet := Combined(group, service);
    var d := DecodePeers(packet, service, now);
    JoinMeaning(packet, service, now);
    CombinedAnnounces(group, service, a.id, a.own.addrs[0]);
    DecodedTxt(packet, service, now, a.id);
    TxtOfCombined(group, service, a.id);
    forall x ensures x in d[a.id].addrs <==> x in a.own.addrs {
      CombinedAnnounces(group, service, a.id, x);
      OnlyOneWith(group, a);
    }
    AddrOrder();
    SortedUnique(d[a.id].addrs, a.own.addrs, AddrLe);
  }

  lemma DecodedTxt(packet: Message, service: Name, now: nat, id: Str)
    requires id in DecodePeers(packet, service, now)
    ensures DecodePeers(packet, service, now)[id].txt == ParseTxt(TxtStrings(packet.answers, service, id))
  {
  }

  lemma OnlyOneWith(group: seq<Announcer>, a: Announcer)
    requires DistinctIds(group) && a in group
    ensures forall b :: b in group && b.id == a.id ==> b == a
  {
  }

  /** The peers of a group that announce at least one address. */
  function Speakers(group: seq<Announcer>): set<Str> {
    set a | a in group && a.own.addrs != [] :: a.id
  }

  lemma CombinedDecodes(group: seq<Announcer>, service: Name, now: nat)
    requires AllHonest(group) && DistinctIds(group)
    ensures DecodePeers(Combined(group, service), service, now).Keys == Speakers(group)
    ensures forall a :: a in group && a.own.addrs != [] ==>
              DecodePeers(Combined(group, service), service, now)[a.id] == Received(a, now)
  {
    hide Combined, AnnouncedIn, Received, DecodePeers;
    var packet := Combined(group, service);
    var d := DecodePeers(packet, service, now);
    JoinMeaning(packet, service, now);
    forall a | a in group && a.own.addrs != [] ensures a.id in d && d[a.id] == Received(a, now) {
      CombinedPeer(group, service, now, a);
    }
    forall id | id in d ensures id in Speakers(group) {
      var x :| AnnouncedIn(packet, service, id, x);
      CombinedAnnounces(group, service, id, x);
    }
  }

  /** The response of an honest peer decodes to that peer alone, or to nothing if it has no address. */
  lemma PacketDecodes(a: Announcer, service: Name, now: nat)
    requires Honest(a)
    ensures DecodePeers(Packet(a, service), service, now) ==
            if a.own.addrs == [] then map[] else map[a.id := Received(a, now)]
  {
    hide Packet, DecodePeers, Received;
    CombinedDecodes([a], service, now);
    CombinedOfOne(a, service);
    var d := DecodePeers(Packet(a, service), service, now);
    assert a in [a];
    assert Speakers([a]) == if a.own.addrs == [] then {} else {a.id};
  }

  lemma CombinedOfOne(a: Announcer, service: Name)
    ensures Combined([a], service) == Packet(a, service)
  {
    assert [a][..0] == [];
    assert Combined([], service) == Message([], [], []);
    assert Combined([a], service).answers == Packet(a, service).answers;
    assert Combined([a], service).additionals == Packet(a, service).additionals;
  }

  /** The peers that a receiver records if it gets each response by itself. */
  function Separately(group: seq<Announcer>, service: Name, now: nat): map<Str, Peer> {
    if group == [] then map[]
    else
      Separately(group[..|group| - 1], service, now) + DecodePeers(Packet(group[|group| - 1], service), service, now)
  }

  lemma {:induction false} SeparateKeys(group: seq<Announcer>, service: Name, now: nat)
    requires AllHonest(group)
    ensures Separately(group, service, now).Keys == Speakers(group)
  {
    hide DecodePeers, Packet, Received, Speakers;
    if group == [] {
      assert Speakers(group) == {} by { NoSpeakers(); }
    } else {
      var n := |group| - 1;
      PrefixStep(group, n);
      WholePrefix(group);
      SeparateKeys(group[..n], service, now);
      PacketDecodes(group[n], service, now);
      SpeakersStep(group, n);
    }
  }

  lemma NoSpeakers()
    ensures Speakers([]) == {}
  {
  }

  lemma SpeakersStep(group: seq<Announcer>, n: nat)
    requires n < |group|
    ensures Speakers(group[..n + 1]) == Speakers(group[..n]) + (if group[n].own.addrs == [] then {} else {group[n].id})
  {
    PrefixStep(group, n);
  }

  lemma {:induction false} SeparatePeer(group: seq<Announcer>, service: Name, now: nat, a: Announcer)
    requires AllHonest(group) && DistinctIds(group) && a in group && a.own.addrs != []
    ensures a.id in Separately(group, service, now)
    ensures Separately(group, service, now)[a.id] == Received(a, now)
  {
    hide DecodePeers, Packet, Received;
    var n := |group| - 1;
    PrefixStep(group, n);
    PacketDecodes(group[n], service, now);
    if a != group[n] {
      SeparatePeer(group[..n], service, now, a);
    }
  }

  /** Concatenated responses of distinct peers decode to the union of what they decode to separately. */
  lemma NoCrossTalk(group: seq<Announcer>, service: Name, now: nat)
    requires AllHonest(group) && DistinctIds(group)
    ensures DecodePeers(Combined(group, service), service, now) == Separately(group, service, now)
  {
    hide DecodePeers, Combined, Separately, Received;
    CombinedDecodes(group, service, now);
    SeparateKeys(group, service, now);
    var d, e := DecodePeers(Combined(group, service), service, now), Separately(group, service, now);
    forall id | id in d ensures id in e && d[id] == e[id] {
      var a :| a in group && a.id == id && a.own.addrs != [];
      SeparatePeer(group, service, now, a);
    }
    assert d.Keys == e.Keys;
  }

  /**
   A response is read back as exactly the announcing peer, with the same addresses and attributes,
   if and only if no attribute key contains '='; without addresses it is read back as nothing.
   */
  lemma RoundTrip(id: Str, own: Announced, service: Name, now: nat, overV6: bool)
    requires Honest(Announcer(id, own))
    ensures own.addrs != [] ==>
      (Decode(W.Response(id, service, own), service, overV6, now) == Response(map[id := Peer(own.addrs, now, own.txt)])
       <==> NoEquals(own.txt))
    ensures own.addrs == [] ==> Decode(W.Response(id, service, own), service, overV6, now) == Response(map[])
  {
    hide DecodePeers, Written, ParseTxt;
    var a := Announcer(id, own);
    PacketDecodes(a, service, now);
    TxtRoundTrip(own.txt);
    if own.addrs != [] {
      assert DecodePeers(W.Response(id, service, own), service, now)[id] == Received(a, now);
    }
  }

  /**
   A validated entry that does not survive: the attribute with key "=" and no value is read back with
   the empty key and the empty value.
   */
  lemma EqualsInKeyIsLost(id: Str, service: Name, now: nat, overV6: bool)
    requires LabelId(id)
    ensures var own := Announced([Addr(V4(1), 1)], map[[EQUALS] := None]);
      && Honest(Announcer(id, own))
      && Decode(W.Response(id, service, own), service, overV6, now)
         == Response(map[id := Peer(own.addrs, now, map[[] := Some([])])])
  {
    hide DecodePeers, StrList;
    var txt: TxtData := map[[EQUALS] := None];
    var own := Announced([Addr(V4(1), 1)], txt);
    AsciiIsUtf8([EQUALS]);
    PacketDecodes(Announcer(id, own), service, now);
    assert Packet(Announcer(id, own), service) == W.Response(id, service, own);
    EqualsIsRead(txt);
  }

  lemma EqualsIsRead(txt: TxtData)
    requires txt == map[[EQUALS] := None]
    ensures ParseTxt(Written(txt)) == map[[] := Some([])]
  {
    var keys := StrList(txt.Keys);
    assert keys == [[EQUALS]] by {
      assert [EQUALS] in keys;
      assert forall i :: 0 <= i < |keys| ==> keys[i] in keys && keys[i] == [EQUALS];
    }
    assert W.EncodeTxt([], txt) == [];
    assert W.EncodeTxt(keys, txt) == [[EQUALS]];
    ParseTxtStep([], [EQUALS]);
    assert FirstEquals([EQUALS]) == 0;
  }
}
