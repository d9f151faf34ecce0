/**
 Reading a packet (src/receiver.rs `handle_msg`).

 `Decode` says what a packet means: the peers are those that occur in the join of its SRV records
 with its address records, each with the increasing enumeration of its joined addresses and with
 the attributes of its TXT records, the first occurrence of a key winning. `HandleMsg` reaches the
 same result with the passes and maps of the source.
 */
module Receiver {
  import opened Wrappers
  import opened Ordering
  import opened Text
  import opened Dns
  import opened Peers

  datatype Incoming = QueryV4 | QueryV6 | Response(peers: map<Str, Peer>)

  // ---- which records count ----

  predicate Asks(q: Query, service: Name) {
    q.queryClass == IN && q.queryType == PTR && SameName(q.name, service)
  }

  /** An IN record named PEER.service whose first label is a string. */
  predicate OfService(r: Record, service: Name) {
    && r.dnsClass == IN
    && SameName(BaseName(r.name), service)
    && r.name != []
    && ValidUtf8(r.name[0])
  }

  predicate IsSrv(r: Record, service: Name) {
    OfService(r, service) && r.data.SRV?
  }

  predicate IsTxt(r: Record, service: Name, id: Str) {
    OfService(r, service) && r.data.TXT? && r.name[0] == id
  }

  predicate IsAddress(r: Record) {
    && r.dnsClass == IN
    && SameName(BaseName(r.name), LOCAL)
    && (r.data.A? || r.data.AAAA?)
  }

  function IpOf(r: Record): Ip
    requires IsAddress(r)
  {
    match r.data
    case A(bits) => V4(bits)
    case AAAA(bits) => V6(bits)
  }

  // ---- the join ----

  /** A service location: the folded target name, the port and the peer. */
  datatype Srv = Srv(target: Name, port: Port, id: Str)

  datatype Located = Located(id: Str, addr: Addr)

  function SrvOf(r: Record, service: Name): Srv
    requires IsSrv(r, service)
  {
    Srv(FoldName(r.data.target), r.data.port, r.name[0])
  }

  function Srvs(answers: seq<Record>, service: Name): set<Srv> {
    set r | r in answers && IsSrv(r, service) :: SrvOf(r, service)
  }

  function Join(srvs: set<Srv>, additionals: seq<Record>): set<Located> {
    set s, r | s in srvs && r in additionals && IsAddress(r) && FoldName(r.name) == s.target
      :: Located(s.id, Addr(IpOf(r), s.port))
  }

  function Ids(join: set<Located>): set<Str> {
    set l | l in join :: l.id
  }

  function AddrsOf(join: set<Located>, id: Str): set<Addr> {
    set l | l in join && l.id == id :: l.addr
  }

  // ---- TXT ----

  function FirstEquals(s: Str): (n: nat)
    ensures n <= |s|
    ensures n < |s| ==> s[n] == EQUALS
    ensures forall i :: 0 <= i < n ==> s[i] != EQUALS
  {
    if s == [] || s[0] == EQUALS then 0 else 1 + FirstEquals(s[1..])
  }

  function KeyOf(s: Str): Str {
    s[..FirstEquals(s)]
  }

  function ValueOf(s: Str): Option<Str> {
    if FirstEquals(s) == |s| then None else Some(s[FirstEquals(s) + 1..])
  }

  function AddString(m: TxtData, s: Str): TxtData {
    if KeyOf(s) in m then m else m[KeyOf(s) := ValueOf(s)]
  }

  function ParseTxt(strings: seq<Str>): TxtData {
    if strings == [] then map[]
    else AddString(ParseTxt(strings[..|strings| - 1]), strings[|strings| - 1])
  }

  function Usable(strings: seq<Str>): seq<Str> {
    if strings == [] then []
    else
      var s := strings[|strings| - 1];
      Usable(strings[..|strings| - 1]) + (if ValidUtf8(s) && s != [] then [s] else [])
  }

  /** The strings of all TXT records of one peer, in packet order. */
  function TxtStrings(answers: seq<Record>, service: Name, id: Str): seq<Str> {
    if answers == [] then []
    else
      var r := answers[|answers| - 1];
      TxtStrings(answers[..|answers| - 1], service, id)
      + (if IsTxt(r, service, id) then Usable(r.data.strings) else [])
  }

  // ---- the meaning of a packet ----

  function PeersOf(join: set<Located>, answers: seq<Record>, service: Name, now: nat): map<Str, Peer> {
    map id | id in Ids(join) :: Peer(Enum(AddrsOf(join, id)), now, ParseTxt(TxtStrings(answers, service, id)))
  }

  function DecodePeers(packet: Message, service: Name, now: nat): map<Str, Peer> {
    PeersOf(Join(Srvs(packet.answers, service), packet.additionals), packet.answers, service, now)
  }

  function Decode(packet: Message, service: Name, overV6: bool, now: nat): Incoming {
    if exists q :: q in packet.queries && Asks(q, service) then
      if overV6 then QueryV6 else QueryV4
    else
      Response(DecodePeers(packet, service, now))
  }

  // ---- the passes of handle_msg ----

  ghost predicate PortsAgree(peerPorts: map<Name, seq<(Port, Str)>>, srvs: set<Srv>) {
    forall t, p: Port, id :: Srv(t, p, id) in srvs <==> t in peerPorts && (p, id) in peerPorts[t]
  }

  ghost predicate AddrsAgree(peerAddrs: map<Str, seq<Addr>>, join: set<Located>) {
    && (forall id, a :: Located(id, a) in join <==> id in peerAddrs && a in peerAddrs[id])
    && (forall id :: id in peerAddrs ==> peerAddrs[id] != [])
  }

  function Lookup(m: map<Str, TxtData>, id: Str): TxtData {
    if id in m then m[id] else map[]
  }

  lemma SrvsStep(answers: seq<Record>, service: Name, i: nat)
    requires i < |answers|
    ensures Srvs(answers[..i + 1], service) == Srvs(answers[..i], service) +
            (if IsSrv(answers[i], service) then {SrvOf(answers[i], service)} else {})
  {
    PrefixStep(answers, i);
  }

  lemma TxtStep(answers: seq<Record>, service: Name, i: nat)
    requires i < |answers|
    ensures forall id :: TxtStrings(answers[..i + 1], service, id) == TxtStrings(answers[..i], service, id) +
              (if IsTxt(answers[i], service, id) then Usable(answers[i].data.strings) else [])
  {
    PrefixStep(answers, i);
  }

  lemma UsableStep(strings: seq<Str>, j: nat)
    requires j < |strings|
    ensures Usable(strings[..j + 1]) ==
            Usable(strings[..j]) + (if ValidUtf8(strings[j]) && strings[j] != [] then [strings[j]] else [])
  {
    PrefixStep(strings, j);
  }

  lemma ParseTxtStep(earlier: seq<Str>, s: Str)
    ensures ParseTxt(earlier + [s]) == AddString(ParseTxt(earlier), s)
  {
    assert (earlier + [s])[..|earlier|] == earlier;
  }

  /** The strings of one TXT record, added to the attributes of its peer. */
  method ReadTxt(strings: seq<Str>, id: Str, before: map<Str, TxtData>, ghost earlier: seq<Str>)
    returns (peerTxt: map<Str, TxtData>)
    requires Lookup(before, id) == ParseTxt(earlier)
    ensures Lookup(peerTxt, id) == ParseTxt(earlier + Usable(strings))
    ensures forall other :: other != id ==> Lookup(peerTxt, other) == Lookup(before, other)
  {
    peerTxt := before;
    ghost var soFar := earlier;
    assert soFar == earlier + Usable(strings[..0]);
    for j := 0 to |strings|
      invariant soFar == earlier + Usable(strings[..j])
      invariant Lookup(peerTxt, id) == ParseTxt(soFar)
      invariant forall other :: other != id ==> Lookup(peerTxt, other) == Lookup(before, other)
    {
      var s := strings[j];
      UsableStep(strings, j);
      if !ValidUtf8(s) || s == [] {
        assert Usable(strings[..j]) + [] == Usable(strings[..j]);
        continue;
      }
      ParseTxtStep(soFar, s);
      soFar := soFar + [s];
      var attributes := Lookup(peerTxt, id);
      peerTxt := peerTxt[id := AddString(attributes, s)];
    }
    WholePrefix(strings);
  }

  method ReadAnswers(answers: seq<Record>, service: Name)
    returns (peerPorts: map<Name, seq<(Port, Str)>>, peerTxt: map<Str, TxtData>)
    ensures PortsAgree(peerPorts, Srvs(answers, service))
    ensures forall id :: Lookup(peerTxt, id) == ParseTxt(TxtStrings(answers, service, id))
  {
    peerPorts, peerTxt := map[], map[];
    for i := 0 to |answers|
      invariant PortsAgree(peerPorts, Srvs(answers[..i], service))
      invariant forall id :: Lookup(peerTxt, id) == ParseTxt(TxtStrings(answers[..i], service, id))
    {
      var r := answers[i];
      SrvsStep(answers, service, i);
      TxtStep(answers, service, i);
      if !OfService(r, service) {
        assert forall id :: TxtStrings(answers[..i + 1], service, id) == TxtStrings(answers[..i], service, id);
        continue;
      }
      var id := r.name[0];
      match r.data {
        case SRV(port, target) =>
          var t := FoldName(target);
          var entry := if t in peerPorts then peerPorts[t] else [];
          peerPorts := peerPorts[t := entry + [(port, id)]];
          assert forall id :: TxtStrings(answers[..i + 1], service, id) == TxtStrings(answers[..i], service, id);
        case TXT(strings) =>
          ghost var before := peerTxt;
          peerTxt := ReadTxt(strings, id, peerTxt, TxtStrings(answers[..i], service, id));
          forall other ensures Lookup(peerTxt, other) == ParseTxt(TxtStrings(answers[..i + 1], service, other)) {
            if other != id {
              assert TxtStrings(answers[..i + 1], service, other) == TxtStrings(answers[..i], service, other);
            }
          }
        case _ =>
          assert forall id :: TxtStrings(answers[..i + 1], service, id) == TxtStrings(answers[..i], service, id);
      }
    }
    WholePrefix(answers);
  }

  lemma JoinStep(srvs: set<Srv>, additionals: seq<Record>, i: nat)
    requires i < |additionals|
    ensures Join(srvs, additionals[..i + 1]) == Join(srvs, additionals[..i]) + Join(srvs, [additionals[i]])
  {
    PrefixStep(additionals, i);
  }

  /** One address record, added to every peer that has an SRV record for its name. */
  method AddAddress(r: Record, entry: seq<(Port, Str)>, before: map<Str, seq<Addr>>, ghost join: set<Located>)
    returns (peerAddrs: map<Str, seq<Addr>>)
    requires IsAddress(r)
    requires AddrsAgree(before, join)
    ensures AddrsAgree(peerAddrs, join + set e | e in entry :: Located(e.1, Addr(IpOf(r), e.0)))
  {
    peerAddrs := before;
    for k := 0 to |entry|
      invariant AddrsAgree(peerAddrs, join + set e | e in entry[..k] :: Located(e.1, Addr(IpOf(r), e.0)))
    {
      var (port, id) := entry[k];
      var a := Addr(IpOf(r), port);
      PrefixStep(entry, k);
      ghost var soFar := join + set e | e in entry[..k] :: Located(e.1, Addr(IpOf(r), e.0));
      assert (join + set e | e in entry[..k + 1] :: Located(e.1, Addr(IpOf(r), e.0))) == soFar + {Located(id, a)};
      var addrs := if id in peerAddrs then peerAddrs[id] else [];
      peerAddrs := peerAddrs[id := addrs + [a]];
    }
    WholePrefix(entry);
  }

  method ReadAdditionals(additionals: seq<Record>, peerPorts: map<Name, seq<(Port, Str)>>, ghost srvs: set<Srv>)
    returns (peerAddrs: map<Str, seq<Addr>>)
    requires PortsAgree(peerPorts, srvs)
    ensures AddrsAgree(peerAddrs, Join(srvs, additionals))
  {
    peerAddrs := map[];
    for i := 0 to |additionals|
      invariant AddrsAgree(peerAddrs, Join(srvs, additionals[..i]))
    {
      var r := additionals[i];
      JoinStep(srvs, additionals, i);
      if !IsAddress(r) {
        assert Join(srvs, [r]) == {};
        continue;
      }
      var t := FoldName(r.name);
      var entry := if t in peerPorts then peerPorts[t] else [];
      peerAddrs := AddAddress(r, entry, peerAddrs, Join(srvs, additionals[..i]));
      assert Join(srvs, [r]) == set e | e in entry :: Located(e.1, Addr(IpOf(r), e.0)) by {
        forall e | e in entry ensures Located(e.1, Addr(IpOf(r), e.0)) in Join(srvs, [r]) {
          assert Srv(t, e.0, e.1) in srvs;
        }
        forall l | l in Join(srvs, [r]) ensures l in set e | e in entry :: Located(e.1, Addr(IpOf(r), e.0)) {
          var s :| s in srvs && s.target == t && l == Located(s.id, Addr(IpOf(r), s.port));
          assert Srv(t, s.port, s.id) in srvs;
          assert (s.port, s.id) in entry;
        }
      }
    }
    WholePrefix(additionals);
  }

  lemma Agreement(peerAddrs: map<Str, seq<Addr>>, join: set<Located>)
    requires AddrsAgree(peerAddrs, join)
    ensures peerAddrs.Keys == Ids(join)
    ensures forall id :: id in peerAddrs ==> Elements(peerAddrs[id]) == AddrsOf(join, id)
  {
    forall id | id in peerAddrs
      ensures id in Ids(join) && Elements(peerAddrs[id]) == AddrsOf(join, id)
    {
      assert Located(id, peerAddrs[id][0]) in join;
    }
  }

  /** The final loop: sort and deduplicate the addresses of every peer and attach its attributes. */
  method Collect(peerAddrs: map<Str, seq<Addr>>, peerTxt: map<Str, TxtData>, now: nat)
    returns (ret: map<Str, Peer>)
    ensures ret == map id | id in peerAddrs.Keys :: Peer(Enum(Elements(peerAddrs[id])), now, Lookup(peerTxt, id))
  {
    var keys := StrList(peerAddrs.Keys);
    ret := map[];
    for i := 0 to |keys|
      invariant ret.Keys == Elements(keys[..i])
      invariant ret.Keys <= peerAddrs.Keys
      invariant forall id :: id in ret ==> ret[id] == Peer(Enum(Elements(peerAddrs[id])), now, Lookup(peerTxt, id))
    {
      var id := keys[i];
      var addrs := SortDedupAddrs(peerAddrs[id]);
      ElementsStep(keys, i);
      ret := ret[id := Peer(addrs, now, Lookup(peerTxt, id))];
    }
    WholePrefix(keys);
  }

  /** The loop over the questions. */
  method AskedFor(queries: seq<Query>, service: Name) returns (asked: bool)
    ensures asked <==>
            exists q :: q in queries && q.queryClass == IN && q.queryType == PTR && SameName(q.name, service)
  {
    for i := 0 to |queries|
      invariant forall j :: 0 <= j < i ==> !Asks(queries[j], service)
    {
      if Asks(queries[i], service) {
        return true;
      }
    }
    return false;
  }

  method HandleMsg(packet: Message, service: Name, overV6: bool, now: nat) returns (msg: Incoming)
    ensures msg == Decode(packet, service, overV6, now)
  {
    var asked := AskedFor(packet.queries, service);
    if asked {
      return if overV6 then QueryV6 else QueryV4;
    }
    var peerPorts, peerTxt := ReadAnswers(packet.answers, service);
    var peerAddrs := ReadAdditionals(packet.additionals, peerPorts, Srvs(packet.answers, service));
    Agreement(peerAddrs, Join(Srvs(packet.answers, service), packet.additionals));
    var ret := Collect(peerAddrs, peerTxt, now);
    assert ret == DecodePeers(packet, service, now);
    msg := Response(ret);
  }
}
