/**
 The response packet of the local peer (src/sender.rs `make_response`, `make_query`).

 `Response` is the packet as a function of the announced entry; `MakeResponse` builds it with the
 loops of the source and is proved to produce that packet.
 */
module Response {
  import opened Wrappers
  import opened Ordering
  import opened Text
  import opened Dns
  import opened Peers
  import opened Announcement

  /** PEER._NAME._udp.local. */
  function SrvName(id: Str, service: Name): Name {
    [id] + service
  }

  function TargetLabel(id: Str, port: Port): Str {
    id + [DASH] + Decimal(port)
  }

  /** PEER-PORT.local. */
  function TargetName(id: Str, port: Port): Name {
    [TargetLabel(id, port)] + LOCAL
  }

  lemma TargetLabelFits(id: Str, port: Port)
    requires LabelId(id)
    ensures ValidLabel(TargetLabel(id, port))
  {
    DecimalLength(port, 5, 100000) by {
      assert Pow10(5) == 100000 by {
        assert Pow10(1) == 10 && Pow10(2) == 100 && Pow10(3) == 1000;
      }
    }
  }

  function SrvRecord(id: Str, service: Name, port: Port): Record {
    FromRdata(SrvName(id, service), SRV(port, TargetName(id, port)))
  }

  function AddrRecord(target: Name, ip: Ip): Record {
    match ip
    case V4(bits) => FromRdata(target, A(bits))
    case V6(bits) => FromRdata(target, AAAA(bits))
  }

  // ---- grouping by port ----

  function Ports(addrs: seq<Addr>): set<Port> {
    set a | a in addrs :: a.port
  }

  function PortList(addrs: seq<Addr>): (r: seq<Port>)
    ensures forall p :: p in r <==> p in Ports(addrs)
  {
    PortOrder();
    var r := Enumerate(Ports(addrs), PortLe);
    assert forall p :: p in r <==> p in Elements(r);
    r
  }

  /** The addresses listening on `port`, in the order of the vector. */
  function IpsAt(addrs: seq<Addr>, port: Port): seq<Ip> {
    if addrs == [] then []
    else
      var n := |addrs| - 1;
      IpsAt(addrs[..n], port) + (if addrs[n].port == port then [addrs[n].ip] else [])
  }

  lemma {:induction false} IpsAtContain(addrs: seq<Addr>, port: Port, ip: Ip)
    ensures ip in IpsAt(addrs, port) <==> Addr(ip, port) in addrs
  {
    if addrs != [] {
      var n := |addrs| - 1;
      IpsAtContain(addrs[..n], port, ip);
      assert addrs == addrs[..n] + [addrs[n]];
    }
  }

  function AddrRecords(target: Name, ips: seq<Ip>): seq<Record> {
    if ips == [] then []
    else AddrRecords(target, ips[..|ips| - 1]) + [AddrRecord(target, ips[|ips| - 1])]
  }

  function SrvRecords(id: Str, service: Name, ports: seq<Port>): seq<Record> {
    if ports == [] then []
    else SrvRecords(id, service, ports[..|ports| - 1]) + [SrvRecord(id, service, ports[|ports| - 1])]
  }

  function Additionals(id: Str, addrs: seq<Addr>, ports: seq<Port>): seq<Record> {
    if ports == [] then []
    else
      var p := ports[|ports| - 1];
      Additionals(id, addrs, ports[..|ports| - 1]) + AddrRecords(TargetName(id, p), IpsAt(addrs, p))
  }

  // ---- TXT ----

  function EncodeTxt(keys: seq<Str>, txt: TxtData): seq<Str>
    requires forall k :: k in keys ==> k in txt
  {
    if keys == [] then []
    else
      var k := keys[|keys| - 1];
      EncodeTxt(keys[..|keys| - 1], txt) + (if k == [] then [] else [EncodeAttribute(k, txt[k])])
  }

  function TxtRecords(id: Str, service: Name, txt: TxtData): seq<Record> {
    if txt == map[] then []
    else [FromRdata(SrvName(id, service), TXT(EncodeTxt(StrList(txt.Keys), txt)))]
  }

  // ---- the packets ----

  function Response(id: Str, service: Name, own: Announced): Message {
    var ports := PortList(own.addrs);
    Message([], SrvRecords(id, service, ports) + TxtRecords(id, service, own.txt), Additionals(id, own.addrs, ports))
  }

  /** The cached response: none if there is no entry for the local peer. */
  function ResponseFor(id: Str, service: Name, own: Option<Announced>): Option<Message> {
    match own
    case None => None
    case Some(o) => Some(Response(id, service, o))
  }

  function MakeQuery(service: Name): Message {
    Message([Query(service, IN, PTR)], [], [])
  }

  lemma GroupStep(addrs: seq<Addr>, i: nat)
    requires i < |addrs|
    ensures Ports(addrs[..i + 1]) == Ports(addrs[..i]) + {addrs[i].port}
    ensures forall p :: IpsAt(addrs[..i + 1], p) == IpsAt(addrs[..i], p) + (if p == addrs[i].port then [addrs[i].ip] else [])
    ensures addrs[i].port !in Ports(addrs[..i]) ==> IpsAt(addrs[..i], addrs[i].port) == []
  {
    PrefixStep(addrs, i);
    PrefixStep(addrs, i);
    var ips := IpsAt(addrs[..i], addrs[i].port);
    if ips != [] {
      IpsAtContain(addrs[..i], addrs[i].port, ips[0]);
    }
  }

  /** The first loop of `make_response`: addresses grouped by port. */
  method GroupByPort(addrs: seq<Addr>) returns (srvMap: map<Port, seq<Ip>>)
    ensures srvMap.Keys == Ports(addrs)
    ensures forall p :: p in srvMap ==> srvMap[p] == IpsAt(addrs, p)
  {
    srvMap := map[];
    for i := 0 to |addrs|
      invariant srvMap.Keys == Ports(addrs[..i])
      invariant forall p :: p in srvMap ==> srvMap[p] == IpsAt(addrs[..i], p)
    {
      var a := addrs[i];
      var ips := if a.port in srvMap then srvMap[a.port] else [];
      GroupStep(addrs, i);
      srvMap := srvMap[a.port := ips + [a.ip]];
    }
    WholePrefix(addrs);
  }

  /** The address records of one target. */
  method AddressRecordsOf(target: Name, ips: seq<Ip>) returns (records: seq<Record>)
    ensures records == AddrRecords(target, ips)
  {
    records := [];
    for j := 0 to |ips|
      invariant records == AddrRecords(target, ips[..j])
    {
      records := records + [AddrRecord(target, ips[j])];
      PrefixStep(ips, j);
    }
    WholePrefix(ips);
  }

  method TxtParts(txt: TxtData) returns (parts: seq<Str>)
    ensures parts == EncodeTxt(StrList(txt.Keys), txt)
  {
    parts := [];
    var keys := StrList(txt.Keys);
    for i := 0 to |keys|
      invariant parts == EncodeTxt(keys[..i], txt)
    {
      var k := keys[i];
      if k != [] {
        parts := parts + [EncodeAttribute(k, txt[k])];
      }
      PrefixStep(keys, i);
    }
    WholePrefix(keys);
  }

  method MakeResponse(id: Str, service: Name, own: Option<Announced>) returns (response: Option<Message>)
    requires LabelId(id)
    ensures response == ResponseFor(id, service, own)
  {
    if own.None? {
      return None;
    }
    var peer := own.value;
    var srvName := SrvName(id, service);
    var srvMap := GroupByPort(peer.addrs);

    var ports := PortList(peer.addrs);
    var answers: seq<Record> := [];
    var additionals: seq<Record> := [];
    for i := 0 to |ports|
      invariant answers == SrvRecords(id, service, ports[..i])
      invariant additionals == Additionals(id, peer.addrs, ports[..i])
    {
      var port := ports[i];
      TargetLabelFits(id, port);
      var target := TargetName(id, port);
      answers := answers + [FromRdata(srvName, SRV(port, target))];
      var records := AddressRecordsOf(target, srvMap[port]);
      additionals := additionals + records;
      PrefixStep(ports, i);
    }
    WholePrefix(ports);

    if peer.txt != map[] {
      var parts := TxtParts(peer.txt);
      answers := answers + [FromRdata(srvName, TXT(parts))];
    } else {
      assert answers == answers + [];
    }
    assert answers == SrvRecords(id, service, ports) + TxtRecords(id, service, peer.txt);
    response := Some(Message([], answers, additionals));
  }

  // ---- which records the packet contains ----

  lemma {:induction false} SrvRecordsContain(id: Str, service: Name, ports: seq<Port>, r: Record)
    ensures r in SrvRecords(id, service, ports) <==> exists p :: p in ports && r == SrvRecord(id, service, p)
  {
    if ports != [] {
      var n := |ports| - 1;
      SrvRecordsContain(id, service, ports[..n], r);
      assert ports == ports[..n] + [ports[n]];
    }
  }

  lemma {:induction false} AddrRecordsContain(target: Name, ips: seq<Ip>, r: Record)
    ensures r in AddrRecords(target, ips) <==> exists ip :: ip in ips && r == AddrRecord(target, ip)
  {
    if ips != [] {
      var n := |ips| - 1;
      AddrRecordsContain(target, ips[..n], r);
      assert ips == ips[..n] + [ips[n]];
    }
  }

  lemma {:induction false} AdditionalsOnly(id: Str, addrs: seq<Addr>, ports: seq<Port>, r: Record)
    requires r in Additionals(id, addrs, ports)
    ensures exists a :: a in addrs && r == AddrRecord(TargetName(id, a.port), a.ip)
  {
    var n := |ports| - 1;
    var p := ports[n];
    if r in Additionals(id, addrs, ports[..n]) {
      AdditionalsOnly(id, addrs, ports[..n], r);
    } else {
      AddrRecordsContain(TargetName(id, p), IpsAt(addrs, p), r);
      var ip :| ip in IpsAt(addrs, p) && r == AddrRecord(TargetName(id, p), ip);
      IpsAtContain(addrs, p, ip);
      assert Addr(ip, p) in addrs;
    }
  }

  lemma {:induction false} AdditionalsAll(id: Str, addrs: seq<Addr>, ports: seq<Port>, a: Addr)
    requires a in addrs && a.port in ports
    ensures AddrRecord(TargetName(id, a.port), a.ip) in Additionals(id, addrs, ports)
  {
    var n := |ports| - 1;
    var r := AddrRecord(TargetName(id, a.port), a.ip);
    PrefixStep(ports, n);
    if a.port == ports[n] {
      IpsAtContain(addrs, a.port, a.ip);
      AddrRecordsContain(TargetName(id, a.port), IpsAt(addrs, a.port), r);
    } else {
      AdditionalsAll(id, addrs, ports[..n], a);
    }
  }

  // ---- the packet, record by record ----

  lemma PortListSize(addrs: seq<Addr>)
    ensures forall i, j :: 0 <= i < j < |PortList(addrs)| ==> PortList(addrs)[i] < PortList(addrs)[j]
    ensures |PortList(addrs)| == |Ports(addrs)|
  {
    PortOrder();
    DistinctSize(PortList(addrs));
    assert Elements(PortList(addrs)) == Ports(addrs);
  }

  lemma {:induction false} SrvRecordsSize(id: Str, service: Name, ports: seq<Port>)
    ensures |SrvRecords(id, service, ports)| == |ports|
  {
    if ports != [] {
      SrvRecordsSize(id, service, ports[..|ports| - 1]);
    }
  }

  lemma {:induction false} AddrRecordsSize(target: Name, ips: seq<Ip>)
    ensures |AddrRecords(target, ips)| == |ips|
  {
    if ips != [] {
      AddrRecordsSize(target, ips[..|ips| - 1]);
    }
  }

  /** How many of the addresses listen on one of the ports. */
  function Listening(addrs: seq<Addr>, ports: seq<Port>): nat {
    if addrs == [] then 0
    else Listening(addrs[..|addrs| - 1], ports) + if addrs[|addrs| - 1].port in ports then 1 else 0
  }

  lemma {:induction false} ListeningStep(addrs: seq<Addr>, ports: seq<Port>, n: nat)
    requires n < |ports| && forall i :: 0 <= i < n ==> ports[i] != ports[n]
    ensures Listening(addrs, ports[..n + 1]) == Listening(addrs, ports[..n]) + |IpsAt(addrs, ports[n])|
  {
    PrefixStep(ports, n);
    if addrs != [] {
      ListeningStep(addrs[..|addrs| - 1], ports, n);
    }
  }

  lemma {:induction false} ListeningNowhere(addrs: seq<Addr>)
    ensures Listening(addrs, []) == 0
  {
    if addrs != [] {
      ListeningNowhere(addrs[..|addrs| - 1]);
    }
  }

  lemma {:induction false} ListeningEverywhere(addrs: seq<Addr>, ports: seq<Port>)
    requires forall a :: a in addrs ==> a.port in ports
    ensures Listening(addrs, ports) == |addrs|
  {
    if addrs != [] {
      PrefixStep(addrs, |addrs| - 1);
      ListeningEverywhere(addrs[..|addrs| - 1], ports);
    }
  }

  lemma {:induction false} AdditionalsSize(id: Str, addrs: seq<Addr>, ports: seq<Port>)
    requires forall i, j :: 0 <= i < j < |ports| ==> ports[i] != ports[j]
    ensures |Additionals(id, addrs, ports)| == Listening(addrs, ports)
  {
    hide IpsAt, AddrRecords, Listening;
    if ports == [] {
      ListeningNowhere(addrs);
    } else {
      var n := |ports| - 1;
      AdditionalsSize(id, addrs, ports[..n]);
      AddrRecordsSize(TargetName(id, ports[n]), IpsAt(addrs, ports[n]));
      ListeningStep(addrs, ports, n);
      WholePrefix(ports);
    }
  }

  /** Attributes with a non-empty key are written one by one, as the key alone or as key, '=' and value. */
  lemma {:induction false} EncodedTxt(keys: seq<Str>, txt: TxtData)
    requires forall k :: k in keys ==> k in txt && k != []
    ensures |EncodeTxt(keys, txt)| == |keys|
    ensures forall i :: 0 <= i < |keys| ==>
      EncodeTxt(keys, txt)[i] == keys[i] + if txt[keys[i]].Some? then [EQUALS] + txt[keys[i]].value else []
  {
    if keys != [] {
      var n := |keys| - 1;
      PrefixStep(keys, n);
      EncodedTxt(keys[..n], txt);
      var k := keys[n];
      assert EncodeAttribute(k, txt[k]) == k + if txt[k].Some? then [EQUALS] + txt[k].value else [];
      assert forall i :: 0 <= i < n ==> EncodeTxt(keys, txt)[i] == EncodeTxt(keys[..n], txt)[i];
    }
  }

  /** The SRV record of a port. */
  ghost predicate IsSrvOf(r: Record, id: Str, service: Name, port: Port) {
    r == Record([id] + service, IN, SRV(port, [id + [DASH] + Decimal(port)] + LOCAL))
  }

  /** The address record of an address. */
  ghost predicate IsAddressOf(r: Record, id: Str, a: Addr) {
    r == Record([id + [DASH] + Decimal(a.port)] + LOCAL, IN, match a.ip case V4(bits) => A(bits) case V6(bits) => AAAA(bits))
  }

  /**
   The packet asks nothing; its answers are one SRV record per port and, if there are attributes, one
   TXT record with one string per attribute; its additionals are one address record per address.
   */
  lemma ResponseRecords(id: Str, service: Name, own: Announced)
    ensures var m, txt := Response(id, service, own), Record([id] + service, IN, TXT(EncodeTxt(StrList(own.txt.Keys), own.txt)));
      && m.queries == []
      && (forall r :: r in m.answers <==>
            (exists a :: a in own.addrs && IsSrvOf(r, id, service, a.port)) || (own.txt != map[] && r == txt))
      && |m.answers| == |Ports(own.addrs)| + (if own.txt == map[] then 0 else 1)
      && (forall r :: r in m.additionals <==> exists a :: a in own.addrs && IsAddressOf(r, id, a))
      && |m.additionals| == |own.addrs|
  {
    hide EncodeTxt, StrList;
    var ports := PortList(own.addrs);
    var m := Response(id, service, own);
    PortListSize(own.addrs);
    SrvRecordsSize(id, service, ports);
    AdditionalsSize(id, own.addrs, ports);
    ListeningEverywhere(own.addrs, ports);
    forall r ensures r in SrvRecords(id, service, ports) <==> exists a :: a in own.addrs && IsSrvOf(r, id, service, a.port) {
      SrvIsPerPort(id, service, own.addrs, r);
    }
    forall r ensures r in m.additionals <==> exists a :: a in own.addrs && IsAddressOf(r, id, a) {
      AdditionalIsPerAddress(id, own.addrs, r);
    }
  }

  lemma SrvIsPerPort(id: Str, service: Name, addrs: seq<Addr>, r: Record)
    ensures r in SrvRecords(id, service, PortList(addrs)) <==> exists a :: a in addrs && IsSrvOf(r, id, service, a.port)
  {
    hide Decimal;
    SrvRecordsContain(id, service, PortList(addrs), r);
    if a :| a in addrs && IsSrvOf(r, id, service, a.port) {
      assert a.port in PortList(addrs) && r == SrvRecord(id, service, a.port);
    }
  }

  lemma AdditionalIsPerAddress(id: Str, addrs: seq<Addr>, r: Record)
    ensures r in Additionals(id, addrs, PortList(addrs)) <==> exists a :: a in addrs && IsAddressOf(r, id, a)
  {
    hide Decimal, PortList;
    if r in Additionals(id, addrs, PortList(addrs)) {
      AdditionalsOnly(id, addrs, PortList(addrs), r);
      var a :| a in addrs && r == AddrRecord(TargetName(id, a.port), a.ip);
      assert IsAddressOf(r, id, a);
    }
    if a :| a in addrs && IsAddressOf(r, id, a) {
      AdditionalsAll(id, addrs, PortList(addrs), a);
    }
  }
}
