/**
 The local entry and its cached response as the code keeps them: the builder methods of
 `Discoverer` (src/lib.rs), `update_response` (src/sender.rs) and the routing of commands
 (src/guardian.rs).
 */
module Discovery {
  import opened Wrappers
  import opened Ordering
  import opened Text
  import opened Dns
  import opened Peers
  import opened Announcement
  import W = Response

  predicate ForInterface(c: Command) {
    c.AddInterface? || c.RemoveInterface?
  }

  /** What `update_response` returns for a command that leads to the entry `own`. */
  function UpdatedResponse(id: Str, service: Name, own: Option<Announced>, c: Command): Option<Message> {
    if ForInterface(c) then None else W.ResponseFor(id, service, own)
  }

  /**
   The cached response agrees with the entry after a command exactly if the command is not about
   interfaces or nothing is announced; this is why the guardian must not forward interface commands.
   */
  lemma CacheAgreesIff(id: Str, service: Name, own: Option<Announced>, c: Command)
    ensures UpdatedResponse(id, service, Apply(own, c), c) == W.ResponseFor(id, service, Apply(own, c))
            <==> (!ForInterface(c) || own.None?)
  {
    hide W.Response;
  }

  /** Several attributes set one after the other; an entry is created even if there are none. */
  function SetAll(own: Option<Announced>, attributes: seq<(Str, Option<Str>)>): Option<Announced> {
    if attributes == [] then Some(OrNothing(own))
    else
      var (k, v) := attributes[|attributes| - 1];
      Apply(SetAll(own, attributes[..|attributes| - 1]), SetTxt(k, v))
  }

  /** The i-th attribute is the last one with key k. */
  ghost predicate LastWith(attributes: seq<(Str, Option<Str>)>, k: Str, i: nat) {
    i < |attributes| && attributes[i].0 == k && forall j :: i < j < |attributes| ==> attributes[j].0 != k
  }

  ghost predicate Mentions(attributes: seq<(Str, Option<Str>)>, k: Str) {
    exists i :: 0 <= i < |attributes| && attributes[i].0 == k
  }

  /**
   The entry `t` is `own` with the attributes set: its addresses are the same, every key mentioned
   has the value of its last occurrence and every other key is as before.
   */
  ghost predicate AttributesSet(own: Option<Announced>, attributes: seq<(Str, Option<Str>)>, t: Option<Announced>) {
    && t.Some?
    && t.value.addrs == OrNothing(own).addrs
    && (forall k, i: nat :: LastWith(attributes, k, i) ==> k in t.value.txt && t.value.txt[k] == attributes[i].1)
    && (forall k :: !Mentions(attributes, k) ==>
          && (k in t.value.txt <==> k in OrNothing(own).txt)
          && (k in t.value.txt ==> t.value.txt[k] == OrNothing(own).txt[k]))
  }

  lemma {:induction false} SetAllMeans(own: Option<Announced>, attributes: seq<(Str, Option<Str>)>)
    ensures AttributesSet(own, attributes, SetAll(own, attributes))
  {
    if attributes != [] {
      var n := |attributes| - 1;
      var init := attributes[..n];
      var s, t := SetAll(own, init), SetAll(own, attributes);
      SetAllMeans(own, init);
      forall k, i: nat | LastWith(attributes, k, i)
        ensures k in t.value.txt && t.value.txt[k] == attributes[i].1
      {
        assert attributes[n].0 == k <==> i == n;
        if i < n {
          assert LastWith(init, k, i);
        }
      }
      forall k | !Mentions(attributes, k) ensures !Mentions(init, k) && k != attributes[n].0 {
        assert forall i :: 0 <= i < n ==> init[i] == attributes[i];
      }
    }
  }

  function Setting(attributes: seq<(Str, Option<Str>)>): seq<Command> {
    seq(|attributes|, i requires 0 <= i < |attributes| => SetTxt(attributes[i].0, attributes[i].1))
  }

  /** Setting attributes in the builder has the effect of the commands that set them one by one. */
  lemma {:induction false} SetAllIsHistory(h: seq<Command>, attributes: seq<(Str, Option<Str>)>)
    requires attributes != []
    ensures SetAll(After(h), attributes) == After(h + Setting(attributes))
  {
    var n := |attributes| - 1;
    var c := SetTxt(attributes[n].0, attributes[n].1);
    var init := Setting(attributes[..n]);
    assert Setting(attributes) == init + [c];
    assert h + Setting(attributes) == h + init + [c];
    assert (h + init + [c])[..|h + init|] == h + init;
    if n == 0 {
      assert h + init == h;
      assert Apply(Some(OrNothing(After(h))), c) == Apply(After(h), c);
    } else {
      SetAllIsHistory(h, attributes[..n]);
    }
  }

  ghost predicate FirstInvalid(attributes: seq<(Str, Option<Str>)>, i: nat) {
    && i < |attributes|
    && ValidateTxtAttribute(attributes[i].0, attributes[i].1).Err?
    && forall j :: 0 <= j < i ==> ValidateTxtAttribute(attributes[j].0, attributes[j].1).Ok?
  }

  function AddrsWith(ips: seq<Ip>, port: Port): (r: seq<Addr>)
    ensures Elements(r) == set ip | ip in ips :: Addr(ip, port)
  {
    if ips == [] then []
    else
      assert ips == [ips[0]] + ips[1..];
      var rest := AddrsWith(ips[1..], port);
      assert Elements([Addr(ips[0], port)] + rest) == {Addr(ips[0], port)} + Elements(rest);
      [Addr(ips[0], port)] + rest
  }

  /** `Vec::retain` on a strictly sorted vector. */
  method Retain(addrs: seq<Addr>, keep: Addr -> bool) returns (r: seq<Addr>)
    requires StrictlySorted(addrs, AddrLe)
    ensures r == Enum(set a | a in addrs && keep(a))
  {
    r := [];
    for i := 0 to |addrs|
      invariant StrictlySorted(r, AddrLe)
      invariant forall a :: a in r <==> a in addrs[..i] && keep(a)
    {
      PrefixStep(addrs, i);
      if keep(addrs[i]) {
        assert forall a :: a in r ==> AddrLe(a, addrs[i]) && a != addrs[i];
        r := r + [addrs[i]];
      }
    }
    WholePrefix(addrs);
    AddrOrder();
    SortedUnique(r, Enum(set a | a in addrs && keep(a)), AddrLe);
  }

  class Discoverer {
    const peerId: Str
    const service: Name
    var peers: map<Str, Peer>

    ghost predicate Valid()
      reads this
    {
      && LabelId(peerId)
      && peers.Keys <= {peerId}
      && (peerId in peers ==> StrictlySorted(peers[peerId].addrs, AddrLe))
    }

    function Own(): Option<Announced>
      reads this
    {
      if peerId in peers then Some(Announced(peers[peerId].addrs, peers[peerId].txt)) else None
    }

    constructor (service: Name, peerId: Str)
      requires LabelId(peerId)
      ensures Valid() && Own() == None
      ensures this.service == service && this.peerId == peerId
    {
      this.service, this.peerId, peers := service, peerId, map[];
    }

    /** The local entry, created if there is none. */
    function EntryOrNew(now: nat): Peer
      reads this
    {
      if peerId in peers then peers[peerId] else Peer([], now, map[])
    }

    method WithAddrs(port: Port, ips: seq<Ip>, now: nat)
      requires Valid()
      modifies this
      ensures Valid()
      ensures Own() == Apply(old(Own()), AddAddr(port, ips))
    {
      var me := EntryOrNew(now);
      var extended := me.addrs + AddrsWith(ips, port);
      var addrs := SortDedupAddrs(extended);
      assert Elements(extended) == Elements(me.addrs) + Elements(AddrsWith(ips, port));
      peers := peers[peerId := me.(addrs := addrs)];
    }

    method WithTxtAttributes(attributes: seq<(Str, Option<Str>)>, now: nat) returns (r: Result<(), TxtError>)
      requires Valid()
      modifies this
      ensures Valid()
      ensures r.Ok? ==> forall a :: a in attributes ==> ValidateTxtAttribute(a.0, a.1).Ok?
      ensures r.Ok? ==> AttributesSet(old(Own()), attributes, Own()) && Own() == SetAll(old(Own()), attributes)
      ensures r.Err? ==> exists i: nat :: FirstInvalid(attributes, i) && ValidateTxtAttribute(attributes[i].0, attributes[i].1) == r
    {
      peers := peers[peerId := EntryOrNew(now)];
      for i := 0 to |attributes|
        invariant Valid() && peerId in peers
        invariant forall j :: 0 <= j < i ==> ValidateTxtAttribute(attributes[j].0, attributes[j].1).Ok?
        invariant Own() == SetAll(old(Own()), attributes[..i])
      {
        var (key, value) := attributes[i];
        var check := ValidateTxtAttribute(key, value);
        if check.Err? {
          assert FirstInvalid(attributes, i);
          return check;
        }
        PrefixStep(attributes, i);
        var me := peers[peerId];
        peers := peers[peerId := me.(txt := me.txt[key := value])];
      }
      WholePrefix(attributes);
      SetAllMeans(old(Own()), attributes);
      return Ok(());
    }

    /** Adds addresses one at a time, sorting and deduplicating after each. */
    method PushAll(addrs: seq<Addr>, port: Port, ips: seq<Ip>) returns (r: seq<Addr>)
      requires StrictlySorted(addrs, AddrLe)
      ensures r == Enum(Elements(addrs) + set ip | ip in ips :: Addr(ip, port))
    {
      r := addrs;
      for i := 0 to |ips|
        invariant StrictlySorted(r, AddrLe)
        invariant Elements(r) == Elements(addrs) + set ip | ip in ips[..i] :: Addr(ip, port)
      {
        PrefixStep(ips, i);
        var a := Addr(ips[i], port);
        assert Elements(r + [a]) == Elements(r) + {a};
        r := SortDedupAddrs(r + [a]);
      }
      WholePrefix(ips);
      AddrOrder();
      SortedUnique(r, Enum(Elements(addrs) + set ip | ip in ips :: Addr(ip, port)), AddrLe);
    }

    /** The state change of a command. */
    method Execute(c: Command, now: nat)
      requires Valid()
      modifies this
      ensures Valid()
      ensures Own() == Apply(old(Own()), c)
    {
      match c {
        case RemoveAll =>
          peers := peers - {peerId};
        case RemovePort(port) =>
          if peerId in peers {
            var before := peers[peerId].addrs;
            var keep := (a: Addr) => a.port != port;
            var addrs := Retain(before, keep);
            assert (set a | a in before && keep(a)) == set a | a in before && a.port != port;
            peers := peers[peerId := peers[peerId].(addrs := addrs)];
          }
        case RemoveAddr(ip) =>
          if peerId in peers {
            var before := peers[peerId].addrs;
            var keep := (a: Addr) => a.ip != ip;
            var addrs := Retain(before, keep);
            assert (set a | a in before && keep(a)) == set a | a in before && a.ip != ip;
            peers := peers[peerId := peers[peerId].(addrs := addrs)];
          }
        case AddAddr(port, ips) =>
          var peer := EntryOrNew(now);
          var addrs := PushAll(peer.addrs, port, ips);
          peers := peers[peerId := peer.(addrs := addrs)];
        case SetTxt(key, value) =>
          var peer := EntryOrNew(now);
          peers := peers[peerId := peer.(txt := peer.txt[key := value])];
        case RemoveTxt(key) =>
          if peerId in peers {
            var peer := peers[peerId];
            peers := peers[peerId := peer.(txt := peer.txt - {key})];
          }
        case AddInterface(_) =>
        case RemoveInterface(_) =>
      }
    }

    method UpdateResponse(c: Command, now: nat) returns (response: Option<Message>)
      requires Valid()
      modifies this
      ensures Valid()
      ensures Own() == Apply(old(Own()), c)
      ensures response == UpdatedResponse(peerId, service, Own(), c)
    {
      hide Apply, W.Response;
      Execute(c, now);
      if ForInterface(c) || (c.RemoveTxt? && peerId !in peers) {
        return None;
      }
      response := MakeResponse();
    }

    method MakeResponse() returns (response: Option<Message>)
      requires Valid()
      ensures response == W.ResponseFor(peerId, service, Own())
    {
      response := W.MakeResponse(peerId, service, Own());
    }
  }

  // ---- the command interface and its routing ----

  /** `DropGuard::set_txt_attribute`: an invalid attribute is reported and not sent. */
  function SetTxtAttribute(key: Str, value: Option<Str>): (r: Result<Command, TxtError>)
    ensures r.Ok? ==> r.value == SetTxt(key, value) && (Strings(key, value) ==> Validated(r.value))
    ensures r == Err(EmptyKey) <==> key == []
    ensures r == Err(TooLong) <==> key != [] && |key| + (if value.Some? then |value.value| else 0) > 254
  {
    match ValidateTxtAttribute(key, value)
    case Ok(_) => Ok(SetTxt(key, value))
    case Err(e) => Err(e)
  }

  function Routed(inbox: seq<Command>): seq<Command> {
    if inbox == [] then []
    else
      var c := inbox[|inbox| - 1];
      Routed(inbox[..|inbox| - 1]) + (if ForInterface(c) then [] else [c])
  }

  class Guardian {
    var interfaceReceivers: set<Ip>

    constructor (initial: set<Ip>)
      ensures interfaceReceivers == initial
    {
      interfaceReceivers := initial;
    }

    /** One command; `started` says whether the sockets accepted a new interface. */
    method Handle(msg: Command, started: bool) returns (forward: bool)
      modifies this
      ensures forward == !ForInterface(msg)
      ensures interfaceReceivers ==
              if msg.AddInterface? && msg.added.V4? && started then old(interfaceReceivers) + {msg.added}
              else if msg.RemoveInterface? && msg.removed.V4? then old(interfaceReceivers) - {msg.removed}
              else old(interfaceReceivers)
    {
      match msg {
        case AddInterface(ip) =>
          if ip.V4? && started {
            interfaceReceivers := interfaceReceivers + {ip};
          }
          return false;
        case RemoveInterface(ip) =>
          if ip.V4? {
            interfaceReceivers := interfaceReceivers - {ip};
          }
          return false;
        case _ =>
          return true;
      }
    }

    /** The receive loop: what reaches the sender is the inbox without the interface commands. */
    method Run(inbox: seq<Command>, started: seq<bool>) returns (toSender: seq<Command>)
      requires |started| == |inbox|
      modifies this
      ensures toSender == Routed(inbox)
    {
      toSender := [];
      for i := 0 to |inbox|
        invariant toSender == Routed(inbox[..i])
      {
        PrefixStep(inbox, i);
        var forward := Handle(inbox[i], started[i]);
        if forward {
          toSender := toSender + [inbox[i]];
        }
      }
      WholePrefix(inbox);
    }
  }

  /** Interface commands leave no trace in the entry: replaying what was routed equals replaying everything. */
  lemma {:induction false} RoutingLosesNothing(inbox: seq<Command>)
    ensures After(Routed(inbox)) == After(inbox)
    ensures forall c :: c in Routed(inbox) ==> !ForInterface(c) && c in inbox
  {
    hide Apply;
    if inbox != [] {
      var n := |inbox| - 1;
      PrefixStep(inbox, n);
      RoutingLosesNothing(inbox[..n]);
      InterfaceCommandsDoNothing(After(inbox[..n]), inbox[n]);
      var r := Routed(inbox[..n]);
      assert (r + [inbox[n]])[..|r|] == r && r + [] == r;
    }
  }

  lemma InterfaceCommandsDoNothing(own: Option<Announced>, c: Command)
    ensures ForInterface(c) ==> Apply(own, c) == own
  {
  }
}
