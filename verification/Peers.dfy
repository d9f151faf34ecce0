/** Peers, their addresses and TXT attributes (src/lib.rs). */
module Peers {
  import opened Wrappers
  import opened Ordering
  import opened Text
  import opened Dns

  datatype Ip = V4(bits: nat) | V6(bits: nat)

  datatype Addr = Addr(ip: Ip, port: Port)

  type TxtData = map<Str, Option<Str>>

  datatype Peer = Peer(addrs: seq<Addr>, lastSeen: nat, txt: TxtData) {
    /** An expiry is reported as a peer without addresses. */
    predicate IsExpiry() {
      addrs == []
    }
  }

  // ---- the derived orders ----

  predicate IpLe(a: Ip, b: Ip) {
    match (a, b)
    case (V4(x), V4(y)) => x <= y
    case (V6(x), V6(y)) => x <= y
    case (V4(_), V6(_)) => true
    case (V6(_), V4(_)) => false
  }

  predicate AddrLe(a: Addr, b: Addr) {
    if a.ip == b.ip then a.port <= b.port else IpLe(a.ip, b.ip)
  }

  predicate PortLe(a: Port, b: Port) {
    a <= b
  }

  lemma AddrOrder()
    ensures TotalOrder(AddrLe)
  {
  }

  lemma PortOrder()
    ensures TotalOrder(PortLe)
  {
  }

  /** IPv4 comes before IPv6, then the address decides, then the port. */
  lemma AddrOrderMeans(x: nat, p: Port, y: nat, q: Port)
    ensures AddrLe(Addr(V4(x), p), Addr(V4(y), q)) <==> x < y || (x == y && p <= q)
    ensures AddrLe(Addr(V6(x), p), Addr(V6(y), q)) <==> x < y || (x == y && p <= q)
    ensures AddrLe(Addr(V4(x), p), Addr(V6(y), q)) && !AddrLe(Addr(V6(x), p), Addr(V4(y), q))
  {
  }

  /** A set of addresses as the strictly sorted vector that the code keeps. */
  function Enum(s: set<Addr>): (r: seq<Addr>)
    ensures StrictlySorted(r, AddrLe) && Elements(r) == s
    ensures forall a :: a in r <==> a in s
  {
    AddrOrder();
    var r := Enumerate(s, AddrLe);
    assert forall a :: a in r <==> a in Elements(r);
    r
  }

  /** `sort_unstable` followed by `dedup`. */
  method SortDedupAddrs(v: seq<Addr>) returns (r: seq<Addr>)
    ensures r == Enum(Elements(v))
  {
    AddrOrder();
    SortDedup(v, AddrLe);
    r := Dedup(Sort(v, AddrLe));
  }

  // ---- peer identifiers ----

  /**
   A peer identifier, as the label that stands for it in names: a string that leaves room for the
   longest "-PORT" suffix in a label.
   */
  predicate LabelId(id: Str) {
    1 <= |id| <= 57 && ValidUtf8(id)
  }

  // ---- TXT attributes ----

  datatype TxtError = EmptyKey | TooLong

  function ValueLength(value: Option<Str>): nat {
    match value
    case Some(v) => |v|
    case None => 0
  }

  /** `validate_txt_attribute`: the key must not be empty and the pair must not exceed 254 octets. */
  function ValidateTxtAttribute(key: Str, value: Option<Str>): Result<(), TxtError> {
    if key == [] then Err(EmptyKey)
    else if |key| + ValueLength(value) > 254 then Err(TooLong)
    else Ok(())
  }

  /** Key and value are Rust strings. */
  predicate Strings(key: Str, value: Option<Str>) {
    ValidUtf8(key) && (value.Some? ==> ValidUtf8(value.value))
  }

  ghost predicate ValidTxt(txt: TxtData) {
    forall k :: k in txt ==> Strings(k, txt[k]) && ValidateTxtAttribute(k, txt[k]).Ok?
  }

  /** The wire form of one attribute: the key alone, or key, '=' and value. */
  function EncodeAttribute(key: Str, value: Option<Str>): Str {
    match value
    case None => key
    case Some(v) => key + [EQUALS] + v
  }
}
