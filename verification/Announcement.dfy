/**
 What the local peer announces, and how the commands of the application change it
 (src/guardian.rs, src/sender.rs `update_response`).

 `After` replays a history of commands; `History` characterises its result without replaying:
 an address is announced exactly if some command added it and no later one removed it.
 */
module Announcement {
  import opened Wrappers
  import opened Ordering
  import opened Text
  import opened Dns
  import opened Peers

  datatype Command =
    | RemoveAll
    | RemovePort(port: Port)
    | RemoveAddr(ip: Ip)
    | AddAddr(addPort: Port, ips: seq<Ip>)
    | SetTxt(key: Str, value: Option<Str>)
    | RemoveTxt(removeKey: Str)
    | AddInterface(added: Ip)
    | RemoveInterface(removed: Ip)

  /** The entry of the local peer, without its unused time stamp. */
  datatype Announced = Announced(addrs: seq<Addr>, txt: TxtData)

  const NOTHING := Announced([], map[])

  function OrNothing(own: Option<Announced>): Announced {
    match own
    case Some(o) => o
    case None => NOTHING
  }

  /** The entry after one command. */
  function Apply(own: Option<Announced>, c: Command): Option<Announced> {
    match c
    case RemoveAll => None
    case RemovePort(port) =>
      if own.None? then None
      else Some(own.value.(addrs := Enum(set a | a in own.value.addrs && a.port != port)))
    case RemoveAddr(ip) =>
      if own.None? then None
      else Some(own.value.(addrs := Enum(set a | a in own.value.addrs && a.ip != ip)))
    case AddAddr(port, ips) =>
      var o := OrNothing(own);
      Some(o.(addrs := Enum(Elements(o.addrs) + set ip | ip in ips :: Addr(ip, port))))
    case SetTxt(key, value) =>
      var o := OrNothing(own);
      Some(o.(txt := o.txt[key := value]))
    case RemoveTxt(key) =>
      if own.None? then None
      else Some(own.value.(txt := own.value.txt - {key}))
    case AddInterface(_) => own
    case RemoveInterface(_) => own
  }

  function After(h: seq<Command>): Option<Announced> {
    if h == [] then None else Apply(After(h[..|h| - 1]), h[|h| - 1])
  }

  /** The command passed validation at the API before it was sent. */
  predicate Validated(c: Command) {
    c.SetTxt? ==> Strings(c.key, c.value) && ValidateTxtAttribute(c.key, c.value).Ok?
  }

  ghost predicate WellFormed(own: Option<Announced>) {
    own.Some? ==> StrictlySorted(own.value.addrs, AddrLe) && ValidTxt(own.value.txt)
  }

  lemma ApplyKeepsWellFormed(own: Option<Announced>, c: Command)
    requires WellFormed(own) && Validated(c)
    ensures WellFormed(Apply(own, c))
  {
  }

  lemma {:induction false} AfterIsWellFormed(h: seq<Command>)
    requires forall i :: 0 <= i < |h| ==> Validated(h[i])
    ensures WellFormed(After(h))
  {
    if h != [] {
      AfterIsWellFormed(h[..|h| - 1]);
      ApplyKeepsWellFormed(After(h[..|h| - 1]), h[|h| - 1]);
    }
  }

  // ---- the meaning of a history, stated without replaying it ----

  predicate AddsAddr(c: Command, a: Addr) {
    c.AddAddr? && c.addPort == a.port && a.ip in c.ips
  }

  predicate RemovesAddr(c: Command, a: Addr) {
    c == RemoveAll || c == RemovePort(a.port) || c == RemoveAddr(a.ip)
  }

  predicate Creates(c: Command) {
    c.AddAddr? || c.SetTxt?
  }

  predicate OverridesTxt(c: Command, k: Str) {
    c == RemoveAll || c == RemoveTxt(k) || (c.SetTxt? && c.key == k)
  }

  ghost predicate Announcing(h: seq<Command>) {
    exists i :: 0 <= i < |h| && Creates(h[i]) && forall j :: i < j < |h| ==> h[j] != RemoveAll
  }

  ghost predicate LastAdded(h: seq<Command>, a: Addr) {
    exists i :: 0 <= i < |h| && AddsAddr(h[i], a) && forall j :: i < j < |h| ==> !RemovesAddr(h[j], a)
  }

  ghost predicate LastSet(h: seq<Command>, k: Str, v: Option<Str>) {
    exists i :: 0 <= i < |h| && h[i] == SetTxt(k, v) && forall j :: i < j < |h| ==> !OverridesTxt(h[j], k)
  }

  lemma {:induction false} HistoryOfEntry(h: seq<Command>)
    ensures After(h).Some? <==> Announcing(h)
    ensures After(h).Some? ==> StrictlySorted(After(h).value.addrs, AddrLe)
  {
    if h != [] {
      var n := |h| - 1;
      HistoryOfEntry(h[..n]);
      AnnouncingSnoc(h[..n], h[n]);
      assert h == h[..n] + [h[n]];
    }
  }

  lemma {:induction false} HistoryOfAddress(h: seq<Command>, a: Addr)
    ensures LastAdded(h, a) <==> After(h).Some? && a in After(h).value.addrs
  {
    if h != [] {
      var n := |h| - 1;
      HistoryOfAddress(h[..n], a);
      LastAddedSnoc(h[..n], h[n], a);
      assert h == h[..n] + [h[n]];
      ghost var own := After(h[..n]);
      assert own.Some? ==> (a in own.value.addrs <==> a in Elements(own.value.addrs));
    }
  }

  lemma {:induction false} HistoryOfAttribute(h: seq<Command>, k: Str, v: Option<Str>)
    ensures LastSet(h, k, v) <==> After(h).Some? && k in After(h).value.txt && After(h).value.txt[k] == v
  {
    if h != [] {
      var n := |h| - 1;
      HistoryOfAttribute(h[..n], k, v);
      LastSetSnoc(h[..n], h[n], k, v);
      assert h == h[..n] + [h[n]];
    }
  }

  /** After any history, the entry is exactly what the history's last word on each item says. */
  lemma History(h: seq<Command>)
    ensures After(h).Some? <==> Announcing(h)
    ensures After(h).Some? ==> StrictlySorted(After(h).value.addrs, AddrLe)
    ensures forall a :: LastAdded(h, a) <==> After(h).Some? && a in After(h).value.addrs
    ensures forall k, v :: LastSet(h, k, v) <==> After(h).Some? && k in After(h).value.txt && After(h).value.txt[k] == v
  {
    HistoryOfEntry(h);
    forall a ensures LastAdded(h, a) <==> After(h).Some? && a in After(h).value.addrs { HistoryOfAddress(h, a); }
    forall k, v ensures LastSet(h, k, v) <==> After(h).Some? && k in After(h).value.txt && After(h).value.txt[k] == v {
      HistoryOfAttribute(h, k, v);
    }
  }

  lemma AnnouncingSnoc(g: seq<Command>, c: Command)
    ensures Announcing(g + [c]) <==> Creates(c) || (Announcing(g) && c != RemoveAll)
  {
    var h := g + [c];
    if Creates(c) {
      assert Creates(h[|g|]);
    } else if Announcing(g) && c != RemoveAll {
      var i :| 0 <= i < |g| && Creates(g[i]) && forall j :: i < j < |g| ==> g[j] != RemoveAll;
      assert Creates(h[i]);
    }
    if Announcing(h) && !Creates(c) {
      var i :| 0 <= i < |h| && Creates(h[i]) && forall j :: i < j < |h| ==> h[j] != RemoveAll;
      assert h[|g|] == c;
      assert Creates(g[i]);
      assert forall j :: i < j < |g| ==> h[j] == g[j];
    }
  }

  lemma LastAddedSnoc(g: seq<Command>, c: Command, a: Addr)
    ensures LastAdded(g + [c], a) <==> AddsAddr(c, a) || (LastAdded(g, a) && !RemovesAddr(c, a))
  {
    var h := g + [c];
    if AddsAddr(c, a) {
      assert AddsAddr(h[|g|], a);
    } else if LastAdded(g, a) && !RemovesAddr(c, a) {
      var i :| 0 <= i < |g| && AddsAddr(g[i], a) && forall j :: i < j < |g| ==> !RemovesAddr(g[j], a);
      assert AddsAddr(h[i], a);
    }
    if LastAdded(h, a) && !AddsAddr(c, a) {
      var i :| 0 <= i < |h| && AddsAddr(h[i], a) && forall j :: i < j < |h| ==> !RemovesAddr(h[j], a);
      assert h[|g|] == c;
      assert AddsAddr(g[i], a);
      assert forall j :: i < j < |g| ==> h[j] == g[j];
    }
  }

  lemma LastSetSnoc(g: seq<Command>, c: Command, k: Str, v: Option<Str>)
    ensures LastSet(g + [c], k, v) <==> c == SetTxt(k, v) || (LastSet(g, k, v) && !OverridesTxt(c, k))
  {
    var h := g + [c];
    if c == SetTxt(k, v) {
      assert h[|g|] == SetTxt(k, v);
    } else if LastSet(g, k, v) && !OverridesTxt(c, k) {
      var i :| 0 <= i < |g| && g[i] == SetTxt(k, v) && forall j :: i < j < |g| ==> !OverridesTxt(g[j], k);
      assert h[i] == SetTxt(k, v);
    }
    if LastSet(h, k, v) && c != SetTxt(k, v) {
      var i :| 0 <= i < |h| && h[i] == SetTxt(k, v) && forall j :: i < j < |h| ==> !OverridesTxt(h[j], k);
      assert h[|g|] == c;
      assert g[i] == SetTxt(k, v);
      assert forall j :: i < j < |g| ==> h[j] == g[j];
    }
  }
}
