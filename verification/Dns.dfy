/** The parts of a DNS message that the discovery protocol reads and writes. */
module Dns {
  import opened Text

  type Name = seq<Str>

  type Port = p: int | 0 <= p < 65536

  datatype Class = IN | OtherClass

  datatype RecordType = PTR | OtherType

  datatype RData =
    | SRV(port: Port, target: Name)
    | A(v4: nat)
    | AAAA(v6: nat)
    | TXT(strings: seq<Str>)
    | OtherData

  datatype Record = Record(name: Name, dnsClass: Class, data: RData)

  datatype Query = Query(name: Name, queryClass: Class, queryType: RecordType)

  datatype Message = Message(queries: seq<Query>, answers: seq<Record>, additionals: seq<Record>)

  /** "local", the domain of all SRV targets. */
  const LOCAL: Name := [[108, 111, 99, 97, 108]]

  const MAX_LABEL := 63

  predicate ValidLabel(l: Str) {
    1 <= |l| <= MAX_LABEL
  }

  /** Names compare without regard to ASCII case; this is the representative of a class of equal names. */
  function FoldName(n: Name): Name {
    seq(|n|, i requires 0 <= i < |n| => FoldLabel(n[i]))
  }

  predicate SameName(a: Name, b: Name) {
    FoldName(a) == FoldName(b)
  }

  lemma SameNameMeans(a: Name, b: Name)
    ensures SameName(a, b) <==> |a| == |b| && forall i :: 0 <= i < |a| ==> SameLabel(a[i], b[i])
  {
    if SameName(a, b) {
      assert |FoldName(a)| == |a| == |b|;
    }
    forall i | 0 <= i < |a| && i < |b| ensures FoldName(a)[i] == FoldName(b)[i] <==> SameLabel(a[i], b[i]) {
      FoldLabelMeans(a[i], b[i]);
    }
  }

  /** Labels of the same length whose bytes are equal or the same letter in either case. */
  predicate SameLabel(a: Str, b: Str) {
    |a| == |b| && forall j :: 0 <= j < |a| ==> SameLetter(a[j], b[j])
  }

  /** The name without its first label; the root is its own base. */
  function BaseName(n: Name): Name {
    if n == [] then [] else n[1..]
  }

  function FromRdata(name: Name, data: RData): Record {
    Record(name, IN, data)
  }
}
