/** The key of a rate-limited host, and the comparison that orders the host tree. */
module HostKey {
  import opened Octets

  /** Service name without its terminator, address family, and the bytes of the address that the
      family uses. */
  datatype Key = Key(service: seq<Byte>, family: int, addr: seq<Byte>) {
    ghost predicate Valid() {
      && (forall i :: 0 <= i < |service| ==> service[i] != 0)
      && |addr| == if family == AF_INET6 then 16 else 4
    }
  }

  type Host = k: Key | k.Valid() witness Key([], AF_INET, [0, 0, 0, 0])

  function Compare(a: Host, b: Host): int {
    var cmp := Bytes(a.service, b.service);
    if cmp == 0 then
      if a.family == b.family then Bytes(a.addr, b.addr)
      else if a.family < b.family then -1 else 1
    else cmp
  }

  /** `Compare` is a strict total order: two keys tie exactly when they are equal, swapping them flips
      the sign, and it is transitive. */
  lemma CompareIsTotal(a: Host, b: Host)
    ensures Compare(a, b) == 0 <==> a == b
    ensures Compare(a, b) < 0 <==> Compare(b, a) > 0
  {
    BytesOrder(a.service, b.service);
    BytesOrder(b.service, a.service);
    BytesOrder(a.addr, b.addr);
  }

  lemma CompareIsTransitive(a: Host, b: Host, c: Host)
    requires Compare(a, b) < 0 && Compare(b, c) < 0
    ensures Compare(a, c) < 0
  {
    BytesOrder(a.service, b.service);
    BytesOrder(b.service, c.service);
    if Bytes(a.service, b.service) < 0 && Bytes(b.service, c.service) < 0 {
      BytesTransitive(a.service, b.service, c.service);
    } else if a.service == b.service == c.service && a.family == b.family == c.family {
      BytesTransitive(a.addr, b.addr, c.addr);
    }
  }
}
