/** The bytes that the C sources work on, their dictionary order, and the address families they name. */
module Octets {
  type Byte = b: int | 0 <= b < 256

  const AF_UNSPEC := 0
  const AF_INET := 2
  const AF_INET6 := 23

  /** Byte by byte, a proper prefix first: what `strcmp` does on terminated strings and `memcmp` on
      blocks of one length. */
  function Bytes(a: seq<Byte>, b: seq<Byte>): int {
    if a == [] then (if b == [] then 0 else -1)
    else if b == [] then 1
    else if a[0] != b[0] then a[0] - b[0]
    else Bytes(a[1..], b[1..])
  }

  lemma {:induction false} BytesOrder(a: seq<Byte>, b: seq<Byte>)
    ensures Bytes(a, b) == 0 <==> a == b
    ensures Bytes(a, b) < 0 <==> Bytes(b, a) > 0
  {
    if a != [] && b != [] {
      BytesOrder(a[1..], b[1..]);
      assert a[0] == b[0] && a[1..] == b[1..] ==> a == [a[0]] + a[1..] == b;
    }
  }

  lemma {:induction false} BytesTransitive(a: seq<Byte>, b: seq<Byte>, c: seq<Byte>)
    requires Bytes(a, b) < 0 && Bytes(b, c) < 0
    ensures Bytes(a, c) < 0
  {
    if a != [] && b != [] && c != [] && a[0] == b[0] == c[0] {
      BytesTransitive(a[1..], b[1..], c[1..]);
    }
  }
}
