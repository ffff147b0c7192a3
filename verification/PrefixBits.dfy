/** Network addresses and prefixes, down to the single bit.  Bit 0 is the highest bit of the first byte,
    as in section 3.1 of RFC 4632 and section 2.3 of RFC 4291. */
module PrefixBits {
  import opened Octets

  const SUCCESS := 1
  const ERROR := -1

  /** An address: its family, the four and the sixteen bytes it may use, and its zone. */
  datatype NetAddr = NetAddr(family: int, v4: seq<Byte>, v6: seq<Byte>, zone: nat) {
    ghost predicate Valid() {
      |v4| == 4 && |v6| == 16
    }

    predicate Internet() {
      family == AF_INET || family == AF_INET6
    }

    /** The bytes that count. */
    function Bytes(): seq<Byte> {
      if family == AF_INET then v4 else v6
    }
  }

  const NO_ADDR := NetAddr(AF_UNSPEC, [0, 0, 0, 0], [0, 0, 0, 0, 0, 0, 0, 0, 0, 0, 0, 0, 0, 0, 0, 0], 0)

  type Addr = a: NetAddr | a.Valid() witness NO_ADDR

  // ---- bits ----------------------------------------------------------------------------------

  function Pow2(k: nat): (p: nat)
    ensures p >= 1
  {
    if k == 0 then 1 else 2 * Pow2(k - 1)
  }

  /** `b` shifted right by `k`. */
  function Shr(b: nat, k: nat): nat {
    if k == 0 then b else Shr(b, k - 1) / 2
  }

  /** The `k` lowest bits of `b`. */
  function LowBits(b: nat, k: nat): nat {
    if k == 0 then 0 else LowBits(b, k - 1) + Shr(b, k - 1) % 2 * Pow2(k - 1)
  }

  /** Shifting and masking split a number. */
  lemma {:induction false} ShrAndLowBits(b: nat, k: nat)
    ensures b == Shr(b, k) * Pow2(k) + LowBits(b, k) && LowBits(b, k) < Pow2(k)
  {
    if k > 0 {
      ShrAndLowBits(b, k - 1);
      OneMoreBit(Shr(b, k - 1) / 2, Shr(b, k - 1) % 2, Pow2(k - 1), LowBits(b, k - 1));
    }
  }

  lemma OneMoreBit(x: nat, y: nat, p: nat, low: nat)
    requires y < 2 && low < p
    ensures (2 * x + y) * p + low == x * (2 * p) + (low + y * p) && low + y * p < 2 * p
  {
  }

  /** Bit `j` of a byte; the highest is number 0. */
  function BitOf(b: Byte, j: nat): nat
    requires j < 8
  {
    Shr(b, 7 - j) % 2
  }

  function Bit(s: seq<Byte>, i: nat): nat
    requires i < 8 * |s|
  {
    BitOf(s[i / 8], i % 8)
  }

  /** The `n` highest bits of a byte, as a number. */
  function High(b: Byte, n: nat): nat
    requires n <= 8
  {
    Shr(b, 8 - n)
  }

  /** The others. */
  function Low(b: Byte, n: nat): nat
    requires n <= 8
  {
    LowBits(b, 8 - n)
  }

  lemma ByteShiftsOut(b: Byte)
    ensures High(b, 0) == 0 && High(b, 8) == b
  {
    assert Shr(b, 2) == Shr(b, 1) / 2 && Shr(b, 1) == b / 2;
    assert Shr(b, 4) == Shr(b, 3) / 2 && Shr(b, 3) == Shr(b, 2) / 2;
    assert Shr(b, 6) == Shr(b, 5) / 2 && Shr(b, 5) == Shr(b, 4) / 2;
    assert Shr(b, 8) == Shr(b, 7) / 2 && Shr(b, 7) == Shr(b, 6) / 2;
  }

  /** The high bits are equal exactly when they are equal one by one. */
  lemma {:induction false} HighBitsAgree(a: Byte, b: Byte, n: nat)
    requires n <= 8
    ensures High(a, n) == High(b, n) <==> forall j :: 0 <= j < n ==> BitOf(a, j) == BitOf(b, j)
  {
    if n == 0 {
      ByteShiftsOut(a);
      ByteShiftsOut(b);
    } else {
      HighBitsAgree(a, b, n - 1);
      assert High(a, n) == 2 * High(a, n - 1) + BitOf(a, n - 1);
      assert High(b, n) == 2 * High(b, n - 1) + BitOf(b, n - 1);
    }
  }

  /** The low bits are all zero exactly when each one is. */
  lemma {:induction false} LowBitsZero(b: Byte, n: nat)
    requires n <= 8
    ensures Low(b, n) == 0 <==> forall j :: n <= j < 8 ==> BitOf(b, j) == 0
    decreases 8 - n
  {
    if n < 8 {
      LowBitsZero(b, n + 1);
      assert Low(b, n) == Low(b, n + 1) + BitOf(b, n) * Pow2(7 - n);
      assert BitOf(b, n) == 0 || BitOf(b, n) == 1;
    }
  }

  /** Bytes are equal exactly when their bits are. */
  lemma ByteIsItsBits(a: Byte, b: Byte)
    ensures a == b <==> forall j :: 0 <= j < 8 ==> BitOf(a, j) == BitOf(b, j)
  {
    HighBitsAgree(a, b, 8);
    ByteShiftsOut(a);
    ByteShiftsOut(b);
  }

  // ---- masks ---------------------------------------------------------------------------------

  lemma CountsUp(x: bv8)
    requires x as int < 255
    ensures (x + 1) as int == x as int + 1
  {
  }

  /** The byte as a machine word: the word that is the same number. */
  function Word(b: nat): (x: bv8)
    requires b < 256
    ensures x as int == b
  {
    if b == 0 then 0
    else
      CountsUp(Word(b - 1));
      Word(b - 1) + 1
  }

  function Leading(x: bv8, n: nat): bv8
    requires n <= 8
  {
    x & (0xFF << (8 - n))
  }

  function Trailing(x: bv8, n: nat): bv8
    requires n <= 8
  {
    x & (0xFF >> n)
  }

  function Right(x: bv8, k: nat): bv8
    requires k <= 8
  {
    x >> k
  }

  /** What masking with `0xFF << (8 - n)` leaves: the `n` highest bits, where they are. */
  function Kept(b: Byte, n: nat): bv8
    requires n <= 8
  {
    Leading(Word(b), n)
  }

  /** What masking with `0xFF >> n` leaves: the others. */
  function Dropped(b: Byte, n: nat): bv8
    requires n <= 8
  {
    Trailing(Word(b), n)
  }

  predicate Odd(x: bv8) {
    x & 1 != 0
  }

  lemma Halved(x: bv8)
    ensures (x >> 1) as int == x as int / 2 && (Odd(x) <==> x as int % 2 != 0)
  {
  }

  lemma ShiftedOnce(x: bv8, k: nat)
    requires 0 < k <= 8
    ensures Right(x, k) == Right(x, k - 1) >> 1
  {
    if k == 1 {} else if k == 2 {} else if k == 3 {} else if k == 4 {} else if k == 5 {} else if k == 6 {} else if k == 7 {} else {}
  }

  lemma NotShifted(x: bv8)
    ensures Right(x, 0) == x && Left(x, 0) == x && Trailing(x, 8) == 0
  {
  }

  /** Shifting to the right is halving. */
  lemma {:induction false} ShrIsShift(x: bv8, k: nat)
    requires k <= 8
    ensures Right(x, k) as int == Shr(x as int, k)
  {
    hide Right;
    if k == 0 {
      NotShifted(x);
    } else {
      ShrIsShift(x, k - 1);
      ShiftedOnce(x, k);
      Halved(Right(x, k - 1));
    }
  }

  function Left(x: bv8, k: nat): bv8
    requires k <= 8
  {
    x << k
  }

  /** Masking off the low bits is shifting them out and back. */
  lemma LeadingIsShifts(x: bv8, n: nat)
    requires n <= 8
    ensures Leading(x, n) == Left(Right(x, 8 - n), 8 - n)
  {
    if n == 0 {} else if n == 1 {} else if n == 2 {} else if n == 3 {} else if n == 4 {} else if n == 5 {} else if n == 6 {} else if n == 7 {} else {}
  }

  lemma LeftOnce(x: bv8, k: nat)
    requires 0 < k <= 8
    ensures Left(x, k) == Left(x, k - 1) << 1
  {
    if k == 1 {} else if k == 2 {} else if k == 3 {} else if k == 4 {} else if k == 5 {} else if k == 6 {} else if k == 7 {} else {}
  }

  lemma Doubled(x: bv8)
    requires x as int < 128
    ensures (x << 1) as int == 2 * (x as int)
  {
  }

  lemma LeftDoubles(x: bv8, k: nat)
    requires 0 < k <= 8 && Left(x, k - 1) as int < 128
    ensures Left(x, k) as int == 2 * (Left(x, k - 1) as int)
  {
    hide Left;
    LeftOnce(x, k);
    Doubled(Left(x, k - 1));
  }

  /** Shifting to the left is doubling, while nothing is shifted out. */
  lemma {:induction false} LeftIsTimes(x: bv8, b: nat, k: nat)
    requires k <= 8 && x as int == b && b * Pow2(k) < 256
    ensures Left(x, k) as int == b * Pow2(k)
  {
    hide Left;
    if k == 0 {
      NotShifted(x);
    } else {
      Twice(b, Pow2(k - 1));
      LeftIsTimes(x, b, k - 1);
      LeftDoubles(x, k);
    }
  }

  lemma SameWord(x: bv8, y: bv8)
    ensures x == y <==> x as int == y as int
  {
  }

  lemma OneBitLess(x: bv8, n: nat)
    requires n < 8
    ensures Trailing(x, n) == 0 <==> Trailing(x, n + 1) == 0 && !Odd(Right(x, 7 - n))
  {
    if n == 0 {} else if n == 1 {} else if n == 2 {} else if n == 3 {} else if n == 4 {} else if n == 5 {} else if n == 6 {} else {}
  }

  lemma BitOfWord(b: Byte, j: nat)
    requires j < 8
    ensures Odd(Right(Word(b), 7 - j)) <==> BitOf(b, j) != 0
  {
    hide Word, Shr, Right;
    ShrIsShift(Word(b), 7 - j);
    Halved(Right(Word(b), 7 - j));
  }

  lemma LeadingIs(b: Byte, n: nat)
    requires n <= 8
    ensures Kept(b, n) as int == High(b, n) * Pow2(8 - n)
  {
    hide Word, Shr, Leading, Right, Left, Pow2;
    LeadingIsShifts(Word(b), n);
    ShrIsShift(Word(b), 8 - n);
    ShrAndLowBits(b, 8 - n);
    LeftIsTimes(Right(Word(b), 8 - n), High(b, n), 8 - n);
  }

  lemma SameMultiple(x: nat, y: nat, p: nat)
    requires p > 0
    ensures x * p == y * p <==> x == y
  {
    if x < y { assert x * p + p <= y * p by { assert (x + 1) * p <= y * p; } }
    if y < x { assert y * p + p <= x * p by { assert (y + 1) * p <= x * p; } }
  }

  /** Masked bytes are equal exactly when their high bits are. */
  lemma KeptIsHigh(a: Byte, b: Byte, n: nat)
    requires n <= 8
    ensures Kept(a, n) == Kept(b, n) <==> High(a, n) == High(b, n)
  {
    hide Kept, High;
    LeadingIs(a, n);
    LeadingIs(b, n);
    SameWord(Kept(a, n), Kept(b, n));
    SameMultiple(High(a, n), High(b, n), Pow2(8 - n));
  }

  /** Nothing is left by the other mask exactly when the low bits are zero. */
  lemma {:induction false} DroppedIsLow(b: Byte, n: nat)
    requires n <= 8
    ensures Dropped(b, n) == 0 <==> Low(b, n) == 0
    decreases 8 - n
  {
    hide Word, Shr, Right, Trailing, Odd;
    if n < 8 {
      DroppedIsLow(b, n + 1);
      OneBitLess(Word(b), n);
      BitOfWord(b, n);
      LowBitsZero(b, n);
      LowBitsZero(b, n + 1);
    } else {
      NotShifted(Word(b));
    }
  }

  // ---- equal prefixes ------------------------------------------------------------------------

  /** The first `n` bits agree. */
  ghost predicate SameBits(a: seq<Byte>, b: seq<Byte>, n: nat)
    requires n <= 8 * |a| && n <= 8 * |b|
  {
    forall i :: 0 <= i < n ==> Bit(a, i) == Bit(b, i)
  }

  lemma WholeBytesAgree(a: seq<Byte>, b: seq<Byte>, n: nat)
    requires n <= |a| && n <= |b|
    ensures a[..n] == b[..n] <==> SameBits(a, b, 8 * n)
  {
    if a[..n] == b[..n] {
      forall i | 0 <= i < 8 * n ensures Bit(a, i) == Bit(b, i) {
        assert a[..n][i / 8] == b[..n][i / 8];
      }
    }
    if SameBits(a, b, 8 * n) {
      forall k | 0 <= k < n ensures a[k] == b[k] {
        forall j | 0 <= j < 8 ensures BitOf(a[k], j) == BitOf(b[k], j) {
          assert (8 * k + j) / 8 == k && (8 * k + j) % 8 == j;
          assert Bit(a, 8 * k + j) == Bit(b, 8 * k + j);
        }
        ByteIsItsBits(a[k], b[k]);
      }
    }
  }

  lemma PartByteAgrees(a: seq<Byte>, b: seq<Byte>, k: nat, n: nat)
    requires k < |a| && k < |b| && n < 8
    ensures Kept(a[k], n) == Kept(b[k], n) <==> forall i :: 8 * k <= i < 8 * k + n ==> Bit(a, i) == Bit(b, i)
  {
    KeptIsHigh(a[k], b[k], n);
    HighBitsAgree(a[k], b[k], n);
    if forall i :: 8 * k <= i < 8 * k + n ==> Bit(a, i) == Bit(b, i) {
      forall j | 0 <= j < n ensures BitOf(a[k], j) == BitOf(b[k], j) {
        assert (8 * k + j) / 8 == k && (8 * k + j) % 8 == j;
        assert Bit(a, 8 * k + j) == Bit(b, 8 * k + j);
      }
    }
  }

  /** Whole bytes first, then the byte they end in, masked. */
  predicate EqLeading(a: seq<Byte>, b: seq<Byte>, n: nat)
    requires |a| == |b| && n <= 8 * |a|
    ensures EqLeading(a, b, n) <==> SameBits(a, b, n)
  {
    var nbytes, nbits := n / 8, n % 8;
    WholeBytesAgree(a, b, nbytes);
    if nbits > 0 then
      PartByteAgrees(a, b, nbytes, nbits);
      a[..nbytes] == b[..nbytes] && Kept(a[nbytes], nbits) == Kept(b[nbytes], nbits)
    else a[..nbytes] == b[..nbytes]
  }

  function Width(a: NetAddr): nat {
    if a.family == AF_INET then 32 else 128
  }

  function Cap(n: nat, width: nat): nat {
    if n > width then width else n
  }

  /** Both are internet addresses of one family whose first bits agree, as far as they go. */
  predicate EqPrefix(a: Addr, b: Addr, prefixlen: nat)
    ensures EqPrefix(a, b, prefixlen) <==>
            a.family == b.family && a.Internet() && SameBits(a.Bytes(), b.Bytes(), Cap(prefixlen, Width(a)))
  {
    a.family == b.family && a.Internet() && EqLeading(a.Bytes(), b.Bytes(), Cap(prefixlen, Width(a)))
  }

  /** A prefix of the address table: like an address, but without a zone. */
  datatype Prefix = Prefix(family: int, sin: seq<Byte>, sin6: seq<Byte>)

  ghost predicate IsPrefix(p: Prefix) {
    |p.sin| == 4 && |p.sin6| == 16
  }

  /** The comparison for the address table gives what the one for addresses gives. */
  predicate ComparePrefix(a: Prefix, b: Prefix, prefixlen: nat)
    requires IsPrefix(a) && IsPrefix(b)
    ensures ComparePrefix(a, b, prefixlen) <==>
            EqPrefix(NetAddr(a.family, a.sin, a.sin6, 0), NetAddr(b.family, b.sin, b.sin6, 0), prefixlen)
  {
    if a.family != b.family then false
    else if a.family == AF_INET then EqLeading(a.sin, b.sin, Cap(prefixlen, 32))
    else if a.family == AF_INET6 then EqLeading(a.sin6, b.sin6, Cap(prefixlen, 128))
    else false
  }

  /** Addresses compare equal: the same family, bytes and, in version 6, zone. */
  predicate Equal(a: Addr, b: Addr) {
    && a.family == b.family
    && (a.Internet() || a.family == AF_UNSPEC)
    && (a.family == AF_INET ==> a.v4 == b.v4)
    && (a.family == AF_INET6 ==> a.v6 == b.v6 && a.zone == b.zone)
  }

  /** Equal addresses have the same bits, and in version 6 the same zone; addresses of other families are never
      equal, but for unspecified ones. */
  lemma EqualIsBitwise(a: Addr, b: Addr)
    ensures Equal(a, b) <==>
      a.family == b.family
      && (if a.family == 2 then SameBits(a.v4, b.v4, 32)
          else if a.family == 23 then SameBits(a.v6, b.v6, 128) && a.zone == b.zone
          else a.family == 0)
  {
    WholeBytesAgree(a.v4, b.v4, 4);
    WholeBytesAgree(a.v6, b.v6, 16);
    assert a.v4[..4] == a.v4 && b.v4[..4] == b.v4 && a.v6[..16] == a.v6 && b.v6[..16] == b.v6;
  }

  // ---- host bits -----------------------------------------------------------------------------

  /** No bit is set from bit `n` on. */
  ghost predicate NoBitsFrom(s: seq<Byte>, n: nat) {
    forall i :: n <= i < 8 * |s| ==> Bit(s, i) == 0
  }

  lemma ZeroByte(b: Byte)
    ensures b == 0 <==> forall j :: 0 <= j < 8 ==> BitOf(b, j) == 0
  {
    LowBitsZero(b, 0);
    ShrAndLowBits(b, 8);
    ByteShiftsOut(b);
  }

  lemma ZeroTail(s: seq<Byte>, k: nat)
    requires k <= |s|
    ensures (forall m :: k <= m < |s| ==> s[m] == 0) <==> NoBitsFrom(s, 8 * k)
  {
    if forall m :: k <= m < |s| ==> s[m] == 0 {
      forall i | 8 * k <= i < 8 * |s| ensures Bit(s, i) == 0 {
        ZeroByte(s[i / 8]);
      }
    }
    if NoBitsFrom(s, 8 * k) {
      forall m | k <= m < |s| ensures s[m] == 0 {
        forall j | 0 <= j < 8 ensures BitOf(s[m], j) == 0 {
          assert (8 * m + j) / 8 == m && (8 * m + j) % 8 == j;
          assert Bit(s, 8 * m + j) == 0;
        }
        ZeroByte(s[m]);
      }
    }
  }

  lemma PartByteZero(s: seq<Byte>, k: nat, n: nat)
    requires k < |s| && n < 8
    ensures Dropped(s[k], n) == 0 <==> forall i :: 8 * k + n <= i < 8 * k + 8 ==> Bit(s, i) == 0
  {
    DroppedIsLow(s[k], n);
    LowBitsZero(s[k], n);
    if forall i :: 8 * k + n <= i < 8 * k + 8 ==> Bit(s, i) == 0 {
      forall j | n <= j < 8 ensures BitOf(s[k], j) == 0 {
        assert (8 * k + j) / 8 == k && (8 * k + j) % 8 == j;
        assert Bit(s, 8 * k + j) == 0;
      }
    }
  }

  /** The prefix is in range and leaves no host bits set. */
  method PrefixOk(na: Addr, prefixlen: nat) returns (r: int)
    ensures r == SUCCESS || r == ERROR
    ensures r == SUCCESS <==> na.Internet() && prefixlen <= Width(na) && NoBitsFrom(na.Bytes(), prefixlen)
  {
    if !na.Internet() || prefixlen > Width(na) {
      return ERROR;
    }
    var p := na.Bytes();
    var nbytes, nbits := prefixlen / 8, prefixlen % 8;
    if nbits != 0 {
      PartByteZero(p, nbytes, nbits);
      ZeroTail(p, nbytes + 1);
      if Dropped(p[nbytes], nbits) != 0 {
        return ERROR;
      }
      nbytes := nbytes + 1;
    } else {
      ZeroTail(p, nbytes);
    }
    for i := nbytes to |p|
      invariant forall m :: nbytes <= m < i ==> p[m] == 0
    {
      if p[i] != 0 {
        return ERROR;
      }
    }
    return SUCCESS;
  }

  /** Networks are told apart by their prefixes: two addresses of version 4 without host bits that agree
      on the prefix are equal; in version 6 the zone must agree too. */
  lemma PrefixesDetermineNetworks(a: Addr, b: Addr, n: nat)
    requires a.Internet() && n <= Width(a) && NoBitsFrom(a.Bytes(), n) && NoBitsFrom(b.Bytes(), n)
    requires EqPrefix(a, b, n)
    ensures Equal(a, b) <==> a.family == AF_INET || a.zone == b.zone
  {
    var x, y := a.Bytes(), b.Bytes();
    forall i | 0 <= i < Width(a) ensures Bit(x, i) == Bit(y, i) {}
    WholeBytesAgree(x, y, |x|);
    assert x[..|x|] == x && y[..|y|] == y;
  }

  // ---- masks ---------------------------------------------------------------------------------

  /** `n` ones, then zeros. */
  ghost predicate IsMask(s: seq<Byte>, n: nat) {
    n <= 8 * |s| && forall i :: 0 <= i < 8 * |s| ==> Bit(s, i) == if i < n then 1 else 0
  }

  lemma MaskLengthIsUnique(s: seq<Byte>, n: nat, m: nat)
    requires IsMask(s, n) && IsMask(s, m)
    ensures n == m
  {
    var k := if n < m then n else m;
    assert k == 8 * |s| || Bit(s, k) == 0;
  }

  /** A one behind a zero: no mask. */
  lemma NoMask(s: seq<Byte>, i: nat, j: nat)
    requires i < j < 8 * |s| && Bit(s, i) == 0 && Bit(s, j) == 1
    ensures forall n :: !IsMask(s, n)
  {
  }

  lemma Twice(x: nat, y: nat)
    ensures x * (2 * y) == 2 * (x * y)
  {
  }

  lemma {:induction false} ShrDoubled(x: nat, k: nat)
    ensures Shr(2 * x, k + 1) == Shr(x, k) && LowBits(2 * x, k + 1) == 2 * LowBits(x, k)
  {
    if k > 0 {
      ShrDoubled(x, k - 1);
      Twice(Shr(x, k - 1) % 2, Pow2(k - 1));
    }
  }

  /** After `n` shifts to the left, bit 7 is the byte's bit `n`, and its low eight bits are zero exactly
      when the byte's bits from `n` on are. */
  lemma {:induction false} Shifted(b: Byte, c: nat, n: nat)
    requires n <= 8 && c == b * Pow2(n)
    ensures n < 8 ==> Shr(c, 7) % 2 == BitOf(b, n)
    ensures LowBits(c, 8) == 0 <==> Low(b, n) == 0
  {
    ShiftedBy(b, n, 7);
    ShiftedBy(b, n, 8);
  }

  lemma {:induction false} ShiftedBy(b: nat, n: nat, k: nat)
    requires n <= k + 1
    ensures n <= k ==> Shr(b * Pow2(n), k) == Shr(b, k - n) && (LowBits(b * Pow2(n), k) == 0 <==> LowBits(b, k - n) == 0)
    decreases n
  {
    if 0 < n <= k {
      var x := b * Pow2(n - 1);
      assert b * Pow2(n) == 2 * x;
      ShrDoubled(x, k - 1);
      ShiftedBy(b, n - 1, k - 1);
    }
  }

  lemma FullByte(b: Byte)
    ensures b == 255 <==> forall j :: 0 <= j < 8 ==> BitOf(b, j) == 1
  {
    ByteIsItsBits(b, 255);
    assert Shr(255, 1) == 127 && Shr(255, 2) == 63 && Shr(255, 3) == 31;
    assert Shr(255, 4) == 15 && Shr(255, 5) == 7 && Shr(255, 6) == 3 && Shr(255, 7) == 1;
  }

  lemma BitAt(s: seq<Byte>, k: nat, j: nat)
    requires k < |s| && j < 8
    ensures Bit(s, 8 * k + j) == BitOf(s[k], j) && BitOf(s[k], j) <= 1
  {
    assert (8 * k + j) / 8 == k && (8 * k + j) % 8 == j;
  }

  /** A nonzero byte has a bit that is set. */
  lemma SomeBit(s: seq<Byte>, k: nat, n: nat) returns (j: nat)
    requires k < |s| && n <= 8 && Low(s[k], n) != 0
    ensures n <= j < 8 && Bit(s, 8 * k + j) == 1
  {
    LowBitsZero(s[k], n);
    j :| n <= j < 8 && BitOf(s[k], j) != 0;
    BitAt(s, k, j);
  }

  lemma DoubleIt(b: nat, n: nat)
    ensures 2 * (b * Pow2(n)) == b * Pow2(n + 1)
  {
    Twice(b, Pow2(n));
  }

  /** The leading ones of a byte that is not all ones, and whether zeros follow them. */
  method LeadingOnes(b: Byte) returns (nbits: nat, clean: bool)
    requires b != 255
    ensures nbits < 8 && BitOf(b, nbits) == 0 && forall j :: 0 <= j < nbits ==> BitOf(b, j) == 1
    ensures clean <==> Low(b, nbits) == 0
  {
    var c: nat := b;
    nbits := 0;
    Shifted(b, c, 0);
    while Shr(c, 7) % 2 != 0 && nbits < 8
      invariant nbits <= 8 && c == b * Pow2(nbits)
      invariant forall j :: 0 <= j < nbits ==> BitOf(b, j) == 1
      invariant nbits < 8 ==> Shr(c, 7) % 2 == BitOf(b, nbits)
      invariant LowBits(c, 8) == 0 <==> Low(b, nbits) == 0
      decreases 8 - nbits
    {
      DoubleIt(b, nbits);
      c, nbits := 2 * c, nbits + 1;
      Shifted(b, c, nbits);
    }
    FullByte(b);
    clean := LowBits(c, 8) == 0;
  }

  /** A mask is accepted exactly when it is ones followed by zeros, with the number of ones; on an error
      the length is left alone. */
  method MaskToPrefixLen(s: Addr, len: nat) returns (r: int, lenp: nat)
    ensures r == SUCCESS || (r == ERROR && lenp == len)
    ensures r == SUCCESS ==> s.Internet() && IsMask(s.Bytes(), lenp)
    ensures r == ERROR ==> !s.Internet() || forall n :: !IsMask(s.Bytes(), n)
  {
    hide Bit;
    lenp := len;
    if !s.Internet() {
      return ERROR, len;
    }
    var p := s.Bytes();
    var i := 0;
    while i < |p| && p[i] == 255
      invariant i <= |p| && forall m :: 0 <= m < i ==> p[m] == 255
    {
      i := i + 1;
    }
    var nbytes, nbits := i, 0;
    OnesBefore(p, nbytes);
    if i < |p| {
      var clean;
      nbits, clean := LeadingOnes(p[nbytes]);
      BitAt(p, nbytes, nbits);
      if !clean {
        ghost var j := SomeBit(p, nbytes, nbits);
        NoMask(p, 8 * nbytes + nbits, 8 * nbytes + j);
        return ERROR, len;
      }
      i := i + 1;
    }
    while i < |p|
      invariant i <= |p| && forall m :: nbytes < m < i ==> p[m] == 0
    {
      if p[i] != 0 {
        ZeroByte(p[i]);
        LowBitsZero(p[i], 0);
        ghost var j := SomeBit(p, i, 0);
        NoMask(p, 8 * nbytes + nbits, 8 * i + j);
        return ERROR, len;
      }
      i := i + 1;
    }
    MaskFound(p, nbytes, nbits);
    return SUCCESS, nbytes * 8 + nbits;
  }

  lemma OnesBefore(s: seq<Byte>, k: nat)
    requires k <= |s| && forall m :: 0 <= m < k ==> s[m] == 255
    ensures forall i :: 0 <= i < 8 * k ==> Bit(s, i) == 1
  {
    forall i | 0 <= i < 8 * k ensures Bit(s, i) == 1 {
      FullByte(s[i / 8]);
    }
  }

  lemma MaskFound(s: seq<Byte>, k: nat, n: nat)
    requires k <= |s| && n < 8 && (forall i :: 0 <= i < 8 * k ==> Bit(s, i) == 1) && (k == |s| ==> n == 0)
    requires k < |s| ==> Low(s[k], n) == 0 && forall j :: 0 <= j < n ==> BitOf(s[k], j) == 1
    requires forall m :: k < m < |s| ==> s[m] == 0
    ensures IsMask(s, 8 * k + n)
  {
    if k < |s| {
      ZeroTail(s, k + 1);
      DroppedIsLow(s[k], n);
      PartByteZero(s, k, n);
      forall i | 8 * k <= i < 8 * k + n ensures Bit(s, i) == 1 {
        BitAt(s, k, i - 8 * k);
      }
    }
  }
}
