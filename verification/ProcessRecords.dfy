/** The process records of the super-server and the three indexes over them: the table hashed by
    process number, the child list of each service, and the vector of each host connection. */
module ProcessRecords {
  import opened Basics
  import opened BackIndex
  import opened Octets

  /** A process number; -1 stands for "none". */
  type Pid = int
  const NONE: Pid := -1

  const PERIPSIZE := 256

  /** Addresses of process records, host connections and services. */
  type Rec = int
  type Conn = int
  type Sep = int

  // ---- hashing -----------------------------------------------------------------------------------

  /** A byte widened the way a signed `char` is. */
  function SignExtend(b: bv32): bv32 {
    if b & 0x80 != 0 then b | 0xFFFF_FF00 else b
  }

  function HashStep(hv: bv32, b: bv32): bv32 {
    (hv << 5) ^ (hv >> 23) ^ SignExtend(b)
  }

  /** The four bytes of a process number in memory order (little endian). */
  function Bytes(pid: Pid): (b: seq<bv32>)
    ensures |b| == 4
  {
    [(pid % 0x100) as bv32, (pid / 0x100 % 0x100) as bv32,
     (pid / 0x1_0000 % 0x100) as bv32, (pid / 0x100_0000 % 0x100) as bv32]
  }

  function HashOver(hv: bv32, b: seq<bv32>): bv32 {
    if b == [] then hv else HashStep(HashOver(hv, b[..|b| - 1]), b[|b| - 1])
  }

  /** The bucket of a text: the folds of all its bytes, folded once more and masked. */
  function Bucket(b: seq<bv32>): (hv: nat)
    ensures hv < PERIPSIZE
  {
    var hv := HashOver(0xABC3_D20F, b);
    (((hv ^ (hv >> 16)) & 0xFF) as bv8) as int
  }

  /** The bucket of a process number. */
  function Hash(pid: Pid): (hv: nat)
    ensures hv < PERIPSIZE
  {
    Bucket(Bytes(pid))
  }

  method HashVal(b: seq<bv32>) returns (bucket: nat)
    ensures bucket == Bucket(b) && bucket < PERIPSIZE
    ensures forall pid :: b == Bytes(pid) ==> bucket == Hash(pid)
  {
    var hv := 0xABC3_D20F;
    for i := 0 to |b|
      invariant hv == HashOver(0xABC3_D20F, b[..i])
    {
      hv := (hv << 5) ^ (hv >> 23) ^ SignExtend(b[i]);
      assert b[..i + 1][..i] == b[..i];
    }
    assert b[..|b|] == b;
    hv := hv ^ (hv >> 16);
    bucket := ((hv & 0xFF) as bv8) as int;
  }

  /** A byte above 127 counts as itself less 256. */
  lemma SignExtends(b: bv32)
    requires b < 256
    ensures SignExtend(b) == if b < 128 then b else b - 256
  {
  }

  lemma FourSteps(hv: bv32, b: seq<bv32>)
    requires |b| == 4
    ensures HashOver(hv, b) == HashStep(HashStep(HashStep(HashStep(hv, b[0]), b[1]), b[2]), b[3])
  {
    hide HashStep;
    assert b[..3][..2] == b[..2] && b[..2][..1] == b[..1] && b[..1][..0] == [];
    assert HashOver(hv, b[..1]) == HashStep(hv, b[0]);
    assert HashOver(hv, b[..2]) == HashStep(HashOver(hv, b[..1]), b[1]);
    assert HashOver(hv, b[..3]) == HashStep(HashOver(hv, b[..2]), b[2]);
  }

  lemma KnownSteps()
    ensures HashStep(0xABC3_D20F, 0xE8) == 0x8785_BF5F && HashStep(0x8785_BF5F, 0x83) == 0x0F48_156C
    ensures HashStep(0x0F48_156C, 0x01) == 0xE902_AD9F && HashStep(0xE902_AD9F, 0x00) == 0x2055_B232
  {
  }

  lemma KnownBytes()
    ensures Bytes(99304) == [0xE8, 0x83, 0x01, 0x00]
  {
    DigitsAre(99304, 232, 131, 1, 0);
    assert 232 as bv32 == 0xE8 && 131 as bv32 == 0x83 && 1 as bv32 == 1 && 0 as bv32 == 0;
  }

  /** The digits of a number to the base 256, the lowest first. */
  lemma DigitsAre(pid: nat, a: nat, b: nat, c: nat, d: nat)
    requires a < 256 && b < 256 && c < 256 && d < 256 && pid == a + 256 * b + 65536 * c + 16777216 * d
    ensures pid % 0x100 == a && pid / 0x100 % 0x100 == b && pid / 0x1_0000 % 0x100 == c && pid / 0x100_0000 % 0x100 == d
  {
    assert pid / 0x100 == b + 256 * c + 65536 * d && pid / 0x1_0000 == c + 256 * d && pid / 0x100_0000 == d;
  }

  lemma KnownFold(hv: bv32)
    requires hv == 0x2055_B232
    ensures (((hv ^ (hv >> 16)) & 0xFF) as bv8) as int == 103
  {
    assert ((hv ^ (hv >> 16)) & 0xFF) as bv8 == 103;
  }

  /** A bucket worked out by hand: that of 99304, whose bytes are 0xE8, 0x83, 0x01 and 0x00. */
  lemma KnownBucket()
    ensures Hash(99304) == 103
  {
    hide HashOver, HashStep, Bytes;
    KnownBytes();
    FourSteps(0xABC3_D20F, Bytes(99304));
    KnownSteps();
    KnownFold(HashOver(0xABC3_D20F, Bytes(99304)));
  }

  /** The bucket that a number calls for. */
  ghost function Slot(hash: Pid -> int, pid: Pid): Link<int> {
    if pid == NONE then Off else On(hash(pid))
  }

  // ---- the records and their indexes -----------------------------------------------------------

  /** What ends up in `co_addr`: the copy is made from the variable that points at the peer's address, so it
      starts with that pointer, which is aligned for an address, and goes on with whatever follows it. */
  type Pointer = p: nat | p % 4 == 0
  datatype Stored = Stored(pointer: Pointer, rest: seq<Byte>)

  /** The address family that is read back from it: the low half-word. */
  function Family(a: Stored): nat {
    a.pointer % 0x1_0000
  }

  /** What a connection keeps beside its vector: `co_addr`, the bucket of `se_conn` it is in, and
      `cp_maxchild`. */
  datatype ConnInfo = ConnInfo(addr: Stored, bucket: nat, maxchild: int)

  /** The pointer fields of every live record and connection, and the lists they point at.  A field
      that the program keeps in each object is a map from object addresses here; `heap` is the first
      address never handed out, and `hash` the bucket function in use. */
  datatype Records = Records(
    hash: Pid -> int,
    number: map<Rec, Pid>,
    slot: map<Rec, Link<int>>,
    table: map<int, seq<Rec>>,
    parent: map<Rec, Link<Sep>>,
    children: map<Sep, seq<Rec>>,
    host: map<Rec, Link<Conn>>,
    vector: map<Conn, seq<Rec>>,
    owner: map<Conn, Link<Sep>>,
    conns: map<Sep, seq<Conn>>,
    info: map<Conn, ConnInfo>,
    heap: int)

  /** The indexes agree: `pid != -1` iff the record sits, once, in the bucket of its number; `sep == s`
      iff it is, once, on the child list of `s`; `conn == c` iff it is, once, in the vector of `c`.
      Numbers are unique, and every connection is, once, on the host list of its service. */
  ghost predicate Consistent(x: Records) {
    && Hashed(x.hash, x.number, x.slot, x.table.Keys) && UniqueNumbers(x.number)
    && Agree(x.slot, x.table) && Agree(x.parent, x.children) && Agree(x.host, x.vector) && Agree(x.owner, x.conns)
    && x.number.Keys == x.parent.Keys == x.host.Keys
    && x.owner.Keys == x.vector.Keys == x.info.Keys && x.children.Keys == x.conns.Keys
    && (forall c :: c in x.owner ==> x.owner[c].On? && c < x.heap && x.info[c].maxchild > 0)
    && (forall r :: r in x.number ==> r < x.heap)
  }

  /** Every number has a bucket, and every record is bound for the bucket of its number. */
  ghost predicate Hashed(hash: Pid -> int, number: map<Rec, Pid>, slot: map<Rec, Link<int>>, buckets: set<int>) {
    && number.Keys == slot.Keys
    && (forall pid :: hash(pid) in buckets)
    && (forall r :: r in number ==> slot[r] == Slot(hash, number[r]))
  }

  ghost predicate UniqueNumbers(number: map<Rec, Pid>) {
    forall q, r ::
      q in number && r in number && number[q] == number[r] && number[q] != NONE ==> q == r
  }

  function EmptyBuckets(n: nat): (table: map<int, seq<Rec>>)
    ensures forall b :: b in table <==> 0 <= b < n
    ensures forall b :: b in table ==> table[b] == []
  {
    if n == 0 then map[] else EmptyBuckets(n - 1)[n - 1 := []]
  }

  /** The state at the start: no records, the bucket function above, and empty lists everywhere. */
  function NoRecords(seps: set<Sep>): Records {
    Records(pid => Hash(pid), map[], map[], EmptyBuckets(PERIPSIZE), map[], map s | s in seps :: [],
            map[], map[], map[], map s | s in seps :: [], map[], 0)
  }

  lemma NoRecordsConsistent(seps: set<Sep>)
    ensures Consistent(NoRecords(seps)) && Settled(NoRecords(seps))
  {
    var x := NoRecords(seps);
    NothingLinked(x.slot, x.table);
    NothingLinked(x.parent, x.children);
    NothingLinked(x.host, x.vector);
    NothingLinked(x.owner, x.conns);
  }

  /** What the indexes say about one record. */
  lemma Known(x: Records, r: Rec)
    requires Consistent(x) && r in x.number
    ensures r < x.heap && x.slot[r] == Slot(x.hash, x.number[r])
    ensures x.number[r] != NONE ==> var b := x.hash(x.number[r]); b in x.table && r in x.table[b] && Distinct(x.table[b])
    ensures x.parent[r].On? ==> var s := x.parent[r].key; s in x.children && r in x.children[s] && Distinct(x.children[s])
    ensures x.host[r].On? ==> var c := x.host[r].key; c in x.vector && r in x.vector[c] && Distinct(x.vector[c])
  {
    if x.number[r] != NONE { OnItsList(x.slot, x.table, r); }
    if x.parent[r].On? { OnItsList(x.parent, x.children, r); }
    if x.host[r].On? { OnItsList(x.host, x.vector, r); }
  }

  /** What they say about one connection. */
  lemma KnownConn(x: Records, c: Conn)
    requires Consistent(x) && c in x.owner
    ensures c < x.heap && x.owner[c].On? && x.info[c].maxchild > 0
    ensures var s := x.owner[c].key; s in x.conns && c in x.conns[s] && Distinct(x.conns[s])
  {
    OnItsList(x.owner, x.conns, c);
  }

  /** Records whose indexes agree. */
  type Books = x: Records | Consistent(x)
    witness Records(pid => 0, map[], map[], map[0 := []], map[], map[], map[], map[], map[], map[], map[], 0)

  // ---- the operations on records -----------------------------------------------------------------

  function NewRecord(x: Records): Records {
    x.(heap := x.heap + 1, number := x.number[x.heap := NONE], slot := x.slot[x.heap := Off],
       parent := x.parent[x.heap := Off], host := x.host[x.heap := Off])
  }

  function DeleteRecord(x: Records, r: Rec): Records {
    x.(number := x.number - {r}, slot := x.slot - {r}, parent := x.parent - {r}, host := x.host - {r})
  }

  /** The record `r` takes the number `pid` and joins its bucket. */
  function TakeNumber(x: Records, r: Rec, pid: Pid): Records
    requires x.hash(pid) in x.table
  {
    var hv := x.hash(pid);
    x.(number := x.number[r := pid], slot := x.slot[r := On(hv)], table := x.table[hv := x.table[hv] + [r]])
  }

  /** The record `r` leaves its bucket and gives up its number. */
  function GiveUpNumber(x: Records, r: Rec): Records
    requires r in x.number && x.hash(x.number[r]) in x.table
  {
    var hv := x.hash(x.number[r]);
    x.(number := x.number[r := NONE], slot := x.slot[r := Off], table := x.table[hv := Without(x.table[hv], r)])
  }

  /** The record joins the front of the child list of `s`. */
  function JoinChildren(x: Records, r: Rec, s: Sep): Records
    requires s in x.children
  {
    x.(parent := x.parent[r := On(s)], children := x.children[s := [r] + x.children[s]])
  }

  function LeaveChildren(x: Records, r: Rec): Records
    requires r in x.parent && x.parent[r].On? && x.parent[r].key in x.children
  {
    var s := x.parent[r].key;
    x.(parent := x.parent[r := Off], children := x.children[s := Without(x.children[s], r)])
  }

  /** The record joins the end of the vector of `c`. */
  function JoinHost(x: Records, r: Rec, c: Conn): Records
    requires c in x.vector
  {
    x.(host := x.host[r := On(c)], vector := x.vector[c := x.vector[c] + [r]])
  }

  /** The record leaves the vector of its connection; the last element takes its place. */
  function LeaveHost(x: Records, r: Rec): Records
    requires r in x.host && x.host[r].On? && x.host[r].key in x.vector && r in x.vector[x.host[r].key]
  {
    var c := x.host[r].key;
    x.(host := x.host[r := Off], vector := x.vector[c := SwapRemove(x.vector[c], IndexOf(x.vector[c], r))])
  }

  /** Every record of `c` forgets the connection. */
  function ClearHost(x: Records, c: Conn): Records
    requires c in x.vector
  {
    x.(host := map r | r in x.host :: if r in x.vector[c] then Off else x.host[r], vector := x.vector[c := []])
  }

  /** A new connection at the front of the host list of `s`. */
  function NewConn(x: Records, s: Sep, i: ConnInfo): Records
    requires s in x.conns
  {
    var c := x.heap;
    x.(heap := c + 1, vector := x.vector[c := []], owner := x.owner[c := On(s)],
       conns := x.conns[s := [c] + x.conns[s]], info := x.info[c := i])
  }

  /** `resize`: the limit of one connection. */
  function Resize(x: Records, c: Conn, maxchild: int): Records
    requires c in x.info
  {
    x.(info := x.info[c := x.info[c].(maxchild := maxchild)])
  }

  function DeleteConn(x: Records, c: Conn): Records
    requires c in x.owner && x.owner[c].On? && x.owner[c].key in x.conns
  {
    var s := x.owner[c].key;
    x.(vector := x.vector - {c}, owner := x.owner - {c}, conns := x.conns[s := Without(x.conns[s], c)],
       info := x.info - {c})
  }

  // ---- what they keep ------------------------------------------------------------------------------

  lemma NewRecordConsistent(x: Records)
    requires Consistent(x)
    ensures x.heap !in x.number && Consistent(NewRecord(x))
  {
    Appeared(x.slot, x.table, x.heap);
    Appeared(x.parent, x.children, x.heap);
    Appeared(x.host, x.vector, x.heap);
  }

  lemma DeleteRecordConsistent(x: Records, r: Rec)
    requires Consistent(x) && r in x.number && x.number[r] == NONE && x.parent[r].Off? && x.host[r].Off?
    ensures Consistent(DeleteRecord(x, r))
  {
    Known(x, r);
    Vanished(x.slot, x.table, r);
    Vanished(x.parent, x.children, r);
    Vanished(x.host, x.vector, r);
  }

  lemma TakeNumberConsistent(x: Records, r: Rec, pid: Pid)
    requires Consistent(x) && r in x.number && x.number[r] == NONE && pid != NONE
    requires forall q :: q in x.number ==> x.number[q] != pid
    ensures x.hash(pid) in x.table && Consistent(TakeNumber(x, r, pid))
  {
    hide Agree;
    Known(x, r);
    LinkedBack(x.slot, x.table, r, x.hash(pid));
  }

  lemma GiveUpNumberConsistent(x: Records, r: Rec)
    requires Consistent(x) && r in x.number && x.number[r] != NONE
    ensures x.hash(x.number[r]) in x.table && Consistent(GiveUpNumber(x, r))
  {
    Known(x, r);
    UnlinkedInOrder(x.slot, x.table, r);
  }

  lemma JoinChildrenConsistent(x: Records, r: Rec, s: Sep)
    requires Consistent(x) && r in x.number && x.parent[r].Off? && s in x.children
    ensures Consistent(JoinChildren(x, r, s))
  {
    Known(x, r);
    LinkedFront(x.parent, x.children, r, s);
  }

  lemma LeaveChildrenConsistent(x: Records, r: Rec)
    requires Consistent(x) && r in x.number && x.parent[r].On?
    ensures x.parent[r].key in x.children && Consistent(LeaveChildren(x, r))
    ensures |Without(x.children[x.parent[r].key], r)| == |x.children[x.parent[r].key]| - 1
  {
    Known(x, r);
    UnlinkedInOrder(x.parent, x.children, r);
  }

  lemma JoinHostConsistent(x: Records, r: Rec, c: Conn)
    requires Consistent(x) && r in x.number && x.host[r].Off? && c in x.vector
    ensures Consistent(JoinHost(x, r, c))
  {
    Known(x, r);
    LinkedBack(x.host, x.vector, r, c);
  }

  lemma LeaveHostConsistent(x: Records, r: Rec)
    requires Consistent(x) && r in x.number && x.host[r].On?
    ensures x.host[r].key in x.vector && r in x.vector[x.host[r].key] && Consistent(LeaveHost(x, r))
  {
    Known(x, r);
    var v := x.vector[x.host[r].key];
    SwapRemoveIsRemoval(v, IndexOf(v, r));
    Unlinked(x.host, x.vector, r, SwapRemove(v, IndexOf(v, r)));
  }

  lemma ClearHostConsistent(x: Records, c: Conn)
    requires Consistent(x) && c in x.vector
    ensures Consistent(ClearHost(x, c))
  {
    Cleared(x.host, x.vector, c);
  }

  lemma ResizeConsistent(x: Records, c: Conn, maxchild: int)
    requires Consistent(x) && c in x.vector && maxchild > 0
    ensures Consistent(Resize(x, c, maxchild))
  {
  }

  lemma NewConnConsistent(x: Records, s: Sep, i: ConnInfo)
    requires Consistent(x) && s in x.conns && i.maxchild > 0
    ensures x.heap !in x.owner && Consistent(NewConn(x, s, i))
  {
    hide Agree;
    ListAppeared(x.host, x.vector, x.heap);
    Appeared(x.owner, x.conns, x.heap);
    LinkedFront(x.owner[x.heap := Off], x.conns, x.heap, s);
    assert x.owner[x.heap := Off][x.heap := On(s)] == x.owner[x.heap := On(s)];
  }

  lemma DeleteConnConsistent(x: Records, c: Conn)
    requires Consistent(x) && c in x.vector && x.vector[c] == []
    ensures x.owner[c].On? && x.owner[c].key in x.conns && Consistent(DeleteConn(x, c))
  {
    KnownConn(x, c);
    var s := x.owner[c].key;
    ListVanished(x.host, x.vector, c);
    UnlinkedInOrder(x.owner, x.conns, c);
    Vanished(x.owner[c := Off], x.conns[s := Without(x.conns[s], c)], c);
    assert x.owner[c := Off] - {c} == x.owner - {c};
  }

  // ---- releasing a record ---------------------------------------------------------------------------

  /** The vectors, child lists and buckets without the record `r`. */
  ghost function VectorsWithout(x: Records, r: Rec): map<Conn, seq<Rec>> {
    if r in x.host && x.host[r].On? && x.host[r].key in x.vector && r in x.vector[x.host[r].key] then
      var v := x.vector[x.host[r].key];
      x.vector[x.host[r].key := SwapRemove(v, IndexOf(v, r))]
    else x.vector
  }

  ghost function ChildrenWithout(x: Records, r: Rec): map<Sep, seq<Rec>> {
    if r in x.parent && x.parent[r].On? && x.parent[r].key in x.children
    then x.children[x.parent[r].key := Without(x.children[x.parent[r].key], r)]
    else x.children
  }

  ghost function TableWithout(x: Records, r: Rec): map<int, seq<Rec>> {
    if r in x.number && x.number[r] != NONE && x.hash(x.number[r]) in x.table
    then x.table[x.hash(x.number[r]) := Without(x.table[x.hash(x.number[r])], r)]
    else x.table
  }

  /** The three departures of a record, each doing nothing if there is nothing to leave. */
  ghost function OffHost(x: Records, r: Rec): Records {
    x.(host := x.host[r := Off], vector := VectorsWithout(x, r))
  }

  ghost function OffChildren(x: Records, r: Rec): Records {
    x.(parent := x.parent[r := Off], children := ChildrenWithout(x, r))
  }

  ghost function OffTable(x: Records, r: Rec): Records {
    x.(number := x.number[r := NONE], slot := x.slot[r := Off], table := TableWithout(x, r))
  }

  /** `free_proc`: the record leaves its connection, its service and its bucket, and is deleted. */
  ghost function Freed(x: Records, r: Rec): Records {
    x.(number := x.number - {r}, slot := x.slot - {r}, parent := x.parent - {r}, host := x.host - {r},
       table := TableWithout(x, r), children := ChildrenWithout(x, r), vector := VectorsWithout(x, r))
  }

  lemma OffHostConsistent(x: Records, r: Rec)
    requires Consistent(x) && r in x.number
    ensures Consistent(OffHost(x, r))
    ensures if x.host[r].On? then x.host[r].key in x.vector && r in x.vector[x.host[r].key] && OffHost(x, r) == LeaveHost(x, r)
            else OffHost(x, r) == x
  {
    Known(x, r);
    if x.host[r].On? {
      LeaveHostConsistent(x, r);
    } else {
      SetToSame(x.host, r, Off);
    }
  }

  lemma OffChildrenConsistent(x: Records, r: Rec)
    requires Consistent(x) && r in x.number
    ensures Consistent(OffChildren(x, r))
    ensures if x.parent[r].On? then x.parent[r].key in x.children && OffChildren(x, r) == LeaveChildren(x, r)
            else OffChildren(x, r) == x
  {
    Known(x, r);
    if x.parent[r].On? {
      LeaveChildrenConsistent(x, r);
    } else {
      SetToSame(x.parent, r, Off);
    }
  }

  lemma OffTableConsistent(x: Records, r: Rec)
    requires Consistent(x) && r in x.number
    ensures Consistent(OffTable(x, r))
    ensures if x.number[r] != NONE then x.hash(x.number[r]) in x.table && OffTable(x, r) == GiveUpNumber(x, r)
            else OffTable(x, r) == x
  {
    Known(x, r);
    if x.number[r] != NONE {
      GiveUpNumberConsistent(x, r);
    } else {
      SetToSame(x.number, r, NONE);
      SetToSame(x.slot, r, Off);
    }
  }

  /** The steps of `free_proc`, one after the other. */
  lemma FreedInSteps(x: Records, r: Rec)
    ensures DeleteRecord(OffTable(OffChildren(OffHost(x, r), r), r), r) == Freed(x, r)
  {
    SetThenErase(x.number, r, NONE);
    SetThenErase(x.slot, r, Off);
    SetThenErase(x.parent, r, Off);
    SetThenErase(x.host, r, Off);
  }

  lemma FreedConsistent(x: Records, r: Rec)
    requires Consistent(x) && r in x.number
    ensures Consistent(Freed(x, r))
  {
    var a := OffHost(x, r);
    OffHostConsistent(x, r);
    var b := OffChildren(a, r);
    OffChildrenConsistent(a, r);
    var d := OffTable(b, r);
    OffTableConsistent(b, r);
    DeleteRecordConsistent(d, r);
    FreedInSteps(x, r);
  }

  /** It makes no difference if the record has left its service before. */
  lemma FreedAfterOffChildren(x: Records, r: Rec)
    ensures Freed(OffChildren(x, r), r) == Freed(x, r)
  {
    SetThenErase(x.parent, r, Off);
  }

  /** `free_conn`: a connection without records is deleted. */
  ghost function ConnFreed(x: Records, c: Conn): Records {
    if c in x.vector && x.vector[c] == [] && c in x.owner && x.owner[c].On? && x.owner[c].key in x.conns
    then DeleteConn(x, c)
    else x
  }

  // ---- settled records -----------------------------------------------------------------------------

  /** Between events every record is a numbered child of the service of its connection, and no
      connection is idle. */
  ghost predicate Settled(x: Records) {
    && (forall r :: r in x.number ==>
          && x.number[r] != NONE && r in x.parent && x.parent[r].On?
          && (r in x.host && x.host[r].On? ==> x.host[r].key in x.owner && x.owner[x.host[r].key] == x.parent[r]))
    && (forall c :: c in x.vector ==> x.vector[c] != [])
  }

  /** Reaping a child: its record is freed, and its connection too if that was the last record. */
  ghost function Reaped(x: Records, r: Rec): Records {
    if r in x.host && x.host[r].On? then ConnFreed(Freed(x, r), x.host[r].key) else Freed(x, r)
  }

  lemma ReapedNumbers(x: Records, r: Rec)
    ensures Reaped(x, r).number == x.number - {r} && Reaped(x, r).parent == x.parent - {r}
  {
  }

  lemma FreedOthers(x: Books, r: Rec, q: Rec)
    requires Settled(x) && r in x.number && q in Freed(x, r).number
    ensures var z := Reaped(x, r);
            && z.number[q] != NONE && q in z.parent && z.parent[q].On?
            && (q in z.host && z.host[q].On? ==> z.host[q].key in z.owner && z.owner[z.host[q].key] == z.parent[q])
  {
    hide Agree;
    Known(x, r);
    FreedConsistent(x, r);
    Known(Freed(x, r), q);
  }

  lemma ReapedConns(x: Books, r: Rec, c: Conn)
    requires Settled(x) && r in x.number && c in Reaped(x, r).vector
    ensures Reaped(x, r).vector[c] != []
  {
    Known(x, r);
    if x.host[r].On? {
      KnownConn(x, x.host[r].key);
    }
  }

  lemma ReapedSettled(x: Books, r: Rec)
    requires Settled(x) && r in x.number
    ensures Settled(Reaped(x, r))
  {
    var z := Reaped(x, r);
    forall q | q in z.number
      ensures z.number[q] != NONE && q in z.parent && z.parent[q].On?
      ensures q in z.host && z.host[q].On? ==> z.host[q].key in z.owner && z.owner[z.host[q].key] == z.parent[q]
    {
      FreedOthers(x, r, q);
    }
    forall c | c in z.vector ensures z.vector[c] != [] {
      ReapedConns(x, r, c);
    }
  }

  /** An address never handed out is on no list. */
  lemma HeapIsNew(x: Books)
    ensures x.heap !in x.number && x.heap !in x.slot && x.heap !in x.parent && x.heap !in x.host
    ensures x.heap !in x.owner && x.heap !in x.vector && x.heap !in x.info
    ensures forall c :: c in x.vector ==> x.heap !in x.vector[c]
    ensures forall s :: s in x.conns ==> x.heap !in x.conns[s]
  {
    if x.heap in x.number { Known(x, x.heap); assert false; }
    if x.heap in x.owner { KnownConn(x, x.heap); assert false; }
    forall c | c in x.vector ensures x.heap !in x.vector[c] {
      if x.heap in x.vector[c] { PointsBack(x.host, x.vector, x.heap, c); assert false; }
    }
    forall s | s in x.conns ensures x.heap !in x.conns[s] {
      if x.heap in x.conns[s] { PointsBack(x.owner, x.conns, x.heap, s); assert false; }
    }
  }

  /** A vector that a record joins and leaves. */
  lemma JoinThenLeave(vector: map<Conn, seq<Rec>>, c: Conn, r: Rec)
    requires c in vector && r !in vector[c]
    ensures var v := vector[c] + [r]; vector[c := v][c := SwapRemove(v, IndexOf(v, r))] == vector
  {
    PushThenSwapRemove(vector[c], r);
    SetAndRestore(vector, c, vector[c] + [r]);
  }

  lemma FreshVectors(x: Books, c: Conn, y: Records)
    requires c in x.vector && y == JoinHost(NewRecord(x), x.heap, c)
    ensures VectorsWithout(y, x.heap) == x.vector
  {
    var r := x.heap;
    assert r !in x.vector[c] by { HeapIsNew(x); }
    assert y.host[r] == On(c);
    JoinThenLeave(x.vector, c, r);
  }

  /** A record that joined a connection and is freed at once leaves no trace but its address. */
  lemma ReleaseFresh(x: Books, c: Conn, y: Records)
    requires c in x.vector && y == JoinHost(NewRecord(x), x.heap, c)
    ensures Freed(y, x.heap) == x.(heap := x.heap + 1)
  {
    hide Consistent;
    var r := x.heap;
    HeapIsNew(x);
    assert y.number - {r} == x.number by { SetNewThenErase(x.number, r, NONE, NONE); }
    assert y.slot - {r} == x.slot by { SetNewThenErase(x.slot, r, Off, Off); }
    assert y.parent - {r} == x.parent by { SetNewThenErase(x.parent, r, Off, Off); }
    assert y.host - {r} == x.host by { SetNewThenErase(x.host, r, Off, On(c)); }
    assert TableWithout(y, r) == x.table && ChildrenWithout(y, r) == x.children;
    FreshVectors(x, c, y);
  }

  /** A connection that was made and freed at once leaves no trace but its address. */
  lemma ReleaseNewConn(x: Books, s: Sep, i: ConnInfo, y: Records)
    requires s in x.conns && y == NewConn(x, s, i).(heap := y.heap)
    ensures ConnFreed(y, x.heap) == x.(heap := y.heap)
  {
    hide Consistent;
    HeapIsNew(x);
    SetNewThenErase(x.owner, x.heap, On(s), On(s));
    SetNewThenErase(x.vector, x.heap, [], []);
    SetNewThenErase(x.info, x.heap, i, i);
    PushThenWithout(x.conns[s], x.heap);
    SetToSame(x.conns, s, x.conns[s]);
  }

  /** A connection whose records all forget it, and which is then deleted. */
  lemma ClearedSettled(x: Books, c: Conn)
    requires Settled(x) && c in x.vector
    ensures Consistent(ClearHost(x, c))
    ensures c in x.owner && x.owner[c].On? && x.owner[c].key in x.conns
    ensures var y := DeleteConn(ClearHost(x, c), c); Consistent(y) && Settled(y)
  {
    ClearHostConsistent(x, c);
    KnownConn(x, c);
    DeleteConnConsistent(ClearHost(x, c), c);
    var y := DeleteConn(ClearHost(x, c), c);
    forall r | r in y.number
      ensures y.number[r] != NONE && r in y.parent && y.parent[r].On?
      ensures r in y.host && y.host[r].On? ==> y.host[r].key in y.owner && y.owner[y.host[r].key] == y.parent[r]
    {
      Known(x, r);
    }
  }

  // ---- admitting a child ---------------------------------------------------------------------------

  /** Settled, apart from the record `r` that is being made and the connection `c` made for it. */
  ghost predicate SettledBut(x: Records, r: Rec, c: Conn) {
    && (forall q :: q != r && q in x.number ==>
          && x.number[q] != NONE && q in x.parent && x.parent[q].On?
          && (q in x.host && x.host[q].On? ==> x.host[q].key in x.owner && x.owner[x.host[q].key] == x.parent[q]))
    && (forall d :: d != c && d in x.vector ==> x.vector[d] != [])
  }

  lemma SettledButNewConn(x: Books, s: Sep, i: ConnInfo)
    requires Settled(x) && s in x.conns
    ensures SettledBut(NewConn(x, s, i), x.heap + 1, x.heap)
  {
    HeapIsNew(x);
  }

  /** A new record, in the vector of `c` or of no connection. */
  lemma SettledButNewRecord(x: Books, c: Conn)
    requires SettledBut(x, x.heap, c)
    ensures SettledBut(NewRecord(x), x.heap, c)
    ensures c in x.vector ==> SettledBut(JoinHost(NewRecord(x), x.heap, c), x.heap, c)
  {
    hide Agree;
    HeapIsNew(x);
  }

  lemma InUseBefore(x: Records, y: Records, r: Rec, pid: Pid)
    requires y.number == x.number[r := NONE] && pid != NONE && r !in x.number
    ensures InUse(y, pid) <==> InUse(x, pid)
  {
    if InUse(y, pid) {
      var q :| q in y.number && y.number[q] == pid;
      assert q in x.number && x.number[q] == pid;
    }
    if InUse(x, pid) {
      var q :| q in x.number && x.number[q] == pid;
      assert q in y.number && y.number[q] == pid;
    }
  }

  /** The connection `c` of `s`: one that was there, or else one made just now. */
  ghost predicate Found(x: Records, s: Sep, i: ConnInfo, c: Conn, y: Records) {
    s in x.conns &&
    if c in x.vector then y == x && c in x.conns[s] && c in x.info else c == x.heap && y == NewConn(x, s, i)
  }

  /** A record made for the connection that was found is settled up to its own fields. */
  lemma TrackedSettled(x0: Books, s: Sep, i: ConnInfo, c: Conn, x1: Books)
    requires Settled(x0) && Found(x0, s, i, c, x1)
    ensures c in x1.vector && c in x1.owner && x1.owner[c] == On(s)
    ensures SettledBut(JoinHost(NewRecord(x1), x1.heap, c), x1.heap, c)
  {
    hide Agree;
    if c in x0.vector {
      PointsBack(x0.owner, x0.conns, c, s);
    } else {
      SettledButNewConn(x0, s, i);
    }
    SettledButNewRecord(x1, c);
  }

  /** Freeing that record, and the connection if it was made for it, leaves no trace but addresses. */
  lemma ReleaseTracked(x0: Books, s: Sep, i: ConnInfo, c: Conn, x1: Books)
    requires Settled(x0) && Found(x0, s, i, c, x1) && c in x1.vector
    ensures var y := Freed(JoinHost(NewRecord(x1), x1.heap, c), x1.heap);
            c in y.vector && ConnFreed(y, c) == x0.(heap := x1.heap + 1)
  {
    ReleaseFresh(x1, c, JoinHost(NewRecord(x1), x1.heap, c));
    if c !in x0.vector {
      ReleaseNewConn(x0, s, i, x1.(heap := x1.heap + 1));
    }
  }

  ghost predicate InUse(x: Records, pid: Pid) {
    exists q :: q in x.number && x.number[q] == pid
  }

  /** The record takes a number and joins its service. */
  ghost function Admitted(x: Records, r: Rec, pid: Pid, s: Sep): Records
    requires x.hash(pid) in x.table && s in x.children
  {
    JoinChildren(TakeNumber(x, r, pid), r, s)
  }

  /** After that everything is settled. */
  lemma AdmittedSettled(x: Books, r: Rec, c: Conn, pid: Pid, s: Sep)
    requires SettledBut(x, r, c) && r in x.number && x.number[r] == NONE && x.parent[r].Off?
    requires pid != NONE && x.hash(pid) in x.table && s in x.children
    requires x.host[r].On? ==> x.host[r].key in x.owner && x.owner[x.host[r].key] == On(s)
    requires c in x.vector ==> x.vector[c] != []
    ensures Settled(Admitted(x, r, pid, s))
  {
  }

  /** The child `r` of `s` with number `pid` is new in `y`, and nothing else differs between `x` and
      `y` in the records, the numbers and the child lists. */
  ghost predicate Gained(x: Records, y: Records, r: Rec, pid: Pid, s: Sep) {
    && r !in x.number && y.number == x.number[r := pid] && y.parent == x.parent[r := On(s)]
    && s in x.children && y.children == x.children[s := [r] + x.children[s]]
    && (forall q :: q in x.host ==> q in y.host && y.host[q] == x.host[q])
  }

  /** The record made for a connection, before it is admitted. */
  ghost function TrackedRecord(x1: Records, c: Conn): Records
    requires c in x1.vector
  {
    JoinHost(NewRecord(x1), x1.heap, c)
  }

  /** The record `r` stands last in the vector of `conn`, or in none, and all else about connections is as in `x`. */
  ghost predicate Standing(x: Records, y: Records, conn: Option<Conn>, r: Rec) {
    && y.conns == x.conns && y.owner == x.owner && y.info == x.info && r in y.host
    && match conn
       case None => y.host[r] == Off && y.vector == x.vector
       case Some(c) => c in x.vector && y.host[r] == On(c) && y.vector == x.vector[c := x.vector[c] + [r]]
  }

  lemma AdmittedStands(x: Records, conn: Option<Conn>, pid: Pid, s: Sep)
    requires (conn.Some? ==> conn.value in x.vector) && s in x.children && x.hash(pid) in x.table
    ensures Standing(x, Admitted(if conn.Some? then TrackedRecord(x, conn.value) else NewRecord(x), x.heap, pid, s), conn, x.heap)
  {
  }

  /** A record that is new, in a vector or not, and then admitted, is one child more. */
  lemma AdmitGains(x: Records, y: Records, r: Rec, pid: Pid, s: Sep)
    requires r !in x.number && r !in x.host && s in x.children && y.hash(pid) in y.table && y.children == x.children
    requires y.number == x.number[r := NONE] && y.parent == x.parent[r := Off]
    requires forall q :: q in x.host ==> q in y.host && y.host[q] == x.host[q]
    ensures Gained(x, Admitted(y, r, pid, s), r, pid, s)
  {
    SetTwice(x.number, r, NONE, pid);
    SetTwice(x.parent, r, Off, On(s));
  }

  lemma TrackedGains(x: Books, c: Conn, pid: Pid, s: Sep)
    requires c in x.vector && s in x.children && x.hash(pid) in x.table
    ensures Gained(x, Admitted(TrackedRecord(x, c), x.heap, pid, s), x.heap, pid, s)
  {
    assert x.heap !in x.number && x.heap !in x.host by { HeapIsNew(x); }
    AdmitGains(x, TrackedRecord(x, c), x.heap, pid, s);
  }

  /** Finding a connection changes nothing about records. */
  lemma FoundKeeps(x0: Records, s: Sep, i: ConnInfo, c: Conn, x1: Records)
    requires Found(x0, s, i, c, x1)
    ensures x1.hash == x0.hash && x1.table == x0.table && x1.number == x0.number
    ensures x1.parent == x0.parent && x1.children == x0.children && x1.host == x0.host
  {
  }

  /** Admitting a tracked record settles everything and adds one child. */
  lemma AdmitTracked(x0: Books, s: Sep, i: ConnInfo, c: Conn, x1: Books, pid: Pid)
    requires Settled(x0) && Found(x0, s, i, c, x1) && c in x1.vector && s in x0.children
    requires pid != NONE && x0.hash(pid) in x0.table
    ensures var y := Admitted(TrackedRecord(x1, c), x1.heap, pid, s);
            Settled(y) && Gained(x0, y, x1.heap, pid, s)
  {
    FoundKeeps(x0, s, i, c, x1);
    TrackedGains(x1, c, pid, s);
    TrackedSettled(x0, s, i, c, x1);
    TrackedAdmits(x1, c, pid, s);
  }

  /** A tracked record has no number yet, and other records keep theirs. */
  lemma TrackedInUse(x0: Books, s: Sep, i: ConnInfo, c: Conn, x1: Books, pid: Pid)
    requires Found(x0, s, i, c, x1) && c in x1.vector && pid != NONE
    ensures var y, r := TrackedRecord(x1, c), x1.heap;
            && r in y.number && y.number[r] == NONE && y.parent[r].Off? && y.children == x0.children
            && (InUse(y, pid) <==> InUse(x0, pid))
  {
    assert x1.heap !in x0.number by { HeapIsNew(x1); }
    InUseBefore(x0, TrackedRecord(x1, c), x1.heap, pid);
  }

  lemma TrackedAdmits(x1: Books, c: Conn, pid: Pid, s: Sep)
    requires c in x1.vector && c in x1.owner && x1.owner[c] == On(s) && s in x1.children
    requires SettledBut(TrackedRecord(x1, c), x1.heap, c) && pid != NONE && x1.hash(pid) in x1.table
    ensures Settled(Admitted(TrackedRecord(x1, c), x1.heap, pid, s))
  {
    JoinHostKeepsBooks(x1, c);
    AdmittedSettled(TrackedRecord(x1, c), x1.heap, c, pid, s);
  }

  lemma JoinHostKeepsBooks(x1: Books, c: Conn)
    requires c in x1.vector
    ensures Consistent(TrackedRecord(x1, c))
  {
    NewRecordConsistent(x1);
    JoinHostConsistent(NewRecord(x1), x1.heap, c);
  }

  /** Admitting a record without a connection does too. */
  lemma AdmitUntracked(x0: Books, s: Sep, pid: Pid)
    requires Settled(x0) && s in x0.children && pid != NONE && x0.hash(pid) in x0.table
    ensures var y := Admitted(NewRecord(x0), x0.heap, pid, s);
            Settled(y) && Gained(x0, y, x0.heap, pid, s)
  {
    hide Consistent;
    HeapIsNew(x0);
    AdmitGains(x0, NewRecord(x0), x0.heap, pid, s);
    SettledButNewRecord(x0, x0.heap);
    NewRecordConsistent(x0);
    AdmittedSettled(NewRecord(x0), x0.heap, x0.heap, pid, s);
  }
}
