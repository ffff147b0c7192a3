/** The host collection: rate-limit records kept in a pool, in a search tree ordered by key and in a
    list ordered by last use.  Each method is proved against the machine of `RateLimit`. */
module HostCollection {
  import opened HostKey
  import opened Octets
  import opened RateLimit

  class CHost {
    var key: Host
    var times: Ring
    var ltime: nat
    var dtime: nat

    /** Pool memory is zeroed. */
    constructor (k: Host)
      ensures key == k && times == UNUSED && ltime == 0 && dtime == 0
    {
      key, times, ltime, dtime := k, UNUSED, 0, 0;
    }

    /** The record as the machine sees it. */
    function Value(): Entry
      reads this
    {
      Entry(key, times, ltime, dtime)
    }

    /** Hand the record to another host: only the key and the ring change. */
    method Reassign(k: Host)
      modifies this
      ensures Value() == old(Value()).(key := k, times := UNUSED)
    {
      key, times := k, UNUSED;
    }

    /** Count a call at tick `t`. */
    method Count(t: nat)
      modifies this`times
      ensures times == Bump(old(times), t)
    {
      var ct := times[t % CHTSIZE];
      if ct.ticks != t {
        ct := CTime(t, 0);
      }
      ct := CTime(t, ct.count + 1);
      times := times[t % CHTSIZE := ct];
    }

    method Sum(t: nat) returns (cnt: nat)
      ensures cnt == Total(times, t, CHTSIZE)
    {
      cnt := 0;
      for i := 0 to CHTSIZE
        invariant cnt == Total(times, t, i)
      {
        if times[i].ticks <= t && times[i].ticks >= (t - CHTSIZE) % UINT {
          cnt := cnt + times[i].count;
        }
      }
    }

    /** Judge one call on this record. */
    method Admit(now: nat, ticks: nat, maxcpm: int, cpmwait: int, ghost c: Call) returns (v: Verdict)
      requires ticks == Tick(now) && c == Call(key, now, maxcpm, cpmwait, c.room)
      modifies this`times, this`dtime
      ensures (Value(), v) == Serve(old(Value()), c)
    {
      if dtime != 0 {
        if now < dtime && cpmwait > 0 {
          return Waiting;
        }
        dtime := 0;
      }
      Count(ticks);
      var cnt := Sum(ticks);
      if cnt * 60 / (CHTSIZE * CHTGRAN) > maxcpm {
        if cpmwait > 0 {
          dtime := now + cpmwait;
        }
        return Exceeded;
      }
      return Pass;
    }
  }

  ghost function Values(hosts: seq<CHost>): (s: seq<Entry>)
    reads hosts
    ensures |s| == |hosts| && forall i :: 0 <= i < |hosts| ==> s[i] == hosts[i].Value()
  {
    if hosts == [] then [] else Values(hosts[..|hosts| - 1]) + [hosts[|hosts| - 1].Value()]
  }

  ghost predicate Listed(hosts: seq<CHost>, pool: set<CHost>) {
    && (forall i, j :: 0 <= i < j < |hosts| ==> hosts[i] != hosts[j])
    && (forall h | h in hosts :: h in pool)
    && (forall h | h in pool :: h in hosts)
  }

  /** The records without the one at position `i`. */
  ghost function Without(hosts: seq<CHost>, i: nat): seq<CHost>
    requires i < |hosts|
  {
    hosts[..i] + hosts[i + 1..]
  }

  lemma ListedWithout(hosts: seq<CHost>, pool: set<CHost>, i: nat)
    requires Listed(hosts, pool) && i < |hosts|
    ensures Listed(Without(hosts, i), pool - {hosts[i]}) && hosts[i] !in Without(hosts, i)
  {
    var now := Without(hosts, i);
    assert forall j :: 0 <= j < |now| ==> now[j] == hosts[if j < i then j else j + 1];
    forall h | h in pool && h != hosts[i] ensures h in now {
      var m :| 0 <= m < |hosts| && hosts[m] == h;
      assert now[if m < i then m else m - 1] == h;
    }
  }

  lemma ListedWith(hosts: seq<CHost>, pool: set<CHost>, p: nat, h: CHost)
    requires Listed(hosts, pool - {h}) && h in pool && p <= |hosts|
    ensures Listed(hosts[..p] + [h] + hosts[p..], pool)
  {
    var now, others := hosts[..p] + [h] + hosts[p..], pool - {h};
    assert forall j :: 0 <= j < |now| ==> now[j] == if j < p then hosts[j] else if j == p then h else hosts[j - 1];
    forall g | g in now ensures g in pool {
      assert g == h || g in hosts;
      assert g == h || g in others;
    }
    forall g | g in pool ensures g in now {
      if g == h {
        assert now[p] == g;
      } else {
        assert g in others;
        var m :| 0 <= m < |hosts| && hosts[m] == g;
        assert now[if m < p then m else m + 1] == g;
      }
    }
    assert h !in hosts by { assert h !in others; }
  }

  /** So the list is as long as the pool is large. */
  lemma {:induction false} ListedCount(hosts: seq<CHost>, pool: set<CHost>)
    requires Listed(hosts, pool)
    ensures |hosts| == |pool|
  {
    if hosts != [] {
      var last := |hosts| - 1;
      ListedWithout(hosts, pool, last);
      assert Without(hosts, last) == hosts[..last];
      ListedCount(hosts[..last], pool - {hosts[last]});
    } else {
      assert pool == {};
    }
  }

  /** In increasing order of key. */
  ghost predicate Ordered(hosts: seq<CHost>)
    reads hosts
  {
    forall i, j :: 0 <= i < j < |hosts| ==> Compare(hosts[i].key, hosts[j].key) < 0
  }

  lemma OrderedWith(hosts: seq<CHost>, p: nat, h: CHost)
    requires Ordered(hosts) && p <= |hosts| && forall g :: g in hosts ==> g.key != h.key
    requires forall i :: 0 <= i < p ==> Compare(hosts[i].key, h.key) < 0
    requires forall i :: p <= i < |hosts| ==> Compare(hosts[i].key, h.key) >= 0
    ensures Ordered(hosts[..p] + [h] + hosts[p..])
  {
    forall i | p <= i < |hosts| ensures Compare(h.key, hosts[i].key) < 0 {
      assert hosts[i].key != h.key;
      CompareIsTotal(hosts[i].key, h.key);
      CompareIsTotal(h.key, hosts[i].key);
    }
    var now := hosts[..p] + [h] + hosts[p..];
    assert forall j :: 0 <= j < |now| ==> now[j] == if j < p then hosts[j] else if j == p then h else hosts[j - 1];
  }

  class HostCollection {
    var pool: set<CHost>
    var tree: seq<CHost>
    var list: seq<CHost>

    /** Tree and list hold exactly the records of the pool, each once, and the tree is ordered. */
    ghost predicate Valid()
      reads this, tree
    {
      Listed(list, pool) && Listed(tree, pool) && Ordered(tree)
    }

    ghost function Contents(): seq<Entry>
      reads this, list
    {
      Values(list)
    }

    constructor ()
      ensures Valid() && fresh(pool) && Contents() == []
    {
      pool, tree, list := {}, [], [];
    }

    /** Where `k` belongs in the tree: the descent by comparison. */
    method Descend(k: Host) returns (p: nat)
      requires Ordered(tree)
      ensures p <= |tree|
      ensures forall i :: 0 <= i < p ==> Compare(tree[i].key, k) < 0
      ensures forall i :: p <= i < |tree| ==> Compare(tree[i].key, k) >= 0
    {
      var hi := |tree|;
      p := 0;
      while p < hi
        invariant p <= hi <= |tree|
        invariant forall i :: 0 <= i < p ==> Compare(tree[i].key, k) < 0
        invariant forall i :: hi <= i < |tree| ==> Compare(tree[i].key, k) >= 0
      {
        var mid := (p + hi) / 2;
        if Compare(tree[mid].key, k) < 0 {
          forall i | 0 <= i < mid ensures Compare(tree[i].key, k) < 0 {
            CompareIsTransitive(tree[i].key, tree[mid].key, k);
          }
          p := mid + 1;
        } else {
          forall i | mid < i < |tree| ensures Compare(tree[i].key, k) >= 0 {
            AboveStaysAbove(k, tree[mid].key, tree[i].key);
          }
          hi := mid;
        }
      }
    }

    method TreeFind(k: Host) returns (node: CHost?)
      requires Valid()
      ensures node == null ==> !Known(Contents(), k)
      ensures node != null ==> node in list && node.key == k
    {
      var p := Descend(k);
      if p < |tree| && Compare(tree[p].key, k) == 0 {
        CompareIsTotal(tree[p].key, k);
        return tree[p];
      }
      node := null;
      forall i | 0 <= i < |list| ensures list[i].key != k {
        assert list[i] in tree;
        CompareIsTotal(list[i].key, k);
      }
    }

    method TreeInsert(node: CHost)
      requires Listed(tree, pool - {node}) && node in pool && Ordered(tree)
      requires forall h :: h in tree ==> h.key != node.key
      modifies this`tree
      ensures Listed(tree, pool) && Ordered(tree)
    {
      var p := Descend(node.key);
      OrderedWith(tree, p, node);
      ListedWith(tree, pool, p, node);
      tree := tree[..p] + [node] + tree[p..];
    }

    method TreeRemove(node: CHost)
      requires Listed(tree, pool) && node in pool && Ordered(tree)
      modifies this`tree
      ensures Listed(tree, pool - {node}) && Ordered(tree) && node !in tree
    {
      var i :| 0 <= i < |tree| && tree[i] == node;
      ListedWithout(tree, pool, i);
      tree := tree[..i] + tree[i + 1..];
    }

    /** Unlink a record from the list. */
    method ListRemove(node: CHost, ghost i: nat)
      requires Listed(list, pool) && i < |list| && list[i] == node
      modifies this`list
      ensures list == old(list)[..i] + old(list)[i + 1..] && Listed(list, pool - {node}) && node !in list
      ensures Contents() == old(Contents())[..i] + old(Contents())[i + 1..]
    {
      var j :| 0 <= j < |list| && list[j] == node;
      ListedWithout(list, pool, i);
      list := list[..j] + list[j + 1..];
    }

    /** Hand the least recently used record to an unknown host. */
    method Recycle(k: Host) returns (node: CHost)
      requires Valid() && list != [] && !Known(Contents(), k)
      modifies this`list, this`tree, list[0]
      ensures Listed(list, pool - {node}) && Listed(tree, pool) && Ordered(tree) && node in pool && node !in list
      ensures Contents() == old(Contents())[1..]
      ensures node.Value() == old(Contents())[0].(key := k, times := UNUSED)
    {
      hide Compare, Ordered;
      node := list[0];
      forall h | h in tree ensures h.key != k {
        assert h in list;
      }
      ListRemove(node, 0);
      ghost var s := Contents();
      assert s == old(Contents())[1..];
      TreeRemove(node);
      node.Reassign(k);
      assert Contents() == s;
      TreeInsert(node);
    }

    /** A new record for an unknown host. */
    method Build(k: Host) returns (node: CHost)
      requires Valid() && !Known(Contents(), k)
      modifies this`pool, this`tree
      ensures fresh(node) && pool == old(pool) + {node} && Listed(list, pool - {node}) && Listed(tree, pool) && Ordered(tree)
      ensures Contents() == old(Contents()) && node !in list && node.Value() == Entry(k, UNUSED, 0, 0)
    {
      forall h | h in tree ensures h.key != k {
        assert h in list;
      }
      node := new CHost(k);
      pool := pool + {node};
      TreeInsert(node);
    }

    /** Put the record at the end of the list. */
    method Touch(node: CHost, now: nat)
      requires Listed(list, pool - {node}) && Listed(tree, pool) && Ordered(tree) && node in pool && node !in list
      modifies this`list, node`ltime
      ensures Valid() && list == old(list) + [node]
      ensures Contents() == old(Contents()) + [old(node.Value()).(ltime := now)]
    {
      list := list + [node];
      node.ltime := now;
    }

    /** Tree, list and pool count the same records, and no two of them have the same key. */
    lemma CountsAgree()
      requires Valid()
      ensures |tree| == |list| == |pool| && DistinctKeys(Contents())
    {
      ListedCount(tree, pool);
      ListedCount(list, pool);
      forall i, j | 0 <= i < j < |list| ensures list[i].key != list[j].key {
        assert list[i] in tree && list[j] in tree;
        CompareIsTotal(list[i].key, list[j].key);
        CompareIsTotal(list[j].key, list[i].key);
      }
    }

    /** Keys are distinct, so the record found in the tree is the one at the position that the list
        gives. */
    lemma FoundIsListed(node: CHost)
      requires Valid() && node in pool
      ensures var i := Find(Contents(), node.key); i < |list| && list[i] == node
    {
      var j :| 0 <= j < |list| && list[j] == node;
      assert Contents()[j].key == node.key;
      var h := list[Find(Contents(), node.key)];
      assert h in tree && node in tree;
      CompareIsTotal(h.key, node.key);
      CompareIsTotal(node.key, h.key);
    }

    /** The record for a host, off the list and in the tree. */
    method Obtain(k: Host, now: nat, room: bool) returns (node: CHost?)
      requires Valid()
      modifies this`list, this`tree, this`pool, pool
      ensures fresh(pool - old(pool))
      ensures var p := RateLimit.GetNode(old(Contents()), k, now, room);
              if p.NoPlace? then node == null && Valid() && Contents() == old(Contents())
              else
                && node != null && node in pool && node !in list
                && Listed(list, pool - {node}) && Listed(tree, pool) && Ordered(tree)
                && Contents() == p.rest && node.Value().(ltime := now) == p.node
    {
      hide Compare, Ordered;
      ghost var s := Contents();
      ghost var p, i := RateLimit.GetNode(s, k, now, room), RateLimit.Find(s, k);
      node := TreeFind(k);
      if node != null {
        FoundIsListed(node);
        assert p == Placed(s[..i] + s[i + 1..], s[i].(ltime := now));
        ListRemove(node, i);
      } else if list != [] && now + 60 > list[0].ltime && now >= list[0].dtime {
        assert p == Placed(s[1..], Entry(k, UNUSED, now, s[0].dtime));
        node := Recycle(k);
      } else if room {
        assert p == Placed(s, Entry(k, UNUSED, now, 0));
        node := Build(k);
      } else {
        assert p.NoPlace?;
      }
    }

    /** The record for a host, moved to the end of the list. */
    method GetNode(k: Host, now: nat, room: bool) returns (node: CHost?)
      requires Valid()
      modifies this`list, this`tree, this`pool, pool
      ensures Valid() && fresh(pool - old(pool))
      ensures var p := RateLimit.GetNode(old(Contents()), k, now, room);
              if p.NoPlace? then node == null && Contents() == old(Contents())
              else node != null && list != [] && list[|list| - 1] == node && Contents() == p.rest + [p.node]
    {
      node := Obtain(k, now, room);
      if node == null {
        return null;
      }
      Touch(node, now);
    }

    /** Judge a call on the record at the end of the list. */
    method JudgeLast(node: CHost, now: nat, maxcpm: int, cpmwait: int, ghost c: Call) returns (v: Verdict)
      requires Valid() && list != [] && list[|list| - 1] == node && c == Call(node.key, now, maxcpm, cpmwait, c.room)
      modifies node`times, node`dtime
      ensures Valid()
      ensures var (e, w) := Serve(old(node.Value()), c);
              v == w && Contents() == old(Contents())[..|list| - 1] + [e]
    {
      var ticks := now / CHTGRAN % UINT;
      v := node.Admit(now, ticks, maxcpm, cpmwait, c);
    }

    /** One call: the new contents and the answer are those of the machine's step. */
    method CheckLimit(k: Host, now: nat, maxcpm: int, cpmwait: int, room: bool) returns (v: Verdict)
      requires Valid()
      modifies this`list, this`tree, this`pool, pool
      ensures Valid() && fresh(pool - old(pool))
      ensures (Contents(), v) == Step(old(Contents()), Call(k, now, maxcpm, cpmwait, room))
    {
      ghost var s, c := Contents(), Call(k, now, maxcpm, cpmwait, room);
      ghost var p := RateLimit.GetNode(s, k, now, room);
      var node := GetNode(k, now, room);
      if node == null {
        return Raised;
      }
      assert Contents()[|list| - 1] == node.Value() == p.node && Contents()[..|list| - 1] == p.rest;
      assert node.key == k by { FoundKey(s, k, now, room); }
      v := JudgeLast(node, now, maxcpm, cpmwait, c);
      StepFrom(s, c, p, Serve(p.node, c).0, v);
    }

    /** What a service of address family `family` is told: -1 to refuse the peer, 0 to let it in.  The peer of
        a service without a limit or outside the internet families, or one without an address, is always let
        in; `raised` stands for leaving by an exception. */
    method CpmIp(family: int, k: Host, peer: bool, now: nat, maxcpm: int, cpmwait: int, room: bool)
      returns (r: int, raised: bool)
      requires Valid()
      modifies this`list, this`tree, this`pool, pool
      ensures Valid() && fresh(pool - old(pool))
      ensures var c := Call(k, now, maxcpm, cpmwait, room);
              if maxcpm <= 0 || !(family == AF_INET || family == AF_INET6) || !peer
              then r == 0 && !raised && Contents() == old(Contents())
              else
                var (s, v) := Step(old(Contents()), c);
                && Contents() == s && (raised <==> v.Raised?)
                && (!raised ==> r == if v.Pass? then 0 else -1)
    {
      r, raised := 0, false;
      if maxcpm <= 0 {
        return;
      }
      if (family == AF_INET || family == AF_INET6) && peer {
        var clret := CheckLimit(k, now, maxcpm, cpmwait, room);
        raised := clret.Raised?;
        if !clret.Pass? {
          r := -1;
        }
      }
    }
  }

  lemma FoundKey(s: seq<Entry>, k: Key, now: nat, room: bool)
    requires GetNode(s, k, now, room).Placed?
    ensures GetNode(s, k, now, room).node.key == k
  {
  }

  lemma StepFrom(s: seq<Entry>, c: Call, p: Place, e: Entry, v: Verdict)
    requires p.Placed? && p == GetNode(s, c.key, c.now, c.room) && (e, v) == Serve(p.node, c)
    ensures Step(s, c) == (p.rest + [e], v)
  {
  }

  lemma AboveStaysAbove(k: Host, a: Host, b: Host)
    requires Compare(a, k) >= 0 && Compare(a, b) < 0
    ensures Compare(b, k) >= 0
  {
    CompareIsTotal(b, k);
    if Compare(b, k) < 0 { CompareIsTransitive(a, b, k); }
  }
}
