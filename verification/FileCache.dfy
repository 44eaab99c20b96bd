/** The shared index of the file cache in ngx_http_file_cache.c: nodes that are at
    once in a search tree and in an LRU queue, with reference counts, an update
    claim and a delete that drops the mutex half way.

    Every method of FileCache is one section executed under the mutex; what it does
    to the shared memory is stated by a relation, which CacheRuns uses as the steps
    of many processes. */
module FileCache {
  import opened Common
  import opened CacheTree

  /** The bit-fields `count` and `uses` of ngx_http_file_cache_node_t wrap. */
  const COUNT := 0x100000
  const USES := 0x400

  /** ngx_http_file_cache_node_t (onDisk is the flag `exists`). */
  datatype CacheNode = CacheNode(key: Key, count: nat, uses: nat, error: nat, onDisk: bool, updating: bool,
                                 deleting: bool, expire: int, validSec: int)

  /** ngx_http_cache_t, a request's side; window says that it is between the two
      mutex sections of ngx_http_file_cache_exists. */
  datatype Request = Request(key: Key, minUses: nat, lock: bool, node: Option<nat>, updated: bool, updating: bool,
                             error: nat, validSec: int, waiting: bool, window: bool)

  datatype Rc = Ok | Declined | Again | Error | Stale | Updating | Window

  /** The shared memory: the nodes, the tree over them, the queue with its head first. */
  datatype Shared = Shared(nodes: map<nat, CacheNode>, tree: Tree, queue: seq<nat>)

  // ---------------------------------------------------------------- the queue

  /** From head to tail the times to expire never increase. */
  predicate Newest(nodes: map<nat, CacheNode>, q: seq<nat>)
  {
    && (forall id :: id in q ==> id in nodes)
    && (forall i, j :: 0 <= i < j < |q| ==> nodes[q[i]].expire >= nodes[q[j]].expire)
  }

  lemma {:induction false} DropNewest(nodes: map<nat, CacheNode>, q: seq<nat>, id: nat)
    requires Newest(nodes, q)
    ensures Newest(nodes, Drop(q, id))
  {
    DropMembers(q, id);
    if q != [] {
      var t := q[1..];
      assert forall x :: x in t ==> x in q;
      forall i, j | 0 <= i < j < |t| ensures nodes[t[i]].expire >= nodes[t[j]].expire {
        assert t[i] == q[i + 1] && t[j] == q[j + 1];
      }
      DropNewest(nodes, t, id);
      DropMembers(t, id);
      forall i | 0 <= i < |t| ensures nodes[q[0]].expire >= nodes[t[i]].expire { assert t[i] == q[i + 1]; }
      NewestCons(nodes, q[0], Drop(t, id));
    }
  }

  lemma NewestCons(nodes: map<nat, CacheNode>, x: nat, q: seq<nat>)
    requires Newest(nodes, q) && x in nodes && forall y :: y in q ==> nodes[x].expire >= nodes[y].expire
    ensures Newest(nodes, [x] + q)
  {
    var s := [x] + q;
    forall i, j | 0 <= i < j < |s| ensures nodes[s[i]].expire >= nodes[s[j]].expire {
      assert s[j] == q[j - 1] && s[j] in q && (i > 0 ==> s[i] == q[i - 1]);
    }
  }

  // ---------------------------------------------------------------- well-formed index

  /** Tree and queue hold exactly the allocated nodes, each once and under its key. */
  ghost predicate Indexed(s: Shared)
  {
    && Sorted(InOrder(s.tree)) && DistinctIds(InOrder(s.tree)) && NoDup(s.queue)
    && (forall e :: e in InOrder(s.tree) ==> e.id in s.nodes && s.nodes[e.id].key == e.key)
    && (forall id :: id in s.nodes ==> Entry(s.nodes[id].key, id) in InOrder(s.tree))
    && (forall id :: id in s.queue <==> id in s.nodes)
  }

  /** The tree after the insertion of a node, and after the removal of one. */
  predicate TreeWith(t: Tree, e: Entry, k: Tree)
  {
    Sorted(InOrder(t)) && ValidKey(e.key) && InOrder(k) == InOrder(Insert(t, e))
  }

  predicate TreeWithout(t: Tree, id: nat, k: Tree) { InOrder(k) == Without(InOrder(t), id) }

  lemma AddedIndexed(s: Shared, k: Shared, id: nat, n: CacheNode)
    requires Indexed(s) && id !in s.nodes && ValidKey(n.key)
    requires k.nodes == s.nodes[id := n] && k.queue == [id] + s.queue && TreeWith(s.tree, Entry(n.key, id), k.tree)
    ensures Indexed(k)
  {
    hide Sorted, Insert;
    var e := Entry(n.key, id);
    var a, b := InsertInOrder(s.tree, e);
    NoDupCons(id, s.queue);
    forall x | x in InOrder(s.tree) ensures x.id != id {}
    var l := a + ([e] + b);
    forall i, j | 0 <= i < j < |l| ensures l[i].id != l[j].id {
      DistinctAround(InOrder(s.tree), a, b, e, i, j);
    }
    forall x | x in InOrder(k.tree) ensures x.id in k.nodes && k.nodes[x.id].key == x.key {
      assert x in a || x == e || x in b;
    }
    forall x | x in k.nodes ensures Entry(k.nodes[x].key, x) in InOrder(k.tree) {
      if x != id { assert Entry(s.nodes[x].key, x) in a + b; }
    }
  }

  lemma DistinctAround(l: seq<Entry>, a: seq<Entry>, b: seq<Entry>, e: Entry, i: nat, j: nat)
    requires l == a + b && DistinctIds(l) && (forall x :: x in l ==> x.id != e.id) && i < j < |a| + 1 + |b|
    ensures (a + ([e] + b))[i].id != (a + ([e] + b))[j].id
  {
    var m := a + ([e] + b);
    var i0 := if i < |a| then i else i - 1;
    var j0 := if j < |a| then j else j - 1;
    assert i != |a| ==> m[i] == l[i0] && m[i] in l;
    assert j != |a| ==> m[j] == l[j0] && m[j] in l;
  }

  lemma RemovedIndexed(s: Shared, k: Shared, id: nat)
    requires Indexed(s) && k.nodes == s.nodes - {id} && k.queue == Drop(s.queue, id) && TreeWithout(s.tree, id, k.tree)
    ensures Indexed(k)
  {
    hide Sorted;
    WithoutMembers(InOrder(s.tree), id);
    WithoutSorted(InOrder(s.tree), id);
    WithoutDistinct(InOrder(s.tree), id);
    DropMembers(s.queue, id);
    DropNoDup(s.queue, id);
  }

  lemma TouchedIndexed(s: Shared, k: Shared, id: nat)
    requires Indexed(s) && id in s.nodes && id in k.nodes
    requires k.tree == s.tree && k.nodes == s.nodes[id := k.nodes[id]] && k.nodes[id].key == s.nodes[id].key
    requires k.queue == s.queue || k.queue == [id] + Drop(s.queue, id)
    ensures Indexed(k)
  {
    hide Sorted;
    DropMembers(s.queue, id);
    DropNoDup(s.queue, id);
  }

  // ---------------------------------------------------------------- the sections as relations

  /** A node found by ngx_http_file_cache_exists. */
  function Found(n: CacheNode, isNew: bool, minUses: nat, now: int, inactive: int): (CacheNode, Rc)
  {
    var m := if isNew then n.(uses := (n.uses + 1) % USES, count := (n.count + 1) % COUNT) else n;
    if m.error != 0 then
      if m.validSec < now
      then (m.(error := 0, onDisk := false, validSec := 0, expire := now + inactive), Declined)
      else (m.(expire := now + inactive), Ok)
    else (m.(expire := now + inactive), if m.onDisk || m.uses >= minUses then Ok else Again)
  }

  /** A node made for a request. */
  predicate Created(s: Shared, k: Shared, c: Request, d: Request, now: int, inactive: int)
  {
    && d.node.Some? && d.node.value !in s.nodes
    && k.nodes == s.nodes[d.node.value := CacheNode(c.key, 1, 1, 0, false, false, false, now + inactive, 0)]
    && TreeWith(s.tree, Entry(c.key, d.node.value), k.tree)
    && k.queue == [d.node.value] + s.queue
    && d == c.(node := d.node, error := 0, window := false)
  }

  /** The first section of ngx_http_file_cache_exists; room tells whether the slab
      has a free node. */
  predicate ExistsStep(s: Shared, k: Shared, c: Request, d: Request, rc: Rc, now: int, inactive: int, room: bool)
  {
    if c.node.Some? || HasKey(InOrder(s.tree), c.key) then
      && d.node.Some? && d.node.value in s.nodes
      && (if c.node.Some? then d.node == c.node else Entry(c.key, d.node.value) in InOrder(s.tree))
      && var (n, r) := Found(s.nodes[d.node.value], c.node.None?, c.minUses, now, inactive);
      && k == Shared(s.nodes[d.node.value := n], s.tree, [d.node.value] + Drop(s.queue, d.node.value))
      && rc == r && d == c.(node := d.node, error := n.error)
    else if room then
      Created(s, k, c, d, now, inactive) && rc == Declined
    else
      k == s && d == c.(window := true) && rc == Window
  }

  /** Its second section, after the forced expiry: the key is not looked up again. */
  predicate RetryStep(s: Shared, k: Shared, c: Request, d: Request, rc: Rc, now: int, inactive: int, room: bool)
  {
    if room then Created(s, k, c, d, now, inactive) && rc == Declined
    else k == s && d == c.(window := false) && rc == Error
  }

  /** ngx_http_file_cache_lock */
  predicate LockStep(s: Shared, k: Shared, c: Request, d: Request, rc: Rc)
  {
    if !c.lock then k == s && d == c && rc == Declined
    else
      && c.node.Some? && c.node.value in s.nodes
      && var id := c.node.value;
      if !s.nodes[id].updating then
        k == s.(nodes := s.nodes[id := s.nodes[id].(updating := true)]) && d == c.(updating := true) && rc == Declined
      else k == s && (if c.updating then d == c && rc == Declined else d == c.(waiting := true) && rc == Again)
  }

  /** The shared part of ngx_http_file_cache_read. */
  predicate ReadStep(s: Shared, k: Shared, c: Request, d: Request, rc: Rc, cold: bool, stale: bool)
  {
    && c.node.Some? && c.node.value in s.nodes
    && var id := c.node.value;
    && var n := if cold && !s.nodes[id].onDisk then s.nodes[id].(uses := 1, onDisk := true) else s.nodes[id];
    if !stale then k == s.(nodes := s.nodes[id := n]) && d == c && rc == Ok
    else if n.updating then k == s.(nodes := s.nodes[id := n]) && d == c && rc == Updating
    else k == s.(nodes := s.nodes[id := n.(updating := true)]) && d == c.(updating := true) && rc == Stale
  }

  /** ngx_http_file_cache_update; renamed tells whether the file arrived. */
  predicate UpdateStep(s: Shared, k: Shared, c: Request, d: Request, renamed: bool)
  {
    if c.updated then k == s && d == c
    else
      && c.node.Some? && c.node.value in s.nodes
      && var n := s.nodes[c.node.value];
      && k == s.(nodes := s.nodes[c.node.value := n.(count := (n.count - 1) % COUNT, onDisk := n.onDisk || renamed,
                                                    updating := false)])
      && d == c.(updated := true, updating := false)
  }

  /** ngx_http_file_cache_free */
  predicate FreeStep(s: Shared, k: Shared, c: Request, d: Request)
  {
    if c.updated || c.node.None? then k == s && d == c
    else
      && c.node.value in s.nodes
      && var id := c.node.value;
      && var n := s.nodes[id].(count := (s.nodes[id].count - 1) % COUNT,
                               updating := s.nodes[id].updating && !c.updating);
      if c.error != 0 then
        && k == s.(nodes := s.nodes[id := n.(error := c.error % USES,
                                            validSec := if c.validSec != 0 then c.validSec else n.validSec)])
        && d == c.(updated := true, updating := false)
      else if !n.onDisk && n.count == 0 && c.minUses == 1 then
        Gone(s, k, id) && d == c.(node := None, updated := true, updating := false)
      else
        k == s.(nodes := s.nodes[id := n]) && d == c.(updated := true, updating := false)
  }

  /** The node is taken off queue and tree and given back to the slab. */
  predicate Gone(s: Shared, k: Shared, id: nat)
  {
    k.nodes == s.nodes - {id} && k.queue == Drop(s.queue, id) && TreeWithout(s.tree, id, k.tree)
  }

  /** ngx_http_file_cache_add */
  ghost predicate AddStep(s: Shared, k: Shared, key: Key, now: int, inactive: int, room: bool, rc: Rc)
  {
    if HasKey(InOrder(s.tree), key) then
      && rc == Ok
      && exists id :: id in s.nodes && Entry(key, id) in InOrder(s.tree)
                      && k == Shared(s.nodes[id := s.nodes[id].(expire := now + inactive)], s.tree,
                                     [id] + Drop(s.queue, id))
    else if room then
      && rc == Ok
      && exists id :: id in k.nodes && id !in s.nodes
                      && k.nodes == s.nodes[id := CacheNode(key, 0, 1, 0, true, false, false, now + inactive, 0)]
                      && TreeWith(s.tree, Entry(key, id), k.tree) && k.queue == [id] + s.queue
    else k == s && rc == Error
  }

  /** ngx_http_file_cache_delete up to the point where it drops the mutex (open) or
      to its end when there is no file to unlink. */
  ghost predicate DeleteStep(s: Shared, k: Shared, id: nat, open: bool)
  {
    && id in s.nodes
    && open == s.nodes[id].onDisk
    && var n := s.nodes[id];
    if n.onDisk then k == s.(nodes := s.nodes[id := n.(count := (n.count + 1) % COUNT, deleting := true)])
    else if n.count == 0 then Gone(s, k, id)
    else k == s
  }

  /** The rest of ngx_http_file_cache_delete, after the mutex is taken again. */
  predicate DeletedStep(s: Shared, k: Shared, id: nat)
  {
    && id in s.nodes
    && var n := s.nodes[id].(count := (s.nodes[id].count - 1) % COUNT, deleting := false);
    if n.count == 0 then Gone(s, k, id)
    else k == s.(nodes := s.nodes[id := n])
  }

  // ---------------------------------------------------------------- the expiry loop

  /** The nodes of a stretch of the queue that something still holds. */
  function Held(nodes: map<nat, CacheNode>, q: seq<nat>): seq<nat>
  {
    if q == [] then []
    else (if q[0] in nodes && nodes[q[0]].count != 0 then [q[0]] else []) + Held(nodes, q[1..])
  }

  /** What the expiry loop has made of s once it is done with the queue from i on:
      everything there had expired; what nobody held is gone, the rest is back at the
      head in the old order with a new time, and nothing before i has changed. */
  ghost predicate Swept(s: Shared, k: Shared, i: nat, now: int, inactive: int)
    requires i <= |s.queue|
  {
    && (forall id :: id in s.queue ==> id in s.nodes)
    && k.queue == Held(s.nodes, s.queue[i..]) + s.queue[..i]
    && SweptParts(s.nodes, k.nodes, s.queue[..i], s.queue[i..], now, inactive)
  }

  lemma {:induction false} DropLast(q: seq<nat>)
    requires NoDup(q) && q != []
    ensures Drop(q, q[|q| - 1]) == q[..|q| - 1]
  {
    if |q| > 1 {
      var t := q[1..];
      forall i, j | 0 <= i < j < |t| ensures t[i] != t[j] { assert t[i] == q[i + 1] && t[j] == q[j + 1]; }
      DropLast(t);
      assert t[|t| - 1] == q[|q| - 1] && [q[0]] + t[..|t| - 1] == q[..|q| - 1];
    }
  }

  /** One round of the loop. */
  predicate SweptOne(m: Shared, k: Shared, id: nat, now: int, inactive: int)
  {
    && id in m.nodes && m.nodes[id].expire <= now
    && if m.nodes[id].count == 0 then k.nodes == m.nodes - {id} && k.queue == Drop(m.queue, id)
       else
         && !m.nodes[id].deleting && k.nodes == m.nodes[id := m.nodes[id].(expire := now + inactive)]
         && k.queue == [id] + Drop(m.queue, id)
  }

  /** The old queue around the node before i. */
  lemma QueueAround(q: seq<nat>, i: nat)
    requires 0 < i <= |q| && NoDup(q)
    ensures forall id :: id in q[..i] <==> id in q[..i - 1] || id == q[i - 1]
    ensures forall id :: id in q[i - 1..] <==> id == q[i - 1] || id in q[i..]
    ensures q[i - 1] !in q[..i - 1] && q[i - 1] !in q[i..]
    ensures forall id :: id in q <==> id in q[..i] || id in q[i..]
  {
    var id, a, b := q[i - 1], q[..i - 1], q[i..];
    assert q[..i] == a + [id] && q[i - 1..] == [id] + b && q == q[..i] + b;
    forall j | 0 <= j < |a| ensures a[j] != id { assert a[j] == q[j]; }
    forall j | 0 <= j < |b| ensures b[j] != id { assert b[j] == q[i + j]; }
  }

  lemma SweptQueue(nodes: map<nat, CacheNode>, q: seq<nat>, m: seq<nat>, i: nat)
    requires 0 < i <= |q| && q[i - 1] in nodes && NoDup(m) && m == Held(nodes, q[i..]) + q[..i]
    ensures (if nodes[q[i - 1]].count == 0 then [] else [q[i - 1]]) + Drop(m, q[i - 1])
            == Held(nodes, q[i - 1..]) + q[..i - 1]
  {
    var id := q[i - 1];
    assert q[i - 1..] == [id] + q[i..] && q[..i] == q[..i - 1] + [id];
    DropLast(m);
    assert m[..|m| - 1] == Held(nodes, q[i..]) + q[..i - 1];
    assert Held(nodes, q[i - 1..]) == (if nodes[id].count != 0 then [id] else []) + Held(nodes, q[i..]);
  }

  /** The part of Swept about the nodes, for a queue of the parts a and b. */
  ghost predicate SweptParts(s: map<nat, CacheNode>, k: map<nat, CacheNode>, a: seq<nat>, b: seq<nat>, now: int,
                             inactive: int)
    requires forall id :: id in a || id in b ==> id in s
  {
    && (forall id :: id in k <==> id in a || (id in b && s[id].count != 0))
    && (forall id :: id in a ==> k[id] == s[id])
    && (forall id :: id in b ==> s[id].expire <= now)
    && (forall id :: id in b && s[id].count != 0 ==> !s[id].deleting && k[id] == s[id].(expire := now + inactive))
  }

  lemma SweptNodes(s: map<nat, CacheNode>, m: map<nat, CacheNode>, k: map<nat, CacheNode>, a: seq<nat>, a1: seq<nat>,
                   b: seq<nat>,
                   b1: seq<nat>, id: nat, now: int, inactive: int)
    requires forall x :: x in a || x in b ==> x in s
    requires (forall x :: x in a <==> x in a1 || x == id) && (forall x :: x in b1 <==> x == id || x in b) && id !in a1
    requires id !in b
    requires SweptParts(s, m, a, b, now, inactive) && id in m && m[id].expire <= now
    requires if m[id].count == 0 then k == m - {id}
             else !m[id].deleting && k == m[id := m[id].(expire := now + inactive)]
    ensures SweptParts(s, k, a1, b1, now, inactive)
  {
  }

  /** The sweep takes the node at the tail. */
  lemma SweptNext(s: Shared, m: Shared, k: Shared, i: nat, now: int, inactive: int)
    requires 0 < i <= |s.queue| && NoDup(s.queue) && Swept(s, m, i, now, inactive) && NoDup(m.queue)
    requires SweptOne(m, k, s.queue[i - 1], now, inactive)
    ensures Swept(s, k, i - 1, now, inactive)
  {
    hide NoDup, Held, Drop;
    var q := s.queue;
    var id := q[i - 1];
    QueueAround(q, i);
    assert id in q[..i] && id in q;
    SweptQueue(s.nodes, q, m.queue, i);
    assert [] + Drop(m.queue, id) == Drop(m.queue, id);
    SweptNodes(s.nodes, m.nodes, k.nodes, q[..i], q[..i - 1], q[i..], q[i - 1..], id, now, inactive);
  }

  /** At the start nothing is swept. */
  lemma SweptNone(s: Shared, now: int, inactive: int)
    requires Indexed(s)
    ensures Swept(s, s, |s.queue|, now, inactive)
  {
    assert s.queue[..|s.queue|] == s.queue && s.queue[|s.queue|..] == [];
  }

  lemma {:induction false} HeldMembers(nodes: map<nat, CacheNode>, q: seq<nat>)
    ensures forall id :: id in Held(nodes, q) <==> id in q && id in nodes && nodes[id].count != 0
  {
    if q != [] {
      HeldMembers(nodes, q[1..]);
      assert q == [q[0]] + q[1..];
    }
  }

  /** The tail of a queue swept down to i: the next node, or one that was put back. */
  lemma SweptTail(s: Shared, k: Shared, i: nat, now: int, inactive: int)
    requires i <= |s.queue| && Swept(s, k, i, now, inactive) && k.queue != [] && inactive >= 1
    ensures k.queue[|k.queue| - 1] in k.nodes
    ensures i > 0 ==> k.queue[|k.queue| - 1] == s.queue[i - 1] && k.nodes[s.queue[i - 1]] == s.nodes[s.queue[i - 1]]
    ensures i == 0 ==> k.nodes[k.queue[|k.queue| - 1]].expire > now
  {
    HeldMembers(s.nodes, s.queue[i..]);
    var id := k.queue[|k.queue| - 1];
    if i > 0 {
      assert id == s.queue[..i][i - 1];
    } else {
      assert s.queue[..0] == [] && k.queue == Held(s.nodes, s.queue[i..]);
      assert id in k.queue;
    }
  }

  /** When the node before i has not expired, nothing left has. */
  lemma SweptAll(s: Shared, k: Shared, i: nat, now: int, inactive: int)
    requires i <= |s.queue| && Swept(s, k, i, now, inactive) && inactive >= 1 && Newest(s.nodes, s.queue)
    requires i > 0 ==> s.nodes[s.queue[i - 1]].expire > now
    ensures forall id :: id in k.nodes ==> k.nodes[id].expire > now
  {
    forall id | id in s.queue[..i] ensures s.nodes[id].expire > now {
      var j :| 0 <= j < i && s.queue[j] == id;
      assert j < i - 1 ==> s.nodes[s.queue[j]].expire >= s.nodes[s.queue[i - 1]].expire;
    }
  }

  /** A swept queue is still in the order of the times to expire. */
  lemma SweptNewest(s: Shared, k: Shared, i: nat, now: int, inactive: int)
    requires i <= |s.queue| && Swept(s, k, i, now, inactive) && Newest(s.nodes, s.queue)
    requires forall id :: id in s.nodes ==> s.nodes[id].expire <= now + inactive
    ensures Newest(k.nodes, k.queue) && forall id :: id in k.nodes ==> k.nodes[id].expire <= now + inactive
  {
    hide Held;
    var h, a := Held(s.nodes, s.queue[i..]), s.queue[..i];
    HeldMembers(s.nodes, s.queue[i..]);
    forall x | 0 <= x < |h| ensures h[x] in k.nodes && k.nodes[h[x]].expire == now + inactive { assert h[x] in h; }
    forall x, y | 0 <= x < y < |a| ensures k.nodes[a[x]].expire >= k.nodes[a[y]].expire {
      assert a[x] in a && a[y] in a && a[x] == s.queue[x] && a[y] == s.queue[y];
    }
    NewestJoin(k.nodes, h, a, now + inactive);
  }

  lemma NewestJoin(nodes: map<nat, CacheNode>, h: seq<nat>, a: seq<nat>, top: int)
    requires Newest(nodes, a) && (forall id :: id in nodes ==> nodes[id].expire <= top)
    requires forall x :: 0 <= x < |h| ==> h[x] in nodes && nodes[h[x]].expire == top
    ensures Newest(nodes, h + a)
  {
    var q := h + a;
    forall id | id in q ensures id in nodes { assert id in h || id in a; }
    forall x, y | 0 <= x < y < |q| ensures nodes[q[x]].expire >= nodes[q[y]].expire {
      assert q[y] in q;
      assert x < |h| ==> q[x] == h[x];
      assert x >= |h| ==> q[x] == a[x - |h|] && q[y] == a[y - |h|];
    }
  }

  lemma {:induction false} FreshId(ids: set<nat>)
    ensures exists id: nat :: id !in ids
  {
    var bound := Above(ids);
    assert bound !in ids;
  }

  ghost function Above(ids: set<nat>): (b: nat)
    ensures forall id :: id in ids ==> id < b
  {
    if ids == {} then 0
    else
      var x :| x in ids;
      var b := Above(ids - {x});
      assert forall id :: id in ids ==> id == x || id in ids - {x};
      if x < b then b else x + 1
  }

  // ---------------------------------------------------------------- the shared object

  class Index {
    const inactive: int

    var nodes: map<nat, CacheNode>
    var tree: Tree
    var queue: seq<nat>

    ghost function Sh(): Shared
      reads this
    {
      Shared(nodes, tree, queue)
    }

    constructor (inactive: int)
      ensures this.inactive == inactive && Indexed(Sh()) && nodes == map[]
    {
      this.inactive := inactive;
      nodes, tree, queue := map[], Nil, [];
    }

    /** A node from the slab, put into the tree and at the head of the queue; where
        the slab finds it and how the tree rebalances is left open. */
    method AddNode(n: CacheNode) returns (id: nat)
      requires Indexed(Sh()) && ValidKey(n.key)
      modifies this
      ensures id !in old(nodes) && nodes == old(nodes)[id := n] && queue == [id] + old(queue)
      ensures TreeWith(old(tree), Entry(n.key, id), tree)
      ensures Indexed(Sh())
    {
      hide Sorted;
      ghost var s := Sh();
      FreshId(nodes.Keys);
      id :| id !in nodes.Keys;
      var t := Node(Nil, Entry(n.key, id), Nil);
      SortedKeys(InOrder(tree));
      if tree.Node? {
        t := InsertValue(tree, Entry(n.key, id));
      }
      t :| InOrder(t) == InOrder(Insert(tree, Entry(n.key, id)));
      nodes, tree, queue := nodes[id := n], t, [id] + queue;
      AddedIndexed(s, Sh(), id, n);
    }

    method RemoveNode(id: nat)
      requires Indexed(Sh()) && id in nodes
      modifies this
      ensures Gone(old(Sh()), Sh(), id) && Indexed(Sh())
    {
      ghost var s := Sh();
      TreeOfSequence(Without(InOrder(tree), id));
      var t :| InOrder(t) == Without(InOrder(tree), id);
      nodes, tree, queue := nodes - {id}, t, Drop(queue, id);
      RemovedIndexed(s, Sh(), id);
    }

    /** The part of ngx_http_file_cache_exists for a node that is there. */
    method Refresh(c: Request, id: nat, now: int) returns (rc: Rc, d: Request)
      requires Indexed(Sh()) && id in nodes
      modifies this
      ensures id in old(nodes)
      ensures var (n, r) := Found(old(nodes)[id], c.node.None?, c.minUses, now, inactive);
              && Sh() == Shared(old(nodes)[id := n], old(tree), [id] + Drop(old(queue), id))
              && rc == r && d == c.(node := Some(id), error := n.error)
      ensures Indexed(Sh())
    {
      hide Indexed;
      ghost var s := Sh();
      queue := Drop(queue, id);
      var n := nodes[id];
      if c.node.None? {
        n := n.(uses := (n.uses + 1) % USES, count := (n.count + 1) % COUNT);
      }
      rc := Ok;
      if n.error != 0 {
        if n.validSec < now {
          rc := Declined;
          n := n.(error := 0, onDisk := false, validSec := 0);
        }
      } else if !(n.onDisk || n.uses >= c.minUses) {
        rc := Again;
      }
      n := n.(expire := now + inactive);
      nodes := nodes[id := n];
      queue := [id] + queue;
      d := c.(node := Some(id), error := n.error);
      TouchedIndexed(s, Sh(), id);
    }

    method Exists(c: Request, now: int, room: bool) returns (rc: Rc, d: Request)
      requires Indexed(Sh()) && ValidKey(c.key) && (c.node.Some? ==> c.node.value in nodes)
      modifies this
      ensures ExistsStep(old(Sh()), Sh(), c, d, rc, now, inactive, room) && Indexed(Sh())
    {
      hide Sorted, Indexed, Drop, TreeWith, InOrder, Found;
      IndexedTree(Sh());
      ghost var s := Sh();
      var fcn := c.node;
      if fcn.None? {
        fcn := Lookup(tree, c.key);
      }
      if fcn.Some? {
        IndexedEntry(s, Entry(c.key, fcn.value));
        rc, d := Refresh(c, fcn.value, now);
        return;
      }
      if !room {
        return Window, c.(window := true);
      }
      var id := AddNode(CacheNode(c.key, 1, 1, 0, false, false, false, now + inactive, 0));
      return Declined, c.(node := Some(id), error := 0, window := false);
    }

    lemma IndexedTree(s: Shared)
      requires Indexed(s)
      ensures Sorted(InOrder(s.tree))
    {
    }

    lemma IndexedEntry(s: Shared, e: Entry)
      requires Indexed(s)
      ensures e in InOrder(s.tree) ==> e.id in s.nodes && s.nodes[e.id].key == e.key && HasKey(InOrder(s.tree), e.key)
    {
    }

    method Retry(c: Request, now: int, room: bool) returns (rc: Rc, d: Request)
      requires Indexed(Sh()) && ValidKey(c.key)
      modifies this
      ensures RetryStep(old(Sh()), Sh(), c, d, rc, now, inactive, room) && Indexed(Sh())
    {
      if !room {
        return Error, c.(window := false);
      }
      var id := AddNode(CacheNode(c.key, 1, 1, 0, false, false, false, now + inactive, 0));
      return Declined, c.(node := Some(id), error := 0, window := false);
    }

    method Lock(c: Request) returns (rc: Rc, d: Request)
      requires Indexed(Sh()) && (c.lock ==> c.node.Some? && c.node.value in nodes)
      modifies this
      ensures LockStep(old(Sh()), Sh(), c, d, rc) && Indexed(Sh())
    {
      ghost var s := Sh();
      d := c;
      if !c.lock {
        return Declined, d;
      }
      var id := c.node.value;
      if !nodes[id].updating {
        nodes := nodes[id := nodes[id].(updating := true)];
        d := d.(updating := true);
        TouchedIndexed(s, Sh(), id);
      }
      if d.updating {
        return Declined, d;
      }
      d := d.(waiting := true);
      return Again, d;
    }

    method Read(c: Request, cold: bool, stale: bool) returns (rc: Rc, d: Request)
      requires Indexed(Sh()) && c.node.Some? && c.node.value in nodes
      modifies this
      ensures ReadStep(old(Sh()), Sh(), c, d, rc, cold, stale) && Indexed(Sh())
    {
      ghost var s := Sh();
      var id := c.node.value;
      d, rc := c, Ok;
      if cold && !nodes[id].onDisk {
        nodes := nodes[id := nodes[id].(uses := 1, onDisk := true)];
      }
      if stale {
        if nodes[id].updating {
          rc := Updating;
        } else {
          nodes := nodes[id := nodes[id].(updating := true)];
          d := d.(updating := true);
          rc := Stale;
        }
      }
      assert s.nodes[id := s.nodes[id]] == s.nodes;
      TouchedIndexed(s, Sh(), id);
    }

    method Update(c: Request, renamed: bool) returns (d: Request)
      requires Indexed(Sh()) && (!c.updated ==> c.node.Some? && c.node.value in nodes)
      modifies this
      ensures UpdateStep(old(Sh()), Sh(), c, d, renamed) && Indexed(Sh())
    {
      ghost var s := Sh();
      if c.updated {
        return c;
      }
      d := c.(updated := true, updating := false);
      var n := nodes[c.node.value];
      n := n.(count := (n.count - 1) % COUNT);
      if renamed {
        n := n.(onDisk := true);
      }
      n := n.(updating := false);
      nodes := nodes[c.node.value := n];
      TouchedIndexed(s, Sh(), c.node.value);
    }

    method Free(c: Request) returns (d: Request)
      requires Indexed(Sh()) && (!c.updated && c.node.Some? ==> c.node.value in nodes)
      modifies this
      ensures FreeStep(old(Sh()), Sh(), c, d) && Indexed(Sh())
    {
      hide Indexed;
      ghost var s := Sh();
      if c.updated || c.node == None {
        return c;
      }
      var id := c.node.value;
      var n := nodes[id];
      n := n.(count := (n.count - 1) % COUNT);
      if c.updating {
        n := n.(updating := false);
      }
      d := c.(updated := true, updating := false);
      if c.error != 0 {
        n := n.(error := c.error % USES);
        if c.validSec != 0 {
          n := n.(validSec := c.validSec);
        }
      } else if !n.onDisk && n.count == 0 && c.minUses == 1 {
        RemoveNode(id);
        d := d.(node := None);
        return;
      }
      nodes := nodes[id := n];
      TouchedIndexed(s, Sh(), id);
    }

    method Add(key: Key, now: int, room: bool) returns (rc: Rc)
      requires Indexed(Sh()) && ValidKey(key)
      modifies this
      ensures AddStep(old(Sh()), Sh(), key, now, inactive, room, rc) && Indexed(Sh())
    {
      hide Sorted, Indexed;
      ghost var s := Sh();
      IndexedTree(s);
      var fcn := Lookup(tree, key);
      if fcn == None {
        if !room {
          return Error;
        }
        var id := AddNode(CacheNode(key, 0, 1, 0, true, false, false, now + inactive, 0));
        assert id in nodes;
        return Ok;
      }
      IndexedEntry(s, Entry(key, fcn.value));
      nodes := nodes[fcn.value := nodes[fcn.value].(expire := now + inactive)];
      queue := [fcn.value] + Drop(queue, fcn.value);
      TouchedIndexed(s, Sh(), fcn.value);
      return Ok;
    }

    /** The first half of ngx_http_file_cache_delete. */
    method Delete(id: nat) returns (open: bool)
      requires Indexed(Sh()) && id in nodes
      modifies this
      ensures DeleteStep(old(Sh()), Sh(), id, open) && Indexed(Sh())
    {
      hide Indexed;
      ghost var s := Sh();
      var n := nodes[id];
      if n.onDisk {
        nodes := nodes[id := n.(count := (n.count + 1) % COUNT, deleting := true)];
        TouchedIndexed(s, Sh(), id);
        return true;
      }
      if n.count == 0 {
        RemoveNode(id);
      }
      return false;
    }

    /** Its second half. */
    method Deleted(id: nat)
      requires Indexed(Sh()) && id in nodes
      modifies this
      ensures DeletedStep(old(Sh()), Sh(), id) && Indexed(Sh())
    {
      hide Indexed;
      ghost var s := Sh();
      var n := nodes[id].(count := (nodes[id].count - 1) % COUNT, deleting := false);
      if n.count == 0 {
        RemoveNode(id);
      } else {
        nodes := nodes[id := n];
        TouchedIndexed(s, Sh(), id);
      }
    }

    /** ngx_http_file_cache_delete when nothing happens while the mutex is dropped. */
    method Evict(id: nat)
      requires Indexed(Sh()) && id in nodes && nodes[id].count == 0
      modifies this
      ensures Gone(old(Sh()), Sh(), id) && Indexed(Sh())
    {
      hide Indexed;
      var open := Delete(id);
      if open {
        Deleted(id);
      }
    }

    /** ngx_http_file_cache_forced_expire without interference: of the last 20 nodes
        the one nearest the tail that nobody holds is deleted. */
    method ForcedExpire() returns (wait: nat)
      requires Indexed(Sh())
      modifies this
      ensures Indexed(Sh())
      ensures var q := old(queue);
              var first := if |q| > 20 then |q| - 20 else 0;
              if wait == 0 then
                exists i :: first <= i < |q| && q[i] in old(nodes) && old(nodes)[q[i]].count == 0
                            && (forall j :: i < j < |q| ==> q[j] in old(nodes) && old(nodes)[q[j]].count != 0)
                            && Gone(old(Sh()), Sh(), q[i])
              else
                && Sh() == old(Sh()) && wait == (if |q| >= 20 then 1 else 10)
                && forall j :: first <= j < |q| ==> q[j] in nodes && nodes[q[j]].count != 0
    {
      hide Sorted, DistinctIds, Gone, InOrder;
      wait := 10;
      var tries := 20;
      var i := |queue|;
      while i > 0
        invariant 0 <= i <= |queue| && tries == 20 - (|queue| - i) && tries > 0 && wait == 10
        invariant forall j :: i <= j < |queue| ==> queue[j] in nodes && nodes[queue[j]].count != 0
        invariant Sh() == old(Sh())
      {
        var id := queue[i - 1];
        assert id in queue;
        if nodes[id].count == 0 {
          ghost var q := queue;
          Evict(id);
          assert q[i - 1] == id;
          return 0;
        }
        i := i - 1;
        tries := tries - 1;
        if tries == 0 {
          return 1;
        }
      }
    }

    /** What the expiry loop does with an expired node at the tail: it goes, or back
        to the head, since a worker that died may have left it held. */
    method SweepOne(id: nat, now: int)
      requires Indexed(Sh()) && id in nodes && nodes[id].expire <= now && (nodes[id].count != 0 ==> !nodes[id].deleting)
      modifies this
      ensures SweptOne(old(Sh()), Sh(), id, now, inactive) && Indexed(Sh())
    {
      hide Indexed, TreeWithout, Drop;
      ghost var m := Sh();
      var n := nodes[id];
      if n.count == 0 {
        Evict(id);
      } else {
        queue := Drop(queue, id);
        nodes := nodes[id := n.(expire := now + inactive)];
        queue := [id] + queue;
        TouchedIndexed(m, Sh(), id);
      }
    }

    lemma IndexedQueue(s: Shared)
      requires Indexed(s)
      ensures NoDup(s.queue)
    {
    }

    /** ngx_http_file_cache_expire without interference. The loop ends since every
        round takes one more node off the old queue; it leaves an expired node only
        behind one that is being deleted. */
    method Expire(now: int) returns (wait: int, ghost i: nat)
      requires Indexed(Sh()) && Newest(nodes, queue) && inactive >= 1
      requires forall id :: id in nodes ==> nodes[id].expire <= now + inactive
      modifies this
      ensures Indexed(Sh()) && Newest(nodes, queue) && 1 <= wait <= 10
      ensures forall id :: id in nodes ==> nodes[id].expire <= now + inactive
      ensures i <= |old(queue)| && Swept(old(Sh()), Sh(), i, now, inactive)
      ensures (forall id :: id in nodes ==> nodes[id].expire > now)
              || (i > 0 && var n := old(nodes)[old(queue)[i - 1]];
                           n.expire <= now && n.count != 0 && n.deleting && wait == 1)
    {
      hide Indexed, Sorted, DistinctIds, InOrder, Newest, Swept, Gone, NoDup, SweptOne, ValidKeys;
      ghost var s := Sh();
      i := |queue|;
      SweptNone(s, now, inactive);
      while true
        invariant i <= |s.queue| && Indexed(Sh()) && Swept(s, Sh(), i, now, inactive)
        decreases i
      {
        if queue == [] {
          wait := 10;
          SweptEmpty(s, Sh(), i, now, inactive);
          break;
        }
        var id := queue[|queue| - 1];
        SweptTail(s, Sh(), i, now, inactive);
        var n := nodes[id];
        wait := n.expire - now;
        if wait > 0 {
          wait := if wait > 10 then 10 else wait;
          SweptAll(s, Sh(), i, now, inactive);
          break;
        }
        if n.count != 0 && n.deleting {
          wait := 1;
          break;
        }
        ghost var m := Sh();
        SweepOne(id, now);
        IndexedQueue(s);
        IndexedQueue(m);
        SweptNext(s, m, Sh(), i, now, inactive);
        i := i - 1;
      }
      SweptNewest(s, Sh(), i, now, inactive);
    }

    lemma SweptEmpty(s: Shared, k: Shared, i: nat, now: int, inactive: int)
      requires i <= |s.queue| && Swept(s, k, i, now, inactive) && k.queue == [] && Indexed(k)
      ensures forall id :: id in k.nodes ==> k.nodes[id].expire > now
    {
    }
  }

  /** Every entry sequence is some tree's. */
  lemma {:induction false} TreeOfSequence(s: seq<Entry>)
    ensures exists t: Tree :: InOrder(t) == s
  {
    if s == [] {
      assert InOrder(Nil) == s;
    } else {
      TreeOfSequence(s[1..]);
      var r: Tree :| InOrder(r) == s[1..];
      assert InOrder(Node(Nil, s[0], r)) == [] + ([s[0]] + s[1..]) == s;
    }
  }
}
