/** Runs of the file cache: any number of requests and any number of processes that
    delete nodes (the cache manager, or a worker that was out of shared memory),
    interleaved wherever ngx_http_file_cache.c takes or drops the mutex. */
module CacheRuns {
  import opened Common
  import opened CacheTree
  import opened FileCache

  /** reqs are the live requests; pend tells which node a process has chosen to
      delete while it is without the mutex; now is ngx_time(). */
  datatype Sys = Sys(sh: Shared, reqs: map<nat, Request>, pend: map<nat, nat>, now: int)

  datatype Label =
    | Arrive(r: nat)
    | Open(r: nat)
    | Retry(r: nat)
    | Lock(r: nat)
    | Wake(r: nat)
    | Read(r: nat)
    | Fail(r: nat)
    | Update(r: nat)
    | Free(r: nat)
    | Leave(r: nat)
    | Add
    | DeleteBegin(a: nat, id: nat)
    | DeleteEnd(a: nat)
    | Requeue(id: nat)
    | Tick

  /** A request counts on its node until it has updated or freed it. */
  predicate Holding(c: Request) { c.node.Some? && !c.updated }

  // ---------------------------------------------------------------- steps

  predicate NewRequest(c: Request)
  {
    ValidKey(c.key) && c.node.None? && !c.updated && !c.updating && !c.window && !c.waiting
  }

  /** One process does what the label says, all under the mutex. */
  ghost predicate Next(y: Sys, z: Sys, l: Label, inactive: int)
  {
    match l
    case Arrive(r) =>
      r !in y.reqs && |y.reqs| + 2 < COUNT && exists c :: NewRequest(c) && z == y.(reqs := y.reqs[r := c])
    case Open(r) =>
      && r in y.reqs && !y.reqs[r].updated && !y.reqs[r].window && !y.reqs[r].waiting
      && By(y, z, r) && exists rc, room :: ExistsStep(y.sh, z.sh, y.reqs[r], z.reqs[r], rc, y.now, inactive, room)
    case Retry(r) =>
      && r in y.reqs && y.reqs[r].window
      && By(y, z, r) && exists rc, room :: RetryStep(y.sh, z.sh, y.reqs[r], z.reqs[r], rc, y.now, inactive, room)
    case Lock(r) =>
      r in y.reqs && Holding(y.reqs[r]) && By(y, z, r) && exists rc :: LockStep(y.sh, z.sh, y.reqs[r], z.reqs[r], rc)
    case Wake(r) =>
      r in y.reqs && exists lock :: z == y.(reqs := y.reqs[r := y.reqs[r].(waiting := false, lock := lock)])
    case Read(r) =>
      && r in y.reqs && Holding(y.reqs[r])
      && By(y, z, r) && exists rc, cold, stale :: ReadStep(y.sh, z.sh, y.reqs[r], z.reqs[r], rc, cold, stale)
    case Fail(r) =>
      r in y.reqs && exists e, v :: z == y.(reqs := y.reqs[r := y.reqs[r].(error := e, validSec := v)])
    case Update(r) =>
      && r in y.reqs && !y.reqs[r].window
      && By(y, z, r) && exists renamed :: UpdateStep(y.sh, z.sh, y.reqs[r], z.reqs[r], renamed)
    case Free(r) =>
      r in y.reqs && !y.reqs[r].window && By(y, z, r) && FreeStep(y.sh, z.sh, y.reqs[r], z.reqs[r])
    case Leave(r) =>
      r in y.reqs && !Holding(y.reqs[r]) && !y.reqs[r].window && z == y.(reqs := y.reqs - {r})
    case Add =>
      && z == y.(sh := z.sh)
      && exists key, room, rc :: ValidKey(key) && AddStep(y.sh, z.sh, key, y.now, inactive, room, rc)
    case DeleteBegin(a, id) =>
      && a !in y.pend && id in y.sh.nodes && y.sh.nodes[id].count == 0
      && z == y.(sh := z.sh, pend := z.pend)
      && exists open :: DeleteStep(y.sh, z.sh, id, open) && z.pend == if open then y.pend[a := id] else y.pend
    case DeleteEnd(a) =>
      a in y.pend && z == y.(sh := z.sh, pend := y.pend - {a}) && DeletedStep(y.sh, z.sh, y.pend[a])
    case Requeue(id) =>
      && id in y.sh.nodes && y.sh.nodes[id].count != 0 && !y.sh.nodes[id].deleting
      && z == y.(sh := z.sh) && SweptOne(y.sh, z.sh, id, y.now, inactive) && z.sh.tree == y.sh.tree
    case Tick =>
      z.now >= y.now && z == y.(now := z.now)
  }

  /** Only the shared memory and request r may have changed. */
  predicate By(y: Sys, z: Sys, r: nat)
  {
    r in z.reqs && z == y.(sh := z.sh, reqs := y.reqs[r := z.reqs[r]])
  }

  // ---------------------------------------------------------------- the invariant

  /** The requests that hold a node, those that claim to update it, and the
      processes in the middle of deleting it. */
  function Holders(reqs: map<nat, Request>, id: nat): set<nat>
  {
    set r | r in reqs && Holding(reqs[r]) && reqs[r].node == Some(id)
  }

  function Claimers(reqs: map<nat, Request>, id: nat): set<nat>
  {
    set r | r in reqs && reqs[r].updating && reqs[r].node == Some(id)
  }

  function Deleters(pend: map<nat, nat>, id: nat): set<nat>
  {
    set a | a in pend && pend[a] == id
  }

  /** A node counts its holders, and itself once more while it is being deleted. */
  predicate NodeCounts(n: CacheNode, holders: set<nat>, deleters: set<nat>)
  {
    n.count == |holders| + |deleters| && |deleters| == (if n.deleting then 1 else 0)
  }

  /** Counts are exact; a node that is gone is neither held nor being deleted. */
  ghost predicate Counts(y: Sys)
  {
    && |y.reqs| + 1 < COUNT
    && forall id: nat ::
         if id in y.sh.nodes then NodeCounts(y.sh.nodes[id], Holders(y.reqs, id), Deleters(y.pend, id))
         else Holders(y.reqs, id) == {} && Deleters(y.pend, id) == {}
  }

  /** The queue is in the order of the times to expire, none of which is too far off. */
  predicate Timed(s: Shared, now: int, inactive: int)
  {
    Newest(s.nodes, s.queue) && forall id :: id in s.nodes ==> s.nodes[id].expire <= now + inactive
  }

  ghost predicate Safe(y: Sys, inactive: int)
  {
    && Indexed(y.sh) && Timed(y.sh, y.now, inactive) && Counts(y)
    && (forall r :: r in y.reqs ==> ValidKey(y.reqs[r].key))
    && (forall r :: r in y.reqs && y.reqs[r].window ==> y.reqs[r].node.None? && !y.reqs[r].updated)
  }

  ghost predicate Start(y: Sys)
  {
    y.sh == Shared(map[], Nil, []) && y.reqs == map[] && y.pend == map[]
  }

  lemma StartSafe(y: Sys, inactive: int)
    requires Start(y)
    ensures Safe(y, inactive)
  {
    forall id: nat ensures Holders(y.reqs, id) == {} && Deleters(y.pend, id) == {} {}
  }

  // ---------------------------------------------------------------- what steps do to tree and queue

  /** A node keeps its key and either its place and its time, or moves to the head. */
  predicate Touched(s: Shared, k: Shared, id: nat, now: int, inactive: int)
  {
    && id in s.nodes && id in k.nodes && k.tree == s.tree
    && k.nodes == s.nodes[id := k.nodes[id]] && k.nodes[id].key == s.nodes[id].key
    && ((k.queue == s.queue && k.nodes[id].expire == s.nodes[id].expire)
        || (k.queue == [id] + Drop(s.queue, id) && k.nodes[id].expire == now + inactive))
  }

  predicate Made(s: Shared, k: Shared, id: nat, now: int, inactive: int)
  {
    && id !in s.nodes && id in k.nodes && k.nodes == s.nodes[id := k.nodes[id]] && ValidKey(k.nodes[id].key)
    && TreeWith(s.tree, Entry(k.nodes[id].key, id), k.tree) && k.queue == [id] + s.queue
    && k.nodes[id].expire == now + inactive
  }

  /** What one section may do to the index. */
  ghost predicate Moves(s: Shared, k: Shared, id: nat, now: int, inactive: int)
  {
    k == s || Touched(s, k, id, now, inactive) || Made(s, k, id, now, inactive) || (id in s.nodes && Gone(s, k, id))
  }

  lemma MovesSafe(s: Shared, k: Shared, id: nat, now: int, inactive: int)
    requires Moves(s, k, id, now, inactive) && Indexed(s) && Timed(s, now, inactive)
    ensures Indexed(k) && Timed(k, now, inactive)
  {
    hide Indexed, Newest, TreeWith, TreeWithout, Drop;
    if Touched(s, k, id, now, inactive) {
      TouchedIndexed(s, k, id);
      TouchedNewest(s, k, id, now, inactive);
    } else if Made(s, k, id, now, inactive) {
      AddedIndexed(s, k, id, k.nodes[id]);
      MadeNewest(s, k, id, now, inactive);
    } else if k != s {
      RemovedIndexed(s, k, id);
      GoneNewest(s, k, id, now, inactive);
    }
  }

  lemma TouchedNewest(s: Shared, k: Shared, id: nat, now: int, inactive: int)
    requires Touched(s, k, id, now, inactive) && Timed(s, now, inactive)
    ensures Newest(k.nodes, k.queue)
  {
    if k.queue != s.queue || k.nodes[id].expire != s.nodes[id].expire {
      var q := Drop(s.queue, id);
      DropMembers(s.queue, id);
      DropNewest(s.nodes, s.queue, id);
      NewestSame(s.nodes, k.nodes, q);
      NewestCons(k.nodes, id, q);
    } else {
      NewestSame(s.nodes, k.nodes, s.queue);
    }
  }

  lemma MadeNewest(s: Shared, k: Shared, id: nat, now: int, inactive: int)
    requires Made(s, k, id, now, inactive) && Timed(s, now, inactive)
    ensures Newest(k.nodes, k.queue)
  {
    NewestSame(s.nodes, k.nodes, s.queue);
    NewestCons(k.nodes, id, s.queue);
  }

  lemma GoneNewest(s: Shared, k: Shared, id: nat, now: int, inactive: int)
    requires Gone(s, k, id) && Timed(s, now, inactive)
    ensures Newest(k.nodes, k.queue)
  {
    DropMembers(s.queue, id);
    DropNewest(s.nodes, s.queue, id);
    NewestSame(s.nodes, k.nodes, k.queue);
  }

  lemma NewestSame(m: map<nat, CacheNode>, n: map<nat, CacheNode>, q: seq<nat>)
    requires Newest(m, q) && forall id :: id in q ==> id in n && n[id].expire == m[id].expire
    ensures Newest(n, q)
  {
    forall i, j | 0 <= i < j < |q| ensures n[q[i]].expire >= n[q[j]].expire { assert q[i] in q && q[j] in q; }
  }

  // ---------------------------------------------------------------- what steps do to the counts

  predicate Holds(c: Request, id: nat) { Holding(c) && c.node == Some(id) }

  lemma HeldNode(y: Sys, r: nat)
    requires Counts(y) && r in y.reqs && Holding(y.reqs[r])
    ensures y.reqs[r].node.value in y.sh.nodes
  {
    assert r in Holders(y.reqs, y.reqs[r].node.value);
  }

  lemma HoldersBound(reqs: map<nat, Request>, id: nat, r: nat)
    requires r in reqs
    ensures |Holders(reqs, id)| + (if Holds(reqs[r], id) then 0 else 1) <= |reqs|
    ensures Holds(reqs[r], id) ==> |Holders(reqs, id)| >= 1
  {
    var h := Holders(reqs, id);
    if Holds(reqs[r], id) {
      assert r in h;
      Subset(h, reqs.Keys);
    } else {
      Subset(h, reqs.Keys - {r});
    }
  }

  lemma {:induction false} Subset(a: set<nat>, b: set<nat>)
    requires a <= b
    ensures |a| <= |b|
  {
    if a != {} {
      var x :| x in a;
      Subset(a - {x}, b - {x});
    }
  }

  /** What a change of one request means for the holders of a node. */
  lemma HoldersAfter(reqs: map<nat, Request>, r: nat, d: Request, id: nat)
    ensures var h := Holders(reqs[r := d], id);
            && h == (if Holds(d, id) then Holders(reqs, id) + {r} else Holders(reqs, id) - {r})
            && |h| == |Holders(reqs, id)| - (if r in reqs && Holds(reqs[r], id) then 1 else 0)
                      + (if Holds(d, id) then 1 else 0)
  {
    var g, h := Holders(reqs, id), Holders(reqs[r := d], id);
    assert h == if Holds(d, id) then g + {r} else g - {r};
    assert r in g <==> r in reqs && Holds(reqs[r], id);
    if r in g { assert |g - {r}| == |g| - 1; }
    if r in g { assert g + {r} == g; } else { assert g - {r} == g; }
  }

  /** The count of a node, as far as request c goes into it. */
  function Part(c: Request, id: nat): nat { if Holds(c, id) then 1 else 0 }

  /** Request r changes at most its own part of one node's count. */
  ghost predicate CountStep(y: Sys, z: Sys, r: nat, id: nat)
    requires r in y.reqs && r in z.reqs
  {
    var c, d := y.reqs[r], z.reqs[r];
    && By(y, z, r)
    && (c.node.None? || c.node == Some(id) || !Holding(c)) && (d.node.None? || d.node == Some(id) || !Holding(d))
    && (forall x: nat :: x != id ==> (x in z.sh.nodes <==> x in y.sh.nodes))
    && (forall x: nat :: x != id && x in y.sh.nodes ==> z.sh.nodes[x] == y.sh.nodes[x])
    && (if id in y.sh.nodes then
          if id in z.sh.nodes then
            && z.sh.nodes[id].deleting == y.sh.nodes[id].deleting
            && z.sh.nodes[id].count == y.sh.nodes[id].count - Part(c, id) + Part(d, id)
          else y.sh.nodes[id].count == Part(c, id) && !y.sh.nodes[id].deleting && !Holds(d, id)
        else if id in z.sh.nodes then !z.sh.nodes[id].deleting && z.sh.nodes[id].count == Part(d, id)
        else !Holds(d, id))
  }

  lemma CountsBy(y: Sys, z: Sys, r: nat, id: nat)
    requires Counts(y) && r in y.reqs && r in z.reqs && CountStep(y, z, r, id)
    ensures Counts(z)
  {
    hide Holders, Deleters, NodeCounts;
    assert z.reqs.Keys == y.reqs.Keys;
    assert |z.reqs| == |z.reqs.Keys| == |y.reqs|;
    forall x: nat ensures if x in z.sh.nodes then NodeCounts(z.sh.nodes[x], Holders(z.reqs, x), Deleters(z.pend, x))
                          else Holders(z.reqs, x) == {} && Deleters(z.pend, x) == {}
    {
      hide CountStep, Counts;
      CountsAt(y, z, r, id, x);
    }
  }

  lemma CountsAt(y: Sys, z: Sys, r: nat, id: nat, x: nat)
    requires Counts(y) && r in y.reqs && r in z.reqs && CountStep(y, z, r, id)
    ensures if x in z.sh.nodes then NodeCounts(z.sh.nodes[x], Holders(z.reqs, x), Deleters(z.pend, x))
            else Holders(z.reqs, x) == {} && Deleters(z.pend, x) == {}
  {
    hide Holders, Deleters;
    HoldersAfter(y.reqs, r, z.reqs[r], x);
    HoldersBound(y.reqs, x, r);
  }

  lemma StepIsBy(y: Sys, z: Sys, r: nat, id: nat)
    requires r in y.reqs && r in z.reqs && CountStep(y, z, r, id)
    ensures By(y, z, r)
  {
  }

  /** The common shape of a section run for a request. */
  lemma ByRequest(y: Sys, z: Sys, r: nat, id: nat, inactive: int)
    requires Safe(y, inactive) && r in y.reqs && r in z.reqs
    requires Moves(y.sh, z.sh, id, y.now, inactive) && CountStep(y, z, r, id)
    requires ValidKey(z.reqs[r].key) && (z.reqs[r].window ==> z.reqs[r].node.None? && !z.reqs[r].updated)
    ensures Safe(z, inactive)
  {
    hide Indexed, Timed, Counts, Moves, CountStep;
    StepIsBy(y, z, r, id);
    MovesSafe(y.sh, z.sh, id, y.now, inactive);
    CountsBy(y, z, r, id);
  }

  /** A request that holds no node sees a count below the top of the bit-field. */
  lemma RoomToCount(y: Sys, r: nat, id: nat)
    requires Counts(y) && r in y.reqs && id in y.sh.nodes
    ensures y.sh.nodes[id].count <= |y.reqs| + 1
    ensures !Holds(y.reqs[r], id) ==> y.sh.nodes[id].count <= |y.reqs|
    ensures Holds(y.reqs[r], id) ==> y.sh.nodes[id].count >= 1
  {
    hide Holders, Deleters;
    HoldersBound(y.reqs, id, r);
  }

  lemma CreatedSafe(y: Sys, z: Sys, r: nat, inactive: int)
    requires Safe(y, inactive) && r in y.reqs && By(y, z, r)
    requires y.reqs[r].node.None? && !y.reqs[r].updated && Created(y.sh, z.sh, y.reqs[r], z.reqs[r], y.now, inactive)
    ensures Safe(z, inactive)
  {
    hide Indexed, Timed, TreeWith, Counts;
    ByRequest(y, z, r, z.reqs[r].node.value, inactive);
  }

  lemma FoundSafe(y: Sys, z: Sys, r: nat, id: nat, inactive: int)
    requires Safe(y, inactive) && r in y.reqs && By(y, z, r) && !y.reqs[r].updated && !y.reqs[r].window
    requires id in y.sh.nodes
    requires y.reqs[r].node.None? || y.reqs[r].node == Some(id)
    requires var n := Found(y.sh.nodes[id], y.reqs[r].node.None?, y.reqs[r].minUses, y.now, inactive).0;
             && z.sh == Shared(y.sh.nodes[id := n], y.sh.tree, [id] + Drop(y.sh.queue, id))
             && z.reqs[r] == y.reqs[r].(node := Some(id), error := n.error)
    ensures Safe(z, inactive)
  {
    hide Indexed, Timed, Counts, Drop, Found;
    RoomToCount(y, r, id);
    BoundedRequests(y);
    FoundNode(y.sh.nodes[id], y.reqs[r].node.None?, y.reqs[r].minUses, y.now, inactive);
    ByRequest(y, z, r, id, inactive);
  }

  /** However a node is found, it counts a new request and gets a new time. */
  lemma FoundNode(n: CacheNode, isNew: bool, minUses: nat, now: int, inactive: int)
    ensures var m := Found(n, isNew, minUses, now, inactive).0;
            && m.key == n.key && m.expire == now + inactive && m.deleting == n.deleting && m.updating == n.updating
            && m.count == if isNew then (n.count + 1) % COUNT else n.count
  {
  }

  lemma OpenSafe(y: Sys, z: Sys, r: nat, rc: Rc, room: bool, inactive: int)
    requires Safe(y, inactive) && r in y.reqs && By(y, z, r) && !y.reqs[r].updated && !y.reqs[r].window
    requires ExistsStep(y.sh, z.sh, y.reqs[r], z.reqs[r], rc, y.now, inactive, room)
    ensures Safe(z, inactive)
  {
    hide Indexed, Timed, Counts, TreeWith, Drop, InOrder;
    var c, d := y.reqs[r], z.reqs[r];
    if c.node.Some? || HasKey(InOrder(y.sh.tree), c.key) {
      FoundSafe(y, z, r, d.node.value, inactive);
    } else if room {
      CreatedSafe(y, z, r, inactive);
    } else {
      NobodyTouched(y, z, r, inactive);
    }
  }

  lemma BoundedRequests(y: Sys)
    requires Counts(y)
    ensures |y.reqs| + 1 < COUNT
  {
  }

  /** Only the request changes, and not its hold. */
  lemma NobodyTouched(y: Sys, z: Sys, r: nat, inactive: int)
    requires Safe(y, inactive) && r in y.reqs && By(y, z, r) && z.sh == y.sh
    requires z.reqs[r].node == y.reqs[r].node && z.reqs[r].updated == y.reqs[r].updated
    requires ValidKey(z.reqs[r].key) && (z.reqs[r].window ==> z.reqs[r].node.None? && !z.reqs[r].updated)
    ensures Safe(z, inactive)
  {
    hide Indexed, Timed, Counts;
    var id := if y.reqs[r].node.Some? then y.reqs[r].node.value else 0;
    if Holding(y.reqs[r]) {
      HeldNode(y, r);
    }
    BoundedRequests(y);
    assert z.reqs.Keys == y.reqs.Keys;
    assert |z.reqs| == |z.reqs.Keys| == |y.reqs|;
    forall x: nat ensures Holders(z.reqs, x) == Holders(y.reqs, x) {
      HoldersAfter(y.reqs, r, z.reqs[r], x);
      assert Holds(z.reqs[r], x) <==> r in Holders(y.reqs, x);
      assert Holds(z.reqs[r], x) ==> Holders(y.reqs, x) + {r} == Holders(y.reqs, x);
    }
    SameCounts(y, z);
  }

  lemma SameCounts(y: Sys, z: Sys)
    requires Counts(y) && z.sh == y.sh && z.pend == y.pend && |z.reqs| + 1 < COUNT
    requires forall x: nat :: Holders(z.reqs, x) == Holders(y.reqs, x)
    ensures Counts(z)
  {
    hide Holders;
  }

  /** A section that changes the held node of a request without moving it. */
  lemma EditSafe(y: Sys, z: Sys, r: nat, inactive: int)
    requires Safe(y, inactive) && r in y.reqs && By(y, z, r) && Holding(y.reqs[r])
    requires z.reqs[r].node == y.reqs[r].node && z.reqs[r].key == y.reqs[r].key && !z.reqs[r].window
    requires var id := y.reqs[r].node.value;
             && id in y.sh.nodes && id in z.sh.nodes && z.sh == y.sh.(nodes := y.sh.nodes[id := z.sh.nodes[id]])
             && z.sh.nodes[id].key == y.sh.nodes[id].key && z.sh.nodes[id].expire == y.sh.nodes[id].expire
             && z.sh.nodes[id].deleting == y.sh.nodes[id].deleting
             && z.sh.nodes[id].count == y.sh.nodes[id].count - (if z.reqs[r].updated then 1 else 0)
    ensures Safe(z, inactive)
  {
    hide Indexed, Timed, Counts;
    ByRequest(y, z, r, y.reqs[r].node.value, inactive);
  }

  lemma LockSafe(y: Sys, z: Sys, r: nat, rc: Rc, inactive: int)
    requires Safe(y, inactive) && r in y.reqs && By(y, z, r) && Holding(y.reqs[r])
    requires LockStep(y.sh, z.sh, y.reqs[r], z.reqs[r], rc)
    ensures Safe(z, inactive)
  {
    hide Indexed, Timed, Counts;
    var id := y.reqs[r].node.value;
    if z.sh == y.sh {
      NobodyTouched(y, z, r, inactive);
    } else {
      EditSafe(y, z, r, inactive);
    }
  }

  lemma ReadSafe(y: Sys, z: Sys, r: nat, rc: Rc, cold: bool, stale: bool, inactive: int)
    requires Safe(y, inactive) && r in y.reqs && By(y, z, r) && Holding(y.reqs[r])
    requires ReadStep(y.sh, z.sh, y.reqs[r], z.reqs[r], rc, cold, stale)
    ensures Safe(z, inactive)
  {
    hide Indexed, Timed, Counts;
    EditSafe(y, z, r, inactive);
  }

  lemma UpdateSafe(y: Sys, z: Sys, r: nat, renamed: bool, inactive: int)
    requires Safe(y, inactive) && r in y.reqs && By(y, z, r) && !y.reqs[r].window
    requires UpdateStep(y.sh, z.sh, y.reqs[r], z.reqs[r], renamed)
    ensures Safe(z, inactive)
  {
    hide Indexed, Timed, Counts;
    if y.reqs[r].updated {
      NobodyTouched(y, z, r, inactive);
    } else {
      RoomToCount(y, r, y.reqs[r].node.value);
      BoundedRequests(y);
      EditSafe(y, z, r, inactive);
    }
  }

  lemma FreeSafe(y: Sys, z: Sys, r: nat, inactive: int)
    requires Safe(y, inactive) && r in y.reqs && By(y, z, r) && !y.reqs[r].window
    requires FreeStep(y.sh, z.sh, y.reqs[r], z.reqs[r])
    ensures Safe(z, inactive)
  {
    hide Indexed, Timed, Counts, TreeWithout, Drop;
    var c := y.reqs[r];
    if c.updated || c.node.None? {
      NobodyTouched(y, z, r, inactive);
    } else {
      var id := c.node.value;
      RoomToCount(y, r, id);
      BoundedRequests(y);
      if id in z.sh.nodes {
        EditSafe(y, z, r, inactive);
      } else {
        LastHolder(y, r, id);
        ByRequest(y, z, r, id, inactive);
      }
    }
  }

  /** A request that is alone in the count knows that nobody deletes the node. */
  lemma LastHolder(y: Sys, r: nat, id: nat)
    requires Counts(y) && r in y.reqs && id in y.sh.nodes && Holds(y.reqs[r], id) && y.sh.nodes[id].count == 1
    ensures !y.sh.nodes[id].deleting
  {
    hide Holders, Deleters;
    HoldersBound(y.reqs, id, r);
  }

  // ---------------------------------------------------------------- steps without a request

  lemma ArriveSafe(y: Sys, z: Sys, r: nat, c: Request, inactive: int)
    requires Safe(y, inactive) && r !in y.reqs && |y.reqs| + 2 < COUNT && NewRequest(c)
    requires z == y.(reqs := y.reqs[r := c])
    ensures Safe(z, inactive)
  {
    hide Indexed, Timed, Counts, Holders, ValidKey;
    OneMore(y.reqs, r, c);
    SameCounts(y, z);
  }

  lemma OneMore(reqs: map<nat, Request>, r: nat, c: Request)
    requires r !in reqs && !Holding(c)
    ensures |reqs[r := c]| == |reqs| + 1
    ensures forall x: nat :: Holders(reqs[r := c], x) == Holders(reqs, x)
  {
    var more := reqs[r := c];
    assert more.Keys == reqs.Keys + {r} && |more| == |more.Keys| == |reqs| + 1;
    forall x: nat ensures Holders(more, x) == Holders(reqs, x) {}
  }

  lemma LeaveSafe(y: Sys, z: Sys, r: nat, inactive: int)
    requires Safe(y, inactive) && r in y.reqs && !Holding(y.reqs[r]) && z == y.(reqs := y.reqs - {r})
    ensures Safe(z, inactive)
  {
    hide Indexed, Timed, Counts;
    BoundedRequests(y);
    assert z.reqs.Keys == y.reqs.Keys - {r} && |z.reqs| == |z.reqs.Keys| == |y.reqs| - 1;
    forall x: nat ensures Holders(z.reqs, x) == Holders(y.reqs, x) {}
    SameCounts(y, z);
  }

  lemma DeletersAfter(pend: map<nat, nat>, a: nat, id: nat, x: nat)
    requires a !in pend
    ensures Deleters(pend[a := id], x) == if x == id then Deleters(pend, x) + {a} else Deleters(pend, x)
    ensures a !in Deleters(pend, x)
  {
  }

  lemma DeletersLess(pend: map<nat, nat>, a: nat, x: nat)
    requires a in pend
    ensures Deleters(pend - {a}, x) == Deleters(pend, x) - {a}
    ensures a in Deleters(pend, x) <==> x == pend[a]
  {
  }

  lemma SameRequests(y: Sys, z: Sys, id: nat, inactive: int)
    requires Safe(y, inactive) && z.reqs == y.reqs && z.now == y.now && Moves(y.sh, z.sh, id, y.now, inactive)
    requires Counts(z)
    ensures Safe(z, inactive)
  {
    hide Moves, Counts, Indexed, Timed;
    MovesSafe(y.sh, z.sh, id, y.now, inactive);
  }

  /** The rest of the nodes, when one changes and no request does. */
  ghost predicate OthersSame(y: Sys, z: Sys, id: nat)
  {
    && z.reqs == y.reqs
    && forall x: nat :: x != id ==>
         && (x in z.sh.nodes <==> x in y.sh.nodes)
         && (x in y.sh.nodes ==> z.sh.nodes[x] == y.sh.nodes[x])
         && Deleters(z.pend, x) == Deleters(y.pend, x)
  }

  lemma CountsOne(y: Sys, z: Sys, id: nat)
    requires Counts(y) && OthersSame(y, z, id)
    requires if id in z.sh.nodes then NodeCounts(z.sh.nodes[id], Holders(z.reqs, id), Deleters(z.pend, id))
             else Holders(z.reqs, id) == {} && Deleters(z.pend, id) == {}
    ensures Counts(z)
  {
    hide Holders, Deleters, NodeCounts;
  }

  lemma AddSafe(y: Sys, z: Sys, key: Key, room: bool, rc: Rc, inactive: int)
    requires Safe(y, inactive) && z == y.(sh := z.sh) && ValidKey(key)
    requires AddStep(y.sh, z.sh, key, y.now, inactive, room, rc)
    ensures Safe(z, inactive)
  {
    hide Indexed, Timed, TreeWith, Drop, InOrder, Counts, Holders, Deleters;
    if HasKey(InOrder(y.sh.tree), key) {
      var id :| id in y.sh.nodes && Entry(key, id) in InOrder(y.sh.tree)
                && z.sh == Shared(y.sh.nodes[id := y.sh.nodes[id].(expire := y.now + inactive)], y.sh.tree,
                                  [id] + Drop(y.sh.queue, id));
      NodeOf(y, id);
      CountsOne(y, z, id);
      SameRequests(y, z, id, inactive);
    } else if room {
      var id :| id in z.sh.nodes && id !in y.sh.nodes
                && z.sh.nodes == y.sh.nodes[id := CacheNode(key, 0, 1, 0, true, false, false, y.now + inactive, 0)]
                && TreeWith(y.sh.tree, Entry(key, id), z.sh.tree) && z.sh.queue == [id] + y.sh.queue;
      NodeOf(y, id);
      CountsOne(y, z, id);
      SameRequests(y, z, id, inactive);
    }
  }

  lemma NodeOf(y: Sys, id: nat)
    requires Counts(y)
    ensures if id in y.sh.nodes then NodeCounts(y.sh.nodes[id], Holders(y.reqs, id), Deleters(y.pend, id))
            else Holders(y.reqs, id) == {} && Deleters(y.pend, id) == {}
  {
  }

  lemma DeleteBeginSafe(y: Sys, z: Sys, a: nat, id: nat, open: bool, inactive: int)
    requires Safe(y, inactive) && a !in y.pend && id in y.sh.nodes && y.sh.nodes[id].count == 0
    requires DeleteStep(y.sh, z.sh, id, open) && z == y.(sh := z.sh, pend := if open then y.pend[a := id] else y.pend)
    ensures Safe(z, inactive)
  {
    hide Indexed, Timed, TreeWithout, Drop, Counts, Holders, Deleters;
    NodeOf(y, id);
    if open {
      forall x: nat
        ensures Deleters(z.pend, x) == (if x == id then Deleters(y.pend, x) + {a} else Deleters(y.pend, x))
      {
        DeletersAfter(y.pend, a, id, x);
      }
      assert Deleters(z.pend, id) == {a};
    }
    CountsOne(y, z, id);
    SameRequests(y, z, id, inactive);
  }

  lemma DeleteEndSafe(y: Sys, z: Sys, a: nat, inactive: int)
    requires Safe(y, inactive) && a in y.pend && z == y.(sh := z.sh, pend := y.pend - {a})
    requires DeletedStep(y.sh, z.sh, y.pend[a])
    ensures Safe(z, inactive)
  {
    hide Indexed, Timed, TreeWithout, Drop, Counts, Holders, Deleters;
    var id := y.pend[a];
    NodeOf(y, id);
    forall x: nat ensures Deleters(z.pend, x) == Deleters(y.pend, x) - {a} && (a in Deleters(y.pend, x) <==> x == id) {
      DeletersLess(y.pend, a, x);
    }
    var h, d := Holders(y.reqs, id), Deleters(y.pend, id);
    assert |d - {a}| == |d| - 1;
    HoldersSmall(y, id);
    CountsOne(y, z, id);
    SameRequests(y, z, id, inactive);
  }

  lemma HoldersSmall(y: Sys, id: nat)
    requires Counts(y)
    ensures |Holders(y.reqs, id)| + 1 < COUNT
  {
    Subset(Holders(y.reqs, id), y.reqs.Keys);
  }

  lemma RequeueSafe(y: Sys, z: Sys, id: nat, inactive: int)
    requires Safe(y, inactive) && id in y.sh.nodes && y.sh.nodes[id].count != 0 && z == y.(sh := z.sh)
    requires SweptOne(y.sh, z.sh, id, y.now, inactive) && z.sh.tree == y.sh.tree
    ensures Safe(z, inactive)
  {
    hide Indexed, Timed, Drop, Counts, Holders, Deleters;
    NodeOf(y, id);
    CountsOne(y, z, id);
    SameRequests(y, z, id, inactive);
  }

  lemma TickSafe(y: Sys, z: Sys, inactive: int)
    requires Safe(y, inactive) && z == y.(now := z.now) && z.now >= y.now
    ensures Safe(z, inactive)
  {
    hide Indexed, Newest, Holders, Deleters;
  }

  /** Every step keeps the invariant. */
  lemma StepSafe(y: Sys, z: Sys, l: Label, inactive: int)
    requires Safe(y, inactive) && Next(y, z, l, inactive)
    ensures Safe(z, inactive)
  {
    hide Safe, ExistsStep, RetryStep, LockStep, ReadStep, UpdateStep, FreeStep, AddStep, DeleteStep, DeletedStep,
         SweptOne;
    match l
    case Arrive(r) =>
      var c :| NewRequest(c) && z == y.(reqs := y.reqs[r := c]);
      ArriveSafe(y, z, r, c, inactive);
    case Open(r) =>
      var rc, room :| ExistsStep(y.sh, z.sh, y.reqs[r], z.reqs[r], rc, y.now, inactive, room);
      OpenSafe(y, z, r, rc, room, inactive);
    case Retry(r) =>
      var rc, room :| RetryStep(y.sh, z.sh, y.reqs[r], z.reqs[r], rc, y.now, inactive, room);
      RetrySafe(y, z, r, rc, room, inactive);
    case Lock(r) =>
      var rc :| LockStep(y.sh, z.sh, y.reqs[r], z.reqs[r], rc);
      LockSafe(y, z, r, rc, inactive);
    case Wake(r) =>
      WakeSafe(y, z, r, inactive);
    case Read(r) =>
      var rc, cold, stale :| ReadStep(y.sh, z.sh, y.reqs[r], z.reqs[r], rc, cold, stale);
      ReadSafe(y, z, r, rc, cold, stale, inactive);
    case Fail(r) =>
      WakeSafe(y, z, r, inactive);
    case Update(r) =>
      var renamed :| UpdateStep(y.sh, z.sh, y.reqs[r], z.reqs[r], renamed);
      UpdateSafe(y, z, r, renamed, inactive);
    case Free(r) =>
      FreeSafe(y, z, r, inactive);
    case Leave(r) =>
      LeaveSafe(y, z, r, inactive);
    case Add =>
      var key, room, rc :| ValidKey(key) && AddStep(y.sh, z.sh, key, y.now, inactive, room, rc);
      AddSafe(y, z, key, room, rc, inactive);
    case DeleteBegin(a, id) =>
      var open :| DeleteStep(y.sh, z.sh, id, open) && z.pend == if open then y.pend[a := id] else y.pend;
      DeleteBeginSafe(y, z, a, id, open, inactive);
    case DeleteEnd(a) =>
      DeleteEndSafe(y, z, a, inactive);
    case Requeue(id) =>
      RequeueSafe(y, z, id, inactive);
    case Tick =>
      TickSafe(y, z, inactive);
  }

  /** A change of the request's own fields other than its hold. */
  lemma WakeSafe(y: Sys, z: Sys, r: nat, inactive: int)
    requires Safe(y, inactive) && r in y.reqs && r in z.reqs && z == y.(reqs := y.reqs[r := z.reqs[r]])
    requires var c, d := y.reqs[r], z.reqs[r];
             d.node == c.node && d.updated == c.updated && d.key == c.key && d.window == c.window
    ensures Safe(z, inactive)
  {
    hide Counts, Indexed, Timed;
    NobodyTouched(y, z, r, inactive);
  }

  lemma RetrySafe(y: Sys, z: Sys, r: nat, rc: Rc, room: bool, inactive: int)
    requires Safe(y, inactive) && r in y.reqs && By(y, z, r) && y.reqs[r].window
    requires RetryStep(y.sh, z.sh, y.reqs[r], z.reqs[r], rc, y.now, inactive, room)
    ensures Safe(z, inactive)
  {
    hide Counts, Indexed, Timed, TreeWith;
    if room {
      CreatedSafe(y, z, r, inactive);
    } else {
      NobodyTouched(y, z, r, inactive);
    }
  }

  // ---------------------------------------------------------------- runs

  /** t is a run that starts with an empty cache and takes the steps ls. */
  ghost predicate Run(t: seq<Sys>, ls: seq<Label>, inactive: int)
  {
    && |t| == |ls| + 1 && Start(t[0])
    && forall i :: 0 <= i < |ls| ==> Next(t[i], t[i + 1], ls[i], inactive)
  }

  /** The index is sound in every state of every run. */
  lemma {:induction false} RunSafe(t: seq<Sys>, ls: seq<Label>, inactive: int, i: nat)
    requires Run(t, ls, inactive) && i < |t|
    ensures Safe(t[i], inactive)
  {
    hide Safe, Next, Start;
    if i == 0 {
      StartSafe(t[0], inactive);
    } else {
      RunSafe(t, ls, inactive, i - 1);
      StepSafe(t[i - 1], t[i], ls[i - 1], inactive);
    }
  }

  /** In every run a request that has not let go finds its node in tree and queue;
      a node that leaves the index is held by nobody but the request that frees it;
      and the node at the tail is the first of all to expire. */
  lemma NothingDangles(t: seq<Sys>, ls: seq<Label>, inactive: int, i: nat)
    requires Run(t, ls, inactive) && i < |t|
    ensures forall r :: r in t[i].reqs && Holding(t[i].reqs[r]) ==>
              var id := t[i].reqs[r].node.value;
              id in t[i].sh.nodes && id in t[i].sh.queue && Entry(t[i].sh.nodes[id].key, id) in InOrder(t[i].sh.tree)
    ensures forall a :: a in t[i].pend ==> t[i].pend[a] in t[i].sh.nodes && t[i].sh.nodes[t[i].pend[a]].deleting
    ensures i < |ls| ==> forall id: nat :: id in t[i].sh.nodes && id !in t[i + 1].sh.nodes ==>
              Holders(t[i].reqs, id) <= (if ls[i].Free? then {ls[i].r} else {}) && Holders(t[i + 1].reqs, id) == {}
    ensures var q := t[i].sh.queue;
            forall id :: id in t[i].sh.nodes ==>
              id in q && q[|q| - 1] in t[i].sh.nodes && t[i].sh.nodes[q[|q| - 1]].expire <= t[i].sh.nodes[id].expire
  {
    hide Next, Start;
    RunSafe(t, ls, inactive, i);
    var y := t[i];
    forall r | r in y.reqs && Holding(y.reqs[r]) ensures y.reqs[r].node.value in y.sh.nodes { HeldNode(y, r); }
    forall a | a in y.pend ensures y.pend[a] in y.sh.nodes && y.sh.nodes[y.pend[a]].deleting {
      assert a in Deleters(y.pend, y.pend[a]);
    }
    if y.sh.queue != [] {
      TailIsFirst(y.sh, y.now, inactive);
    }
    if i < |ls| {
      RunSafe(t, ls, inactive, i + 1);
      forall id: nat | id in y.sh.nodes && id !in t[i + 1].sh.nodes
        ensures Holders(y.reqs, id) <= (if ls[i].Free? then {ls[i].r} else {}) && Holders(t[i + 1].reqs, id) == {}
      {
        GoneUnheld(y, t[i + 1], ls[i], id, inactive);
      }
    }
  }

  lemma TailIsFirst(s: Shared, now: int, inactive: int)
    requires Indexed(s) && Timed(s, now, inactive) && s.queue != []
    ensures forall id :: id in s.nodes ==> s.nodes[s.queue[|s.queue| - 1]].expire <= s.nodes[id].expire
  {
    hide Sorted, DistinctIds;
    var n := |s.queue| - 1;
    forall id | id in s.nodes ensures s.nodes[s.queue[n]].expire <= s.nodes[id].expire {
      var j :| 0 <= j < |s.queue| && s.queue[j] == id;
      assert j < n ==> s.nodes[s.queue[j]].expire >= s.nodes[s.queue[n]].expire;
    }
  }

  /** Only a request that frees its node and the two halves of a delete remove nodes. */
  lemma WhoRemoves(y: Sys, z: Sys, l: Label, id: nat, inactive: int)
    requires Next(y, z, l, inactive) && id in y.sh.nodes && id !in z.sh.nodes
    ensures (l.Free? && l.r in z.reqs && z.reqs == y.reqs[l.r := z.reqs[l.r]])
            || ((l.DeleteBegin? || l.DeleteEnd?) && z.reqs == y.reqs)
  {
    hide TreeWith, TreeWithout, Drop, Found, InOrder, HasKey;
  }

  /** Who was still counted on a node in the step that removed it. */
  lemma GoneUnheld(y: Sys, z: Sys, l: Label, id: nat, inactive: int)
    requires Counts(z) && Next(y, z, l, inactive) && id in y.sh.nodes && id !in z.sh.nodes
    ensures Holders(y.reqs, id) <= (if l.Free? then {l.r} else {}) && Holders(z.reqs, id) == {}
  {
    hide Next;
    WhoRemoves(y, z, l, id, inactive);
    if l.Free? {
      HoldersAfter(y.reqs, l.r, z.reqs[l.r], id);
    }
  }

  // ---------------------------------------------------------------- the right node

  /** Every request that holds a node holds one of its own key. */
  ghost predicate OwnKeys(y: Sys)
  {
    forall r :: r in y.reqs && Holding(y.reqs[r]) && y.reqs[r].node.value in y.sh.nodes ==>
      y.sh.nodes[y.reqs[r].node.value].key == y.reqs[r].key
  }

  ghost predicate SameKeys(y: Sys, z: Sys)
  {
    && (forall id :: id in y.sh.nodes && id in z.sh.nodes ==> z.sh.nodes[id].key == y.sh.nodes[id].key)
    && (forall r :: r in y.reqs && r in z.reqs ==> z.reqs[r].key == y.reqs[r].key)
  }

  lemma KeysStayOpen(y: Sys, z: Sys, l: Label, inactive: int)
    requires Next(y, z, l, inactive) && (l.Open? || l.Retry?)
    ensures SameKeys(y, z)
  {
    hide TreeWith, TreeWithout, Drop, InOrder, HasKey;
  }

  lemma KeysStayHeld(y: Sys, z: Sys, l: Label, inactive: int)
    requires Next(y, z, l, inactive) && (l.Lock? || l.Read? || l.Update? || l.Free?)
    ensures SameKeys(y, z)
  {
    hide TreeWith, TreeWithout, Drop, InOrder, HasKey, Found;
  }

  /** No step changes the key of a node or of a request. */
  lemma KeysStay(y: Sys, z: Sys, l: Label, inactive: int)
    requires Next(y, z, l, inactive)
    ensures SameKeys(y, z)
  {
    hide TreeWith, TreeWithout, Drop, InOrder, HasKey, Found;
    if l.Open? || l.Retry? {
      hide *;
      KeysStayOpen(y, z, l, inactive);
    } else if l.Lock? || l.Read? || l.Update? || l.Free? {
      hide *;
      KeysStayHeld(y, z, l, inactive);
    }
  }

  /** A hold is either an old one or one that the step has just given. */
  lemma NewHold(y: Sys, z: Sys, l: Label, r: nat, inactive: int)
    requires Safe(y, inactive) && Next(y, z, l, inactive) && r in z.reqs && Holding(z.reqs[r])
    requires !(r in y.reqs && Holding(y.reqs[r]) && y.reqs[r].node == z.reqs[r].node)
    ensures z.reqs[r].node.value in z.sh.nodes && z.sh.nodes[z.reqs[r].node.value].key == z.reqs[r].key
  {
    hide TreeWith, TreeWithout, Drop, InOrder, Indexed, Timed, Counts, Found, HasKey;
    if r in y.reqs && l.Open? && l.r == r {
      hide Safe;
      var rc, room :| ExistsStep(y.sh, z.sh, y.reqs[r], z.reqs[r], rc, y.now, inactive, room);
      hide ExistsStep;
      OpenHold(y, z, r, rc, room, inactive);
    }
  }

  lemma OpenHold(y: Sys, z: Sys, r: nat, rc: Rc, room: bool, inactive: int)
    requires Safe(y, inactive) && r in y.reqs && r in z.reqs && Holding(z.reqs[r])
    requires ExistsStep(y.sh, z.sh, y.reqs[r], z.reqs[r], rc, y.now, inactive, room)
    requires !(Holding(y.reqs[r]) && y.reqs[r].node == z.reqs[r].node)
    ensures z.reqs[r].node.value in z.sh.nodes && z.sh.nodes[z.reqs[r].node.value].key == z.reqs[r].key
  {
    hide TreeWith, TreeWithout, Drop, InOrder, Indexed, Timed, Counts, Found, HasKey;
    var c, id := y.reqs[r], z.reqs[r].node.value;
    if id in y.sh.nodes {
      FoundNode(y.sh.nodes[id], c.node.None?, c.minUses, y.now, inactive);
      EntryKey(y.sh, c.key, id);
    }
  }

  lemma EntryKey(s: Shared, key: Key, id: nat)
    requires Indexed(s)
    ensures Entry(key, id) in InOrder(s.tree) ==> id in s.nodes && s.nodes[id].key == key
  {
    hide Sorted, DistinctIds, InOrder;
  }

  /** In every run a request works on the node of its own key. */
  lemma {:induction false} RunOwnKeys(t: seq<Sys>, ls: seq<Label>, inactive: int, i: nat)
    requires Run(t, ls, inactive) && i < |t|
    ensures OwnKeys(t[i])
  {
    hide Safe, Next;
    if i > 0 {
      var y, z := t[i - 1], t[i];
      RunOwnKeys(t, ls, inactive, i - 1);
      RunSafe(t, ls, inactive, i - 1);
      KeysStay(y, z, ls[i - 1], inactive);
      forall r | r in z.reqs && Holding(z.reqs[r]) && z.reqs[r].node.value in z.sh.nodes
        ensures z.sh.nodes[z.reqs[r].node.value].key == z.reqs[r].key
      {
        if r in y.reqs && Holding(y.reqs[r]) && y.reqs[r].node == z.reqs[r].node {
          SafeHeld(y, r, inactive);
        } else {
          NewHold(y, z, ls[i - 1], r, inactive);
        }
      }
    }
  }

  lemma SafeHeld(y: Sys, r: nat, inactive: int)
    requires Safe(y, inactive) && r in y.reqs && Holding(y.reqs[r])
    ensures y.reqs[r].node.value in y.sh.nodes
  {
    hide Indexed, Timed;
    HeldNode(y, r);
  }

  // ---------------------------------------------------------------- one node per key

  predicate Unique(s: Shared)
  {
    forall a, b :: a in s.nodes && b in s.nodes && s.nodes[a].key == s.nodes[b].key ==> a == b
  }

  /** With one node per key the lookup is that of a map from keys to nodes. */
  lemma LookupIsMap(s: Shared, key: Key, id: nat)
    requires Indexed(s) && Unique(s)
    ensures Entry(key, id) in InOrder(s.tree) <==> id in s.nodes && s.nodes[id].key == key
    ensures HasKey(InOrder(s.tree), key) <==> exists a :: a in s.nodes && s.nodes[a].key == key
    ensures forall a :: Entry(key, id) in InOrder(s.tree) && Entry(key, a) in InOrder(s.tree) ==> a == id
  {
    hide Sorted, DistinctIds;
    if HasKey(InOrder(s.tree), key) {
      var e :| e in InOrder(s.tree) && e.key == key;
      assert e.id in s.nodes && s.nodes[e.id].key == key;
    }
    if a :| a in s.nodes && s.nodes[a].key == key {
      assert Entry(key, a) in InOrder(s.tree);
    }
  }

  lemma KeysIndexed(s: Shared, key: Key)
    requires Indexed(s)
    ensures HasKey(InOrder(s.tree), key) <==> exists a :: a in s.nodes && s.nodes[a].key == key
  {
    hide Sorted, DistinctIds;
    if HasKey(InOrder(s.tree), key) {
      var e :| e in InOrder(s.tree) && e.key == key;
      assert e.id in s.nodes && s.nodes[e.id].key == key;
    }
    if a :| a in s.nodes && s.nodes[a].key == key {
      assert Entry(key, a) in InOrder(s.tree);
    }
  }

  /** The second attempt to allocate keeps keys unique exactly when the slab is still
      full or the key is still absent: the key is not looked up again after the
      mutex was dropped. */
  lemma RetryUnique(s: Shared, k: Shared, c: Request, d: Request, rc: Rc, now: int, inactive: int, room: bool)
    requires Indexed(s) && Unique(s) && RetryStep(s, k, c, d, rc, now, inactive, room)
    ensures Unique(k) <==> !room || !HasKey(InOrder(s.tree), c.key)
  {
    hide Indexed, TreeWith, InOrder;
    KeysIndexed(s, c.key);
    if room && HasKey(InOrder(s.tree), c.key) {
      var a :| a in s.nodes && s.nodes[a].key == c.key;
      assert a in k.nodes && d.node.value in k.nodes && k.nodes[a].key == k.nodes[d.node.value].key;
    }
  }

  /** No other step makes a second node for a key. */
  lemma StepUnique(y: Sys, z: Sys, l: Label, inactive: int)
    requires Safe(y, inactive) && Unique(y.sh) && Next(y, z, l, inactive) && !l.Retry?
    ensures Unique(z.sh)
  {
    hide Indexed, Timed, Counts, TreeWith, TreeWithout, Drop, InOrder, Unique, Found, ExistsStep, AddStep;
    match l
    case Open(r) =>
      OpenUnique(y, z, r, inactive);
    case Add =>
      AddUnique(y, z, inactive);
    case Lock(r) => UniqueOne(y.sh, z.sh, y.reqs[r].node.value);
    case Read(r) => UniqueOne(y.sh, z.sh, y.reqs[r].node.value);
    case Update(r) => UniqueOne(y.sh, z.sh, if y.reqs[r].node.Some? then y.reqs[r].node.value else 0);
    case Free(r) => UniqueOne(y.sh, z.sh, if y.reqs[r].node.Some? then y.reqs[r].node.value else 0);
    case DeleteBegin(a, id) => UniqueOne(y.sh, z.sh, id);
    case DeleteEnd(a) => UniqueOne(y.sh, z.sh, y.pend[a]);
    case Requeue(id) => UniqueOne(y.sh, z.sh, id);
    case Arrive(_) =>
    case Wake(_) =>
    case Fail(_) =>
    case Leave(_) =>
    case Tick =>
  }

  lemma AddUnique(y: Sys, z: Sys, inactive: int)
    requires Safe(y, inactive) && Unique(y.sh) && Next(y, z, Add, inactive)
    ensures Unique(z.sh)
  {
    hide Indexed, Timed, Counts, TreeWith, TreeWithout, Drop, InOrder, Unique, Found;
    var key, room, rc :| ValidKey(key) && AddStep(y.sh, z.sh, key, y.now, inactive, room, rc);
    KeysIndexed(y.sh, key);
    if z.sh != y.sh {
      var id :| id in z.sh.nodes && z.sh.nodes == y.sh.nodes[id := z.sh.nodes[id]]
                && (if id in y.sh.nodes then z.sh.nodes[id].key == y.sh.nodes[id].key
                    else z.sh.nodes[id].key == key && !HasKey(InOrder(y.sh.tree), key));
      UniqueOne(y.sh, z.sh, id);
    }
  }

  lemma OpenUnique(y: Sys, z: Sys, r: nat, inactive: int)
    requires Safe(y, inactive) && Unique(y.sh) && Next(y, z, Open(r), inactive)
    ensures Unique(z.sh)
  {
    hide Indexed, Timed, Counts, TreeWith, TreeWithout, Drop, InOrder, Unique, Found;
    KeysIndexed(y.sh, y.reqs[r].key);
    var rc, room :| ExistsStep(y.sh, z.sh, y.reqs[r], z.reqs[r], rc, y.now, inactive, room);
    var id := if z.reqs[r].node.Some? then z.reqs[r].node.value else 0;
    if id in y.sh.nodes { FoundNode(y.sh.nodes[id], y.reqs[r].node.None?, y.reqs[r].minUses, y.now, inactive); }
    UniqueOne(y.sh, z.sh, id);
  }

  /** At most node id is new, gone or changed, and a new one has a new key. */
  lemma UniqueOne(s: Shared, k: Shared, id: nat)
    requires Unique(s)
    requires k == s || k.nodes == s.nodes - {id} || (id in k.nodes && k.nodes == s.nodes[id := k.nodes[id]]
             && if id in s.nodes then k.nodes[id].key == s.nodes[id].key
                else forall a :: a in s.nodes ==> s.nodes[a].key != k.nodes[id].key)
    ensures Unique(k)
  {
  }

  /** So in a run whose second attempts find the key still absent, or the slab still
      full, every key has one node throughout. */
  lemma {:induction false} RunUnique(t: seq<Sys>, ls: seq<Label>, inactive: int, i: nat)
    requires Run(t, ls, inactive) && i < |t|
    requires forall j :: 0 <= j < i && ls[j].Retry? && ls[j].r in t[j].reqs ==>
               t[j + 1].sh == t[j].sh || !HasKey(InOrder(t[j].sh.tree), t[j].reqs[ls[j].r].key)
    ensures Unique(t[i].sh)
  {
    hide Safe, Unique, InOrder;
    if i == 0 {
      assert Unique(t[0].sh) by { StartUnique(t[0]); }
    } else {
      var y, z := t[i - 1], t[i];
      RunSafe(t, ls, inactive, i - 1);
      RunUnique(t, ls, inactive, i - 1);
      if ls[i - 1].Retry? {
        var r := ls[i - 1].r;
        var rc, room :| RetryStep(y.sh, z.sh, y.reqs[r], z.reqs[r], rc, y.now, inactive, room);
        if z.sh != y.sh {
          SafeIndexed(y, inactive);
          RetryUnique(y.sh, z.sh, y.reqs[r], z.reqs[r], rc, y.now, inactive, room);
        }
      } else {
        StepUnique(y, z, ls[i - 1], inactive);
      }
    }
  }

  lemma StartUnique(y: Sys)
    requires Start(y)
    ensures Unique(y.sh)
  {
  }

  lemma SafeIndexed(y: Sys, inactive: int)
    requires Safe(y, inactive)
    ensures Indexed(y.sh)
  {
  }

  // ---------------------------------------------------------------- the update claim

  predicate Claims(c: Request, id: nat) { c.updating && c.node == Some(id) }

  /** The flag of a node stands for exactly one request, which holds the node. */
  ghost predicate Claimed(y: Sys)
  {
    && (forall r :: r in y.reqs && y.reqs[r].updating ==> Holding(y.reqs[r]))
    && forall id :: id in y.sh.nodes ==> |Claimers(y.reqs, id)| == (if y.sh.nodes[id].updating then 1 else 0)
  }

  /** Two requests never update the same node at a time. */
  lemma OneUpdater(y: Sys, r: nat, q: nat, inactive: int)
    requires Safe(y, inactive) && Claimed(y) && r in y.reqs && q in y.reqs
    requires y.reqs[r].updating && y.reqs[q].updating && y.reqs[r].node == y.reqs[q].node
    ensures r == q
  {
    hide Indexed, Timed;
    HeldNode(y, r);
    var id := y.reqs[r].node.value;
    Subset({r, q}, Claimers(y.reqs, id));
  }

  lemma ClaimersAfter(reqs: map<nat, Request>, r: nat, d: Request, id: nat)
    requires r in reqs
    ensures var h := Claimers(reqs[r := d], id);
            && h == (if Claims(d, id) then Claimers(reqs, id) + {r} else Claimers(reqs, id) - {r})
            && |h| == |Claimers(reqs, id)| - (if Claims(reqs[r], id) then 1 else 0) + (if Claims(d, id) then 1 else 0)
  {
    var g, h := Claimers(reqs, id), Claimers(reqs[r := d], id);
    assert h == if Claims(d, id) then g + {r} else g - {r};
    assert r in g <==> Claims(reqs[r], id);
    if r in g { assert |g - {r}| == |g| - 1 && g + {r} == g; } else { assert g - {r} == g; }
  }

  /** Nobody claims a node that is not there. */
  lemma ClaimersHold(y: Sys, id: nat)
    requires Counts(y) && Claimed(y)
    ensures Claimers(y.reqs, id) <= Holders(y.reqs, id)
    ensures id !in y.sh.nodes ==> Claimers(y.reqs, id) == {}
    ensures id in y.sh.nodes && y.sh.nodes[id].count == 0 ==> Claimers(y.reqs, id) == {}
  {
    hide Deleters;
    assert Claimers(y.reqs, id) <= Holders(y.reqs, id);
  }

  function Flag(n: CacheNode): nat { if n.updating then 1 else 0 }

  function Claim(c: Request, id: nat): nat { if Claims(c, id) then 1 else 0 }

  /** Request r changes the claim on at most node id. */
  ghost predicate ClaimStep(y: Sys, z: Sys, r: nat, id: nat)
    requires r in y.reqs && r in z.reqs
  {
    var c, d := y.reqs[r], z.reqs[r];
    && By(y, z, r) && (d.updating ==> Holding(d))
    && (!c.updating || c.node == Some(id)) && (!d.updating || d.node == Some(id))
    && (forall x: nat :: x != id && x in z.sh.nodes ==>
          x in y.sh.nodes && z.sh.nodes[x].updating == y.sh.nodes[x].updating)
    && (id in z.sh.nodes ==>
          Flag(z.sh.nodes[id]) == (if id in y.sh.nodes then Flag(y.sh.nodes[id]) else 0) - Claim(c, id) + Claim(d, id))
  }

  lemma ClaimsBy(y: Sys, z: Sys, r: nat, id: nat)
    requires Counts(y) && Claimed(y) && r in y.reqs && r in z.reqs && ClaimStep(y, z, r, id)
    ensures Claimed(z)
  {
    hide Claimers, Holders, Deleters, Counts;
    forall x | x in z.sh.nodes ensures |Claimers(z.reqs, x)| == Flag(z.sh.nodes[x]) {
      ClaimersAfter(y.reqs, r, z.reqs[r], x);
      if x !in y.sh.nodes { ClaimersHold(y, x); }
    }
  }

  /** Steps of nobody in particular leave the flags of the remaining nodes alone. */
  lemma ClaimsSame(y: Sys, z: Sys)
    requires Counts(y) && Claimed(y) && z.reqs == y.reqs
    requires forall x :: x in z.sh.nodes ==> if x in y.sh.nodes then z.sh.nodes[x].updating == y.sh.nodes[x].updating
                                             else !z.sh.nodes[x].updating
    ensures Claimed(z)
  {
    hide Claimers, Holders, Deleters, Counts;
    forall x | x in z.sh.nodes ensures |Claimers(z.reqs, x)| == Flag(z.sh.nodes[x]) {
      if x !in y.sh.nodes { ClaimersHold(y, x); }
    }
  }

  /** ngx_http_file_cache_update clears the flag whoever set it: the claims stay right
      exactly when the request had the claim itself or nobody had it. */
  lemma UpdateClaims(y: Sys, z: Sys, r: nat, renamed: bool, inactive: int)
    requires Safe(y, inactive) && Claimed(y) && r in y.reqs && By(y, z, r) && !y.reqs[r].updated
    requires UpdateStep(y.sh, z.sh, y.reqs[r], z.reqs[r], renamed)
    ensures Claimed(z) <==> y.reqs[r].updating || !y.sh.nodes[y.reqs[r].node.value].updating
  {
    hide Indexed, Timed, Claimers, Holders, Deleters;
    var id := y.reqs[r].node.value;
    if y.reqs[r].updating || !y.sh.nodes[id].updating {
      if Claims(y.reqs[r], id) { ClaimersSees(y, r, id); }
      ClaimsBy(y, z, r, id);
    } else {
      ClaimersAfter(y.reqs, r, z.reqs[r], id);
      assert |Claimers(z.reqs, id)| == 1;
    }
  }

  lemma ClaimersSees(y: Sys, r: nat, id: nat)
    requires Claimed(y) && r in y.reqs && id in y.sh.nodes && Claims(y.reqs[r], id)
    ensures y.sh.nodes[id].updating
  {
    assert r in Claimers(y.reqs, id);
  }

  lemma OpenClaims(y: Sys, z: Sys, r: nat, rc: Rc, room: bool, inactive: int)
    requires Safe(y, inactive) && Claimed(y) && r in y.reqs && By(y, z, r) && !y.reqs[r].updated
    requires ExistsStep(y.sh, z.sh, y.reqs[r], z.reqs[r], rc, y.now, inactive, room)
             || (RetryStep(y.sh, z.sh, y.reqs[r], z.reqs[r], rc, y.now, inactive, room) && y.reqs[r].window)
    ensures Claimed(z)
  {
    hide Indexed, Timed, Counts, TreeWith, InOrder, Drop, Found, Claimers;
    var id := if z.reqs[r].node.Some? then z.reqs[r].node.value else 0;
    if id in y.sh.nodes { FoundNode(y.sh.nodes[id], y.reqs[r].node.None?, y.reqs[r].minUses, y.now, inactive); }
    ClaimsBy(y, z, r, id);
  }

  lemma FreeClaims(y: Sys, z: Sys, r: nat, inactive: int)
    requires Safe(y, inactive) && Claimed(y) && r in y.reqs && By(y, z, r)
    requires FreeStep(y.sh, z.sh, y.reqs[r], z.reqs[r])
    ensures Claimed(z)
  {
    hide Indexed, Timed, Counts, TreeWithout, Drop, Claimers;
    var id := if y.reqs[r].node.Some? then y.reqs[r].node.value else 0;
    if id in y.sh.nodes && Claims(y.reqs[r], id) { ClaimersSees(y, r, id); }
    ClaimsBy(y, z, r, id);
  }

  /** Locking and reading claim a node only when nobody has. */
  lemma AskClaims(y: Sys, z: Sys, r: nat, rc: Rc, cold: bool, stale: bool)
    requires Counts(y) && Claimed(y) && r in y.reqs && By(y, z, r) && Holding(y.reqs[r])
    requires LockStep(y.sh, z.sh, y.reqs[r], z.reqs[r], rc)
             || ReadStep(y.sh, z.sh, y.reqs[r], z.reqs[r], rc, cold, stale)
    ensures Claimed(z)
  {
    hide Counts, Claimed;
    UnclaimedFlag(y, r, y.reqs[r].node.value);
    ClaimsBy(y, z, r, y.reqs[r].node.value);
  }

  /** Every step but an update keeps the claims right. */
  lemma StepClaims(y: Sys, z: Sys, l: Label, inactive: int)
    requires Safe(y, inactive) && Claimed(y) && Next(y, z, l, inactive) && !l.Update?
    ensures Claimed(z)
  {
    hide Indexed, Timed, Counts, TreeWith, TreeWithout, Drop, InOrder, Claimers, Holders, Deleters,
         ExistsStep, RetryStep, FreeStep, LockStep, ReadStep, Claimed;
    match l
    case Arrive(r) =>
      ClaimsArrive(y, z, r);
    case Open(r) =>
      var rc, room :| ExistsStep(y.sh, z.sh, y.reqs[r], z.reqs[r], rc, y.now, inactive, room);
      OpenClaims(y, z, r, rc, room, inactive);
    case Retry(r) =>
      var rc, room :| RetryStep(y.sh, z.sh, y.reqs[r], z.reqs[r], rc, y.now, inactive, room);
      OpenClaims(y, z, r, rc, room, inactive);
    case Lock(r) =>
      var rc :| LockStep(y.sh, z.sh, y.reqs[r], z.reqs[r], rc);
      AskClaims(y, z, r, rc, false, false);
    case Wake(r) =>
      ClaimsKept(y, z, r);
    case Read(r) =>
      var rc, cold, stale :| ReadStep(y.sh, z.sh, y.reqs[r], z.reqs[r], rc, cold, stale);
      AskClaims(y, z, r, rc, cold, stale);
    case Fail(r) =>
      ClaimsKept(y, z, r);
    case Free(r) =>
      FreeClaims(y, z, r, inactive);
    case Leave(r) =>
      ClaimsLeave(y, z, r);
    case _ =>
      OtherClaims(y, z, l, inactive);
  }

  lemma OtherClaims(y: Sys, z: Sys, l: Label, inactive: int)
    requires Safe(y, inactive) && Claimed(y) && Next(y, z, l, inactive)
    requires l.Add? || l.DeleteBegin? || l.DeleteEnd? || l.Requeue? || l.Tick?
    ensures Claimed(z)
  {
    hide Indexed, Timed, Counts, TreeWith, TreeWithout, Drop, InOrder, Claimers, Holders, Deleters, Claimed;
    ClaimsSame(y, z);
  }

  /** A request with a claim holds its node, whose flag is set. */
  lemma UnclaimedFlag(y: Sys, r: nat, id: nat)
    requires Claimed(y) && r in y.reqs
    ensures id in y.sh.nodes && !y.sh.nodes[id].updating ==> !Claims(y.reqs[r], id)
    ensures y.reqs[r].updating ==> Holding(y.reqs[r])
  {
    if id in y.sh.nodes && Claims(y.reqs[r], id) { ClaimersSees(y, r, id); }
  }

  lemma ClaimsArrive(y: Sys, z: Sys, r: nat)
    requires Claimed(y) && r !in y.reqs && r in z.reqs && NewRequest(z.reqs[r])
    requires z == y.(reqs := y.reqs[r := z.reqs[r]])
    ensures Claimed(z)
  {
    forall x | x in z.sh.nodes ensures Claimers(z.reqs, x) == Claimers(y.reqs, x) {}
  }

  lemma ClaimsKept(y: Sys, z: Sys, r: nat)
    requires Claimed(y) && r in y.reqs && r in z.reqs && z == y.(reqs := y.reqs[r := z.reqs[r]])
    requires z.reqs[r].node == y.reqs[r].node && z.reqs[r].updating == y.reqs[r].updating
    requires z.reqs[r].updated == y.reqs[r].updated
    ensures Claimed(z)
  {
    forall x | x in z.sh.nodes ensures Claimers(z.reqs, x) == Claimers(y.reqs, x) {}
  }

  lemma ClaimsLeave(y: Sys, z: Sys, r: nat)
    requires Claimed(y) && r in y.reqs && !Holding(y.reqs[r]) && z == y.(reqs := y.reqs - {r})
    ensures Claimed(z)
  {
    forall x | x in z.sh.nodes ensures Claimers(z.reqs, x) == Claimers(y.reqs, x) {}
  }

  /** In a run where nobody updates a node that another request has claimed, no two
      requests ever update one node at the same time. */
  lemma {:induction false} RunClaims(t: seq<Sys>, ls: seq<Label>, inactive: int, i: nat)
    requires Run(t, ls, inactive) && i < |t|
    requires forall j :: 0 <= j < i && ls[j].Update? ==> FairUpdate(t[j], ls[j].r)
    ensures Claimed(t[i])
  {
    hide Safe, Claimed;
    if i == 0 {
      StartClaims(t[0]);
    } else {
      var y, z := t[i - 1], t[i];
      RunSafe(t, ls, inactive, i - 1);
      RunClaims(t, ls, inactive, i - 1);
      if ls[i - 1].Update? {
        var r := ls[i - 1].r;
        var renamed :| UpdateStep(y.sh, z.sh, y.reqs[r], z.reqs[r], renamed);
        if y.reqs[r].updated {
          ClaimsKept(y, z, r);
        } else {
          UpdateClaims(y, z, r, renamed, inactive);
        }
      } else {
        StepClaims(y, z, ls[i - 1], inactive);
      }
    }
  }

  /** The updating request has the claim, or nobody has. */
  predicate FairUpdate(y: Sys, r: nat)
  {
    r in y.reqs && Holding(y.reqs[r]) && y.reqs[r].node.value in y.sh.nodes ==>
      y.reqs[r].updating || !y.sh.nodes[y.reqs[r].node.value].updating
  }

  lemma StartClaims(y: Sys)
    requires Start(y)
    ensures Claimed(y)
  {
  }

  // ---------------------------------------------------------------- two runs that go wrong

  const KEY := Key(0, [0, 0, 0, 0, 0, 0, 0, 0])

  /** A request as ngx_http_upstream_cache makes it, with min_uses 1. */
  function Newcomer(lock: bool): Request
  {
    Request(KEY, 1, lock, None, false, false, 0, 0, false, false)
  }

  function OneNode(count: nat, uses: nat, updating: bool, inactive: int): Shared
  {
    var n := CacheNode(KEY, count, uses, 0, false, updating, false, inactive, 0);
    Shared(map[0 := n], Node(Nil, Entry(KEY, 0), Nil), [0])
  }

  lemma CreatedOne(c: Request, inactive: int)
    requires c.key == KEY
    ensures Created(Shared(map[], Nil, []), OneNode(1, 1, false, inactive), c,
                    c.(node := Some(0), error := 0, window := false), 0, inactive)
  {
  }

  lemma EmptyHasNoKey(k: Key)
    ensures !HasKey(InOrder(Nil), k)
  {
  }

  lemma OneHasKey(inactive: int)
    ensures Entry(KEY, 0) in InOrder(OneNode(1, 1, false, inactive).tree)
    ensures HasKey(InOrder(OneNode(1, 1, false, inactive).tree), KEY)
  {
    assert InOrder(Node(Nil, Entry(KEY, 0), Nil)) == [Entry(KEY, 0)];
  }

  /** Two requests for one key, the first of which finds the shared memory full: by
      the time it tries again the other has made the node, and there are two. */
  lemma RetryRace(inactive: int) returns (t: seq<Sys>, ls: seq<Label>)
    ensures Run(t, ls, inactive) && |t| == 6 && !Unique(t[5].sh)
  {
    hide InOrder, HasKey, TreeWith;
    var c := Newcomer(false);
    var e := Shared(map[], Nil, []);
    var s := OneNode(1, 1, false, inactive);
    var d := c.(node := Some(0));
    var k := Shared(s.nodes[1 := CacheNode(KEY, 1, 1, 0, false, false, false, inactive, 0)],
                    Insert2(inactive), [1] + s.queue);
    var y0 := Sys(e, map[], map[], 0);
    var y1 := Sys(e, map[1 := c], map[], 0);
    var y2 := Sys(e, map[1 := c, 2 := c], map[], 0);
    var y3 := Sys(e, map[1 := c.(window := true), 2 := c], map[], 0);
    var y4 := Sys(s, map[1 := c.(window := true), 2 := d], map[], 0);
    var y5 := Sys(k, map[1 := c.(node := Some(1)), 2 := d], map[], 0);
    EmptyHasNoKey(KEY);
    CreatedOne(c, inactive);
    assert NewRequest(c) && y1.reqs == y0.reqs[1 := c];
    assert Next(y0, y1, Arrive(1), inactive);
    assert y2.reqs == y1.reqs[2 := c];
    assert Next(y1, y2, Arrive(2), inactive);
    assert By(y2, y3, 1) && ExistsStep(e, e, c, c.(window := true), Window, 0, inactive, false);
    assert By(y3, y4, 2) && ExistsStep(e, s, c, d, Declined, 0, inactive, true);
    SecondNode(inactive, k);
    assert By(y4, y5, 1) && RetryStep(s, k, c.(window := true), c.(node := Some(1)), Declined, 0, inactive, true);
    t, ls := [y0, y1, y2, y3, y4, y5], [Arrive(1), Arrive(2), Open(1), Open(2), Retry(1)];
    assert k.nodes[0].key == k.nodes[1].key;
  }

  function Insert2(inactive: int): Tree { Node(Nil, Entry(KEY, 0), Node(Nil, Entry(KEY, 1), Nil)) }

  lemma SecondNode(inactive: int, k: Shared)
    requires k.tree == Insert2(inactive)
    ensures TreeWith(OneNode(1, 1, false, inactive).tree, Entry(KEY, 1), k.tree)
  {
    var t := OneNode(1, 1, false, inactive).tree;
    assert InOrder(t) == [Entry(KEY, 0)];
    LessOrder(KEY, KEY, KEY);
    assert Insert(Nil, Entry(KEY, 1)) == Node(Nil, Entry(KEY, 1), Nil);
    assert Insert(t, Entry(KEY, 1)) == k.tree;
  }

  function Three(c1: Request, c2: Request, c3: Request): map<nat, Request> { map[1 := c1, 2 := c2, 3 := c3] }

  lemma ThreeSet(a: Request, b: Request, c: Request, x: Request)
    ensures Three(a, b, c)[1 := x] == Three(x, b, c) && Three(a, b, c)[2 := x] == Three(a, x, c)
    ensures Three(a, b, c)[3 := x] == Three(a, b, x)
    ensures var m := Three(a, b, c); 1 in m && 2 in m && 3 in m && m[1] == a && m[2] == b && m[3] == c
  {
  }

  lemma ThreeArrive(c: Request, d: Request, inactive: int) returns (t: seq<Sys>)
    requires NewRequest(c) && NewRequest(d)
    ensures |t| == 4 && Start(t[0]) && t[3] == Sys(Shared(map[], Nil, []), Three(c, d, d), map[], 0)
    ensures Next(t[0], t[1], Arrive(1), inactive) && Next(t[1], t[2], Arrive(2), inactive)
    ensures Next(t[2], t[3], Arrive(3), inactive)
  {
    var e := Shared(map[], Nil, []);
    t := [Sys(e, map[], map[], 0), Sys(e, map[1 := c], map[], 0), Sys(e, map[1 := c, 2 := d], map[], 0),
          Sys(e, Three(c, d, d), map[], 0)];
    assert t[1].reqs == t[0].reqs[1 := c] && t[2].reqs == t[1].reqs[2 := d] && t[3].reqs == t[2].reqs[3 := d];
  }

  /** Request c finds the one node there is. */
  lemma OpenOne(y: Sys, z: Sys, r: nat, c: Request, inactive: int, count: nat)
    requires 0 < count < 10 && r in y.reqs && y.reqs[r] == c && c == Newcomer(c.lock) && y.now == 0
    requires y.sh == OneNode(count, count, false, inactive)
    requires z == y.(sh := OneNode(count + 1, count + 1, false, inactive), reqs := y.reqs[r := c.(node := Some(0))])
    ensures Next(y, z, Open(r), inactive)
  {
    OneHasKey(inactive);
    assert Drop([0], 0) == [];
    assert ExistsStep(y.sh, z.sh, c, z.reqs[r], Ok, 0, inactive, true);
    assert By(y, z, r);
  }

  /** The states of StolenClaim from the third on. */
  function Stolen(k: nat, inactive: int): Sys
  {
    var c, d := Newcomer(false), Newcomer(true);
    var c1, d1 := c.(node := Some(0)), d.(node := Some(0));
    var c2, d2 := c1.(updated := true), d1.(updating := true);
    match k
    case 3 => Sys(Shared(map[], Nil, []), Three(c, d, d), map[], 0)
    case 4 => Sys(OneNode(1, 1, false, inactive), Three(c1, d, d), map[], 0)
    case 5 => Sys(OneNode(2, 2, false, inactive), Three(c1, d1, d), map[], 0)
    case 6 => Sys(OneNode(3, 3, false, inactive), Three(c1, d1, d1), map[], 0)
    case 7 => Sys(OneNode(3, 3, true, inactive), Three(c1, d2, d1), map[], 0)
    case 8 => Sys(OneNode(2, 3, false, inactive), Three(c2, d2, d1), map[], 0)
    case _ => Sys(OneNode(2, 3, true, inactive), Three(c2, d2, d2), map[], 0)
  }

  lemma StolenStart(inactive: int) returns (t: seq<Sys>)
    ensures |t| == 4 && Start(t[0]) && t[3] == Stolen(3, inactive)
    ensures Next(t[0], t[1], Arrive(1), inactive) && Next(t[1], t[2], Arrive(2), inactive)
    ensures Next(t[2], t[3], Arrive(3), inactive)
  {
    hide Start, Next, Three;
    t := ThreeArrive(Newcomer(false), Newcomer(true), inactive);
  }

  lemma StolenOpens(inactive: int)
    ensures Next(Stolen(3, inactive), Stolen(4, inactive), Open(1), inactive)
    ensures Next(Stolen(4, inactive), Stolen(5, inactive), Open(2), inactive)
    ensures Next(Stolen(5, inactive), Stolen(6, inactive), Open(3), inactive)
  {
    hide Next, Three, OneNode;
    var c, d := Newcomer(false), Newcomer(true);
    var c1, d1 := c.(node := Some(0)), d.(node := Some(0));
    ThreeSet(c, d, d, c1);
    ThreeSet(c1, d, d, d1);
    ThreeSet(c1, d1, d, d1);
    FirstOpens(Stolen(3, inactive), Stolen(4, inactive), c, inactive);
    OpenOne(Stolen(4, inactive), Stolen(5, inactive), 2, d, inactive, 1);
    OpenOne(Stolen(5, inactive), Stolen(6, inactive), 3, d, inactive, 2);
  }

  lemma StolenLocks(inactive: int)
    ensures Next(Stolen(6, inactive), Stolen(7, inactive), Lock(2), inactive)
    ensures Next(Stolen(7, inactive), Stolen(8, inactive), Update(1), inactive)
    ensures Next(Stolen(8, inactive), Stolen(9, inactive), Lock(3), inactive)
  {
    hide Next, Three, OneNode;
    var c1, d1 := Newcomer(false).(node := Some(0)), Newcomer(true).(node := Some(0));
    var c2, d2 := c1.(updated := true), d1.(updating := true);
    ThreeSet(c1, d1, d1, d2);
    ThreeSet(c1, d2, d1, c2);
    ThreeSet(c2, d2, d1, d2);
    LockOne(Stolen(6, inactive), Stolen(7, inactive), 2, d1, inactive, 3);
    UpdateOne(Stolen(7, inactive), Stolen(8, inactive), c1, inactive);
    LockOne(Stolen(8, inactive), Stolen(9, inactive), 3, d1, inactive, 2);
  }

  /** A request that never asked for the lock updates a node claimed by another: the
      flag is clear, so a third request claims the node as well. */
  lemma StolenClaim(inactive: int) returns (t: seq<Sys>, ls: seq<Label>)
    ensures Run(t, ls, inactive) && |t| == 10
    ensures 1 in t[9].reqs && 2 in t[9].reqs && 3 in t[9].reqs
    ensures t[9].reqs[2].updating && t[9].reqs[3].updating && t[9].reqs[2].node == t[9].reqs[3].node == Some(0)
  {
    hide *;
    var u := StolenStart(inactive);
    StolenOpens(inactive);
    StolenLocks(inactive);
    t := [u[0], u[1], u[2], Stolen(3, inactive), Stolen(4, inactive), Stolen(5, inactive), Stolen(6, inactive),
          Stolen(7, inactive),
          Stolen(8, inactive), Stolen(9, inactive)];
    ls := [Arrive(1), Arrive(2), Arrive(3), Open(1), Open(2), Open(3), Lock(2), Update(1), Lock(3)];
    TenStates(t, ls, inactive);
    StolenEnd(inactive);
  }

  lemma TenStates(t: seq<Sys>, ls: seq<Label>, inactive: int)
    requires |t| == 10 && |ls| == 9 && Start(t[0])
    requires Next(t[0], t[1], ls[0], inactive) && Next(t[1], t[2], ls[1], inactive) && Next(t[2], t[3], ls[2], inactive)
    requires Next(t[3], t[4], ls[3], inactive) && Next(t[4], t[5], ls[4], inactive) && Next(t[5], t[6], ls[5], inactive)
    requires Next(t[6], t[7], ls[6], inactive) && Next(t[7], t[8], ls[7], inactive) && Next(t[8], t[9], ls[8], inactive)
    ensures Run(t, ls, inactive)
  {
    hide Next, Start;
  }

  lemma StolenEnd(inactive: int)
    ensures var m := Stolen(9, inactive).reqs;
            1 in m && 2 in m && 3 in m && m[2].updating && m[3].updating && m[2].node == m[3].node == Some(0)
  {
  }

  lemma LockOne(y: Sys, z: Sys, r: nat, c: Request, inactive: int, count: nat)
    requires r in y.reqs && y.reqs[r] == c && c.lock && Holds(c, 0) && y.sh == OneNode(count, 3, false, inactive)
    requires z == y.(sh := OneNode(count, 3, true, inactive), reqs := y.reqs[r := c.(updating := true)])
    ensures Next(y, z, Lock(r), inactive)
  {
    assert LockStep(y.sh, z.sh, c, z.reqs[r], Declined) && By(y, z, r);
  }

  lemma UpdateOne(y: Sys, z: Sys, c: Request, inactive: int)
    requires 1 in y.reqs && y.reqs[1] == c && !c.window && !c.updating && Holds(c, 0)
    requires y.sh == OneNode(3, 3, true, inactive)
    requires z == y.(sh := OneNode(2, 3, false, inactive), reqs := y.reqs[1 := c.(updated := true)])
    ensures Next(y, z, Update(1), inactive)
  {
    assert UpdateStep(y.sh, z.sh, c, z.reqs[1], false) && By(y, z, 1);
  }

  lemma FirstOpens(y: Sys, z: Sys, c: Request, inactive: int)
    requires c == Newcomer(c.lock) && 1 in y.reqs && y.reqs[1] == c
    requires y == Sys(Shared(map[], Nil, []), y.reqs, map[], 0)
    requires z == Sys(OneNode(1, 1, false, inactive), y.reqs[1 := c.(node := Some(0))], map[], 0)
    ensures Next(y, z, Open(1), inactive)
  {
    EmptyHasNoKey(KEY);
    CreatedOne(c, inactive);
    assert ExistsStep(y.sh, z.sh, c, z.reqs[1], Declined, 0, inactive, true);
    assert By(y, z, 1);
  }
}
