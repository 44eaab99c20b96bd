/** The event timers of ngx_event_timer.h and ngx_event_timer.c: keys are milliseconds
    modulo 2^64, compared by the sign of their difference, and kept in a tree whose
    smallest node is the next to expire.

    Ghost fields hold the times on an unbounded clock that the wrapped keys stand for.
    ngx_rbtree_insert, ngx_rbtree_delete and ngx_rbtree_min are not part of the
    vendored sources; the tree is its sequence of nodes from left to right, and a new
    node goes to the left of the first node it is less than. */
module Timers {
  import opened Common

  const W := 0x1_0000_0000_0000_0000
  const H := 0x8000_0000_0000_0000
  const LAZY_DELAY := 300
  const INFINITE := W - 1

  // ---------------------------------------------------------------- wrapped time

  function Wrap(x: int): nat { x % W }

  /** The cast to ngx_msec_int_t. */
  function Signed(x: nat): int
    requires x < W
  {
    if x < H then x else x - W
  }

  function Diff(a: nat, b: nat): int { Signed((a - b) % W) }

  /** ngx_abs on a 64-bit integer: the smallest one has no positive counterpart. */
  function Abs64(d: int): int { if d >= 0 then d else if d == -H then -H else -d }

  function Abs(d: int): int { if d >= 0 then d else -d }

  /** A wrapped difference is the true one exactly when that fits. */
  lemma DiffExact(x: int, y: int)
    ensures Diff(Wrap(x), Wrap(y)) == x - y <==> -H <= x - y < H
    ensures -H <= Diff(Wrap(x), Wrap(y)) < H
  {
    assert (Wrap(x) - Wrap(y)) % W == (x - y) % W;
  }

  /** The lazy test means "closer than 300 ms" for all keys but those 2^63 apart. */
  lemma LazyIff(x: int, y: int)
    requires -H <= x - y < H
    ensures (Abs64(Diff(Wrap(x), Wrap(y))) < LAZY_DELAY <==> Abs(x - y) < LAZY_DELAY) <==> x - y != -H
  {
    DiffExact(x, y);
  }

  // ---------------------------------------------------------------- the tree as a sequence

  /** What the times to expire must satisfy for keys to be comparable: all of them and
      the present lie within less than 2^63 ms of each other. */
  ghost predicate Window(due: map<nat, int>, clock: int)
  {
    && (forall e :: e in due ==> -H < due[e] - clock < H)
    && (forall e, f :: e in due && f in due ==> due[e] - due[f] < H)
  }

  ghost predicate InOrder(tree: seq<nat>, due: map<nat, int>)
  {
    && (forall e :: e in tree ==> e in due)
    && (forall i, j :: 0 <= i < j < |tree| ==> due[tree[i]] <= due[tree[j]])
  }

  /** Where ngx_rbtree_insert_timer_value puts a node with this key. */
  function Place(tree: seq<nat>, keys: map<nat, nat>, key: nat): (p: nat)
    requires forall e :: e in tree ==> e in keys
    ensures p <= |tree|
  {
    if tree == [] || Diff(key, keys[tree[0]]) < 0 then 0 else 1 + Place(tree[1..], keys, key)
  }

  lemma {:induction false} PlaceInOrder(tree: seq<nat>, keys: map<nat, nat>, due: map<nat, int>, at: int)
    requires forall e :: e in tree ==> e in keys && e in due && keys[e] == Wrap(due[e]) && -H < at - due[e] < H
    requires InOrder(tree, due)
    ensures var p := Place(tree, keys, Wrap(at));
            && (forall i :: 0 <= i < p ==> due[tree[i]] <= at)
            && (forall i :: p <= i < |tree| ==> at < due[tree[i]])
  {
    if tree != [] {
      DiffExact(at, due[tree[0]]);
      var t := tree[1..];
      forall i, j | 0 <= i < j < |t| ensures due[t[i]] <= due[t[j]] {
        assert t[i] == tree[i + 1] && t[j] == tree[j + 1];
      }
      PlaceInOrder(t, keys, due, at);
      if Diff(Wrap(at), keys[tree[0]]) >= 0 {
        var p := 1 + Place(t, keys, Wrap(at));
        forall i | 0 <= i < p ensures due[tree[i]] <= at { assert i > 0 ==> tree[i] == t[i - 1]; }
        forall i | p <= i < |tree| ensures at < due[tree[i]] { assert tree[i] == t[i - 1]; }
      }
    }
  }

  function Insert(tree: seq<nat>, p: nat, e: nat): seq<nat>
    requires p <= |tree|
  {
    tree[..p] + [e] + tree[p..]
  }

  lemma InsertInOrder(tree: seq<nat>, p: nat, e: nat, due: map<nat, int>, at: int)
    requires p <= |tree| && InOrder(tree, due) && NoDup(tree) && e !in tree
    requires (forall i :: 0 <= i < p ==> due[tree[i]] <= at) && (forall i :: p <= i < |tree| ==> at < due[tree[i]])
    ensures InOrder(Insert(tree, p, e), due[e := at]) && NoDup(Insert(tree, p, e))
    ensures forall x :: x in Insert(tree, p, e) <==> x in tree || x == e
  {
    var t := Insert(tree, p, e);
    assert tree == tree[..p] + tree[p..];
    forall i | 0 <= i < |t| ensures t[i] == (if i < p then tree[i] else if i == p then e else tree[i - 1]) {}
    forall x ensures x in t <==> x in tree || x == e {
      if x in tree { assert x in tree[..p] + tree[p..]; }
    }
    forall i, j | 0 <= i < j < |t| ensures due[e := at][t[i]] <= due[e := at][t[j]] && t[i] != t[j] {
      assert i != p ==> t[i] in tree;
      assert j != p ==> t[j] in tree;
    }
  }

  lemma {:induction false} DropInOrder(q: seq<nat>, e: nat, due: map<nat, int>)
    requires InOrder(q, due)
    ensures InOrder(Drop(q, e), due)
  {
    if q != [] {
      var t := q[1..];
      forall i, j | 0 <= i < j < |t| ensures due[t[i]] <= due[t[j]] { assert t[i] == q[i + 1] && t[j] == q[j + 1]; }
      DropInOrder(t, e, due);
      DropMembers(t, e);
      forall i | 0 <= i < |t| ensures due[q[0]] <= due[t[i]] { assert t[i] == q[i + 1]; }
      var d := Drop(t, e);
      var s := [q[0]] + d;
      forall i, j | 0 <= i < j < |s| ensures due[s[i]] <= due[s[j]] {
        assert s[j] == d[j - 1] && s[j] in d && (i > 0 ==> s[i] == d[i - 1]);
      }
    }
  }

  lemma DropFirst(q: seq<nat>)
    requires q != [] && NoDup(q)
    ensures Drop(q, q[0]) == q[1..]
  {
    var t := q[1..];
    forall i | 0 <= i < |t| ensures t[i] != q[0] { assert t[i] == q[i + 1]; }
    DropAbsent(t, q[0]);
  }

  // ---------------------------------------------------------------- what holds between calls

  /** The keys are the wrapped times, none far from the deadline last asked for. */
  ghost predicate Keyed(keys: map<nat, nat>, due: map<nat, int>, want: map<nat, int>)
  {
    && keys.Keys == due.Keys && want.Keys == due.Keys
    && forall e :: e in due ==> keys[e] == Wrap(due[e]) && Abs(due[e] - want[e]) < LAZY_DELAY
  }

  /** The tree holds the armed events, each once, in the order of their times. */
  ghost predicate Queue(tree: seq<nat>, due: map<nat, int>)
  {
    (forall e: nat :: e in tree <==> e in due) && NoDup(tree) && InOrder(tree, due)
  }

  lemma QueueDrop(tree: seq<nat>, due: map<nat, int>, e: nat)
    requires Queue(tree, due)
    ensures Queue(Drop(tree, e), due - {e})
  {
    DropMembers(tree, e);
    DropNoDup(tree, e);
    DropInOrder(tree, e, due);
  }

  lemma QueueInsert(tree: seq<nat>, keys: map<nat, nat>, due: map<nat, int>, want: map<nat, int>, clock: int, e: nat,
                    at: int)
    requires Queue(tree, due) && Keyed(keys, due, want) && e !in due && Window(due[e := at], clock)
    ensures forall e :: e in tree ==> e in keys && e in due
    ensures var p := Place(tree, keys, Wrap(at));
            Queue(Insert(tree, p, e), due[e := at]) && forall i :: 0 <= i < |tree| && due[tree[i]] <= at ==> i < p
  {
    hide NoDup, Insert, Place, Wrap;
    forall x | x in due ensures -H < at - due[x] < H {
      var d := due[e := at];
      assert d[e] - d[x] < H && d[x] - d[e] < H;
    }
    PlaceInOrder(tree, keys, due, at);
    InsertInOrder(tree, Place(tree, keys, Wrap(at)), e, due, at);
  }

  // ---------------------------------------------------------------- expiry

  /** What handlers may do: the timer of event e is armed again plan[e] later, for e in
      plan, within what the keys can tell apart. */
  ghost predicate Fit(plan: map<nat, nat>, due: map<nat, int>, clock: int)
  {
    forall e :: e in plan ==> 0 < plan[e] < H && forall f :: f in due ==> clock + plan[e] - due[f] < H
  }

  /** The times after all due events have fired. */
  function Rearmed(due: map<nat, int>, plan: map<nat, nat>, clock: int): map<nat, int>
  {
    map e | e in due && (due[e] > clock || e in plan) :: if due[e] > clock then due[e] else clock + plan[e]
  }

  /** The first n events of the tree t0 have fired; the due ones left are still in
      front of everything else, in their old order. */
  ghost predicate Firing(t0: seq<nat>, due0: map<nat, int>, plan: map<nat, nat>, clock: int, n: nat, t: seq<nat>,
                         due: map<nat, int>)
  {
    && n <= |t0| && Queue(t0, due0)
    && (forall i :: 0 <= i < n ==> due0[t0[i]] <= clock)
    && (forall i :: n <= i < |t0| ==> t0[i] in due && due[t0[i]] == due0[t0[i]])
    && (forall i :: 0 <= i < n ==> (t0[i] in due <==> t0[i] in plan))
    && (forall i :: 0 <= i < n && t0[i] in plan ==> due[t0[i]] == clock + plan[t0[i]])
    && (forall e :: e in due ==> e in due0)
    && (forall i :: n <= i < |t0| && due0[t0[i]] <= clock ==> i - n < |t| && t[i - n] == t0[i])
  }

  lemma FiringNext(t0: seq<nat>, due0: map<nat, int>, plan: map<nat, nat>, clock: int, n: nat, t: seq<nat>,
                   due: map<nat, int>)
    requires Firing(t0, due0, plan, clock, n, t, due) && Queue(t, due) && t != [] && due[t[0]] <= clock
    requires forall e :: e in plan ==> 0 < plan[e]
    ensures n < |t0| && t[0] == t0[n] && t[0] in due0 && due0[t[0]] <= clock
  {
    assert t[0] in t && t[0] in due0 && t[0] in t0;
    var j :| 0 <= j < |t0| && t0[j] == t[0];
    assert t0[n] in t0;
  }

  /** The first event fires, and its handler may arm it again. */
  lemma FiringStep(t0: seq<nat>, due0: map<nat, int>, plan: map<nat, nat>, clock: int, n: nat, t: seq<nat>,
                   due: map<nat, int>,
                   t1: seq<nat>, due1: map<nat, int>)
    requires Firing(t0, due0, plan, clock, n, t, due) && n < |t0| && t != [] && t[0] == t0[n] && due0[t0[n]] <= clock
    requires due1 == if t[0] in plan then due[t[0] := clock + plan[t[0]]] else due - {t[0]}
    requires forall i :: 0 < i < |t| && t[i] in due && due[t[i]] <= clock ==> i - 1 < |t1| && t1[i - 1] == t[i]
    ensures Firing(t0, due0, plan, clock, n + 1, t1, due1)
  {
    hide InOrder;
    assert NoDup(t0);
    forall i | n + 1 <= i < |t0| && due0[t0[i]] <= clock ensures i - n - 1 < |t1| && t1[i - n - 1] == t0[i] {
      assert t[i - n] == t0[i];
    }
  }

  lemma FiringEnd(t0: seq<nat>, due0: map<nat, int>, plan: map<nat, nat>, clock: int, n: nat, t: seq<nat>, due: map<nat,
                  int>)
    requires Firing(t0, due0, plan, clock, n, t, due) && Queue(t, due) && (t != [] ==> due[t[0]] > clock)
    ensures due == Rearmed(due0, plan, clock)
    ensures NoDup(t0[..n]) && forall e: nat :: e in t0[..n] <==> e in due0 && due0[e] <= clock
  {
    hide InOrder;
    assert forall i :: n <= i < |t0| ==> due0[t0[i]] > clock by {
      RestNotDue(t0, due0, plan, clock, n, t, due);
    }
    forall e: nat ensures e in t0[..n] <==> e in due0 && due0[e] <= clock { InPrefix(t0, n, e); }
    forall e: nat ensures e in due <==> e in Rearmed(due0, plan, clock) { InPrefix(t0, n, e); }
    forall e | e in due ensures due[e] == Rearmed(due0, plan, clock)[e] { InPrefix(t0, n, e); }
  }

  lemma InPrefix(t: seq<nat>, n: nat, e: nat)
    requires n <= |t|
    ensures e in t[..n] <==> exists i :: 0 <= i < n && t[i] == e
    ensures e in t <==> exists i :: 0 <= i < |t| && t[i] == e
  {
    if e in t[..n] {
      var i :| 0 <= i < n && t[..n][i] == e;
      assert t[i] == e;
    }
    if i :| 0 <= i < n && t[i] == e { assert t[..n][i] == e; }
  }

  lemma RestNotDue(t0: seq<nat>, due0: map<nat, int>, plan: map<nat, nat>, clock: int, n: nat, t: seq<nat>,
                   due: map<nat, int>)
    requires Firing(t0, due0, plan, clock, n, t, due) && Queue(t, due) && (t != [] ==> due[t[0]] > clock)
    ensures forall i :: n <= i < |t0| ==> due0[t0[i]] > clock
  {
    forall i | n <= i < |t0| ensures due0[t0[i]] > clock {
      assert t0[i] in due && t0[i] in t;
      var j :| 0 <= j < |t| && t[j] == t0[i];
    }
  }

  /** The window stays when fired timers are armed again as planned. */
  lemma FiringWindow(t0: seq<nat>, due0: map<nat, int>, plan: map<nat, nat>, clock: int, n: nat, t: seq<nat>,
                     due: map<nat, int>, e: nat)
    requires Firing(t0, due0, plan, clock, n, t, due) && Window(due0, clock) && Window(due, clock)
    requires Fit(plan, due0, clock) && e in plan
    ensures Window(due[e := clock + plan[e]], clock)
  {
    var at, d := clock + plan[e], due[e := clock + plan[e]];
    forall f | f in due ensures -H < at - due[f] < H {
      var j :| 0 <= j < |t0| && t0[j] == f;
    }
  }

  // ---------------------------------------------------------------- the timers of a process

  class Wheel {
    /** ngx_current_msec; the keys of the events with timer_set; the tree. */
    var now: nat
    var keys: map<nat, nat>
    var tree: seq<nat>

    /** The same on an unbounded clock, and the deadlines last asked for. */
    ghost var clock: int
    ghost var due: map<nat, int>
    ghost var want: map<nat, int>

    ghost predicate Valid()
      reads this
    {
      now == Wrap(clock) && Keyed(keys, due, want) && Queue(tree, due) && Window(due, clock)
    }

    constructor (clock: int)
      ensures Valid() && this.clock == clock && due == map[]
    {
      this.clock, now := clock, Wrap(clock);
      keys, tree, due, want := map[], [], map[], map[];
    }

    /** ngx_time_update: the clock goes on. */
    method Tick(ms: nat)
      requires Valid() && Window(due, clock + ms)
      modifies this
      ensures Valid() && clock == old(clock) + ms && due == old(due) && want == old(want) && tree == old(tree)
    {
      now, clock := (now + ms) % W, clock + ms;
    }

    /** ngx_event_del_timer */
    method Del(ev: nat)
      requires Valid() && ev in keys
      modifies this
      ensures Valid() && now == old(now) && clock == old(clock)
      ensures due == old(due) - {ev} && want == old(want) - {ev} && tree == Drop(old(tree), ev)
    {
      hide Queue, Keyed, Window, Wrap, Drop;
      QueueDrop(tree, due, ev);
      WithoutTimer(keys, due, want, clock, ev);
      tree := Drop(tree, ev);
      keys, due, want := keys - {ev}, due - {ev}, want - {ev};
    }

    lemma WithoutTimer(keys: map<nat, nat>, due: map<nat, int>, want: map<nat, int>, clock: int, e: nat)
      requires Keyed(keys, due, want) && Window(due, clock)
      ensures Keyed(keys - {e}, due - {e}, want - {e}) && Window(due - {e}, clock)
    {
    }

    /** ngx_event_add_timer: an armed timer stays if it is less than 300 ms off, so it
        is always less than 300 ms from the deadline last asked for. */
    method Add(ev: nat, timer: nat)
      requires Valid() && Window(due[ev := clock + timer], clock) && (ev in due ==> Abs(clock + timer - due[ev]) < H)
      modifies this
      ensures Valid() && now == old(now) && clock == old(clock) && want == old(want)[ev := clock + timer]
      ensures if ev in old(due) && Abs(clock + timer - old(due)[ev]) < LAZY_DELAY
              then due == old(due) && tree == old(tree)
              else due == old(due)[ev := clock + timer]
      ensures ev !in old(due) ==>
                exists p :: 0 <= p <= |old(tree)| && tree == Insert(old(tree), p, ev)
                            && forall i :: 0 <= i < |old(tree)| && old(due)[old(tree)[i]] <= clock + timer ==> i < p
    {
      hide Queue, Insert, Keyed, Window, Diff, Wrap, Abs64;
      var key := (now + timer) % W;
      WrapSum(clock, timer);
      KeyedDomain(keys, due, want);
      if ev in keys {
        var diff := Diff(key, keys[ev]);
        LazyKeeps(keys, due, want, ev, clock + timer);
        if Abs64(diff) < LAZY_DELAY {
          want := want[ev := clock + timer];
          return;
        }
        ghost var d, w, at := due, want, clock + timer;
        Del(ev);
        PutAgain(d, ev, at);
        PutAgain(w, ev, at);
      }
      KeyedDomain(keys, due, want);
      Arm(ev, key, clock + timer);
    }

    lemma PutAgain(m: map<nat, int>, e: nat, x: int)
      ensures (m - {e})[e := x] == m[e := x]
    {
    }

    lemma WrapSum(x: int, d: nat)
      ensures (Wrap(x) + d) % W == Wrap(x + d)
    {
    }

    lemma KeyedDomain(keys: map<nat, nat>, due: map<nat, int>, want: map<nat, int>)
      requires Keyed(keys, due, want)
      ensures forall e: nat :: e in keys <==> e in due
    {
    }

    /** The lazy test of an armed timer against a new deadline. */
    lemma LazyKeeps(keys: map<nat, nat>, due: map<nat, int>, want: map<nat, int>, ev: nat, at: int)
      requires Keyed(keys, due, want) && ev in keys && ev in due && Abs(at - due[ev]) < H
      ensures Abs64(Diff(Wrap(at), keys[ev])) < LAZY_DELAY <==> Abs(at - due[ev]) < LAZY_DELAY
      ensures Abs(at - due[ev]) < LAZY_DELAY ==> Keyed(keys, due, want[ev := at])
    {
      LazyIff(at, due[ev]);
    }

    method Arm(ev: nat, key: nat, ghost at: int)
      requires Valid() && ev !in keys && key == Wrap(at) && Window(due[ev := at], clock)
      modifies this
      ensures Valid() && now == old(now) && clock == old(clock) && due == old(due)[ev := at]
      ensures want == old(want)[ev := at]
      ensures exists p :: 0 <= p <= |old(tree)| && tree == Insert(old(tree), p, ev)
                          && forall i :: 0 <= i < |old(tree)| && old(due)[old(tree)[i]] <= at ==> i < p
    {
      hide Queue, Insert, Place;
      QueueInsert(tree, keys, due, want, clock, ev, at);
      var p := Place(tree, keys, key);
      tree := Insert(tree, p, ev);
      keys, due, want := keys[ev := key], due[ev := at], want[ev := at];
    }

    /** ngx_event_find_timer: the time until the first timer is due. */
    method FindTimer() returns (timer: nat)
      requires Valid()
      ensures due == map[] ==> timer == INFINITE
      ensures due != map[] ==>
                timer < H && (exists e :: e in due && (due[e] - clock == timer || (timer == 0 && due[e] <= clock)))
      ensures due != map[] && timer > 0 ==> forall e :: e in due ==> timer <= due[e] - clock
    {
      if tree == [] {
        assert due.Keys == {};
        return INFINITE;
      }
      var node := tree[0];
      assert node in tree;
      DiffExact(due[node], clock);
      var t := Diff(keys[node], now);
      timer := if t > 0 then t else 0;
      forall e | e in due ensures due[node] <= due[e] {
        var j :| 0 <= j < |tree| && tree[j] == e;
      }
    }

    /** ngx_event_expire_timers when handlers arm nothing but their own timer, and not
        for the present: every due event fires exactly once, in the order of the keys,
        and none is due at the end. */
    method ExpireTimers(plan: map<nat, nat>) returns (fired: seq<nat>)
      requires Valid() && Fit(plan, due, clock)
      modifies this
      ensures Valid() && clock == old(clock) && due == Rearmed(old(due), plan, clock)
      ensures |fired| <= |old(tree)| && fired == old(tree)[..|fired|] && NoDup(fired) && InOrder(fired, old(due))
      ensures forall e: nat :: e in fired <==> e in old(due) && old(due)[e] <= clock
      ensures forall e :: e in due ==> due[e] > clock
    {
      hide Queue, InOrder, NoDup, Firing, Window, Fit, Keyed, Rearmed;
      fired := [];
      ghost var t0, d0 := tree, due;
      FiringStart(t0, d0, plan, clock);
      FitDelays(plan, d0, clock);
      while true
        invariant Valid() && clock == old(clock) && |fired| <= |t0| && fired == t0[..|fired|]
        invariant Firing(t0, d0, plan, clock, |fired|, tree, due)
        decreases |t0| - |fired|
      {
        if tree == [] {
          break;
        }
        var node := tree[0];
        FirstKey(tree, keys, due, want, clock);
        if Diff(keys[node], now) > 0 {
          break;
        }
        FiringNext(t0, d0, plan, clock, |fired|, tree, due);
        Fire(plan, node, t0, d0, |fired|);
        assert t0[..|fired| + 1] == t0[..|fired|] + [node];
        fired := fired + [node];
      }
      FiringEnd(t0, d0, plan, clock, |fired|, tree, due);
      NoneDue(d0, plan, clock);
      PrefixInOrder(t0, |fired|, d0);
    }

    /** The body of the loop: the timer is taken out and its handler runs. */
    method Fire(plan: map<nat, nat>, node: nat, ghost t0: seq<nat>, ghost d0: map<nat, int>, ghost n: nat)
      requires Valid() && Window(d0, clock) && Fit(plan, d0, clock) && Firing(t0, d0, plan, clock, n, tree, due)
      requires tree != [] && node == tree[0] && n < |t0| && node == t0[n] && node in d0 && d0[node] <= clock
      modifies this
      ensures Valid() && clock == old(clock) && Firing(t0, d0, plan, clock, n + 1, tree, due)
    {
      hide Queue, Keyed, Window, Firing, Fit, Insert, NoDup, Drop;
      ghost var t, d := tree, due;
      QueueParts(tree, due);
      KeyedDomain(keys, due, want);
      DropFirst(tree);
      Del(node);
      if node in plan {
        FitDelays(plan, d0, clock);
        FiringWindow(t0, d0, plan, clock, n, t, d, node);
        PutAgain(d, node, clock + plan[node]);
        ghost var t1 := tree;
        Add(node, plan[node]);
        ghost var p :| 0 <= p <= |t1| && tree == Insert(t1, p, node)
                       && forall i :: 0 <= i < |t1| && d[t1[i]] <= clock + plan[node] ==> i < p;
        InsertFront(t1, p, node);
      }
      FiringStep(t0, d0, plan, clock, n, t, d, tree, due);
    }
  }

  lemma QueueParts(tree: seq<nat>, due: map<nat, int>)
    requires Queue(tree, due)
    ensures NoDup(tree) && forall e: nat :: e in tree <==> e in due
  {
  }

  lemma InsertFront(t: seq<nat>, p: nat, e: nat)
    requires p <= |t|
    ensures |Insert(t, p, e)| == |t| + 1 && forall i :: 0 <= i < p ==> Insert(t, p, e)[i] == t[i]
  {
  }

  lemma FiringStart(t0: seq<nat>, due0: map<nat, int>, plan: map<nat, nat>, clock: int)
    requires Queue(t0, due0)
    ensures Firing(t0, due0, plan, clock, 0, t0, due0)
  {
  }

  lemma FitDelays(plan: map<nat, nat>, due: map<nat, int>, clock: int)
    requires Fit(plan, due, clock)
    ensures forall e :: e in plan ==> 0 < plan[e] < H
  {
  }

  lemma FirstKey(tree: seq<nat>, keys: map<nat, nat>, due: map<nat, int>, want: map<nat, int>, clock: int)
    requires tree != [] && Queue(tree, due) && Keyed(keys, due, want) && Window(due, clock)
    ensures tree[0] in keys && tree[0] in due && Diff(keys[tree[0]], Wrap(clock)) == due[tree[0]] - clock
  {
    assert tree[0] in tree;
    DiffExact(due[tree[0]], clock);
  }

  lemma NoneDue(due: map<nat, int>, plan: map<nat, nat>, clock: int)
    requires forall e :: e in plan ==> 0 < plan[e]
    ensures forall e :: e in Rearmed(due, plan, clock) ==> Rearmed(due, plan, clock)[e] > clock
  {
  }

  lemma PrefixInOrder(t: seq<nat>, n: nat, due: map<nat, int>)
    requires n <= |t| && Queue(t, due)
    ensures InOrder(t[..n], due)
  {
    assert forall e :: e in t[..n] ==> e in t;
  }
}
