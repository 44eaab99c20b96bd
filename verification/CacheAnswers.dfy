/** What lookups of the file cache answer, over the runs of CacheRuns.dfy: how long an
    error is remembered, and from how many uses on an entry without a file is given. */
module CacheAnswers {
  import opened Common
  import opened CacheTree
  import opened FileCache
  import opened CacheRuns

  /** The step is a lookup that finds the node. */
  predicate Finds(y: Sys, z: Sys, l: Label, id: nat)
  {
    l.Open? && l.r in y.reqs && l.r in z.reqs && id in y.sh.nodes && z.reqs[l.r].node == Some(id)
  }

  /** It is the first of its request. */
  predicate Counted(y: Sys, z: Sys, l: Label, id: nat) { Finds(y, z, l, id) && y.reqs[l.r].node.None? }

  /** The step records an error in the node. */
  predicate Records(y: Sys, l: Label, id: nat)
  {
    l.Free? && l.r in y.reqs && !y.reqs[l.r].updated && y.reqs[l.r].node == Some(id) && y.reqs[l.r].error != 0
  }

  /** The step learns from a file that was there before the cache knew it. */
  predicate ColdRead(y: Sys, z: Sys, l: Label, id: nat)
  {
    && l.Read? && l.r in y.reqs && y.reqs[l.r].node == Some(id)
    && id in y.sh.nodes && id in z.sh.nodes && !y.sh.nodes[id].onDisk && z.sh.nodes[id].onDisk
  }

  // ---------------------------------------------------------------- one step

  /** What a request is told about a node and leaves in it. */
  ghost predicate Told(n: CacheNode, m: CacheNode, c: Request, d: Request, rc: Rc, now: int)
  {
    && d.error == m.error
    && (n.error != 0 && now <= n.validSec ==>
          rc == Rc.Ok && m.error == n.error && m.validSec == n.validSec && m.onDisk == n.onDisk)
    && (n.error != 0 && n.validSec < now ==> rc == Declined && m.error == 0 && m.validSec == 0 && !m.onDisk)
    && (n.error == 0 ==>
          && m.error == 0 && m.validSec == n.validSec && m.onDisk == n.onDisk
          && rc == if n.onDisk || m.uses >= c.minUses then Rc.Ok else Again)
    && m.uses == if c.node.None? then (n.uses + 1) % USES else n.uses
  }

  lemma FindsTells(y: Sys, z: Sys, l: Label, id: nat, rc: Rc, room: bool, inactive: int)
    requires Finds(y, z, l, id) && ExistsStep(y.sh, z.sh, y.reqs[l.r], z.reqs[l.r], rc, y.now, inactive, room)
    ensures id in z.sh.nodes
    ensures Told(y.sh.nodes[id], z.sh.nodes[id], y.reqs[l.r], z.reqs[l.r], rc, y.now)
  {
    hide TreeWith, InOrder, HasKey, Drop;
  }

  lemma RecordTells(y: Sys, z: Sys, l: Label, id: nat, inactive: int)
    requires Next(y, z, l, inactive) && Records(y, l, id)
    ensures id in z.sh.nodes
    ensures var c, n, m := y.reqs[l.r], y.sh.nodes[id], z.sh.nodes[id];
            m.error == c.error % USES && m.validSec == if c.validSec != 0 then c.validSec else n.validSec
  {
    hide TreeWithout, Drop;
  }

  /** What no other step changes. */
  ghost predicate Stays(y: Sys, z: Sys, l: Label, id: nat)
  {
    id in y.sh.nodes && id in z.sh.nodes ==>
      var n, m := y.sh.nodes[id], z.sh.nodes[id];
      && (Finds(y, z, l, id) || Records(y, l, id) || (m.error == n.error && m.validSec == n.validSec))
      && (Finds(y, z, l, id) || ColdRead(y, z, l, id) || m.uses == n.uses)
      && (ColdRead(y, z, l, id) ==> m.uses == 1)
      && (m.onDisk == n.onDisk || ColdRead(y, z, l, id) || (l.Update? && m.onDisk)
          || (Finds(y, z, l, id) && n.error != 0 && n.validSec < y.now))
      && (Finds(y, z, l, id) && !Counted(y, z, l, id) ==> m.uses == n.uses)
      && (Counted(y, z, l, id) ==> m.uses == (n.uses + 1) % USES)
  }

  lemma OpenStays(y: Sys, z: Sys, l: Label, id: nat, inactive: int)
    requires Next(y, z, l, inactive) && (l.Open? || l.Retry?)
    ensures Stays(y, z, l, id)
  {
    hide TreeWith, InOrder, HasKey, Drop;
  }

  lemma HeldStays(y: Sys, z: Sys, l: Label, id: nat, inactive: int)
    requires Next(y, z, l, inactive) && (l.Lock? || l.Read? || l.Update? || l.Free?)
    ensures Stays(y, z, l, id)
  {
    hide TreeWith, TreeWithout, InOrder, HasKey, Drop, Found;
  }

  lemma StepStays(y: Sys, z: Sys, l: Label, id: nat, inactive: int)
    requires Next(y, z, l, inactive)
    ensures Stays(y, z, l, id) && y.now <= z.now
  {
    hide TreeWith, TreeWithout, Drop, InOrder, HasKey, Found;
    if l.Open? || l.Retry? {
      hide Stays;
      OpenStays(y, z, l, id, inactive);
    } else if l.Lock? || l.Read? || l.Update? || l.Free? {
      hide Stays;
      HeldStays(y, z, l, id, inactive);
    }
  }

  // ---------------------------------------------------------------- errors over runs

  /** The node is there from state i to state k. */
  predicate Present(t: seq<Sys>, id: nat, i: nat, k: nat)
    requires k < |t|
  {
    forall j :: i <= j <= k ==> id in t[j].sh.nodes
  }

  /** From step i up to step k no error is recorded in the node. */
  predicate Unrecorded(t: seq<Sys>, ls: seq<Label>, id: nat, i: nat, k: nat)
    requires k <= |t| && k <= |ls|
  {
    forall j :: i <= j < k ==> !Records(t[j], ls[j], id)
  }

  /** From step i up to step k the node has been looked up after time v. */
  ghost predicate LookedUp(t: seq<Sys>, ls: seq<Label>, id: nat, i: nat, k: nat, v: int)
    requires k < |t| && k <= |ls|
  {
    exists j :: i <= j < k && Finds(t[j], t[j + 1], ls[j], id) && v < t[j].now
  }

  /** A recorded error stays until a lookup after its time, which removes it. */
  lemma {:induction false} ErrorStays(t: seq<Sys>, ls: seq<Label>, inactive: int, id: nat, i: nat, k: nat)
    requires Run(t, ls, inactive) && i <= k < |t| && Present(t, id, i, k) && Unrecorded(t, ls, id, i, k)
    requires t[i].sh.nodes[id].error != 0
    ensures var n, m := t[i].sh.nodes[id], t[k].sh.nodes[id];
            if LookedUp(t, ls, id, i, k, n.validSec) then m.error == 0 && n.validSec < t[k].now
            else m.error == n.error && m.validSec == n.validSec
    decreases k
  {
    hide Next, Finds, Records, ExistsStep, LookedUp;
    var v := t[i].sh.nodes[id].validSec;
    if i == k {
      NoLookup(t, ls, id, i, v);
    } else {
      var y, z, l := t[k - 1], t[k], ls[k - 1];
      ErrorStays(t, ls, inactive, id, i, k - 1);
      assert Next(y, z, l, inactive) && !Records(y, l, id);
      StepStays(y, z, l, id, inactive);
      LookupNext(t, ls, id, i, k, v);
      if Finds(y, z, l, id) {
        var rc, room := OpenAnswer(y, z, l, id, inactive);
        FindsTells(y, z, l, id, rc, room, inactive);
      }
    }
  }

  lemma NoLookup(t: seq<Sys>, ls: seq<Label>, id: nat, i: nat, v: int)
    requires i < |t| && i <= |ls|
    ensures !LookedUp(t, ls, id, i, i, v)
  {
  }

  lemma LookupNext(t: seq<Sys>, ls: seq<Label>, id: nat, i: nat, k: nat, v: int)
    requires i < k < |t| && k <= |ls|
    ensures LookedUp(t, ls, id, i, k, v)
            <==> LookedUp(t, ls, id, i, k - 1, v) || (Finds(t[k - 1], t[k], ls[k - 1], id) && v < t[k - 1].now)
  {
    hide Finds;
    if Finds(t[k - 1], t[k], ls[k - 1], id) && v < t[k - 1].now {
      var j := k - 1;
      assert Finds(t[j], t[j + 1], ls[j], id);
    }
  }

  lemma OpenAnswer(y: Sys, z: Sys, l: Label, id: nat, inactive: int) returns (rc: Rc, room: bool)
    requires Next(y, z, l, inactive) && Finds(y, z, l, id)
    ensures ExistsStep(y.sh, z.sh, y.reqs[l.r], z.reqs[l.r], rc, y.now, inactive, room)
  {
    hide ExistsStep;
    rc, room :| ExistsStep(y.sh, z.sh, y.reqs[l.r], z.reqs[l.r], rc, y.now, inactive, room);
  }

  /** An error recorded in step i is told to every lookup up to its time and to none
      after; the first later lookup is declined and clears the node. */
  lemma CachedError(t: seq<Sys>, ls: seq<Label>, inactive: int, id: nat, i: nat, k: nat, rc: Rc, room: bool)
    requires Run(t, ls, inactive) && i < k < |ls| && Records(t[i], ls[i], id)
    requires 0 < t[i].reqs[ls[i].r].error < USES && t[i].reqs[ls[i].r].validSec != 0
    requires Present(t, id, i + 1, k) && Unrecorded(t, ls, id, i + 1, k) && Finds(t[k], t[k + 1], ls[k], id)
    requires ExistsStep(t[k].sh, t[k + 1].sh, t[k].reqs[ls[k].r], t[k + 1].reqs[ls[k].r], rc, t[k].now, inactive, room)
    ensures id in t[k + 1].sh.nodes
    ensures var c, d, m := t[i].reqs[ls[i].r], t[k + 1].reqs[ls[k].r], t[k + 1].sh.nodes[id];
            && (t[k].now <= c.validSec ==> rc == Rc.Ok && d.error == c.error == m.error)
            && (t[k].now > c.validSec ==> d.error == 0 == m.error)
            && (t[k].now > c.validSec && !LookedUp(t, ls, id, i + 1, k, c.validSec) ==>
                  rc == Declined && m.validSec == 0 && !m.onDisk)
  {
    hide Next, ExistsStep, Finds, Records, LookedUp;
    assert Next(t[i], t[i + 1], ls[i], inactive);
    RecordTells(t[i], t[i + 1], ls[i], id, inactive);
    ErrorStays(t, ls, inactive, id, i + 1, k);
    FindsTells(t[k], t[k + 1], ls[k], id, rc, room, inactive);
  }

  // ---------------------------------------------------------------- uses over runs

  /** The lookups that were counted from step i up to step k. */
  function Lookups(t: seq<Sys>, ls: seq<Label>, id: nat, i: nat, k: nat): nat
    requires i <= k < |t| && k <= |ls|
    decreases k
  {
    if i == k then 0
    else Lookups(t, ls, id, i, k - 1) + if Counted(t[k - 1], t[k], ls[k - 1], id) then 1 else 0
  }

  lemma {:induction false} UsesCounted(t: seq<Sys>, ls: seq<Label>, inactive: int, id: nat, i: nat, k: nat)
    requires Run(t, ls, inactive) && i <= k < |t| && Present(t, id, i, k)
    requires forall j :: i <= j < k ==> !ColdRead(t[j], t[j + 1], ls[j], id)
    requires t[i].sh.nodes[id].uses < USES
    ensures t[k].sh.nodes[id].uses == (t[i].sh.nodes[id].uses + Lookups(t, ls, id, i, k)) % USES
    decreases k
  {
    hide Next, Finds, Counted, ColdRead, Records;
    if i < k {
      UsesCounted(t, ls, inactive, id, i, k - 1);
      assert Next(t[k - 1], t[k], ls[k - 1], inactive);
      assert !ColdRead(t[k - 1], t[k - 1 + 1], ls[k - 1], id);
      StepStays(t[k - 1], t[k], ls[k - 1], id, inactive);
      CountedFinds(t[k - 1], t[k], ls[k - 1], id);
      var u := t[i].sh.nodes[id].uses + Lookups(t, ls, id, i, k - 1);
      ModNext(u);
    }
  }

  lemma CountedFinds(y: Sys, z: Sys, l: Label, id: nat)
    ensures Counted(y, z, l, id) ==> Finds(y, z, l, id)
  {
  }

  lemma ModNext(u: nat)
    ensures (u % USES + 1) % USES == (u + 1) % USES
  {
  }

  /** Making a node counts as its first use; only the loader knows of a file at once. */
  lemma MadeOnce(y: Sys, z: Sys, l: Label, id: nat, inactive: int)
    requires Next(y, z, l, inactive) && id !in y.sh.nodes && id in z.sh.nodes
    ensures z.sh.nodes[id].uses == 1 && z.sh.nodes[id].error == 0 && (z.sh.nodes[id].onDisk <==> l.Add?)
  {
    hide TreeWith, TreeWithout, Drop, InOrder, HasKey, Found;
  }

  /** Without an error a node is given exactly when its file is there or its making and
      the lookups since then, this one included, reach the uses asked for. */
  lemma MinUses(t: seq<Sys>, ls: seq<Label>, inactive: int, id: nat, i: nat, k: nat, rc: Rc, room: bool)
    requires Run(t, ls, inactive) && i < k < |ls| && id !in t[i].sh.nodes && Present(t, id, i + 1, k)
    requires forall j :: i < j < k ==> !ColdRead(t[j], t[j + 1], ls[j], id)
    requires Finds(t[k], t[k + 1], ls[k], id) && t[k].sh.nodes[id].error == 0
    requires ExistsStep(t[k].sh, t[k + 1].sh, t[k].reqs[ls[k].r], t[k + 1].reqs[ls[k].r], rc, t[k].now, inactive, room)
    ensures var n, c := t[k].sh.nodes[id], t[k].reqs[ls[k].r];
            var uses := (1 + Lookups(t, ls, id, i + 1, k + 1)) % USES;
            rc == if n.onDisk || uses >= c.minUses then Rc.Ok else Again
  {
    hide Next, ExistsStep, Finds, ColdRead;
    assert Next(t[i], t[i + 1], ls[i], inactive);
    MadeOnce(t[i], t[i + 1], ls[i], id, inactive);
    UsesCounted(t, ls, inactive, id, i + 1, k);
    FindsTells(t[k], t[k + 1], ls[k], id, rc, room, inactive);
    ModNext(1 + Lookups(t, ls, id, i + 1, k));
  }

  // ---------------------------------------------------------------- claims and removals

  /** Another request than r has the claim to update the node of r. */
  ghost predicate Contested(y: Sys, r: nat)
    requires r in y.reqs
  {
    exists q :: q in y.reqs && q != r && y.reqs[q].updating && y.reqs[q].node == y.reqs[r].node
  }

  /** The claim of a node is somebody's. */
  lemma FlagMeans(y: Sys, r: nat, inactive: int)
    requires Safe(y, inactive) && Claimed(y) && r in y.reqs && Holding(y.reqs[r])
    ensures y.reqs[r].node.value in y.sh.nodes
    ensures y.sh.nodes[y.reqs[r].node.value].updating <==> y.reqs[r].updating || Contested(y, r)
    ensures !(y.reqs[r].updating && Contested(y, r))
  {
    hide Indexed, Timed;
    HeldNode(y, r);
    var id := y.reqs[r].node.value;
    var s := Claimers(y.reqs, id);
    if y.sh.nodes[id].updating {
      var q :| q in s;
    }
    assert y.reqs[r].updating ==> r in s;
    if q :| q in y.reqs && q != r && y.reqs[q].updating && y.reqs[q].node == y.reqs[r].node {
      assert q in s;
      if y.reqs[r].updating { OneUpdater(y, r, q, inactive); }
    }
  }

  /** A request that wants the lock goes on exactly with the claim, and waits exactly
      when another request has it. */
  lemma LockTells(y: Sys, z: Sys, r: nat, rc: Rc, inactive: int)
    requires Safe(y, inactive) && Claimed(y) && r in y.reqs && Holding(y.reqs[r]) && y.reqs[r].lock && By(y, z, r)
    requires LockStep(y.sh, z.sh, y.reqs[r], z.reqs[r], rc)
    ensures rc == Declined <==> z.reqs[r].updating
    ensures rc == Again <==> Contested(y, r)
    ensures z.reqs[r].waiting <==> y.reqs[r].waiting || Contested(y, r)
  {
    hide Safe, Claimed, Contested;
    FlagMeans(y, r, inactive);
  }

  /** A request that reads a stale entry is the one to update it exactly when nobody has
      the claim yet. */
  lemma ReadTells(y: Sys, z: Sys, r: nat, rc: Rc, cold: bool, stale: bool, inactive: int)
    requires Safe(y, inactive) && Claimed(y) && r in y.reqs && Holding(y.reqs[r]) && By(y, z, r)
    requires ReadStep(y.sh, z.sh, y.reqs[r], z.reqs[r], rc, cold, stale)
    ensures rc == Rc.Ok <==> !stale
    ensures rc == Stale <==> stale && !y.reqs[r].updating && !Contested(y, r)
    ensures z.reqs[r].updating <==> y.reqs[r].updating || rc == Stale
  {
    hide Safe, Claimed, Contested;
    FlagMeans(y, r, inactive);
  }

  /** A finished update clears the claim and leaves a file exactly when there was one or
      the new one has been renamed to its place. */
  lemma UpdateTells(y: Sys, z: Sys, r: nat, renamed: bool, inactive: int)
    requires Safe(y, inactive) && r in y.reqs && Holding(y.reqs[r]) && By(y, z, r)
    requires UpdateStep(y.sh, z.sh, y.reqs[r], z.reqs[r], renamed)
    ensures var id := y.reqs[r].node.value;
            && id in y.sh.nodes && id in z.sh.nodes && !z.sh.nodes[id].updating && !Holding(z.reqs[r])
            && (z.sh.nodes[id].onDisk <==> y.sh.nodes[id].onDisk || renamed)
            && z.sh.nodes[id].count == y.sh.nodes[id].count - 1
  {
    hide Indexed, Timed, Holders, Deleters;
    HeldNode(y, r);
    HeldCount(y, r, y.reqs[r].node.value);
  }

  /** Letting go of a node removes it exactly when there is neither error nor file, one
      use is enough, and nobody else holds it or is deleting it. */
  lemma FreeTells(y: Sys, z: Sys, r: nat, inactive: int)
    requires Safe(y, inactive) && r in y.reqs && Holding(y.reqs[r]) && By(y, z, r)
    requires FreeStep(y.sh, z.sh, y.reqs[r], z.reqs[r])
    ensures y.reqs[r].node.value in y.sh.nodes
    ensures var c, id := y.reqs[r], y.reqs[r].node.value;
            id !in z.sh.nodes
            <==> c.error == 0 && !y.sh.nodes[id].onDisk && c.minUses == 1
                 && Holders(y.reqs, id) == {r} && Deleters(y.pend, id) == {}
  {
    hide Indexed, Timed, TreeWithout, Drop, Holders, Deleters;
    HeldNode(y, r);
    var id := y.reqs[r].node.value;
    HeldCount(y, r, id);
  }

  lemma HeldCount(y: Sys, r: nat, id: nat)
    requires Counts(y) && r in y.reqs && Holds(y.reqs[r], id) && id in y.sh.nodes
    ensures 1 <= y.sh.nodes[id].count < COUNT
    ensures y.sh.nodes[id].count == 1 <==> Holders(y.reqs, id) == {r} && Deleters(y.pend, id) == {}
  {
    var h, d := Holders(y.reqs, id), Deleters(y.pend, id);
    assert NodeCounts(y.sh.nodes[id], h, d);
    assert r in h;
    HoldersBound(y.reqs, id, r);
    if |h| + |d| == 1 {
      assert |h - {r}| == |h| - 1;
      assert h == {r} + (h - {r});
    }
  }

  /** The second half of a delete removes the node exactly when nobody holds it. */
  lemma DeletedTells(y: Sys, z: Sys, a: nat, inactive: int)
    requires Safe(y, inactive) && a in y.pend && DeletedStep(y.sh, z.sh, y.pend[a])
    ensures y.pend[a] !in z.sh.nodes <==> Holders(y.reqs, y.pend[a]) == {}
  {
    hide Indexed, Timed, TreeWithout, Drop;
    var id := y.pend[a];
    var h, d := Holders(y.reqs, id), Deleters(y.pend, id);
    assert a in d && NodeCounts(y.sh.nodes[id], h, d);
    HoldersSmall(y, id);
    if |h| == 0 { assert h == {}; }
  }
}
