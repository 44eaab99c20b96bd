/** What several modules share: bytes, optional values and queues of node numbers. */
module Common {

  type Byte = b: int | 0 <= b < 256

  datatype Option<+T> = None | Some(value: T)

  predicate NoDup(q: seq<nat>) { forall i, j :: 0 <= i < j < |q| ==> q[i] != q[j] }

  /** A queue or tree order without one of its nodes. */
  function Drop(q: seq<nat>, id: nat): seq<nat>
  {
    if q == [] then [] else if q[0] == id then Drop(q[1..], id) else [q[0]] + Drop(q[1..], id)
  }

  lemma {:induction false} DropMembers(q: seq<nat>, id: nat)
    ensures forall x :: x in Drop(q, id) <==> x in q && x != id
  {
    if q != [] {
      DropMembers(q[1..], id);
      assert q == [q[0]] + q[1..];
    }
  }

  lemma {:induction false} DropNoDup(q: seq<nat>, id: nat)
    requires NoDup(q)
    ensures NoDup(Drop(q, id)) && NoDup([id] + Drop(q, id))
  {
    DropMembers(q, id);
    if q != [] {
      var t := q[1..];
      forall i, j | 0 <= i < j < |t| ensures t[i] != t[j] { assert t[i] == q[i + 1] && t[j] == q[j + 1]; }
      DropNoDup(t, id);
      DropMembers(t, id);
      forall i | 0 <= i < |t| ensures t[i] != q[0] { assert t[i] == q[i + 1]; }
      NoDupCons(q[0], Drop(t, id));
    }
    NoDupCons(id, Drop(q, id));
  }

  lemma NoDupCons(x: nat, q: seq<nat>)
    requires NoDup(q) && x !in q
    ensures NoDup([x] + q)
  {
    var s := [x] + q;
    forall i, j | 0 <= i < j < |s| ensures s[i] != s[j] { assert s[j] == q[j - 1] && s[j] in q; }
  }

  lemma {:induction false} DropAbsent(q: seq<nat>, id: nat)
    requires id !in q
    ensures Drop(q, id) == q
  {
    if q != [] {
      assert forall x :: x in q[1..] ==> x in q;
      DropAbsent(q[1..], id);
    }
  }
}
