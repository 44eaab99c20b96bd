/** The red-black tree of the shared file cache index in ngx_http_file_cache.c:
    ordering of 16-byte keys, the lookup loop and the insertion walk.

    ngx_rbtree_insert, ngx_rbtree_delete and their rebalancing are not part of the
    vendored sources; they are taken to keep the in-order sequence of nodes, which
    is all the lookup needs. */
module CacheTree {

  import opened Common

  /** A key as the tree sees it: one machine word, then the remaining bytes. */
  datatype Key = Key(word: nat, rest: seq<Byte>)

  const REST := 8

  predicate ValidKey(k: Key) { |k.rest| == REST }

  /** A tree entry: the key and the shared node that carries it. */
  datatype Entry = Entry(key: Key, id: nat)

  datatype Tree = Nil | Node(left: Tree, e: Entry, right: Tree)

  // ---------------------------------------------------------------- order

  function MemCmp(a: seq<Byte>, b: seq<Byte>): int
    requires |a| == |b|
  {
    if a == [] then 0 else if a[0] != b[0] then a[0] - b[0] else MemCmp(a[1..], b[1..])
  }

  lemma {:induction false} MemCmpZero(a: seq<Byte>, b: seq<Byte>)
    requires |a| == |b|
    ensures MemCmp(a, b) == 0 <==> a == b
  {
    if a != [] {
      MemCmpZero(a[1..], b[1..]);
      assert a == [a[0]] + a[1..] && b == [b[0]] + b[1..];
    }
  }

  lemma {:induction false} MemCmpTrans(a: seq<Byte>, b: seq<Byte>, c: seq<Byte>)
    requires |a| == |b| == |c|
    ensures MemCmp(a, b) <= 0 && MemCmp(b, c) <= 0 ==> MemCmp(a, c) <= 0
    ensures MemCmp(a, b) <= 0 && MemCmp(b, c) < 0 ==> MemCmp(a, c) < 0
    ensures MemCmp(a, b) < 0 && MemCmp(b, c) <= 0 ==> MemCmp(a, c) < 0
  {
    if a != [] { MemCmpTrans(a[1..], b[1..], c[1..]); }
  }

  lemma {:induction false} MemCmpFlip(a: seq<Byte>, b: seq<Byte>)
    requires |a| == |b|
    ensures MemCmp(a, b) == -MemCmp(b, a)
  {
    if a != [] { MemCmpFlip(a[1..], b[1..]); }
  }

  /** The order of the tree: by word, then by the remaining bytes. */
  predicate Less(a: Key, b: Key)
    requires ValidKey(a) && ValidKey(b)
  {
    a.word < b.word || (a.word == b.word && MemCmp(a.rest, b.rest) < 0)
  }

  lemma LessOrder(a: Key, b: Key, c: Key)
    requires ValidKey(a) && ValidKey(b) && ValidKey(c)
    ensures !Less(a, a)
    ensures Less(a, b) ==> !Less(b, a) && a != b
    ensures !Less(a, b) && !Less(b, a) ==> a == b
    ensures !Less(b, a) && !Less(c, b) ==> !Less(c, a)
    ensures Less(a, b) && !Less(c, b) ==> Less(a, c)
    ensures !Less(b, a) && Less(b, c) ==> Less(a, c)
  {
    hide MemCmp;
    MemCmpZero(a.rest, a.rest);
    MemCmpZero(a.rest, b.rest);
    MemCmpFlip(a.rest, b.rest);
    MemCmpFlip(b.rest, c.rest);
    MemCmpFlip(a.rest, c.rest);
    MemCmpTrans(a.rest, b.rest, c.rest);
  }

  // ---------------------------------------------------------------- the tree as a sequence

  function InOrder(t: Tree): seq<Entry>
  {
    if t.Nil? then [] else InOrder(t.left) + ([t.e] + InOrder(t.right))
  }

  predicate ValidKeys(s: seq<Entry>) { forall e :: e in s ==> ValidKey(e.key) }

  /** Keys never decrease from left to right. */
  predicate Sorted(s: seq<Entry>)
  {
    ValidKeys(s) && forall i, j :: 0 <= i < j < |s| ==> !Less(s[j].key, s[i].key)
  }

  predicate HasKey(s: seq<Entry>, k: Key) { exists e :: e in s && e.key == k }

  lemma SortedParts(a: seq<Entry>, x: Entry, b: seq<Entry>)
    requires Sorted(a + ([x] + b))
    ensures Sorted(a) && Sorted(b) && ValidKey(x.key)
    ensures forall e :: e in a ==> !Less(x.key, e.key)
    ensures forall e :: e in b ==> !Less(e.key, x.key)
  {
    hide Less;
    var s := a + ([x] + b);
    assert s[|a|] == x && x in s;
    assert forall e :: e in a || e in b ==> e in s;
    forall i, j | 0 <= i < j < |a| ensures !Less(a[j].key, a[i].key) { assert a[i] == s[i] && a[j] == s[j]; }
    forall i, j | 0 <= i < j < |b| ensures !Less(b[j].key, b[i].key) {
      assert b[i] == s[|a| + 1 + i] && b[j] == s[|a| + 1 + j];
    }
    forall i | 0 <= i < |a| ensures !Less(x.key, a[i].key) { assert a[i] == s[i]; }
    forall i | 0 <= i < |b| ensures !Less(b[i].key, x.key) { assert b[i] == s[|a| + 1 + i]; }
  }

  lemma SortedJoin(a: seq<Entry>, x: Entry, b: seq<Entry>)
    requires Sorted(a) && Sorted(b) && ValidKey(x.key)
    requires forall e :: e in a ==> !Less(x.key, e.key)
    requires forall e :: e in b ==> !Less(e.key, x.key)
    ensures Sorted(a + ([x] + b))
  {
    hide Less;
    var s := a + ([x] + b);
    forall e | e in s ensures ValidKey(e.key) { assert e in a || e == x || e in b; }
    forall i, j | 0 <= i < j < |s| ensures !Less(s[j].key, s[i].key) {
      if i < |a| && j > |a| {
        assert s[i] in a && s[j] == b[j - |a| - 1] && s[j] in b;
        LessOrder(s[i].key, x.key, s[j].key);
      } else if i == |a| {
        assert s[j] == b[j - |a| - 1] && s[j] in b;
      } else if j == |a| {
        assert s[i] in a;
      } else if i > |a| {
        assert s[i] == b[i - |a| - 1] && s[j] == b[j - |a| - 1];
      }
    }
  }

  // ---------------------------------------------------------------- lookup

  /** ngx_http_file_cache_lookup */
  method Lookup(root: Tree, key: Key) returns (found: Option<nat>)
    requires Sorted(InOrder(root)) && ValidKey(key)
    ensures found.Some? ==> Entry(key, found.value) in InOrder(root)
    ensures found.None? ==> !HasKey(InOrder(root), key)
  {
    hide Less;
    var node := root;
    while node.Node?
      invariant Sorted(InOrder(node))
      invariant HasKey(InOrder(root), key) ==> HasKey(InOrder(node), key)
      invariant forall e :: e in InOrder(node) ==> e in InOrder(root)
      decreases node
    {
      SortedParts(InOrder(node.left), node.e, InOrder(node.right));
      NarrowSearch(node, key);
      if key.word < node.e.key.word {
        node := node.left;
        continue;
      }
      if key.word > node.e.key.word {
        node := node.right;
        continue;
      }
      var rc := MemCmp(key.rest, node.e.key.rest);
      if rc == 0 {
        MemCmpZero(key.rest, node.e.key.rest);
        assert node.e in InOrder(node);
        return Some(node.e.id);
      }
      node := if rc < 0 then node.left else node.right;
    }
    return None;
  }

  /** Which side of a node a key can be on. */
  lemma NarrowSearch(t: Tree, key: Key)
    requires t.Node? && Sorted(InOrder(t)) && ValidKey(key)
    ensures ValidKey(t.e.key)
    ensures Less(key, t.e.key) <==>
              key.word < t.e.key.word || (key.word == t.e.key.word && MemCmp(key.rest, t.e.key.rest) < 0)
    ensures Less(key, t.e.key) && HasKey(InOrder(t), key) ==> HasKey(InOrder(t.left), key)
    ensures !Less(key, t.e.key) && key != t.e.key && HasKey(InOrder(t), key) ==> HasKey(InOrder(t.right), key)
    ensures key.word == t.e.key.word ==> (MemCmp(key.rest, t.e.key.rest) == 0 <==> key == t.e.key)
    ensures forall e :: e in InOrder(t.left) || e in InOrder(t.right) ==> e in InOrder(t)
  {
    SortedParts(InOrder(t.left), t.e, InOrder(t.right));
    MemCmpZero(key.rest, t.e.key.rest);
    LessOrder(key, t.e.key, key);
    if HasKey(InOrder(t), key) && key != t.e.key {
      var e :| e in InOrder(t) && e.key == key;
      assert e in InOrder(t.left) || e in InOrder(t.right);
    }
  }

  // ---------------------------------------------------------------- insertion

  /** Where ngx_http_file_cache_rbtree_insert_value hangs a new node. */
  function Insert(t: Tree, e: Entry): Tree
    requires ValidKey(e.key) && ValidKeys(InOrder(t))
  {
    if t.Nil? then Node(Nil, e, Nil)
    else
      assert t.e in InOrder(t) && forall x :: x in InOrder(t.left) || x in InOrder(t.right) ==> x in InOrder(t);
      if Less(e.key, t.e.key) then t.(left := Insert(t.left, e)) else t.(right := Insert(t.right, e))
  }

  /** One step of the walk down: the node left behind and the side taken. */
  datatype Step = Left(node: Tree) | Right(node: Tree)

  /** The whole tree again once the subtree at the end of the path is replaced. */
  function Plug(path: seq<Step>, t: Tree): Tree
    requires forall s :: s in path ==> s.node.Node?
  {
    if path == [] then t
    else
      var last := path[|path| - 1];
      assert forall s :: s in path[..|path| - 1] ==> s in path;
      Plug(path[..|path| - 1], if last.Left? then last.node.(left := t) else last.node.(right := t))
  }

  /** ngx_http_file_cache_rbtree_insert_value (the empty tree is ngx_rbtree_insert's case). */
  method InsertValue(root: Tree, e: Entry) returns (t: Tree)
    requires root.Node? && ValidKey(e.key) && ValidKeys(InOrder(root))
    ensures t == Insert(root, e)
  {
    hide InOrder;
    var temp := root;
    var path: seq<Step> := [];
    while true
      invariant temp.Node? && ValidKeys(InOrder(temp)) && (forall s :: s in path ==> s.node.Node?)
      invariant Plug(path, Insert(temp, e)) == Insert(root, e)
      decreases temp
    {
      KeysBelow(temp);
      var goLeft: bool;
      if e.key.word < temp.e.key.word {
        goLeft := true;
      } else if e.key.word > temp.e.key.word {
        goLeft := false;
      } else {
        goLeft := MemCmp(e.key.rest, temp.e.key.rest) < 0;
      }
      var next := if goLeft then temp.left else temp.right;
      if next.Nil? {
        var leaf := Node(Nil, e, Nil);
        return Plug(path, if goLeft then temp.(left := leaf) else temp.(right := leaf));
      }
      PlugStep(path, temp, goLeft, Insert(next, e));
      path := path + [if goLeft then Left(temp) else Right(temp)];
      temp := next;
    }
  }

  lemma KeysBelow(t: Tree)
    requires t.Node? && ValidKeys(InOrder(t))
    ensures ValidKey(t.e.key) && ValidKeys(InOrder(t.left)) && ValidKeys(InOrder(t.right))
  {
    assert t.e in InOrder(t) && forall x :: x in InOrder(t.left) || x in InOrder(t.right) ==> x in InOrder(t);
  }

  lemma PlugStep(path: seq<Step>, node: Tree, left: bool, t: Tree)
    requires (forall s :: s in path ==> s.node.Node?) && node.Node?
    ensures Plug(path + [if left then Left(node) else Right(node)], t)
            == Plug(path, if left then node.(left := t) else node.(right := t))
  {
    var p := path + [if left then Left(node) else Right(node)];
    assert p[..|p| - 1] == path;
  }

  /** a and b are s around the place of a new entry. */
  predicate SplitsAt(s: seq<Entry>, e: Entry, a: seq<Entry>, b: seq<Entry>)
    requires ValidKey(e.key) && ValidKeys(s)
  {
    && s == a + b
    && (forall x :: x in a ==> x in s && !Less(e.key, x.key))
    && (forall x :: x in b ==> x in s && Less(e.key, x.key))
  }

  /** Insertion puts the entry behind everything not greater than it. */
  lemma {:induction false} InsertInOrder(t: Tree, e: Entry) returns (a: seq<Entry>, b: seq<Entry>)
    requires Sorted(InOrder(t)) && ValidKey(e.key)
    ensures SplitsAt(InOrder(t), e, a, b) && InOrder(Insert(t, e)) == a + ([e] + b)
    ensures Sorted(InOrder(Insert(t, e)))
  {
    hide Less, Insert, SplitsAt, Sorted;
    SortedKeys(InOrder(t));
    if t.Nil? {
      a, b := [], [];
      InsertNil(e);
    } else {
      var l, r := InOrder(t.left), InOrder(t.right);
      SortedParts(l, t.e, r);
      SortedKeys(l);
      SortedKeys(r);
      InsertNode(t, e);
      if Less(e.key, t.e.key) {
        var b0;
        a, b0 := InsertInOrder(t.left, e);
        b := b0 + ([t.e] + r);
        SplitsLeft(l, t.e, r, e, a, b0);
      } else {
        var a0;
        a0, b := InsertInOrder(t.right, e);
        a := l + ([t.e] + a0);
        SplitsRight(l, t.e, r, e, a0, b);
      }
    }
    InsertSorted(InOrder(t), e, a, b);
  }

  lemma SortedKeys(s: seq<Entry>)
    requires Sorted(s)
    ensures ValidKeys(s)
  {
  }

  lemma SplitsLeft(l: seq<Entry>, x: Entry, r: seq<Entry>, e: Entry, a: seq<Entry>, b: seq<Entry>)
    requires ValidKey(e.key) && ValidKey(x.key) && ValidKeys(l) && ValidKeys(r) && Less(e.key, x.key)
    requires (forall y :: y in r ==> !Less(y.key, x.key)) && SplitsAt(l, e, a, b)
    ensures ValidKeys(l + ([x] + r)) && SplitsAt(l + ([x] + r), e, a, b + ([x] + r))
    ensures a + ([e] + b) + ([x] + r) == a + ([e] + (b + ([x] + r)))
  {
    hide Less;
    var s := l + ([x] + r);
    forall y | y in s ensures ValidKey(y.key) { assert y in l || y == x || y in r; }
    forall y | y in b + ([x] + r) ensures y in s && Less(e.key, y.key) {
      assert y in b || y == x || y in r;
      if y in r { LessOrder(e.key, x.key, y.key); }
    }
    assert s == a + (b + ([x] + r));
  }

  lemma SplitsRight(l: seq<Entry>, x: Entry, r: seq<Entry>, e: Entry, a: seq<Entry>, b: seq<Entry>)
    requires ValidKey(e.key) && ValidKey(x.key) && ValidKeys(l) && ValidKeys(r) && !Less(e.key, x.key)
    requires (forall y :: y in l ==> !Less(x.key, y.key)) && SplitsAt(r, e, a, b)
    ensures ValidKeys(l + ([x] + r)) && SplitsAt(l + ([x] + r), e, l + ([x] + a), b)
    ensures l + ([x] + (a + ([e] + b))) == l + ([x] + a) + ([e] + b)
  {
    hide Less;
    var s := l + ([x] + r);
    forall y | y in s ensures ValidKey(y.key) { assert y in l || y == x || y in r; }
    forall y | y in l + ([x] + a) ensures y in s && !Less(e.key, y.key) {
      assert y in l || y == x || y in a;
      if y in l { LessOrder(y.key, x.key, e.key); }
    }
    assert s == (l + ([x] + a)) + b;
  }

  lemma InsertNil(e: Entry)
    requires ValidKey(e.key)
    ensures ValidKeys(InOrder(Nil)) && InOrder(Insert(Nil, e)) == [e] == [] + ([e] + []) && SplitsAt([], e, [], [])
  {
  }

  lemma InsertNode(t: Tree, e: Entry)
    requires t.Node? && ValidKey(e.key) && ValidKeys(InOrder(t)) && ValidKey(t.e.key)
    requires ValidKeys(InOrder(t.left)) && ValidKeys(InOrder(t.right))
    ensures InOrder(Insert(t, e)) ==
              if Less(e.key, t.e.key) then InOrder(Insert(t.left, e)) + ([t.e] + InOrder(t.right))
                                     else InOrder(t.left) + ([t.e] + InOrder(Insert(t.right, e)))
  {
  }

  lemma InsertSorted(s: seq<Entry>, e: Entry, a: seq<Entry>, b: seq<Entry>)
    requires Sorted(s) && ValidKey(e.key) && SplitsAt(s, e, a, b)
    ensures Sorted(a + ([e] + b))
  {
    hide Less;
    forall i, j | 0 <= i < j < |a| ensures !Less(a[j].key, a[i].key) { assert a[i] == s[i] && a[j] == s[j]; }
    forall i, j | 0 <= i < j < |b| ensures !Less(b[j].key, b[i].key) {
      assert b[i] == s[|a| + i] && b[j] == s[|a| + j];
    }
    forall x | x in b ensures !Less(x.key, e.key) { LessOrder(e.key, x.key, e.key); }
    SortedJoin(a, e, b);
  }

  // ---------------------------------------------------------------- removal

  /** A sequence without the entry of one node. */
  function Without(s: seq<Entry>, id: nat): seq<Entry>
  {
    if s == [] then [] else (if s[0].id == id then [] else [s[0]]) + Without(s[1..], id)
  }

  lemma {:induction false} WithoutMembers(s: seq<Entry>, id: nat)
    ensures forall e :: e in Without(s, id) <==> e in s && e.id != id
  {
    if s != [] {
      WithoutMembers(s[1..], id);
      assert s == [s[0]] + s[1..];
    }
  }

  lemma {:induction false} WithoutSorted(s: seq<Entry>, id: nat)
    requires Sorted(s)
    ensures Sorted(Without(s, id))
  {
    hide Less, Sorted;
    if s == [] {
      assert Without(s, id) == s;
    } else {
      assert s == [] + ([s[0]] + s[1..]);
      SortedParts([], s[0], s[1..]);
      WithoutSorted(s[1..], id);
      WithoutMembers(s[1..], id);
      SortedJoin([], s[0], Without(s[1..], id));
      assert [] + ([s[0]] + Without(s[1..], id)) == [s[0]] + Without(s[1..], id);
      assert [] + Without(s[1..], id) == Without(s[1..], id);
    }
  }

  lemma {:induction false} WithoutDistinct(s: seq<Entry>, id: nat)
    requires DistinctIds(s)
    ensures DistinctIds(Without(s, id))
  {
    if s != [] {
      DistinctTail(s);
      WithoutDistinct(s[1..], id);
      WithoutMembers(s[1..], id);
      DistinctCons(s[0], Without(s[1..], id));
      assert [] + Without(s[1..], id) == Without(s[1..], id);
    }
  }

  lemma DistinctCons(e: Entry, s: seq<Entry>)
    requires DistinctIds(s) && forall x :: x in s ==> x.id != e.id
    ensures DistinctIds([e] + s)
  {
    var t := [e] + s;
    forall i, j | 0 <= i < j < |t| ensures t[i].id != t[j].id {
      assert t[j] == s[j - 1] && t[j] in s;
    }
  }

  predicate DistinctIds(s: seq<Entry>)
  {
    forall i, j :: 0 <= i < j < |s| ==> s[i].id != s[j].id
  }

  lemma DistinctTail(s: seq<Entry>)
    requires DistinctIds(s) && s != []
    ensures DistinctIds(s[1..]) && forall e :: e in s[1..] ==> e.id != s[0].id
  {
    var t := s[1..];
    forall i, j | 0 <= i < j < |t| ensures t[i].id != t[j].id { assert t[i] == s[i + 1] && t[j] == s[j + 1]; }
    forall i | 0 <= i < |t| ensures t[i].id != s[0].id { assert t[i] == s[i + 1]; }
  }
}
