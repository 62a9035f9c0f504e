/** Document-id comparators and the search trees filled under them. The red-black tree
    itself is an explicit abstraction: a binary search tree in which any rotations may
    follow any insertion. */
module DocIdTree {
  import opened Values

  const HALF: nat := 0x8000_0000
  const INT: nat := 0x1_0000_0000

  type Id = n: nat | n < WORD

  function Compare(a: Id, b: Id): int { if b > a then -1 else if a > b then 1 else 0 }

  // The 64-bit difference, truncated to a 32-bit int.
  function TruncatedCompare(a: Id, b: Id): int {
    var low := (a - b) % WORD % INT;
    if low < HALF then low else low - INT
  }

  function Sign(n: int): int { if n < 0 then -1 else if n > 0 then 1 else 0 }

  lemma TruncatedDifference(a: Id, b: Id)
    ensures TruncatedCompare(a, b) == (var low := (a - b) % INT; if low < HALF then low else low - INT)
  {
    assert WORD == INT * INT;
    if a >= b {
      assert (a - b) % WORD == a - b;
    } else {
      assert (a - b) % WORD == a - b + INT * INT;
      Wraps(a - b);
    }
  }

  lemma Wraps(n: int)
    ensures (n + INT * INT) % INT == n % INT
  {}

  /** The truncating comparator agrees with the real order exactly when the distance,
      reduced modulo 2^32, lies on the right side of 2^31. */
  lemma TruncatedAgreesExactly(a: Id, b: Id)
    ensures a > b ==> (Sign(TruncatedCompare(a, b)) == Compare(a, b) <==> 0 < (a - b) % INT < HALF)
    ensures a < b ==> (Sign(TruncatedCompare(a, b)) == Compare(a, b) <==> 0 < (b - a) % INT <= HALF)
    ensures a == b ==> TruncatedCompare(a, b) == Compare(a, b) == 0
  {
    TruncatedDifference(a, b);
    if a < b { Mirror(b - a); }
  }

  lemma Mirror(n: int)
    ensures (0 - n) % INT == if n % INT == 0 then 0 else INT - n % INT
  {}

  /** Within 2^31 of each other two ids compare right; from 2^31 up to 2^32 apart the
      larger one compares smaller. */
  lemma TruncatedRanges(a: Id, b: Id)
    ensures a < b + HALF && b < a + HALF ==> Sign(TruncatedCompare(a, b)) == Compare(a, b)
    ensures b + HALF <= a < b + INT ==> Sign(TruncatedCompare(a, b)) == -Compare(a, b)
  {
    TruncatedAgreesExactly(a, b);
    TruncatedDifference(a, b);
  }

  // ---- Trees ----------------------------------------------------------------

  datatype Tree = Leaf | Node(left: Tree, id: Id, right: Tree)
  type Comparator = (Id, Id) -> int

  function InOrder(t: Tree): seq<Id> {
    match t
    case Leaf => []
    case Node(l, id, r) => InOrder(l) + [id] + InOrder(r)
  }

  predicate Search(t: Tree, id: Id, cmp: Comparator) {
    match t
    case Leaf => false
    case Node(l, at, r) =>
      if cmp(id, at) == 0 then true
      else if cmp(id, at) < 0 then Search(l, id, cmp)
      else Search(r, id, cmp)
  }

  // Adds the id where the search for it ended.
  function Add(t: Tree, id: Id, cmp: Comparator): Tree {
    match t
    case Leaf => Node(Leaf, id, Leaf)
    case Node(l, at, r) =>
      if cmp(id, at) == 0 then t
      else if cmp(id, at) < 0 then Node(Add(l, id, cmp), at, r)
      else Node(l, at, Add(r, id, cmp))
  }

  datatype Rotation = Rotation(path: seq<bool>, toRight: bool)

  function Rotate(t: Tree, path: seq<bool>, toRight: bool): Tree
    decreases |path|
  {
    match t
    case Leaf => Leaf
    case Node(l, id, r) =>
      if path != [] then
        (if path[0] then Node(l, id, Rotate(r, path[1..], toRight)) else Node(Rotate(l, path[1..], toRight), id, r))
      else if toRight then
        (match l case Leaf => t case Node(ll, lid, lr) => Node(ll, lid, Node(lr, id, r)))
      else
        (match r case Leaf => t case Node(rl, rid, rr) => Node(Node(l, id, rl), rid, rr))
  }

  function RotateAll(t: Tree, rotations: seq<Rotation>): Tree
    decreases |rotations|
  {
    if rotations == [] then t
    else RotateAll(Rotate(t, rotations[0].path, rotations[0].toRight), rotations[1..])
  }

  lemma {:induction false} RotationKeepsOrder(t: Tree, path: seq<bool>, toRight: bool)
    ensures InOrder(Rotate(t, path, toRight)) == InOrder(t)
    decreases |path|
  {
    if t.Node? {
      if path != [] {
        RotationKeepsOrder(if path[0] then t.right else t.left, path[1..], toRight);
      } else if toRight && t.left.Node? {
        var l := t.left;
        assert InOrder(l.left) + [l.id] + InOrder(l.right) + [t.id] + InOrder(t.right)
            == InOrder(l.left) + [l.id] + (InOrder(l.right) + [t.id] + InOrder(t.right));
      } else if !toRight && t.right.Node? {
        var r := t.right;
        assert InOrder(t.left) + [t.id] + (InOrder(r.left) + [r.id] + InOrder(r.right))
            == InOrder(t.left) + [t.id] + InOrder(r.left) + [r.id] + InOrder(r.right);
      }
    }
  }

  lemma {:induction false} RotationsKeepOrder(t: Tree, rotations: seq<Rotation>)
    ensures InOrder(RotateAll(t, rotations)) == InOrder(t)
    decreases |rotations|
  {
    if rotations != [] {
      RotationKeepsOrder(t, rotations[0].path, rotations[0].toRight);
      RotationsKeepOrder(Rotate(t, rotations[0].path, rotations[0].toRight), rotations[1..]);
    }
  }

  ghost predicate Sorted(s: seq<Id>) {
    forall i, j :: 0 <= i < j < |s| ==> s[i] < s[j]
  }

  ghost predicate Below(s: seq<Id>, id: nat) { forall x :: x in s ==> x < id }
  ghost predicate Above(s: seq<Id>, id: nat) { forall x :: x in s ==> x > id }

  lemma SplitAt(a: seq<Id>, id: Id, b: seq<Id>, i: nat)
    requires i < |a| + 1 + |b|
    ensures (a + [id] + b)[i] == if i < |a| then a[i] else if i == |a| then id else b[i - |a| - 1]
  {}

  lemma SortedSplits(a: seq<Id>, id: Id, b: seq<Id>)
    requires Sorted(a + [id] + b)
    ensures Sorted(a) && Sorted(b) && Below(a, id) && Above(b, id)
  {
    var s := a + [id] + b;
    forall i: nat | i < |s| ensures s[i] == if i < |a| then a[i] else if i == |a| then id else b[i - |a| - 1] {
      SplitAt(a, id, b, i);
    }
    forall i, j | 0 <= i < j < |a| ensures a[i] < a[j] { assert s[i] < s[j]; }
    forall i, j | 0 <= i < j < |b| ensures b[i] < b[j] { assert s[|a| + 1 + i] < s[|a| + 1 + j]; }
    forall x | x in a ensures x < id { var i :| 0 <= i < |a| && a[i] == x; assert s[i] < s[|a|]; }
    forall x | x in b ensures x > id { var i :| 0 <= i < |b| && b[i] == x; assert s[|a|] < s[|a| + 1 + i]; }
  }

  lemma SortedJoins(a: seq<Id>, id: Id, b: seq<Id>)
    requires Sorted(a) && Sorted(b) && Below(a, id) && Above(b, id)
    ensures Sorted(a + [id] + b)
  {
    var s := a + [id] + b;
    forall i: nat, j: nat | i < j < |s| ensures s[i] < s[j] {
      SplitAt(a, id, b, i);
      SplitAt(a, id, b, j);
      if i < |a| { assert a[i] in a; }
      if j > |a| { assert b[j - |a| - 1] in b; }
    }
  }

  lemma {:induction false} SearchExactly(t: Tree, id: Id)
    requires Sorted(InOrder(t))
    ensures Search(t, id, Compare) <==> id in InOrder(t)
  {
    if t.Node? {
      SortedSplits(InOrder(t.left), t.id, InOrder(t.right));
      SearchExactly(t.left, id);
      SearchExactly(t.right, id);
    }
  }

  lemma {:induction false} AddKeeps(t: Tree, id: Id)
    requires Sorted(InOrder(t))
    ensures var t1 := Add(t, id, Compare);
            Sorted(InOrder(t1)) && forall x :: x in InOrder(t1) <==> x in InOrder(t) || x == id
  {
    if t.Node? {
      SortedSplits(InOrder(t.left), t.id, InOrder(t.right));
      if id < t.id {
        AddKeeps(t.left, id);
        SortedJoins(InOrder(Add(t.left, id, Compare)), t.id, InOrder(t.right));
      } else if id > t.id {
        AddKeeps(t.right, id);
        SortedJoins(InOrder(t.left), t.id, InOrder(Add(t.right, id, Compare)));
      }
    }
  }

  // The comparator orders these ids as they are.
  ghost predicate Orders(cmp: Comparator, ids: seq<Id>) {
    forall i, j :: 0 <= i < |ids| && 0 <= j < |ids| ==> Sign(cmp(ids[i], ids[j])) == Compare(ids[i], ids[j])
  }

  ghost predicate OrdersAgainst(cmp: Comparator, id: Id, others: seq<Id>) {
    forall x :: x in others ==> Sign(cmp(id, x)) == Compare(id, x)
  }

  // Searching and adding look at the comparator only where the tree has ids.
  lemma {:induction false} SameWalk(t: Tree, id: Id, cmp: Comparator)
    requires OrdersAgainst(cmp, id, InOrder(t))
    ensures Search(t, id, cmp) == Search(t, id, Compare) && Add(t, id, cmp) == Add(t, id, Compare)
  {
    if t.Node? {
      assert t.id in InOrder(t);
      assert OrdersAgainst(cmp, id, InOrder(t.left)) && OrdersAgainst(cmp, id, InOrder(t.right));
      SameWalk(t.left, id, cmp);
      SameWalk(t.right, id, cmp);
    }
  }

  ghost predicate Holds(t: Tree, ids: seq<Id>) {
    Sorted(InOrder(t)) && forall x :: x in InOrder(t) <==> x in ids
  }

  lemma PopulateStep(t: Tree, ids: seq<Id>, id: Id, rotations: seq<Rotation>)
    requires Holds(t, ids)
    ensures if Search(t, id, Compare) then Holds(t, ids + [id])
            else Holds(RotateAll(Add(t, id, Compare), rotations), ids + [id])
  {
    SearchExactly(t, id);
    AddKeeps(t, id);
    RotationsKeepOrder(Add(t, id, Compare), rotations);
  }

  lemma OrderedWalk(t: Tree, ids: seq<Id>, k: nat, cmp: Comparator)
    requires Orders(cmp, ids) && k < |ids| && forall x :: x in InOrder(t) ==> x in ids
    ensures OrdersAgainst(cmp, ids[k], InOrder(t))
  {
    forall x | x in InOrder(t) ensures Sign(cmp(ids[k], x)) == Compare(ids[k], x) {
      var j :| 0 <= j < |ids| && ids[j] == x;
    }
  }

  /** The tree after the first k ids, each searched for and added where the search ended,
      then rotated at will. */
  function Populated(ids: seq<Id>, cmp: Comparator, rotations: nat -> seq<Rotation>, k: nat): Tree
    requires k <= |ids|
  {
    if k == 0 then Leaf
    else
      var t := Populated(ids, cmp, rotations, k - 1);
      if Search(t, ids[k - 1], cmp) then t else RotateAll(Add(t, ids[k - 1], cmp), rotations(k - 1))
  }

  /** Fills a tree with any list of ids the comparator orders, searching before every
      insertion and followed by any rotations: it holds exactly the ids of the list, in
      order. */
  method Populate(ids: seq<Id>, cmp: Comparator, rotations: nat -> seq<Rotation>) returns (t: Tree)
    requires Orders(cmp, ids)
    ensures Holds(t, ids) && t == Populated(ids, cmp, rotations, |ids|)
  {
    t := Leaf;
    var k := 0;
    while k < |ids|
      invariant 0 <= k <= |ids| && Holds(t, ids[..k]) && t == Populated(ids, cmp, rotations, k)
    {
      PopulateStep(t, ids[..k], ids[k], rotations(k));
      OrderedWalk(t, ids, k, cmp);
      SameWalk(t, ids[k], cmp);
      assert ids[..k] + [ids[k]] == ids[..k + 1];
      if !Search(t, ids[k], cmp) {
        t := RotateAll(Add(t, ids[k], cmp), rotations(k));
      }
      k := k + 1;
    }
    assert ids[..k] == ids;
  }

  method SearchAll(t: Tree, ids: seq<Id>, cmp: Comparator) returns (all: bool)
    ensures all <==> forall i :: 0 <= i < |ids| ==> Search(t, ids[i], cmp)
  {
    var k := 0;
    while k < |ids|
      invariant 0 <= k <= |ids| && forall i :: 0 <= i < k ==> Search(t, ids[i], cmp)
    {
      if !Search(t, ids[k], cmp) { return false; }
      k := k + 1;
    }
    return true;
  }

  /** Populating and then searching for every id succeeds, whatever rotations happened,
      under any comparator that orders the ids. */
  method PopulateThenSearch(ids: seq<Id>, cmp: Comparator, rotations: nat -> seq<Rotation>) returns (all: bool)
    requires Orders(cmp, ids)
    ensures all
  {
    var t := Populate(ids, cmp, rotations);
    forall i | 0 <= i < |ids| ensures Search(t, ids[i], cmp) {
      SearchExactly(t, ids[i]);
      OrderedWalk(t, ids, i, cmp);
      SameWalk(t, ids[i], cmp);
    }
    all := SearchAll(t, ids, cmp);
  }

  // Pairwise less than 2^31 apart.
  predicate Close(ids: seq<Id>) {
    forall i, j :: 0 <= i < |ids| && 0 <= j < |ids| ==> ids[i] < ids[j] + HALF
  }

  /** The real comparator orders every list of ids, the truncating one every list of ids
      pairwise less than 2^31 apart: for both, populating and searching succeed. */
  lemma ComparatorsOrder(ids: seq<Id>)
    ensures Orders(Compare, ids)
    ensures Close(ids) ==> Orders(TruncatedCompare, ids)
  {
    if Close(ids) {
      forall i, j | 0 <= i < |ids| && 0 <= j < |ids|
        ensures Sign(TruncatedCompare(ids[i], ids[j])) == Compare(ids[i], ids[j])
      {
        TruncatedRanges(ids[i], ids[j]);
      }
    }
  }

  /** Under the truncating comparator one rotation loses an id: three ids that compare
      in a circle, the middle one no longer found. */
  lemma TruncatedLosesAnId()
    ensures var a: Id := 0; var b: Id := 0x7FFF_FFFF; var c: Id := 0xFFFF_FFFE;
            var t := Add(Add(Add(Leaf, a, TruncatedCompare), b, TruncatedCompare), c, TruncatedCompare);
            && Search(t, b, TruncatedCompare)
            && !Search(Rotate(t, [], true), b, TruncatedCompare)
  {
    var a: Id := 0;
    var b: Id := 0x7FFF_FFFF;
    var c: Id := 0xFFFF_FFFE;
    assert TruncatedCompare(b, a) > 0 && TruncatedCompare(c, a) < 0 && TruncatedCompare(b, c) < 0;
    var t1 := Add(Leaf, a, TruncatedCompare);
    assert t1 == Node(Leaf, a, Leaf);
    var t2 := Add(t1, b, TruncatedCompare);
    assert t2 == Node(Leaf, a, Node(Leaf, b, Leaf));
    var t3 := Add(t2, c, TruncatedCompare);
    assert t3 == Node(Node(Leaf, c, Leaf), a, Node(Leaf, b, Leaf));
    assert Rotate(t3, [], true) == Node(Leaf, c, Node(Leaf, a, Node(Leaf, b, Leaf)));
    assert TruncatedCompare(b, b) == 0;
  }
}
