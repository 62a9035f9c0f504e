/** Exactly when trees filled under the truncating comparator work: on an arc of the 32-bit
    circle it orders the ids as their offsets do, and off one a rotation loses an id. */
module DocIdArc {
  import opened DocIdTree

  ghost predicate DistinctIds(ids: seq<Id>) {
    forall i, j :: 0 <= i < j < |ids| ==> ids[i] != ids[j]
  }

  predicate Twins(a: Id, b: Id) { (a - b) % INT == 0 }

  // No two of the ids are the same modulo 2^32.
  ghost predicate NoTwins(ids: seq<Id>) {
    forall i, j :: 0 <= i < j < |ids| ==> !Twins(ids[i], ids[j])
  }

  /** Modulo 2^32 the ids lie on an arc shorter than 2^31 that starts at one of them. */
  ghost predicate Arc(ids: seq<Id>) {
    ids != [] ==> exists a :: a in ids && OnArc(ids, a)
  }

  ghost predicate OnArc(ids: seq<Id>, a: Id) {
    forall x :: x in ids ==> (x - a) % INT < HALF
  }

  /** Populating with these rotations gives a tree that holds exactly the ids and in which
      every one of them is found. */
  ghost predicate Works(ids: seq<Id>, cmp: Comparator, rotations: nat -> seq<Rotation>) {
    var t := Populated(ids, cmp, rotations, |ids|);
    && (forall x :: x in InOrder(t) <==> x in ids)
    && forall x :: x in ids ==> Search(t, x, cmp)
  }

  ghost predicate WorksAlways(ids: seq<Id>, cmp: Comparator) {
    forall rotations: nat -> seq<Rotation> :: Works(ids, cmp, rotations)
  }

  // ---- On an arc: the same tree under other names ---------------------------

  function Relabel(t: Tree, f: Id -> Id): Tree {
    match t
    case Leaf => Leaf
    case Node(l, id, r) => Node(Relabel(l, f), f(id), Relabel(r, f))
  }

  lemma {:induction false} RelabelRotate(t: Tree, path: seq<bool>, toRight: bool, f: Id -> Id)
    ensures Relabel(Rotate(t, path, toRight), f) == Rotate(Relabel(t, f), path, toRight)
    decreases |path|
  {
    if t.Node? && path != [] {
      RelabelRotate(if path[0] then t.right else t.left, path[1..], toRight, f);
    }
  }

  lemma {:induction false} RelabelRotateAll(t: Tree, rotations: seq<Rotation>, f: Id -> Id)
    ensures Relabel(RotateAll(t, rotations), f) == RotateAll(Relabel(t, f), rotations)
    decreases |rotations|
  {
    if rotations != [] {
      var first := rotations[0];
      RelabelRotate(t, first.path, first.toRight, f);
      RelabelRotateAll(Rotate(t, first.path, first.toRight), rotations[1..], f);
    }
  }

  lemma {:induction false} RelabelHolds(t: Tree, f: Id -> Id, x: Id)
    ensures x in InOrder(t) ==> f(x) in InOrder(Relabel(t, f))
    ensures x in InOrder(Relabel(t, f)) ==> exists y :: y in InOrder(t) && f(y) == x
  {
    if t.Node? {
      RelabelHolds(t.left, f, x);
      RelabelHolds(t.right, f, x);
      if x in InOrder(Relabel(t, f)) {
        if x in InOrder(Relabel(t.left, f)) {
          var y :| y in InOrder(t.left) && f(y) == x;
          assert y in InOrder(t);
        } else if x in InOrder(Relabel(t.right, f)) {
          var y :| y in InOrder(t.right) && f(y) == x;
          assert y in InOrder(t);
        } else {
          assert t.id in InOrder(t);
        }
      }
    }
  }

  ghost predicate ComparesAs(cmp: Comparator, f: Id -> Id, x: Id, others: seq<Id>) {
    forall y :: y in others ==> Sign(cmp(x, y)) == Compare(f(x), f(y))
  }

  lemma {:induction false} RelabelWalk(t: Tree, x: Id, cmp: Comparator, f: Id -> Id)
    requires ComparesAs(cmp, f, x, InOrder(t))
    ensures Search(t, x, cmp) == Search(Relabel(t, f), f(x), Compare)
    ensures Relabel(Add(t, x, cmp), f) == Add(Relabel(t, f), f(x), Compare)
  {
    if t.Node? {
      assert t.id in InOrder(t);
      assert ComparesAs(cmp, f, x, InOrder(t.left)) && ComparesAs(cmp, f, x, InOrder(t.right));
      RelabelWalk(t.left, x, cmp, f);
      RelabelWalk(t.right, x, cmp, f);
    }
  }

  lemma {:induction false} AddAdds(t: Tree, id: Id, cmp: Comparator, x: Id)
    ensures x in InOrder(Add(t, id, cmp)) ==> x in InOrder(t) || x == id
  {
    if t.Node? {
      AddAdds(t.left, id, cmp, x);
      AddAdds(t.right, id, cmp, x);
    }
  }

  // Whatever the comparator and the rotations, the tree holds ids of the list only.
  lemma {:induction false} PopulatedFrom(ids: seq<Id>, cmp: Comparator, rotations: nat -> seq<Rotation>, k: nat, x: Id)
    requires k <= |ids|
    ensures x in InOrder(Populated(ids, cmp, rotations, k)) ==> x in ids[..k]
  {
    if k > 0 {
      var t := Populated(ids, cmp, rotations, k - 1);
      PopulatedFrom(ids, cmp, rotations, k - 1, x);
      AddAdds(t, ids[k - 1], cmp, x);
      RotationsKeepOrder(Add(t, ids[k - 1], cmp), rotations(k - 1));
      assert ids[..k] == ids[..k - 1] + [ids[k - 1]];
    }
  }

  function Renamed(ids: seq<Id>, f: Id -> Id): (r: seq<Id>)
    ensures |r| == |ids|
  {
    seq(|ids|, i requires 0 <= i < |ids| => f(ids[i]))
  }

  lemma {:induction false} RelabelPopulated(
      ids: seq<Id>, cmp: Comparator, rotations: nat -> seq<Rotation>, f: Id -> Id, k: nat)
    requires k <= |ids| && forall x :: x in ids ==> ComparesAs(cmp, f, x, ids)
    ensures Relabel(Populated(ids, cmp, rotations, k), f) == Populated(Renamed(ids, f), Compare, rotations, k)
  {
    if k > 0 {
      var t := Populated(ids, cmp, rotations, k - 1);
      var id := ids[k - 1];
      RelabelPopulated(ids, cmp, rotations, f, k - 1);
      forall y | y in InOrder(t) ensures Sign(cmp(id, y)) == Compare(f(id), f(y)) {
        PopulatedFrom(ids, cmp, rotations, k - 1, y);
        assert id in ids && y in ids;
      }
      RelabelWalk(t, id, cmp, f);
      RelabelRotateAll(Add(t, id, cmp), rotations(k - 1), f);
    }
  }

  lemma {:induction false} ComparePopulates(ids: seq<Id>, rotations: nat -> seq<Rotation>, k: nat)
    requires k <= |ids|
    ensures Holds(Populated(ids, Compare, rotations, k), ids[..k])
  {
    if k > 0 {
      ComparePopulates(ids, rotations, k - 1);
      PopulateStep(Populated(ids, Compare, rotations, k - 1), ids[..k - 1], ids[k - 1], rotations(k - 1));
      assert ids[..k] == ids[..k - 1] + [ids[k - 1]];
    }
  }

  /** A comparator that compares as distinct names do works whatever the rotations. */
  lemma NamedWorks(ids: seq<Id>, cmp: Comparator, f: Id -> Id, rotations: nat -> seq<Rotation>)
    requires forall x :: x in ids ==> ComparesAs(cmp, f, x, ids)
    requires forall x, y :: x in ids && y in ids && f(x) == f(y) ==> x == y
    ensures Works(ids, cmp, rotations)
  {
    var t := Populated(ids, cmp, rotations, |ids|);
    var names := Renamed(ids, f);
    RelabelPopulated(ids, cmp, rotations, f, |ids|);
    ComparePopulates(names, rotations, |ids|);
    assert names[..|ids|] == names && ids[..|ids|] == ids;
    forall x | x in InOrder(t) ensures x in ids { PopulatedFrom(ids, cmp, rotations, |ids|, x); }
    forall x | x in ids ensures x in InOrder(t) && Search(t, x, cmp) {
      var i :| 0 <= i < |ids| && ids[i] == x;
      assert names[i] == f(x);
      RelabelHolds(t, f, f(x));
      var y :| y in InOrder(t) && f(y) == f(x);
      RelabelWalk(t, x, cmp, f);
      SearchExactly(Relabel(t, f), f(x));
    }
  }

  // How far round the circle from a.
  function Offset(a: Id): Id -> Id {
    x => (x - a) % INT
  }

  lemma OffsetCompares(a: Id, x: Id, y: Id)
    requires (x - a) % INT < HALF && (y - a) % INT < HALF
    ensures Sign(TruncatedCompare(x, y)) == Compare(Offset(a)(x), Offset(a)(y))
  {
    TruncatedDifference(x, y);
    Differences(x - a, y - a);
  }

  lemma Differences(m: int, n: int)
    ensures (m - n) % INT == (m % INT - n % INT) % INT
  {}

  lemma ArcWorks(ids: seq<Id>, rotations: nat -> seq<Rotation>)
    requires Arc(ids) && NoTwins(ids)
    ensures Works(ids, TruncatedCompare, rotations)
  {
    if ids == [] {
      assert InOrder(Leaf) == [];
    } else {
      var a :| a in ids && OnArc(ids, a);
      forall x, y | x in ids && y in ids
        ensures Sign(TruncatedCompare(x, y)) == Compare(Offset(a)(x), Offset(a)(y))
        ensures Offset(a)(x) == Offset(a)(y) ==> x == y
      {
        OffsetCompares(a, x, y);
        if x != y { TwinsApart(ids, x, y); Differences(x - a, y - a); }
      }
      NamedWorks(ids, TruncatedCompare, Offset(a), rotations);
    }
  }

  lemma TwinsApart(ids: seq<Id>, x: Id, y: Id)
    requires NoTwins(ids) && x in ids && y in ids && x != y
    ensures !Twins(x, y)
  {
    var i :| 0 <= i < |ids| && ids[i] == x;
    var j :| 0 <= j < |ids| && ids[j] == y;
    if i > j { Mirror(x - y); }
  }

  // ---- Off an arc: an id is lost --------------------------------------------

  lemma TwinsCompare(x: Id, y: Id)
    ensures TruncatedCompare(x, y) == 0 <==> Twins(x, y)
  {
    TruncatedDifference(x, y);
  }

  lemma {:induction false} TwinsWalk(t: Tree, x: Id, y: Id)
    requires Twins(x, y)
    ensures Search(t, x, TruncatedCompare) == Search(t, y, TruncatedCompare)
  {
    if t.Node? {
      TruncatedDifference(x, t.id);
      TruncatedDifference(y, t.id);
      Differences(x - t.id, y - t.id);
      TwinsWalk(t.left, x, y);
      TwinsWalk(t.right, x, y);
    }
  }

  lemma {:induction false} AddFinds(t: Tree, id: Id, x: Id)
    ensures Search(Add(t, id, TruncatedCompare), id, TruncatedCompare)
    ensures Search(t, x, TruncatedCompare) ==> Search(Add(t, id, TruncatedCompare), x, TruncatedCompare)
  {
    TwinsCompare(id, id);
    if t.Node? {
      AddFinds(t.left, id, x);
      AddFinds(t.right, id, x);
    }
  }

  const STILL: nat -> seq<Rotation> := _ => []

  // Without rotations every id stays where its search ends.
  lemma {:induction false} StillFinds(ids: seq<Id>, k: nat, i: nat)
    requires i < k <= |ids|
    ensures Search(Populated(ids, TruncatedCompare, STILL, k), ids[i], TruncatedCompare)
  {
    var t := Populated(ids, TruncatedCompare, STILL, k - 1);
    AddFinds(t, ids[k - 1], ids[i]);
    if i < k - 1 { StillFinds(ids, k - 1, i); }
  }

  // The later of two twins is taken for the earlier one, and never added.
  lemma {:induction false} TwinIsMissing(ids: seq<Id>, i: nat, j: nat, k: nat)
    requires DistinctIds(ids) && i < j < k <= |ids| && Twins(ids[i], ids[j])
    ensures ids[j] !in InOrder(Populated(ids, TruncatedCompare, STILL, k))
  {
    if j == k - 1 {
      TwinIsSkipped(ids, i, j);
      PopulatedFrom(ids, TruncatedCompare, STILL, j, ids[j]);
    } else {
      AddAdds(Populated(ids, TruncatedCompare, STILL, k - 1), ids[k - 1], TruncatedCompare, ids[j]);
      TwinIsMissing(ids, i, j, k - 1);
    }
  }

  lemma TwinIsSkipped(ids: seq<Id>, i: nat, j: nat)
    requires i < j < |ids| && Twins(ids[i], ids[j])
    ensures Populated(ids, TruncatedCompare, STILL, j + 1) == Populated(ids, TruncatedCompare, STILL, j)
  {
    StillFinds(ids, j, i);
    TwinsWalk(Populated(ids, TruncatedCompare, STILL, j), ids[i], ids[j]);
  }

  lemma WorkingHasNoTwins(ids: seq<Id>)
    requires DistinctIds(ids) && Works(ids, TruncatedCompare, STILL)
    ensures NoTwins(ids)
  {
    forall i, j | 0 <= i < j < |ids| ensures !Twins(ids[i], ids[j]) {
      if Twins(ids[i], ids[j]) { TwinIsMissing(ids, i, j, |ids|); }
      assert ids[j] in ids;
    }
  }

  lemma {:induction false} SearchMeets(t: Tree, x: Id, cmp: Comparator)
    requires Search(t, x, cmp)
    ensures exists y :: y in InOrder(t) && cmp(x, y) == 0
  {
    assert t.id in InOrder(t);
    if cmp(x, t.id) != 0 {
      var side := if cmp(x, t.id) < 0 then t.left else t.right;
      SearchMeets(side, x, cmp);
      var y :| y in InOrder(side) && cmp(x, y) == 0;
      assert y in InOrder(t);
    }
  }

  /** Rotations that bring the leftmost id of a tree to its root. */
  function Spin(t: Tree): seq<Rotation>
    decreases Height(t)
  {
    if t.Leaf? || t.left.Leaf? then []
    else
      RotateShrinks(t);
      [Rotation([], true)] + Spin(Rotate(t, [], true))
  }

  // The length of the left spine.
  function Height(t: Tree): nat { if t.Leaf? then 0 else 1 + Height(t.left) }

  lemma RotateShrinks(t: Tree)
    requires t.Node? && t.left.Node?
    ensures Height(Rotate(t, [], true)) < Height(t)
  {
    assert Height(t) == 1 + Height(t.left) == 2 + Height(t.left.left);
  }

  lemma {:induction false} SpinLeft(t: Tree)
    requires t.Node?
    ensures RotateAll(t, Spin(t)).Node? && RotateAll(t, Spin(t)).left.Leaf?
    decreases Height(t)
  {
    if t.left.Node? {
      var t1 := Rotate(t, [], true);
      RotateShrinks(t);
      SpinLeft(t1);
      assert Spin(t)[1..] == Spin(t1);
    }
  }

  lemma {:induction false} SamePrefix(
      ids: seq<Id>, cmp: Comparator, a: nat -> seq<Rotation>, b: nat -> seq<Rotation>, k: nat)
    requires k <= |ids| && forall i :: 0 <= i < k ==> a(i) == b(i)
    ensures Populated(ids, cmp, a, k) == Populated(ids, cmp, b, k)
  {
    if k > 0 { SamePrefix(ids, cmp, a, b, k - 1); }
  }

  // No rotation until the last id is in, and then the leftmost id to the root.
  function LastSpin(ids: seq<Id>): nat -> seq<Rotation>
    requires ids != []
  {
    var n := |ids| - 1;
    var last := Spin(Add(Populated(ids, TruncatedCompare, STILL, n), ids[n], TruncatedCompare));
    k => if k == n then last else []
  }

  lemma LastSpinRoots(ids: seq<Id>)
    requires ids != [] && DistinctIds(ids) && NoTwins(ids)
    ensures var t := Populated(ids, TruncatedCompare, LastSpin(ids), |ids|);
            t.Node? && t.left.Leaf? && t.id in ids
  {
    var n := |ids| - 1;
    var t := Populated(ids, TruncatedCompare, STILL, n);
    SamePrefix(ids, TruncatedCompare, STILL, LastSpin(ids), n);
    if Search(t, ids[n], TruncatedCompare) {
      SearchMeets(t, ids[n], TruncatedCompare);
      var y :| y in InOrder(t) && TruncatedCompare(ids[n], y) == 0;
      PopulatedFrom(ids, TruncatedCompare, STILL, n, y);
      TwinsCompare(ids[n], y);
      var i :| 0 <= i < n && ids[i] == y;
      TwinsApart(ids, ids[n], y);
      assert false;
    }
    var t1 := Add(t, ids[n], TruncatedCompare);
    SpinLeft(t1);
    var t2 := Populated(ids, TruncatedCompare, LastSpin(ids), |ids|);
    assert t2 == RotateAll(t1, Spin(t1));
    assert t2.id in InOrder(t2);
    PopulatedFrom(ids, TruncatedCompare, LastSpin(ids), |ids|, t2.id);
    assert ids[..|ids|] == ids;
  }

  lemma WorkingIsArc(ids: seq<Id>)
    requires ids != [] && DistinctIds(ids) && NoTwins(ids) && Works(ids, TruncatedCompare, LastSpin(ids))
    ensures Arc(ids)
  {
    hide Populated, LastSpin, Search, DistinctIds, NoTwins;
    LastSpinRoots(ids);
    var t := Populated(ids, TruncatedCompare, LastSpin(ids), |ids|);
    forall x | x in ids ensures (x - t.id) % INT < HALF { FoundToTheRight(t, x); }
    assert OnArc(ids, t.id);
  }

  lemma FoundToTheRight(t: Tree, x: Id)
    requires t.Node? && t.left.Leaf? && Search(t, x, TruncatedCompare)
    ensures (x - t.id) % INT < HALF
  {
    TruncatedDifference(x, t.id);
  }

  /** Whatever the rotations, populating under the truncating comparator holds exactly the
      ids and finds every one of them, if and only if modulo 2^32 the ids are distinct and
      lie on an arc shorter than 2^31. */
  lemma TruncatedWorksExactly(ids: seq<Id>)
    requires DistinctIds(ids)
    ensures WorksAlways(ids, TruncatedCompare) <==> Arc(ids) && NoTwins(ids)
  {
    if Arc(ids) && NoTwins(ids) {
      forall rotations: nat -> seq<Rotation> ensures Works(ids, TruncatedCompare, rotations) {
        ArcWorks(ids, rotations);
      }
    }
    if WorksAlways(ids, TruncatedCompare) {
      assert Works(ids, TruncatedCompare, STILL);
      WorkingHasNoTwins(ids);
      if ids != [] {
        assert Works(ids, TruncatedCompare, LastSpin(ids));
        WorkingIsArc(ids);
      }
    }
  }
}
