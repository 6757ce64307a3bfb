/** The near tree classes: linked nodes, and the outer tree with its insertion buffer. */
module NearTree {
  import opened NearTreeModel
  import opened NearTreeSpec
  import opened Wrappers

  class Impl<T(==, !new)> {
    const Distance: Space<T>
    var itsSize: nat
    var itsLeftObject: Option<T>
    var itsRightObject: Option<T>
    var itsMaxLeft: real
    var itsMaxRight: real
    var itsLeftBranch: Impl?<T>
    var itsRightBranch: Impl?<T>

    ghost var model: Tree<T>
    ghost var Repr: set<object>

    static ghost function Model(branch: Impl?<T>): Tree<T>
      reads branch
    {
      if branch == null then Leaf else branch.model
    }

    static ghost function SizeOf(branch: Impl?<T>): nat
      reads branch
    {
      if branch == null then 0 else branch.itsSize
    }

    ghost predicate Valid()
      reads this, Repr
      ensures Valid() ==> this in Repr
    {
      && this in Repr
      && (itsLeftBranch != null ==>
            itsLeftBranch in Repr && itsLeftBranch.Repr <= Repr && this !in itsLeftBranch.Repr &&
            itsLeftBranch.Distance == Distance && itsLeftBranch.Valid())
      && (itsRightBranch != null ==>
            itsRightBranch in Repr && itsRightBranch.Repr <= Repr && this !in itsRightBranch.Repr &&
            itsRightBranch.Distance == Distance && itsRightBranch.Valid())
      && (itsLeftBranch != null && itsRightBranch != null ==> itsLeftBranch.Repr !! itsRightBranch.Repr)
      && (itsLeftBranch != null || itsRightBranch != null ==> itsRightObject.Some?)
      && (itsRightObject.Some? ==> itsLeftObject.Some?)
      && model == Node(itsLeftObject, itsRightObject, itsMaxLeft, itsMaxRight,
                       Model(itsLeftBranch), Model(itsRightBranch))
      && itsSize == (if itsLeftObject.Some? then 1 else 0) + (if itsRightObject.Some? then 1 else 0)
                    + SizeOf(itsLeftBranch) + SizeOf(itsRightBranch)
    }

    constructor (distance: Space<T>)
      ensures Valid() && fresh(Repr) && model == Empty() && Distance == distance
    {
      Distance := distance;
      itsSize := 0;
      itsLeftObject, itsRightObject := None, None;
      itsMaxLeft, itsMaxRight := -1.0, -1.0;
      itsLeftBranch, itsRightBranch := null, null;
      model := Empty();
      Repr := {this};
    }

    method Clear()
      modifies this
      ensures Valid() && model == Empty() && Repr == {this}
    {
      itsSize := 0;
      itsLeftObject, itsRightObject := None, None;
      itsMaxLeft, itsMaxRight := -1.0, -1.0;
      itsLeftBranch, itsRightBranch := null, null;
      model := Empty();
      Repr := {this};
    }

    method Insert(theObject: T)
      requires Valid()
      modifies Repr
      ensures Valid() && fresh(Repr - old(Repr)) && itsSize == old(itsSize) + 1
      ensures model == Inserted(Distance, old(model), theObject)
      decreases itsSize, 1
    {
      if itsLeftObject.None? {
        StoreLeft(theObject);
      } else if itsRightObject.None? {
        StoreRight(theObject);
      } else {
        var dist_right := Dist(Distance, theObject, itsRightObject.value);
        var dist_left := Dist(Distance, theObject, itsLeftObject.value);
        if dist_left > dist_right {
          InsertRight(theObject, dist_right);
        } else {
          InsertLeft(theObject, dist_left);
        }
      }
    }

    method StoreLeft(theObject: T)
      requires Valid() && itsLeftObject.None?
      modifies this
      ensures Valid() && Repr == old(Repr) && itsSize == old(itsSize) + 1
      ensures model == old(model).(left := Some(theObject))
    {
      itsLeftObject := Some(theObject);
      model := model.(left := itsLeftObject);
      itsSize := itsSize + 1;
    }

    method StoreRight(theObject: T)
      requires Valid() && itsLeftObject.Some? && itsRightObject.None?
      modifies this
      ensures Valid() && Repr == old(Repr) && itsSize == old(itsSize) + 1
      ensures model == old(model).(right := Some(theObject))
    {
      itsRightObject := Some(theObject);
      model := model.(right := itsRightObject);
      itsSize := itsSize + 1;
    }

    method InsertRight(theObject: T, dist: real)
      requires Valid() && itsRightObject.Some?
      modifies Repr
      ensures Valid() && fresh(Repr - old(Repr)) && itsSize == old(itsSize) + 1
      ensures model == old(model).(maxRight := Larger(old(model.maxRight), dist),
                                   beyond := Inserted(Distance, old(model.beyond), theObject))
      decreases itsSize, 0
    {
      var branch := InsertBelow(itsRightBranch, theObject);
      AttachRight(branch, dist);
    }

    /** The node's own share of inserting on the right: bound, size and pointer. */
    method AttachRight(branch: Impl<T>, dist: real)
      requires itsLeftObject.Some? && itsRightObject.Some? && this in Repr
      requires itsLeftBranch != null ==>
        itsLeftBranch in Repr && itsLeftBranch.Repr <= Repr && this !in itsLeftBranch.Repr &&
        itsLeftBranch.Distance == Distance && itsLeftBranch.Valid() && branch.Repr !! itsLeftBranch.Repr
      requires branch.Valid() && branch.Distance == Distance && this !in branch.Repr
      requires model.Node?
      requires model == Node(itsLeftObject, itsRightObject, itsMaxLeft, itsMaxRight, model.below, model.beyond)
      requires model.below == Model(itsLeftBranch)
      requires itsSize + 1 == 2 + SizeOf(itsLeftBranch) + branch.itsSize
      modifies this
      ensures Valid() && Repr == old(Repr) + branch.Repr && itsSize == old(itsSize) + 1
      ensures model == old(model).(maxRight := Larger(old(model.maxRight), dist), beyond := branch.model)
    {
      itsRightBranch := branch;
      if itsMaxRight < dist {
        itsMaxRight := dist;
      }
      itsSize := itsSize + 1;
      model := model.(maxRight := itsMaxRight, beyond := branch.model);
      Repr := Repr + branch.Repr;
    }

    method InsertLeft(theObject: T, dist: real)
      requires Valid() && itsRightObject.Some?
      modifies Repr
      ensures Valid() && fresh(Repr - old(Repr)) && itsSize == old(itsSize) + 1
      ensures model == old(model).(maxLeft := Larger(old(model.maxLeft), dist),
                                   below := Inserted(Distance, old(model.below), theObject))
      decreases itsSize, 0
    {
      var branch := InsertBelow(itsLeftBranch, theObject);
      AttachLeft(branch, dist);
    }

    /** The node's own share of inserting on the left: bound, size and pointer. */
    method AttachLeft(branch: Impl<T>, dist: real)
      requires itsLeftObject.Some? && itsRightObject.Some? && this in Repr
      requires itsRightBranch != null ==>
        itsRightBranch in Repr && itsRightBranch.Repr <= Repr && this !in itsRightBranch.Repr &&
        itsRightBranch.Distance == Distance && itsRightBranch.Valid() && branch.Repr !! itsRightBranch.Repr
      requires branch.Valid() && branch.Distance == Distance && this !in branch.Repr
      requires model.Node?
      requires model == Node(itsLeftObject, itsRightObject, itsMaxLeft, itsMaxRight, model.below, model.beyond)
      requires model.beyond == Model(itsRightBranch)
      requires itsSize + 1 == 2 + SizeOf(itsRightBranch) + branch.itsSize
      modifies this
      ensures Valid() && Repr == old(Repr) + branch.Repr && itsSize == old(itsSize) + 1
      ensures model == old(model).(maxLeft := Larger(old(model.maxLeft), dist), below := branch.model)
    {
      itsLeftBranch := branch;
      if itsMaxLeft < dist {
        itsMaxLeft := dist;
      }
      itsSize := itsSize + 1;
      model := model.(maxLeft := itsMaxLeft, below := branch.model);
      Repr := Repr + branch.Repr;
    }

    /** The nodes of a branch. */
    static ghost function Nodes(branch: Impl?<T>): set<object>
      reads branch
    {
      if branch == null then {} else branch.Repr
    }

    /** Inserts into a branch, which is created when it is missing. */
    method InsertBelow(branch: Impl?<T>, theObject: T) returns (b: Impl<T>)
      requires branch != null ==> branch.Valid() && branch.Distance == Distance
      modifies Nodes(branch)
      ensures b.Valid() && b.Distance == Distance && fresh(b.Repr - old(Nodes(branch)))
      ensures b.model == Inserted(Distance, old(Model(branch)), theObject)
      ensures b.itsSize == old(SizeOf(branch)) + 1
      decreases SizeOf(branch), 2
    {
      if branch == null {
        b := new Impl(Distance);
      } else {
        b := branch;
      }
      b.Insert(theObject);
    }

    method Nearest(theClosest: Option<T>, thePoint: T, theRadius: real)
      returns (closest: Option<T>, radius: real)
      requires Valid()
      ensures (closest, radius) == PrunedNearest(Distance, model, thePoint, (theClosest, theRadius))
      decreases model
    {
      closest, radius := theClosest, theRadius;
      if itsLeftObject.Some? {
        var tmpradius := Dist(Distance, thePoint, itsLeftObject.value);
        if radius < 0.0 || tmpradius <= radius {
          closest, radius := itsLeftObject, tmpradius;
        }
      }
      if itsRightObject.Some? {
        var tmpradius := Dist(Distance, thePoint, itsRightObject.value);
        if radius < 0.0 || tmpradius <= radius {
          closest, radius := itsRightObject, tmpradius;
        }
      }
      if radius < 0.0 {
        return;
      }
      if itsLeftBranch != null &&
         radius + itsMaxLeft >= Dist(Distance, thePoint, itsLeftObject.value) {
        closest, radius := itsLeftBranch.Nearest(closest, thePoint, radius);
      }
      if itsRightBranch != null &&
         radius + itsMaxRight >= Dist(Distance, thePoint, itsRightObject.value) {
        closest, radius := itsRightBranch.Nearest(closest, thePoint, radius);
      }
    }

    method Farthest(theFarthest: Option<T>, thePoint: T, theRadius: real)
      returns (farthest: Option<T>, radius: real)
      requires Valid()
      ensures (farthest, radius) == PrunedFarthest(Distance, model, thePoint, (theFarthest, theRadius))
      decreases model
    {
      farthest, radius := theFarthest, theRadius;
      if itsLeftObject.Some? {
        var tmpradius := Dist(Distance, thePoint, itsLeftObject.value);
        if tmpradius >= radius {
          farthest, radius := itsLeftObject, tmpradius;
        }
      }
      if itsRightObject.Some? {
        var tmpradius := Dist(Distance, thePoint, itsRightObject.value);
        if tmpradius >= radius {
          farthest, radius := itsRightObject, tmpradius;
        }
      }
      if itsLeftBranch != null && radius - itsMaxLeft <= Dist(Distance, thePoint, itsLeftObject.value) {
        farthest, radius := itsLeftBranch.Farthest(farthest, thePoint, radius);
      }
      if itsRightBranch != null && radius - itsMaxRight <= Dist(Distance, thePoint, itsRightObject.value) {
        farthest, radius := itsRightBranch.Farthest(farthest, thePoint, radius);
      }
    }

    method NearestOnes(theClosest: multiset<(real, T)>, thePoint: T, theRadius: real)
      returns (closest: multiset<(real, T)>)
      requires Valid()
      ensures forall h :: closest[h] == theClosest[h] + PrunedCount(Distance, model, thePoint, theRadius, h)
      decreases model
    {
      closest := theClosest;
      if itsLeftObject.Some? {
        var dist := Dist(Distance, thePoint, itsLeftObject.value);
        if dist <= theRadius {
          closest := closest + multiset{(dist, itsLeftObject.value)};
        }
      }
      if itsRightObject.Some? {
        var dist := Dist(Distance, thePoint, itsRightObject.value);
        if dist <= theRadius {
          closest := closest + multiset{(dist, itsRightObject.value)};
        }
      }
      if itsLeftBranch != null && theRadius + itsMaxLeft >= Dist(Distance, thePoint, itsLeftObject.value) {
        closest := itsLeftBranch.NearestOnes(closest, thePoint, theRadius);
      }
      if itsRightBranch != null && theRadius + itsMaxRight >= Dist(Distance, thePoint, itsRightObject.value) {
        closest := itsRightBranch.NearestOnes(closest, thePoint, theRadius);
      }
    }

    lemma {:induction false} SizeIsSize()
      requires Valid()
      ensures itsSize == Size(model)
      decreases model
    {
      if itsLeftBranch != null {
        itsLeftBranch.SizeIsSize();
      }
      if itsRightBranch != null {
        itsRightBranch.SizeIsSize();
      }
    }
  }

  /** Any order at all may come out of the shuffle. */
  method Shuffle<T>(s: seq<T>) returns (t: seq<T>)
    ensures multiset(t) == multiset(s)
  {
    t := s;
    for i := 0 to |s|
      invariant |t| == |s| && multiset(t) == multiset(s)
    {
      var j :| i <= j < |t|;
      t := t[i := t[j]][j := t[i]];
    }
  }

  class NearTree<T(==, !new)> {
    const Distance: Space<T>
    const impl: Impl<T>
    var buffer: seq<T>

    /** All points inserted since the last clear, and those of them that are already in the nodes. */
    ghost var stored: multiset<T>
    ghost var inNodes: multiset<T>

    ghost predicate Valid()
      reads this, impl, impl.Repr
    {
      Sound() && stored == inNodes + multiset(buffer)
    }

    ghost predicate Sound()
      reads this, impl, impl.Repr
    {
      && this !in impl.Repr
      && impl.Valid()
      && impl.Distance == Distance
      && Describes(Distance, impl.model, inNodes)
    }

    constructor (distance: Space<T>)
      ensures Valid() && fresh(impl.Repr) && stored == multiset{} && Distance == distance
    {
      Distance := distance;
      impl := new Impl(distance);
      buffer := [];
      stored, inNodes := multiset{}, multiset{};
      new;
      EmptyDescribed(Distance);
    }

    method Size() returns (n: nat)
      requires Valid()
      ensures n == |stored|
    {
      impl.SizeIsSize();
      SizeOfDescribed(Distance, impl.model, inNodes);
      n := impl.itsSize + |buffer|;
    }

    method Clear()
      requires Valid()
      modifies this, impl
      ensures Valid() && stored == multiset{}
    {
      impl.Clear();
      buffer := [];
      stored, inNodes := multiset{}, multiset{};
      EmptyDescribed(Distance);
    }

    lemma OneBuffered(nodes: multiset<T>, points: seq<T>, p: T)
      ensures nodes + multiset(points + [p]) == nodes + multiset(points) + multiset{p}
    {
    }

    method Insert(theObject: T)
      requires Valid()
      modifies this`buffer, this`stored
      ensures Valid() && stored == old(stored) + multiset{theObject}
    {
      OneBuffered(inNodes, buffer, theObject);
      buffer := buffer + [theObject];
      stored := stored + multiset{theObject};
    }

    /** Moves one point of the buffer into the nodes. */
    method Feed(theObject: T)
      requires Sound()
      modifies this`inNodes, impl.Repr
      ensures Sound() && fresh(impl.Repr - old(impl.Repr))
      ensures inNodes == old(inNodes) + multiset{theObject}
    {
      InsertedDescribed(Distance, impl.model, inNodes, theObject);
      inNodes := inNodes + multiset{theObject};
      impl.Insert(theObject);
    }

    method FeedAll(points: seq<T>)
      requires Sound()
      modifies this`inNodes, impl.Repr
      ensures Sound() && fresh(impl.Repr - old(impl.Repr))
      ensures inNodes == old(inNodes) + multiset(points)
    {
      for i := 0 to |points|
        invariant Sound() && fresh(impl.Repr - old(impl.Repr))
        invariant inNodes + multiset(points[i..]) == old(inNodes) + multiset(points)
      {
        MoveOne(inNodes, points, i);
        Feed(points[i]);
      }
    }

    method FeedShuffled(points: seq<T>)
      requires Sound()
      modifies this`inNodes, impl.Repr
      ensures Sound() && fresh(impl.Repr - old(impl.Repr))
      ensures inNodes == old(inNodes) + multiset(points)
    {
      var shuffled := Shuffle(points);
      FeedAll(shuffled);
    }

    /** The buffered points go into the nodes in a random order; what is stored stays the same. */
    method Flush()
      requires Valid()
      modifies this`buffer, this`inNodes, impl.Repr
      ensures Valid() && fresh(impl.Repr - old(impl.Repr))
      ensures buffer == [] && inNodes == stored
    {
      if buffer != [] {
        FeedShuffled(buffer);
        buffer := [];
      }
    }

    /** A nearest stored point within the radius, and `None` only if no stored point qualifies.
        The answer depends on what is stored, not on how it came to be stored. */
    method Nearest(thePoint: T, theRadius: real) returns (near: Option<T>)
      requires Valid() && Metric(Distance)
      modifies this`buffer, this`inNodes, impl.Repr
      ensures Valid() && fresh(impl.Repr - old(impl.Repr))
      ensures near.Some? ==> IsNearest(Distance, stored, thePoint, near.value)
                             && Eligible(Distance, thePoint, theRadius, near.value)
      ensures near.None? ==> forall x :: x in stored ==> !Eligible(Distance, thePoint, theRadius, x)
    {
      Flush();
      var radius;
      near, radius := impl.Nearest(None, thePoint, theRadius);
      NearestAnswer(Distance, impl.model, stored, thePoint, theRadius);
    }

    method Farthest(thePoint: T) returns (far: Option<T>)
      requires Valid() && Metric(Distance)
      modifies this`buffer, this`inNodes, impl.Repr
      ensures Valid() && fresh(impl.Repr - old(impl.Repr))
      ensures far.Some? ==> IsFarthest(Distance, stored, thePoint, far.value)
      ensures far.None? <==> stored == multiset{}
    {
      Flush();
      var radius;
      far, radius := impl.Farthest(None, thePoint, -1.0);
      FarthestAnswer(Distance, impl.model, stored, thePoint);
    }

    method NearestOnes(thePoint: T, theRadius: real) returns (near: multiset<(real, T)>)
      requires Valid() && Metric(Distance)
      modifies this`buffer, this`inNodes, impl.Repr
      ensures Valid() && fresh(impl.Repr - old(impl.Repr))
      ensures Within(Distance, stored, thePoint, theRadius, near)
    {
      Flush();
      near := impl.NearestOnes(multiset{}, thePoint, theRadius);
      WithinAnswer(Distance, impl.model, stored, thePoint, theRadius, near);
    }
  }
}
