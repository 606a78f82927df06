/**
 * Scene-level hit selection: `find_nearest_object` walks the scene's objects
 * in order and keeps the intersection with the smallest distance, together
 * with the normal the winning object reports at it.
 *
 * The routine is generic here over the object type `O` and the intersection
 * type `H`; the object's `intersects`, the intersection's `distance` and the
 * object's `normal` are passed in as functions.
 */
module Utils {
  import opened Vectors
  import DataStructures

  /**
   * Object `k` of `objects[..upto]` produced an intersection, none of the
   * first `upto` objects produced a nearer one, and every object before `k`
   * that produced one produced a strictly farther one.
   */
  ghost predicate FirstNearestUpTo<O, H>(objects: seq<O>, intersects: O -> Option<H>,
                                         distance: H -> real, k: nat, upto: nat)
    requires upto <= |objects|
  {
    && k < upto
    && intersects(objects[k]).Some?
    && (forall j :: 0 <= j < upto && intersects(objects[j]).Some? ==>
          distance(intersects(objects[k]).value) <= distance(intersects(objects[j]).value))
    && (forall j :: 0 <= j < k && intersects(objects[j]).Some? ==>
          distance(intersects(objects[k]).value) < distance(intersects(objects[j]).value))
  }

  /**
   * The nearest intersection over the scene and the normal its object reports.
   * `queried` records which objects were asked for an intersection, in order.
   */
  method FindNearestObject<O, H>(objects: seq<O>, intersects: O -> Option<H>,
                                 distance: H -> real, normal: (O, H) -> Vec3)
    returns (r: Option<(H, Vec3)>, ghost queried: seq<nat>)
    ensures r.None? <==> forall k :: 0 <= k < |objects| ==> intersects(objects[k]).None?
    ensures r.Some? ==> exists k :: 0 <= k < |objects| && FirstNearestUpTo(objects, intersects, distance, k, |objects|)
                                      && r.value == (intersects(objects[k]).value, normal(objects[k], intersects(objects[k]).value))
    ensures queried == DataStructures.Range(0, |objects|)
  {
    r := None;
    queried := [];
    ghost var at: nat := 0;
    for i := 0 to |objects|
      invariant queried == DataStructures.Range(0, i)
      invariant r.None? <==> forall k :: 0 <= k < i ==> intersects(objects[k]).None?
      invariant r.Some? ==> && FirstNearestUpTo(objects, intersects, distance, at, i)
                            && r.value == (intersects(objects[at]).value, normal(objects[at], intersects(objects[at]).value))
    {
      var obj := objects[i];
      queried := queried + [i];
      var intersection := intersects(obj);
      match intersection {
        case Some(hit) =>
          match r {
            case Some(closest) =>
              if distance(hit) < distance(closest.0) {
                r := Some((hit, normal(obj, hit)));
                at := i;
              }
            case None =>
              r := Some((hit, normal(obj, hit)));
              at := i;
          }
        case None =>
      }
    }
  }

  /** At most one object is the first nearest, so the result above is determined. */
  lemma FirstNearestUnique<O, H>(objects: seq<O>, intersects: O -> Option<H>,
                                 distance: H -> real, k1: nat, k2: nat)
    requires FirstNearestUpTo(objects, intersects, distance, k1, |objects|)
    requires FirstNearestUpTo(objects, intersects, distance, k2, |objects|)
    ensures k1 == k2
  {
  }

  /** Of two objects at the same distance, the earlier one is kept. */
  lemma TieKeepsEarlier<O, H>(objects: seq<O>, intersects: O -> Option<H>,
                              distance: H -> real, j: nat, k: nat)
    requires j < k < |objects|
    requires intersects(objects[j]).Some? && intersects(objects[k]).Some?
    requires distance(intersects(objects[j]).value) == distance(intersects(objects[k]).value)
    ensures !FirstNearestUpTo(objects, intersects, distance, k, |objects|)
  {
  }
}
