/**
 * The scene aggregate `HittableList` (src/hittables.rs): an ordered list of
 * objects, searched for the nearest hit with a shrinking window.
 */
module Scenes {
  import opened Options
  import opened Vectors
  import opened Rays
  import opened Intervals
  import opened HitRecords
  import opened Spheres

  /** The supplied square root is non-negative on every object's discriminant. */
  predicate NonNegativeRoots(objects: seq<Sphere>, ray: Ray, sqrt: real -> real)
  {
    forall k :: 0 <= k < |objects| ==>
      objects[k].Discriminant(ray) >= 0.0 ==> sqrt(objects[k].Discriminant(ray)) >= 0.0
  }

  /**
   * The nearest-hit search of `HittableList::hit` over objects answering
   * `hit(o, lo, hi)`: the objects are queried in order, each with the window
   * `[lo, closest so far]`, where the closest so far starts at `hi` and becomes
   * the `t` of each success; the last success is reported.
   */
  function NearestHit<T>(objects: seq<T>, hit: (T, Bound, Bound) -> Option<Hit>, lo: Bound, hi: Bound): Option<Hit>
    decreases |objects|
  {
    if objects == [] then None
    else
      var previous := NearestHit(objects[..|objects| - 1], hit, lo, hi);
      var closestSoFar := if previous.Some? then Finite(previous.value.t) else hi;
      match hit(objects[|objects| - 1], lo, closestSoFar)
      case Some(h) => Some(h)
      case None => previous
  }

  /** What the list of spheres reports for `[lo, hi]`. */
  function ListHit(objects: seq<Sphere>, ray: Ray, lo: Bound, hi: Bound, sqrt: real -> real): Option<Hit>
  {
    NearestHit(objects, SphereQuery(ray, sqrt), lo, hi)
  }

  /** One more object: the search over a prefix extended by `objects[i]`. */
  lemma NearestHitStep<T>(objects: seq<T>, hit: (T, Bound, Bound) -> Option<Hit>, lo: Bound, hi: Bound, i: nat)
    requires i < |objects|
    ensures var previous := NearestHit(objects[..i], hit, lo, hi);
      var closestSoFar := if previous.Some? then Finite(previous.value.t) else hi;
      NearestHit(objects[..i + 1], hit, lo, hi)
        == if hit(objects[i], lo, closestSoFar).Some? then hit(objects[i], lo, closestSoFar) else previous
  {
    assert objects[..i + 1][..i] == objects[..i];
  }

  lemma EmptyListMisses<T>(hit: (T, Bound, Bound) -> Option<Hit>, lo: Bound, hi: Bound)
    ensures NearestHit([], hit, lo, hi) == None
  {
  }

  /**
   * The four facts of "nearest wins" for `objects`: the answer lies in the
   * window; it is a miss exactly when every object alone misses; a hit is
   * some object's own answer; and no object alone offers a nearer one.
   */
  ghost predicate WinsNearest<T>(objects: seq<T>, hit: (T, Bound, Bound) -> Option<Hit>, lo: Bound, hi: Bound)
  {
    var result := NearestHit(objects, hit, lo, hi);
    && RespectsWindow(result, lo, hi)
    && (result.None? <==> forall k :: 0 <= k < |objects| ==> hit(objects[k], lo, hi).None?)
    && (result.Some? ==> exists j :: 0 <= j < |objects| && hit(objects[j], lo, hi) == result)
    && (result.Some? ==>
          forall k :: 0 <= k < |objects| && hit(objects[k], lo, hi).Some? ==>
            result.value.t <= hit(objects[k], lo, hi).value.t)
  }

  /**
   * Nearest wins, for objects that keep the `Hittable` contract: the search
   * reports a hit exactly when some object, queried alone with the whole
   * window, would; it then reports that object's answer, which lies in the
   * window and whose `t` is no larger than any object's own answer. The
   * order of the objects decides only between hits at the same `t`.
   */
  lemma {:induction false} NearestWins<T>(objects: seq<T>, hit: (T, Bound, Bound) -> Option<Hit>, lo: Bound, hi: Bound)
    requires forall k :: 0 <= k < |objects| ==> HitContract(hit, objects[k], lo, hi)
    ensures RespectsWindow(NearestHit(objects, hit, lo, hi), lo, hi)
    ensures NearestHit(objects, hit, lo, hi).None? <==>
            forall k :: 0 <= k < |objects| ==> hit(objects[k], lo, hi).None?
    ensures NearestHit(objects, hit, lo, hi).Some? ==>
            exists j :: 0 <= j < |objects| && hit(objects[j], lo, hi) == NearestHit(objects, hit, lo, hi)
    ensures NearestHit(objects, hit, lo, hi).Some? ==>
            forall k :: 0 <= k < |objects| && hit(objects[k], lo, hi).Some? ==>
              NearestHit(objects, hit, lo, hi).value.t <= hit(objects[k], lo, hi).value.t
    decreases |objects|
  {
    if objects != [] {
      var n := |objects| - 1;
      var earlier := objects[..n];
      forall k | 0 <= k < n ensures HitContract(hit, earlier[k], lo, hi) {
        assert earlier[k] == objects[k];
      }
      NearestWins(earlier, hit, lo, hi);
      assert HitContract(hit, objects[n], lo, hi);
      NearestWinsStep(objects, hit, lo, hi);
    }
  }

  /** The inductive step of `NearestWins`: the facts carry over from a prefix to one more object. */
  lemma NearestWinsStep<T>(objects: seq<T>, hit: (T, Bound, Bound) -> Option<Hit>, lo: Bound, hi: Bound)
    requires objects != []
    requires HitContract(hit, objects[|objects| - 1], lo, hi)
    requires WinsNearest(objects[..|objects| - 1], hit, lo, hi)
    ensures WinsNearest(objects, hit, lo, hi)
  {
    var n := |objects| - 1;
    var earlier := objects[..n];
    var last := objects[n];
    var previous := NearestHit(earlier, hit, lo, hi);
    var closestSoFar := if previous.Some? then Finite(previous.value.t) else hi;
    var result := NearestHit(objects, hit, lo, hi);
    var alone := hit(last, lo, hi);
    var narrow := hit(last, lo, closestSoFar);
    assert Le(closestSoFar, hi);
    assert RespectsWindow(narrow, lo, closestSoFar);
    assert narrow.Some? ==> alone.Some? && alone.value.t <= narrow.value.t;
    assert alone.Some? && Le(Finite(alone.value.t), closestSoFar) ==> narrow == alone;
    assert result == if narrow.Some? then narrow else previous;
    if previous.None? {
      assert result == alone;
      forall k | 0 <= k < n ensures hit(objects[k], lo, hi).None? {
        assert earlier[k] == objects[k];
      }
      assert result.Some? ==> hit(objects[n], lo, hi) == result;
    } else if narrow.Some? {
      assert result == narrow && alone == narrow;
      assert hit(objects[n], lo, hi) == result;
      forall k | 0 <= k < |objects| && hit(objects[k], lo, hi).Some?
        ensures result.value.t <= hit(objects[k], lo, hi).value.t
      {
        if k < n {
          assert earlier[k] == objects[k];
        }
      }
    } else {
      assert result == previous;
      assert alone.Some? ==> previous.value.t < alone.value.t;
      var j :| 0 <= j < n && hit(earlier[j], lo, hi) == previous;
      assert earlier[j] == objects[j];
      assert hit(objects[j], lo, hi) == result;
      forall k | 0 <= k < |objects| && hit(objects[k], lo, hi).Some?
        ensures result.value.t <= hit(objects[k], lo, hi).value.t
      {
        if k < n {
          assert earlier[k] == objects[k];
        }
      }
    }
  }

  /**
   * Window respect alone, without the rest of the `Hittable` contract: when
   * every object reports only hits inside the window it is asked about, the
   * search's answer lies in `[lo, hi]`, and it is never farther than the
   * answer the search had after any earlier object.
   */
  lemma {:induction false} NearestInWindow<T>(objects: seq<T>, hit: (T, Bound, Bound) -> Option<Hit>, lo: Bound, hi: Bound)
    requires forall k, c :: 0 <= k < |objects| && Le(c, hi) ==> RespectsWindow(hit(objects[k], lo, c), lo, c)
    ensures RespectsWindow(NearestHit(objects, hit, lo, hi), lo, hi)
    ensures forall i :: 0 <= i <= |objects| && NearestHit(objects[..i], hit, lo, hi).Some? ==>
              NearestHit(objects, hit, lo, hi).Some? &&
              NearestHit(objects, hit, lo, hi).value.t <= NearestHit(objects[..i], hit, lo, hi).value.t
    decreases |objects|
  {
    if objects == [] {
      assert objects[..0] == [];
    } else {
      var n := |objects| - 1;
      var earlier := objects[..n];
      forall k, c | 0 <= k < n && Le(c, hi) ensures RespectsWindow(hit(earlier[k], lo, c), lo, c) {
        assert earlier[k] == objects[k];
      }
      NearestInWindow(earlier, hit, lo, hi);
      var previous := NearestHit(earlier, hit, lo, hi);
      var closestSoFar := if previous.Some? then Finite(previous.value.t) else hi;
      var narrow := hit(objects[n], lo, closestSoFar);
      var result := NearestHit(objects, hit, lo, hi);
      assert Le(closestSoFar, hi);
      assert RespectsWindow(narrow, lo, closestSoFar);
      assert result == if narrow.Some? then narrow else previous;
      if narrow.Some? {
        LeTotalOrder(Finite(narrow.value.t), closestSoFar, hi);
      }
      forall i | 0 <= i <= |objects| && NearestHit(objects[..i], hit, lo, hi).Some?
        ensures result.Some? && result.value.t <= NearestHit(objects[..i], hit, lo, hi).value.t
      {
        if i <= n {
          assert objects[..i] == earlier[..i];
        } else {
          assert objects[..i] == objects;
        }
      }
    }
  }

  /**
   * For spheres: the list's answer is the nearest surface point any sphere
   * offers in the window, and it carries that sphere's material.
   */
  lemma ListNearestWins(objects: seq<Sphere>, ray: Ray, lo: Bound, hi: Bound, sqrt: real -> real)
    requires NonNegativeRoots(objects, ray, sqrt)
    ensures RespectsWindow(ListHit(objects, ray, lo, hi, sqrt), lo, hi)
    ensures ListHit(objects, ray, lo, hi, sqrt).None? <==>
            forall k :: 0 <= k < |objects| ==> objects[k].HitSpec(ray, lo, hi, sqrt).None?
    ensures ListHit(objects, ray, lo, hi, sqrt).Some? ==>
            exists j :: 0 <= j < |objects| && objects[j].HitSpec(ray, lo, hi, sqrt) == ListHit(objects, ray, lo, hi, sqrt)
                     && ListHit(objects, ray, lo, hi, sqrt).value.material == objects[j].material
    ensures ListHit(objects, ray, lo, hi, sqrt).Some? ==>
            forall k :: 0 <= k < |objects| && objects[k].HitSpec(ray, lo, hi, sqrt).Some? ==>
              ListHit(objects, ray, lo, hi, sqrt).value.t <= objects[k].HitSpec(ray, lo, hi, sqrt).value.t
  {
    var query := SphereQuery(ray, sqrt);
    forall k | 0 <= k < |objects| ensures HitContract(query, objects[k], lo, hi) {
      SphereKeepsContract(objects[k], ray, lo, hi, sqrt);
    }
    NearestWins(objects, query, lo, hi);
  }

  /** Whatever the search reports is one object's answer for some window starting at `lo`. */
  lemma {:induction false} NearestHitFromSomeObject<T>(objects: seq<T>, hit: (T, Bound, Bound) -> Option<Hit>, lo: Bound, hi: Bound)
    ensures NearestHit(objects, hit, lo, hi).Some? ==>
            exists j, c :: 0 <= j < |objects| && hit(objects[j], lo, c) == NearestHit(objects, hit, lo, hi)
    decreases |objects|
  {
    if objects != [] {
      var n := |objects| - 1;
      var earlier := objects[..n];
      NearestHitFromSomeObject(earlier, hit, lo, hi);
      var previous := NearestHit(earlier, hit, lo, hi);
      var closestSoFar := if previous.Some? then Finite(previous.value.t) else hi;
      if hit(objects[n], lo, closestSoFar).Some? {
        assert hit(objects[n], lo, closestSoFar) == NearestHit(objects, hit, lo, hi);
      } else if previous.Some? {
        var j, c :| 0 <= j < n && hit(earlier[j], lo, c) == previous;
        assert earlier[j] == objects[j];
        assert hit(objects[j], lo, c) == NearestHit(objects, hit, lo, hi);
      }
    }
  }

  /** For any square root, the list's answer carries the material of one of its spheres. */
  lemma ListHitMaterial(objects: seq<Sphere>, ray: Ray, lo: Bound, hi: Bound, sqrt: real -> real)
    ensures ListHit(objects, ray, lo, hi, sqrt).Some? ==>
            exists j :: 0 <= j < |objects| && ListHit(objects, ray, lo, hi, sqrt).value.material == objects[j].material
  {
    var query := SphereQuery(ray, sqrt);
    NearestHitFromSomeObject(objects, query, lo, hi);
    if ListHit(objects, ray, lo, hi, sqrt).Some? {
      var j, c :| 0 <= j < |objects| && query(objects[j], lo, c) == ListHit(objects, ray, lo, hi, sqrt);
      assert objects[j].HitSpec(ray, lo, c, sqrt) == ListHit(objects, ray, lo, hi, sqrt);
    }
  }

  class HittableList {
    var objects: seq<Sphere>

    /** `HittableList::new`: no objects. */
    constructor ()
      ensures objects == []
    {
      objects := [];
    }

    /** `with_object`: a list holding just `obj`. */
    static method WithObject(obj: Sphere) returns (list: HittableList)
      ensures fresh(list)
      ensures list.objects == [obj]
    {
      list := new HittableList();
      list.Add(obj);
    }

    method Clear()
      modifies this
      ensures objects == []
    {
      objects := [];
    }

    /** Appends `obj`; the earlier objects keep their order. */
    method Add(obj: Sphere)
      modifies this
      ensures objects == old(objects) + [obj]
      ensures |objects| == |old(objects)| + 1 && objects[|objects| - 1] == obj
      ensures forall k :: 0 <= k < |old(objects)| ==> objects[k] == old(objects)[k]
    {
      objects := objects + [obj];
    }

    /**
     * `HittableList::hit`: queries every object with `[interval.min,
     * closest_so_far]` and copies each success into `rec`; `rec` stays as it
     * was when nothing is hit.
     */
    method Hit(ray: Ray, interval: Interval, sqrt: real -> real, rec: HitRecord) returns (hitAnything: bool)
      modifies rec
      ensures hitAnything == ListHit(objects, ray, interval.min, interval.max, sqrt).Some?
      ensures hitAnything ==> rec.Value() == ListHit(objects, ray, interval.min, interval.max, sqrt).value
      ensures !hitAnything ==> unchanged(rec)
    {
      var tempRecord := new HitRecord(Zero(), Zero(), 0.0, false);
      hitAnything := false;
      var closestSoFar := interval.max;

      ghost var query := SphereQuery(ray, sqrt);
      for i := 0 to |objects|
        invariant hitAnything == NearestHit(objects[..i], query, interval.min, interval.max).Some?
        invariant hitAnything ==> rec.Value() == NearestHit(objects[..i], query, interval.min, interval.max).value
        invariant closestSoFar == if hitAnything then Finite(rec.t) else interval.max
        invariant !hitAnything ==> unchanged(rec)
      {
        var obj := objects[i];
        NearestHitStep(objects, query, interval.min, interval.max, i);
        assert query(obj, interval.min, closestSoFar) == obj.HitSpec(ray, interval.min, closestSoFar, sqrt);
        var hit := obj.Hit(ray, interval.min, closestSoFar, sqrt, tempRecord);
        if hit {
          hitAnything := true;
          closestSoFar := Finite(tempRecord.t);
          rec.CopyFrom(tempRecord);
        }
      }
      assert objects[..|objects|] == objects;
    }
  }
}
