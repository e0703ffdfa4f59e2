/**
 * `_remove_duplicates`: the duplicate index the download loop consults
 * while it runs. It maps a fingerprint to the list of paths registered
 * under it, and only the first arrival for a fingerprint is registered.
 */
module LiveDedup {
  import opened Wrappers
  import DHash

  type Index = map<int, seq<string>>

  /** The answer of one check. Undecodable stands for the exception the hash raises on an image cv2 could not read. */
  datatype Verdict = Unique | Duplicate | Undecodable

  /** `image_hash_dict.get(image_hash, [])`. */
  function Bucket(index: Index, h: int): seq<string>
  {
    if h in index then index[h] else []
  }

  /** Every fingerprint in the index holds exactly one path. */
  predicate Singletons(index: Index)
  {
    forall h :: h in index ==> |index[h]| == 1
  }

  /**
   * One call of `_remove_duplicates` on the file at path whose decoded,
   * downscaled image is image: the verdict and the index afterwards.
   * A fresh fingerprint is registered with exactly this path and reported
   * Unique; a known fingerprint is reported Duplicate and leaves the index
   * alone; an undecodable image changes nothing.
   */
  function Register(index: Index, path: string, image: Option<DHash.Grid>): (r: (Verdict, Index))
    ensures image.None? ==> r == (Undecodable, index)
    ensures image.Some? ==>
      var h := DHash.Hash(image.value);
      && (r.0 == Duplicate <==> |Bucket(index, h)| != 0)
      && r.0 != Undecodable
      && r.1.Keys == index.Keys + {h}
      && (r.0 == Duplicate ==> r.1 == index)
      && (Singletons(index) ==> Singletons(r.1) && (r.0 == Duplicate <==> h in index))
      && (r.0 == Unique && Singletons(index) ==> r.1 == index[h := [path]])
  {
    match image
    case None => (Undecodable, index)
    case Some(grid) =>
      var h := DHash.Hash(grid);
      var same := Bucket(index, h);
      if |same| == 0 then
        assert same + [path] == [path];
        (Unique, index[h := same + [path]])
      else
        (Duplicate, index)
  }

  /** `self.image_hash_dict`, the index of one keyword's run. */
  class DuplicateIndex {
    var buckets: Index

    ghost predicate Valid()
      reads this
    {
      Singletons(buckets)
    }

    /** `self.image_hash_dict = {}`. */
    constructor ()
      ensures Valid() && buckets == map[]
    {
      buckets := map[];
    }

    /** `_remove_duplicates(image_path)`: true (Duplicate) for a fingerprint seen before. */
    method Classify(path: string, image: Option<DHash.Grid>) returns (v: Verdict)
      requires Valid()
      modifies this
      ensures Valid()
      ensures (v, buckets) == Register(old(buckets), path, image)
    {
      if image.None? {
        return Undecodable;
      }
      var h := DHash.Hash(image.value);
      var same := Bucket(buckets, h);
      if |same| == 0 {
        same := same + [path];
        buckets := buckets[h := same];
        v := Unique;
      } else {
        v := Duplicate;
      }
    }
  }
}
