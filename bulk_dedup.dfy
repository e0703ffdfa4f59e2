/**
 * `remove_duplicates(image_dir)`: the standalone two-phase cleanup of a
 * directory. The first pass deletes every file cv2 cannot read and files
 * every other path under its fingerprint; the second pass, once the whole
 * listing has been scanned, deletes every path after the first in each
 * fingerprint's list.
 */
module BulkDedup {
  import opened Wrappers
  import DHash
  import LiveDedup

  /** One name of os.listdir(image_dir), with what cv2.imread made of that file (None: unreadable). */
  datatype Entry = Entry(name: string, image: Option<DHash.Grid>)

  predicate HasHash(e: Entry, h: int)
  {
    e.image.Some? && DHash.Hash(e.image.value) == h
  }

  /** Entry i is readable and an earlier readable entry has the same fingerprint. */
  predicate Repeat(listing: seq<Entry>, i: nat)
    requires i < |listing|
  {
    listing[i].image.Some?
    && exists j :: 0 <= j < i && HasHash(listing[j], DHash.Hash(listing[i].image.value))
  }

  /** Entry i is the first-listed readable entry of its fingerprint. */
  predicate FirstOfHash(listing: seq<Entry>, i: nat)
    requires i < |listing|
  {
    listing[i].image.Some? && !Repeat(listing, i)
  }

  /** os.listdir never lists a name twice. */
  predicate DistinctNames(listing: seq<Entry>)
  {
    forall i, j :: 0 <= i < j < |listing| ==> listing[i].name != listing[j].name
  }

  /** The unreadable names among the first n entries, in listing order. */
  function Undecodable(listing: seq<Entry>, n: nat): seq<string>
    requires n <= |listing|
  {
    if n == 0 then []
    else Undecodable(listing, n - 1) + (if listing[n - 1].image.None? then [listing[n - 1].name] else [])
  }

  /** The names among the first n entries filed under fingerprint h, in listing order. */
  function Group(listing: seq<Entry>, n: nat, h: int): seq<string>
    requires n <= |listing|
  {
    if n == 0 then []
    else Group(listing, n - 1, h) + (if HasHash(listing[n - 1], h) then [listing[n - 1].name] else [])
  }

  /** The fingerprints of the first n entries in the order the dictionary first receives them. */
  function Order(listing: seq<Entry>, n: nat): seq<int>
    requires n <= |listing|
  {
    if n == 0 then []
    else
      var e := listing[n - 1];
      var o := Order(listing, n - 1);
      if e.image.Some? && DHash.Hash(e.image.value) !in o then o + [DHash.Hash(e.image.value)] else o
  }

  /** `hashed_paths[1:]` when the list has more than one path. */
  function Tail(paths: seq<string>): seq<string>
  {
    if |paths| > 1 then paths[1..] else []
  }

  /** The deletions of the second pass, visiting the fingerprints hs in order. */
  function Duplicates(listing: seq<Entry>, hs: seq<int>): seq<string>
  {
    if hs == [] then []
    else Duplicates(listing, hs[..|hs| - 1]) + Tail(Group(listing, |listing|, hs[|hs| - 1]))
  }

  /** The names among the first n entries left in the directory: the first readable entry of each fingerprint. */
  function Survivors(listing: seq<Entry>, n: nat): seq<string>
    requires n <= |listing|
  {
    if n == 0 then []
    else Survivors(listing, n - 1) + (if FirstOfHash(listing, n - 1) then [listing[n - 1].name] else [])
  }

  /** The distinct fingerprints of the readable entries. */
  function HashSet(listing: seq<Entry>): set<int>
  {
    set j | 0 <= j < |listing| && listing[j].image.Some? :: DHash.Hash(listing[j].image.value)
  }

  /** What the first loop knows after the first i entries. */
  ghost predicate Scanned(listing: seq<Entry>, i: nat, removed: seq<string>, buckets: map<int, seq<string>>, order: seq<int>)
    requires i <= |listing|
  {
    && removed == Undecodable(listing, i)
    && order == Order(listing, i)
    && (forall h :: h in buckets <==> h in order)
    && (forall k :: 0 <= k < |order| ==> order[k] in buckets)
    && Filed(listing, i, buckets)
  }

  /** Every fingerprint's list holds exactly its group among the first i entries. */
  ghost predicate Filed(listing: seq<Entry>, i: nat, buckets: map<int, seq<string>>)
    requires i <= |listing|
  {
    forall h :: LiveDedup.Bucket(buckets, h) == Group(listing, i, h)
  }

  /**
   * The first loop of `remove_duplicates`: unreadable files are deleted on
   * the spot (the removals so far), every readable path is appended to its
   * fingerprint's list, and order records the dictionary's insertion order.
   */
  method ScanListing(listing: seq<Entry>) returns (removed: seq<string>, buckets: map<int, seq<string>>, order: seq<int>)
    ensures removed == Undecodable(listing, |listing|)
    ensures order == Order(listing, |listing|)
    ensures forall k :: 0 <= k < |order| ==> order[k] in buckets
    ensures forall h :: LiveDedup.Bucket(buckets, h) == Group(listing, |listing|, h)
  {
    buckets, order, removed := map[], [], [];
    var i := 0;
    while i < |listing|
      invariant 0 <= i <= |listing|
      invariant Scanned(listing, i, removed, buckets, order)
    {
      removed, buckets, order := ScanEntry(listing, i, removed, buckets, order);
      i := i + 1;
    }
  }

  /** One iteration of the first loop: delete entry i if unreadable, otherwise file it under its fingerprint. */
  method ScanEntry(listing: seq<Entry>, i: nat, removed: seq<string>, buckets: map<int, seq<string>>, order: seq<int>)
    returns (removed': seq<string>, buckets': map<int, seq<string>>, order': seq<int>)
    requires i < |listing| && Scanned(listing, i, removed, buckets, order)
    ensures Scanned(listing, i + 1, removed', buckets', order')
  {
    var e := listing[i];
    if e.image.None? {
      removed', buckets', order' := removed + [e.name], buckets, order;
      ScanUnreadable(listing, i, removed, removed', buckets, order);
    } else {
      var h := DHash.Hash(e.image.value);
      var same := LiveDedup.Bucket(buckets, h);
      order' := if h !in buckets then order + [h] else order;
      same := same + [e.name];
      buckets' := buckets[h := same];
      removed' := removed;
      ScanReadable(listing, i, removed, buckets, buckets', order, order');
    }
  }

  lemma ScanUnreadable(listing: seq<Entry>, i: nat, removed: seq<string>, removed': seq<string>,
                       buckets: map<int, seq<string>>, order: seq<int>)
    requires i < |listing| && listing[i].image.None?
    requires Scanned(listing, i, removed, buckets, order)
    requires removed' == removed + [listing[i].name]
    ensures Scanned(listing, i + 1, removed', buckets, order)
  {
    forall h ensures Group(listing, i + 1, h) == Group(listing, i, h) {
      assert !HasHash(listing[i], h);
    }
  }

  lemma ScanReadable(listing: seq<Entry>, i: nat, removed: seq<string>, buckets: map<int, seq<string>>,
                     buckets': map<int, seq<string>>, order: seq<int>, order': seq<int>)
    requires i < |listing| && listing[i].image.Some?
    requires Scanned(listing, i, removed, buckets, order)
    requires var h := DHash.Hash(listing[i].image.value);
      && buckets' == buckets[h := LiveDedup.Bucket(buckets, h) + [listing[i].name]]
      && order' == if h !in buckets then order + [h] else order
    ensures Scanned(listing, i + 1, removed, buckets', order')
  {
    assert removed == Undecodable(listing, i + 1);
    assert buckets'.Keys == buckets.Keys + {DHash.Hash(listing[i].image.value)};
    ScanKeys(listing, i, buckets, buckets', order, order');
    ScanGroups(listing, i, buckets, buckets');
  }

  /** Filing readable entry i keeps the dictionary's keys and its insertion order in step. */
  lemma ScanKeys(listing: seq<Entry>, i: nat, buckets: map<int, seq<string>>, buckets': map<int, seq<string>>,
                 order: seq<int>, order': seq<int>)
    requires i < |listing| && listing[i].image.Some?
    requires order == Order(listing, i) && forall x :: x in buckets <==> x in order
    requires var h := DHash.Hash(listing[i].image.value);
      && buckets'.Keys == buckets.Keys + {h}
      && order' == if h !in buckets then order + [h] else order
    ensures order' == Order(listing, i + 1)
    ensures forall x :: x in buckets' <==> x in order'
    ensures forall k :: 0 <= k < |order'| ==> order'[k] in buckets'
  {
  }

  /** Filing readable entry i under its fingerprint extends exactly that fingerprint's group. */
  lemma ScanGroups(listing: seq<Entry>, i: nat, buckets: map<int, seq<string>>, buckets': map<int, seq<string>>)
    requires i < |listing| && listing[i].image.Some?
    requires Filed(listing, i, buckets)
    requires var h := DHash.Hash(listing[i].image.value);
      buckets' == buckets[h := LiveDedup.Bucket(buckets, h) + [listing[i].name]]
    ensures Filed(listing, i + 1, buckets')
  {
    var e := listing[i];
    var h := DHash.Hash(e.image.value);
    forall h' ensures LiveDedup.Bucket(buckets', h') == Group(listing, i + 1, h') {
      assert HasHash(e, h') <==> h' == h;
    }
  }

  /**
   * The sequence of os.remove calls of `remove_duplicates`. All deletions of
   * unreadable files come before every deletion of a duplicate, and with the
   * names of a real listing a file is deleted exactly when it is not the
   * first readable file of its fingerprint.
   */
  method RemoveDuplicates(listing: seq<Entry>) returns (removed: seq<string>)
    ensures removed == Undecodable(listing, |listing|) + Duplicates(listing, Order(listing, |listing|))
    ensures DistinctNames(listing) ==>
      forall i :: 0 <= i < |listing| ==> (listing[i].name in removed <==> !FirstOfHash(listing, i))
  {
    var buckets, order;
    removed, buckets, order := ScanListing(listing);
    var duplicates := RemoveGroups(listing, buckets, order);
    removed := removed + duplicates;
    if DistinctNames(listing) {
      RemovedIffAll(listing);
    }
  }

  /** The second loop of `remove_duplicates`: every path of a group but its first, group by group in insertion order. */
  method RemoveGroups(listing: seq<Entry>, buckets: map<int, seq<string>>, order: seq<int>) returns (removed: seq<string>)
    requires forall k :: 0 <= k < |order| ==> order[k] in buckets
    requires forall h :: LiveDedup.Bucket(buckets, h) == Group(listing, |listing|, h)
    ensures removed == Duplicates(listing, order)
  {
    removed := [];
    var k := 0;
    while k < |order|
      invariant 0 <= k <= |order|
      invariant removed == Duplicates(listing, order[..k])
    {
      assert order[k] in buckets;
      var paths := buckets[order[k]];
      DuplicatesStep(listing, order, k, paths);
      if |paths| > 1 {
        removed := removed + paths[1..];
      }
      k := k + 1;
    }
    assert order[..k] == order;
  }

  lemma RemovedIffAll(listing: seq<Entry>)
    requires DistinctNames(listing)
    ensures var removed := Undecodable(listing, |listing|) + Duplicates(listing, Order(listing, |listing|));
      forall i :: 0 <= i < |listing| ==> (listing[i].name in removed <==> !FirstOfHash(listing, i))
  {
    forall i | 0 <= i < |listing|
      ensures listing[i].name in Undecodable(listing, |listing|) + Duplicates(listing, Order(listing, |listing|))
              <==> !FirstOfHash(listing, i)
    {
      RemovedIff(listing, i);
    }
  }

  lemma DuplicatesStep(listing: seq<Entry>, order: seq<int>, k: nat, paths: seq<string>)
    requires k < |order| && paths == Group(listing, |listing|, order[k])
    ensures Duplicates(listing, order[..k + 1]) == Duplicates(listing, order[..k]) + Tail(paths)
  {
    assert order[..k + 1][..k] == order[..k];
  }

  lemma RemovedIff(listing: seq<Entry>, i: nat)
    requires DistinctNames(listing) && i < |listing|
    ensures var n := |listing|;
      listing[i].name in Undecodable(listing, n) + Duplicates(listing, Order(listing, n))
      <==> !FirstOfHash(listing, i)
  {
    var n := |listing|;
    var x := listing[i].name;
    UndecodableIff(listing, n, i);
    var hs := Order(listing, n);
    if x in Duplicates(listing, hs) {
      var k := DuplicatesWitness(listing, hs, x);
      TailIff(listing, n, hs[k], i);
    }
    if Repeat(listing, i) {
      var h := DHash.Hash(listing[i].image.value);
      OrderIff(listing, n, h);
      assert HasHash(listing[i], h);
      var k :| 0 <= k < |hs| && hs[k] == h;
      TailIff(listing, n, h, i);
      DuplicatesContain(listing, hs, k, h, x);
    }
  }

  lemma {:induction false} OrderHasGroups(listing: seq<Entry>, n: nat, h: int)
    requires n <= |listing|
    ensures h in Order(listing, n) <==> |Group(listing, n, h)| > 0
  {
    OrderIff(listing, n, h);
    if h in Order(listing, n) {
      var j :| 0 <= j < n && HasHash(listing[j], h);
      GroupContains(listing, n, h, j);
    } else if |Group(listing, n, h)| > 0 {
      var j := GroupWitness(listing, n, h, 0);
    }
  }

  /** A fingerprint is in the order exactly when some readable entry has it; the order never repeats. */
  lemma {:induction false} OrderIff(listing: seq<Entry>, n: nat, h: int)
    requires n <= |listing|
    ensures h in Order(listing, n) <==> exists j :: 0 <= j < n && HasHash(listing[j], h)
    ensures Distinct(Order(listing, n))
  {
    OrderMembers(listing, n, h);
    OrderDistinct(listing, n);
  }

  lemma {:induction false} OrderMembers(listing: seq<Entry>, n: nat, h: int)
    requires n <= |listing|
    ensures h in Order(listing, n) <==> exists j :: 0 <= j < n && HasHash(listing[j], h)
  {
    if n > 0 {
      OrderMembers(listing, n - 1, h);
      if HasHash(listing[n - 1], h) {
        assert h in Order(listing, n);
      }
    }
  }

  lemma {:induction false} OrderDistinct(listing: seq<Entry>, n: nat)
    requires n <= |listing|
    ensures Distinct(Order(listing, n))
  {
    if n > 0 {
      OrderDistinct(listing, n - 1);
      var o := Order(listing, n - 1);
      var e := listing[n - 1];
      if e.image.Some? && DHash.Hash(e.image.value) !in o {
        var r := o + [DHash.Hash(e.image.value)];
        forall i, j | 0 <= i < j < |r|
          ensures r[i] != r[j]
        {
          if j < |o| {
            assert r[i] == o[i] && r[j] == o[j];
          } else {
            assert r[i] == o[i];
          }
        }
      }
    }
  }

  lemma {:induction false} GroupContains(listing: seq<Entry>, n: nat, h: int, j: nat)
    requires j < n <= |listing| && HasHash(listing[j], h)
    ensures listing[j].name in Group(listing, n, h)
  {
    if j < n - 1 {
      GroupContains(listing, n - 1, h, j);
    }
  }

  lemma {:induction false} GroupWitness(listing: seq<Entry>, n: nat, h: int, k: nat) returns (j: nat)
    requires n <= |listing| && k < |Group(listing, n, h)|
    ensures j < n && listing[j].name == Group(listing, n, h)[k] && HasHash(listing[j], h)
  {
    if k < |Group(listing, n - 1, h)| {
      j := GroupWitness(listing, n - 1, h, k);
    } else {
      j := n - 1;
    }
  }

  /** A name is a second or later path of its fingerprint's list exactly when its entry repeats that fingerprint. */
  lemma {:induction false} TailIff(listing: seq<Entry>, n: nat, h: int, i: nat)
    requires DistinctNames(listing) && i < n <= |listing|
    ensures listing[i].name in Tail(Group(listing, n, h)) <==> HasHash(listing[i], h) && Repeat(listing, i)
  {
    var g := Group(listing, n - 1, h);
    var e := listing[n - 1];
    if i < n - 1 {
      TailIff(listing, n - 1, h, i);
      assert listing[i].name != e.name;
      if !HasHash(e, h) {
        assert Group(listing, n, h) == g;
      } else if |g| > 0 {
        assert Tail(g + [e.name]) == Tail(g) + [e.name];
      } else {
        assert Tail(g + [e.name]) == [];
      }
    } else {
      TailIffLast(listing, n, h);
    }
  }

  lemma TailIffLast(listing: seq<Entry>, n: nat, h: int)
    requires DistinctNames(listing) && 0 < n <= |listing|
    ensures listing[n - 1].name in Tail(Group(listing, n, h)) <==> HasHash(listing[n - 1], h) && Repeat(listing, n - 1)
  {
    var e := listing[n - 1];
    var g := Group(listing, n - 1, h);
    NotInEarlierGroup(listing, n, h);
    if HasHash(e, h) {
      assert Group(listing, n, h) == g + [e.name];
      EarlierGroupIff(listing, n, h);
      if |g| > 0 {
        assert Tail(g + [e.name]) == g[1..] + [e.name];
      } else {
        assert Tail(g + [e.name]) == [];
      }
    } else {
      assert Group(listing, n, h) == g;
    }
  }

  lemma NotInEarlierGroup(listing: seq<Entry>, n: nat, h: int)
    requires DistinctNames(listing) && 0 < n <= |listing|
    ensures listing[n - 1].name !in Group(listing, n - 1, h)
  {
    var g := Group(listing, n - 1, h);
    if listing[n - 1].name in g {
      var k :| 0 <= k < |g| && g[k] == listing[n - 1].name;
      var j := GroupWitness(listing, n - 1, h, k);
      assert false;
    }
  }

  lemma EarlierGroupIff(listing: seq<Entry>, n: nat, h: int)
    requires 0 < n <= |listing| && HasHash(listing[n - 1], h)
    ensures |Group(listing, n - 1, h)| > 0 <==> Repeat(listing, n - 1)
  {
    if |Group(listing, n - 1, h)| > 0 {
      var j := GroupWitness(listing, n - 1, h, 0);
    }
    if Repeat(listing, n - 1) {
      var j :| 0 <= j < n - 1 && HasHash(listing[j], h);
      GroupContains(listing, n - 1, h, j);
    }
  }

  lemma {:induction false} DuplicatesWitness(listing: seq<Entry>, hs: seq<int>, x: string) returns (k: nat)
    requires x in Duplicates(listing, hs)
    ensures k < |hs| && x in Tail(Group(listing, |listing|, hs[k]))
  {
    var m := |hs| - 1;
    if x in Duplicates(listing, hs[..m]) {
      k := DuplicatesWitness(listing, hs[..m], x);
    } else {
      k := m;
    }
  }

  lemma {:induction false} DuplicatesContain(listing: seq<Entry>, hs: seq<int>, k: nat, h: int, x: string)
    requires k < |hs| && hs[k] == h && x in Tail(Group(listing, |listing|, h))
    ensures x in Duplicates(listing, hs)
  {
    var m := |hs| - 1;
    if k < m {
      var p := hs[..m];
      assert p[k] == h;
      DuplicatesContain(listing, p, k, h, x);
      DuplicatesGrow(listing, hs, x);
    } else {
      DuplicatesLast(listing, hs, x);
    }
  }

  lemma DuplicatesGrow(listing: seq<Entry>, hs: seq<int>, x: string)
    requires hs != [] && x in Duplicates(listing, hs[..|hs| - 1])
    ensures x in Duplicates(listing, hs)
  {
  }

  lemma DuplicatesLast(listing: seq<Entry>, hs: seq<int>, x: string)
    requires hs != [] && x in Tail(Group(listing, |listing|, hs[|hs| - 1]))
    ensures x in Duplicates(listing, hs)
  {
  }

  lemma {:induction false} UndecodableIff(listing: seq<Entry>, n: nat, i: nat)
    requires DistinctNames(listing) && i < n <= |listing|
    ensures listing[i].name in Undecodable(listing, n) <==> listing[i].image.None?
  {
    if i < n - 1 {
      UndecodableIff(listing, n - 1, i);
    } else if listing[i].name in Undecodable(listing, n - 1) {
      var j := UndecodableWitness(listing, n - 1, listing[i].name);
      assert false;
    }
  }

  lemma {:induction false} UndecodableWitness(listing: seq<Entry>, n: nat, x: string) returns (j: nat)
    requires n <= |listing| && x in Undecodable(listing, n)
    ensures j < n && listing[j].name == x
  {
    if x in Undecodable(listing, n - 1) {
      j := UndecodableWitness(listing, n - 1, x);
    } else {
      j := n - 1;
    }
  }

  /** As many files survive as there are distinct fingerprints among the readable files. */
  lemma SurvivorCount(listing: seq<Entry>)
    ensures |Survivors(listing, |listing|)| == |HashSet(listing)|
  {
    var n := |listing|;
    SurvivorsMatchOrder(listing, n);
    OrderIff(listing, n, 0);
    forall h
      ensures h in HashSet(listing) <==> h in Order(listing, n)
    {
      OrderIff(listing, n, h);
    }
    assert HashSet(listing) == set h | h in Order(listing, n);
    DistinctCard(Order(listing, n));
  }

  lemma {:induction false} SurvivorsMatchOrder(listing: seq<Entry>, n: nat)
    requires n <= |listing|
    ensures |Survivors(listing, n)| == |Order(listing, n)|
  {
    if n > 0 {
      SurvivorsMatchOrder(listing, n - 1);
      var e := listing[n - 1];
      if e.image.Some? {
        OrderIff(listing, n - 1, DHash.Hash(e.image.value));
      }
    }
  }

  lemma {:induction false} DistinctCard(s: seq<int>)
    requires Distinct(s)
    ensures |set x | x in s| == |s|
  {
    if s != [] {
      var p := s[..|s| - 1];
      DistinctCard(p);
      assert (set x | x in s) == (set x | x in p) + {s[|s| - 1]};
    }
  }
}
