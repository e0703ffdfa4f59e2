/**
 * `post_processing`: which of the directory operations run, and in which
 * order. The operations themselves are modelled elsewhere (duplicate
 * removal) or left out (resizing, grayscaling, averaging sizes).
 */
module PostProcessing {
  import opened Wrappers

  /** One directory operation, with the size for resizing. */
  datatype Operation = RemoveDuplicates | Resize(size: seq<int>) | Grayscale | AverageSize

  /** The fixed position of each operation in `post_processing`. */
  function Rank(op: Operation): (r: nat)
    ensures r < 4
  {
    match op
    case RemoveDuplicates => 0
    case Resize(_) => 1
    case Grayscale => 2
    case AverageSize => 3
  }

  /** Python truthiness of the resize argument: None and the empty tuple are false. */
  predicate Truthy(resize: Option<seq<int>>)
  {
    resize.Some? && |resize.value| > 0
  }

  /**
   * The operations `post_processing` performs: each one whose flag is set,
   * exactly once, in the order duplicate removal, resizing, grayscaling,
   * size averaging.
   */
  function Plan(removeDuplicates: bool, resize: Option<seq<int>>, grayscale: bool, avgImageSize: bool): (r: seq<Operation>)
    ensures RemoveDuplicates in r <==> removeDuplicates
    ensures Grayscale in r <==> grayscale
    ensures AverageSize in r <==> avgImageSize
    ensures forall s :: Resize(s) in r <==> Truthy(resize) && s == resize.value
    ensures |r| == (if removeDuplicates then 1 else 0) + (if Truthy(resize) then 1 else 0)
                 + (if grayscale then 1 else 0) + (if avgImageSize then 1 else 0)
  {
    (if removeDuplicates then [RemoveDuplicates] else [])
    + (if Truthy(resize) then [Resize(resize.value)] else [])
    + (if grayscale then [Grayscale] else [])
    + (if avgImageSize then [AverageSize] else [])
  }

  /** The default arguments of `post_processing`: every step off. */
  const DefaultRemoveDuplicates: bool := false
  const DefaultResize: Option<seq<int>> := None
  const DefaultGrayscale: bool := false
  const DefaultAvgImageSize: bool := false

  /** Called with its defaults, `post_processing` does nothing to the folder. */
  lemma DefaultPlan()
    ensures Plan(DefaultRemoveDuplicates, DefaultResize, DefaultGrayscale, DefaultAvgImageSize) == []
  {
  }

  /** The operations of a plan come in `post_processing`'s fixed order, so none comes twice. */
  lemma PlanOrder(removeDuplicates: bool, resize: Option<seq<int>>, grayscale: bool, avgImageSize: bool)
    ensures var r := Plan(removeDuplicates, resize, grayscale, avgImageSize);
      forall i, j :: 0 <= i < j < |r| ==> Rank(r[i]) < Rank(r[j])
  {
    var a: seq<Operation> := if removeDuplicates then [RemoveDuplicates] else [];
    var b: seq<Operation> := if Truthy(resize) then [Resize(resize.value)] else [];
    var c: seq<Operation> := if grayscale then [Grayscale] else [];
    var d: seq<Operation> := if avgImageSize then [AverageSize] else [];
    PartsAscending(a, b, c, d);
    assert Plan(removeDuplicates, resize, grayscale, avgImageSize) == a + b + c + d;
  }

  /** Four pieces of at most one operation each, of ranks 0 to 3, concatenate in increasing rank. */
  lemma PartsAscending(a: seq<Operation>, b: seq<Operation>, c: seq<Operation>, d: seq<Operation>)
    requires |a| <= 1 && forall i :: 0 <= i < |a| ==> Rank(a[i]) == 0
    requires |b| <= 1 && forall i :: 0 <= i < |b| ==> Rank(b[i]) == 1
    requires |c| <= 1 && forall i :: 0 <= i < |c| ==> Rank(c[i]) == 2
    requires |d| <= 1 && forall i :: 0 <= i < |d| ==> Rank(d[i]) == 3
    ensures Ascending(a + b + c + d)
  {
    Extend([], a, 0);
    assert [] + a == a;
    Extend(a, b, 1);
    Extend(a + b, c, 2);
    Extend(a + b + c, d, 3);
  }

  /** Ranks strictly increase along ops. */
  predicate Ascending(ops: seq<Operation>)
  {
    forall i, j :: 0 <= i < j < |ops| ==> Rank(ops[i]) < Rank(ops[j])
  }

  /** Every rank in ops is below k. */
  predicate Below(ops: seq<Operation>, k: nat)
  {
    forall i :: 0 <= i < |ops| ==> Rank(ops[i]) < k
  }

  /** Appending at most one operation of rank k after ranks below k keeps the ranks increasing. */
  lemma Extend(ops: seq<Operation>, extra: seq<Operation>, k: nat)
    requires Ascending(ops) && Below(ops, k)
    requires |extra| <= 1 && forall i :: 0 <= i < |extra| ==> Rank(extra[i]) == k
    ensures Ascending(ops + extra) && Below(ops + extra, k + 1)
  {
    var r := ops + extra;
    forall i, j | 0 <= i < j < |r|
      ensures Rank(r[i]) < Rank(r[j])
    {
      if j < |ops| {
        assert r[i] == ops[i] && r[j] == ops[j];
      } else {
        assert r[i] == ops[i] && r[j] == extra[0];
      }
    }
  }

  /** Duplicates are removed before any image is resized or grayscaled. */
  lemma DedupFirst(removeDuplicates: bool, resize: Option<seq<int>>, grayscale: bool, avgImageSize: bool)
    requires removeDuplicates
    ensures var r := Plan(removeDuplicates, resize, grayscale, avgImageSize);
      |r| > 0 && r[0] == RemoveDuplicates
  {
    var r := Plan(removeDuplicates, resize, grayscale, avgImageSize);
    PlanOrder(removeDuplicates, resize, grayscale, avgImageSize);
    assert RemoveDuplicates in r;
    var i :| 0 <= i < |r| && r[i] == RemoveDuplicates;
    if i > 0 {
      assert Rank(r[0]) < Rank(r[i]) == 0;
    }
  }
}
