/**
 * The per-keyword download loop of `download`: fetch the candidate
 * addresses in order, stop as soon as max_limit images are counted, skip
 * failures, HTML answers and disallowed formats, write every other answer
 * as keyword_<n><ext>, and with duplicate removal on take a written image
 * back when its fingerprint was already seen.
 *
 * Classify sorts each answer into skipped or saved; Step and RunFrom say
 * what one iteration and the whole loop do to the bookkeeping; Kept and
 * Seen say independently which candidates end up counted; Inv ties the
 * two together and the lemmas below draw the consequences.
 */
module Acquisition {
  import opened Wrappers
  import Text
  import DHash
  import LiveDedup
  import Naming
  import Reveal

  /**
   * What fetching one candidate address gave. Failed: the request or the
   * MIME sniff raised. Fetched: shown is str() of the body, mime what the
   * sniffer reports, image what cv2 reads back from the written file,
   * downscaled for fingerprinting (None when it cannot decode it).
   */
  datatype Fetch =
    | Failed
    | Fetched(shown: string, mime: string, image: Option<DHash.Grid>)

  /** One keyword's parameters: the keyword, its max_limit, image_formats and remove_duplicates. */
  datatype Settings = Settings(keyword: string, maxLimit: int, formats: set<string>, dedup: bool)

  /** The default arguments of `download`: max_limit, image_formats and remove_duplicates. */
  const DefaultMaxLimit: int := 10
  const DefaultFormats: set<string> := {".jpg", ".jpeg", ".png"}
  const DefaultDedup: bool := false

  /** A keyword's parameters when `download` is called with its defaults. */
  function DefaultSettings(keyword: string): Settings
  {
    Settings(keyword, DefaultMaxLimit, DefaultFormats, DefaultDedup)
  }

  /**
   * What the loop does with a candidate before consulting the duplicate
   * index: Skipped when the request failed, the body mentions "html" or the
   * derived extension is not allowed; otherwise Saved under extension ext,
   * with the image cv2 reads back from the saved file.
   */
  datatype Kind = Skipped | Saved(ext: string, image: Option<DHash.Grid>)

  /** A candidate whose body is written to disk: fetched, not an HTML page, in an allowed format. */
  predicate Written(cfg: Settings, c: Fetch)
  {
    c.Fetched? && !Text.Contains(c.shown, "html") && Naming.Extension(c.mime) in cfg.formats
  }

  function Classify(cfg: Settings, c: Fetch): (r: Kind)
    ensures r.Saved? <==> Written(cfg, c)
    ensures r.Saved? ==> r.ext == Naming.Extension(c.mime) && r.image == c.image && r.ext[0] == '.'
  {
    if Written(cfg, c) then Saved(Naming.Extension(c.mime), c.image) else Skipped
  }

  /**
   * For a MIME type of the form type/subtype, a fetched answer is saved
   * exactly when its body does not mention "html" and "." + subtype is an
   * allowed format; it is then saved under "." + subtype.
   */
  lemma ClassifyMime(cfg: Settings, c: Fetch, kind: string, subtype: string)
    requires c.Fetched? && '/' !in kind && '/' !in subtype && c.mime == kind + "/" + subtype
    ensures Classify(cfg, c) ==
      if !Text.Contains(c.shown, "html") && "." + subtype in cfg.formats then Saved("." + subtype, c.image) else Skipped
  {
    Naming.ExtensionOfType(kind, subtype);
  }

  /** With the default formats, only jpg, jpeg and png answers are kept. */
  lemma DefaultFormatsMime(keyword: string, c: Fetch, kind: string, subtype: string)
    requires c.Fetched? && '/' !in kind && '/' !in subtype && c.mime == kind + "/" + subtype
    ensures Classify(DefaultSettings(keyword), c).Saved? <==>
      !Text.Contains(c.shown, "html") && subtype in {"jpg", "jpeg", "png"}
  {
    ClassifyMime(DefaultSettings(keyword), c, kind, subtype);
    DotDefault(subtype);
  }

  /** "." + subtype is a default format exactly when subtype is jpg, jpeg or png. */
  lemma DotDefault(subtype: string)
    ensures "." + subtype in DefaultFormats <==> subtype in {"jpg", "jpeg", "png"}
  {
    var ext := "." + subtype;
    assert ext[1..] == subtype;
    if ext == ".jpg" {
      assert subtype == ".jpg"[1..] == "jpg";
    } else if ext == ".jpeg" {
      assert subtype == ".jpeg"[1..] == "jpeg";
    } else if ext == ".png" {
      assert subtype == ".png"[1..] == "png";
    }
  }

  /** The kinds of all candidates, in order. */
  function Kinds(cfg: Settings, outcomes: seq<Fetch>): (r: seq<Kind>)
    ensures |r| == |outcomes|
    ensures forall j :: 0 <= j < |outcomes| ==> r[j] == Classify(cfg, outcomes[j])
    ensures Dotted(r)
  {
    if outcomes == [] then [] else [Classify(cfg, outcomes[0])] + Kinds(cfg, outcomes[1..])
  }

  /** Every saved candidate's extension starts with a dot. */
  predicate Dotted(kinds: seq<Kind>)
  {
    forall j :: 0 <= j < |kinds| && kinds[j].Saved? ==> |kinds[j].ext| >= 1 && kinds[j].ext[0] == '.'
  }

  /**
   * The loop's state: count_dict['Downloaded'], image_number, the live
   * duplicate index, the keyword directory (file name to the candidate
   * whose body it holds), how many candidates were requested, and which
   * candidates were counted, in order.
   */
  datatype Progress = Progress(downloaded: int, number: int, index: LiveDedup.Index,
                               disk: map<string, nat>, requested: nat, kept: seq<nat>)

  /** The state when a keyword's loop begins: counters at zero, a fresh index and an empty directory. */
  function Start(): Progress
  {
    Progress(0, 0, map[], map[], 0, [])
  }

  predicate Decodable(k: Kind)
  {
    k.Saved? && k.image.Some?
  }

  function HashOf(k: Kind): int
    requires Decodable(k)
  {
    DHash.Hash(k.image.value)
  }

  function Ext(k: Kind): string
  {
    if k.Saved? then k.ext else ""
  }

  /** The name of the file that counts as the n-th (from 0) image of the keyword. */
  function Name(cfg: Settings, k: Kind, n: nat): string
  {
    Naming.FileName(cfg.keyword, n + 1, Ext(k))
  }

  function Accept(st: Progress, i: nat): Progress
  {
    st.(number := st.number + 1, downloaded := st.downloaded + 1, kept := st.kept + [i])
  }

  /**
   * One iteration for the next candidate, of kind k. A saved duplicate is
   * taken back: both counters go down by one, the file is removed, and both
   * go up by one again. A saved image the fingerprinting cannot decode
   * raises inside the try block: the file stays and nothing is counted.
   */
  function Step(cfg: Settings, k: Kind, st: Progress): (r: Progress)
    ensures r.requested == st.requested + 1
  {
    var i := st.requested;
    var st := st.(requested := i + 1);
    match k
    case Skipped => st
    case Saved(ext, image) =>
      var name := Naming.FileName(cfg.keyword, st.number + 1, ext);
      var st := st.(disk := st.disk[name := i]);
      if !cfg.dedup then Accept(st, i)
      else
        var (verdict, index) := LiveDedup.Register(st.index, name, image);
        match verdict
        case Undecodable => st
        case Duplicate =>
          var st := st.(downloaded := st.downloaded - 1, number := st.number - 1, disk := st.disk - {name});
          st.(number := st.number + 1, downloaded := st.downloaded + 1)
        case Unique => Accept(st.(index := index), i)
  }

  /** The loop from state st on: it ends after the last candidate or as soon as max_limit images are counted. */
  function RunFrom(cfg: Settings, kinds: seq<Kind>, st: Progress): Progress
    decreases |kinds| - st.requested
  {
    if st.requested >= |kinds| || st.downloaded == cfg.maxLimit then st
    else RunFrom(cfg, kinds, Step(cfg, kinds[st.requested], st))
  }

  /** The whole loop for one keyword over the answers to its candidate addresses. */
  function Run(cfg: Settings, outcomes: seq<Fetch>): Progress
  {
    RunFrom(cfg, Kinds(cfg, outcomes), Start())
  }

  // ---------------------------------------------------------------------
  // Which candidates count, stated without the loop.

  /** The fingerprints of the saved, decodable candidates among the first n. */
  function Seen(kinds: seq<Kind>, n: nat): set<int>
    requires n <= |kinds|
  {
    if n == 0 then {}
    else Seen(kinds, n - 1) + if Decodable(kinds[n - 1]) then {HashOf(kinds[n - 1])} else {}
  }

  /**
   * Candidate j counts when it is saved and, with duplicate removal on,
   * decodable with a fingerprint no earlier saved candidate had.
   */
  predicate Eligible(cfg: Settings, kinds: seq<Kind>, j: nat)
    requires j < |kinds|
  {
    kinds[j].Saved? && (!cfg.dedup || (Decodable(kinds[j]) && HashOf(kinds[j]) !in Seen(kinds, j)))
  }

  /** The eligible candidates among the first n, in order. */
  function Kept(cfg: Settings, kinds: seq<Kind>, n: nat): seq<nat>
    requires n <= |kinds|
  {
    if n == 0 then []
    else Kept(cfg, kinds, n - 1) + if Eligible(cfg, kinds, n - 1) then [n - 1] else []
  }

  /** Candidate j was saved, cannot be decoded and duplicate removal is on: its file is left behind uncounted. */
  predicate Leftover(cfg: Settings, kinds: seq<Kind>, j: nat)
    requires j < |kinds|
  {
    cfg.dedup && kinds[j].Saved? && kinds[j].image.None?
  }

  /** File name is the own name of a counted candidate x. */
  predicate OwnName(cfg: Settings, kinds: seq<Kind>, kept: seq<nat>, name: string, x: nat)
  {
    exists n :: 0 <= n < |kept| && kept[n] == x && x < |kinds| && name == Name(cfg, kinds[x], n)
  }

  // ---------------------------------------------------------------------
  // The loop invariant.

  ghost predicate Counted(cfg: Settings, kinds: seq<Kind>, st: Progress)
  {
    && st.requested <= |kinds|
    && st.kept == Kept(cfg, kinds, st.requested)
    && st.downloaded == |st.kept| && st.number == |st.kept|
  }

  ghost predicate NotFullBefore(cfg: Settings, kinds: seq<Kind>, st: Progress)
    requires st.requested <= |kinds|
  {
    forall n :: 0 <= n < st.requested ==> |Kept(cfg, kinds, n)| != cfg.maxLimit
  }

  /** With duplicate removal on, the index maps the fingerprints seen so far, each to its counted file. */
  ghost predicate Indexed(cfg: Settings, kinds: seq<Kind>, st: Progress)
    requires st.requested <= |kinds|
  {
    if cfg.dedup then
      && st.index.Keys == Seen(kinds, st.requested)
      && LiveDedup.Singletons(st.index)
      && forall n :: 0 <= n < |st.kept| ==> IndexedAt(cfg, kinds, st, n)
    else st.index == map[]
  }

  /** Every counted file is on disk under its own name; every other file on disk is a leftover. */
  ghost predicate Stored(cfg: Settings, kinds: seq<Kind>, st: Progress)
    requires st.requested <= |kinds|
  {
    && (forall n :: 0 <= n < |st.kept| ==>
          && st.kept[n] < |kinds|
          && Name(cfg, kinds[st.kept[n]], n) in st.disk
          && st.disk[Name(cfg, kinds[st.kept[n]], n)] == st.kept[n])
    && (forall name :: name in st.disk ==>
          && st.disk[name] < st.requested
          && (Leftover(cfg, kinds, st.disk[name]) || OwnName(cfg, kinds, st.kept, name, st.disk[name])))
  }

  ghost predicate Inv(cfg: Settings, kinds: seq<Kind>, st: Progress)
  {
    && Counted(cfg, kinds, st)
    && NotFullBefore(cfg, kinds, st)
    && Indexed(cfg, kinds, st)
    && Stored(cfg, kinds, st)
  }

  // ---------------------------------------------------------------------
  // Facts about Kept and Seen.

  /** Counted candidates come in increasing order, each below n and eligible; every eligible one below n is counted. */
  lemma {:induction false} KeptFacts(cfg: Settings, kinds: seq<Kind>, n: nat)
    requires n <= |kinds|
    ensures var kept := Kept(cfg, kinds, n);
      && |kept| <= n
      && (forall m :: 0 <= m < |kept| ==> kept[m] < n && Eligible(cfg, kinds, kept[m]))
      && (forall a, b :: 0 <= a < b < |kept| ==> kept[a] < kept[b])
      && (forall j :: 0 <= j < n ==> (Eligible(cfg, kinds, j) <==> j in kept))
  {
    if n > 0 {
      KeptFacts(cfg, kinds, n - 1);
    }
  }

  /** A saved, decodable candidate's fingerprint is seen from then on. */
  lemma {:induction false} SeenContains(kinds: seq<Kind>, n: nat, j: nat)
    requires j < n <= |kinds| && Decodable(kinds[j])
    ensures HashOf(kinds[j]) in Seen(kinds, n)
  {
    if j < n - 1 {
      SeenContains(kinds, n - 1, j);
    }
  }

  /** Each seen fingerprint belongs to some earlier saved, decodable candidate. */
  lemma {:induction false} SeenWitness(kinds: seq<Kind>, n: nat, h: int) returns (j: nat)
    requires n <= |kinds| && h in Seen(kinds, n)
    ensures j < n && Decodable(kinds[j]) && HashOf(kinds[j]) == h
  {
    if Decodable(kinds[n - 1]) && HashOf(kinds[n - 1]) == h {
      j := n - 1;
    } else {
      j := SeenWitness(kinds, n - 1, h);
    }
  }

  /** Names of different counted positions differ. */
  lemma NamesDiffer(cfg: Settings, k: Kind, l: Kind, m: nat, n: nat)
    requires k.Saved? && |k.ext| >= 1 && k.ext[0] == '.'
    requires l.Saved? && |l.ext| >= 1 && l.ext[0] == '.'
    requires m != n
    ensures Name(cfg, k, m) != Name(cfg, l, n)
  {
    if Name(cfg, k, m) == Name(cfg, l, n) {
      Naming.FileNameInjective(cfg.keyword, m + 1, n + 1, k.ext, l.ext);
    }
  }

  /** A counted candidate keeps its own name as more candidates are counted. */
  lemma OwnNameGrows(cfg: Settings, kinds: seq<Kind>, kept: seq<nat>, i: nat, name: string, x: nat)
    requires OwnName(cfg, kinds, kept, name, x)
    ensures OwnName(cfg, kinds, kept + [i], name, x)
  {
    var n :| 0 <= n < |kept| && kept[n] == x && x < |kinds| && name == Name(cfg, kinds[x], n);
    assert (kept + [i])[n] == x;
  }

  /** The new file's name differs from every counted file's name. */
  lemma FreshName(cfg: Settings, kinds: seq<Kind>, st: Progress, ext: string)
    requires Inv(cfg, kinds, st) && Dotted(kinds)
    requires |ext| >= 1 && ext[0] == '.'
    ensures forall n :: 0 <= n < |st.kept| ==>
      Name(cfg, kinds[st.kept[n]], n) != Naming.FileName(cfg.keyword, st.number + 1, ext)
  {
    KeptFacts(cfg, kinds, st.requested);
    forall n | 0 <= n < |st.kept|
      ensures Name(cfg, kinds[st.kept[n]], n) != Naming.FileName(cfg.keyword, st.number + 1, ext)
    {
      NamesDiffer(cfg, kinds[st.kept[n]], Saved(ext, None), n, |st.kept|);
    }
  }

  // ---------------------------------------------------------------------
  // One iteration, case by case: what it does to the state.

  /** Without duplicate removal a saved candidate is written and counted. */
  lemma ShapePlain(cfg: Settings, k: Kind, st: Progress)
    requires k.Saved? && !cfg.dedup
    ensures var name := Naming.FileName(cfg.keyword, st.number + 1, k.ext);
      Step(cfg, k, st) == Accept(st.(requested := st.requested + 1, disk := st.disk[name := st.requested]), st.requested)
  {
  }

  /** With duplicate removal on, an undecodable candidate is written and nothing else changes. */
  lemma ShapeUnreadable(cfg: Settings, k: Kind, st: Progress)
    requires k.Saved? && k.image.None? && cfg.dedup
    ensures var name := Naming.FileName(cfg.keyword, st.number + 1, k.ext);
      Step(cfg, k, st) == st.(requested := st.requested + 1, disk := st.disk[name := st.requested])
  {
  }

  /** With duplicate removal on, a candidate with a known fingerprint is written and removed again. */
  lemma ShapeDuplicate(cfg: Settings, k: Kind, st: Progress)
    requires Decodable(k) && cfg.dedup && LiveDedup.Singletons(st.index) && HashOf(k) in st.index
    ensures var name := Naming.FileName(cfg.keyword, st.number + 1, k.ext);
      Step(cfg, k, st) == st.(requested := st.requested + 1, disk := st.disk[name := st.requested] - {name})
  {
  }

  /** With duplicate removal on, a candidate with a new fingerprint is written, registered and counted. */
  lemma ShapeUnique(cfg: Settings, k: Kind, st: Progress)
    requires Decodable(k) && cfg.dedup && LiveDedup.Singletons(st.index) && HashOf(k) !in st.index
    ensures var name := Naming.FileName(cfg.keyword, st.number + 1, k.ext);
      Step(cfg, k, st) == Accept(st.(requested := st.requested + 1, disk := st.disk[name := st.requested],
                                     index := st.index[HashOf(k) := [name]]), st.requested)
  {
  }

  // ---------------------------------------------------------------------
  // One iteration, part by part of the invariant.

  /** A request that counts nothing keeps the counters and the quota history right. */
  lemma CountedIdle(cfg: Settings, kinds: seq<Kind>, st: Progress, st': Progress)
    requires Counted(cfg, kinds, st) && NotFullBefore(cfg, kinds, st)
    requires st.requested < |kinds| && st.downloaded != cfg.maxLimit && !Eligible(cfg, kinds, st.requested)
    requires st'.requested == st.requested + 1 && st'.kept == st.kept
    requires st'.downloaded == st.downloaded && st'.number == st.number
    ensures Counted(cfg, kinds, st') && NotFullBefore(cfg, kinds, st')
  {
    assert Kept(cfg, kinds, st.requested + 1) == Kept(cfg, kinds, st.requested);
  }

  /** A request that counts its candidate keeps the counters and the quota history right. */
  lemma CountedAccept(cfg: Settings, kinds: seq<Kind>, st: Progress, st': Progress)
    requires Counted(cfg, kinds, st) && NotFullBefore(cfg, kinds, st)
    requires st.requested < |kinds| && st.downloaded != cfg.maxLimit && Eligible(cfg, kinds, st.requested)
    requires st'.requested == st.requested + 1 && st'.kept == st.kept + [st.requested]
    requires st'.downloaded == st.downloaded + 1 && st'.number == st.number + 1
    ensures Counted(cfg, kinds, st') && NotFullBefore(cfg, kinds, st')
  {
    assert Kept(cfg, kinds, st.requested + 1) == Kept(cfg, kinds, st.requested) + [st.requested];
  }

  /** A request that adds no fingerprint and counts nothing keeps the index right. */
  lemma IndexedSame(cfg: Settings, kinds: seq<Kind>, st: Progress, st': Progress)
    requires st.requested < |kinds| && Indexed(cfg, kinds, st)
    requires st'.requested == st.requested + 1 && st'.kept == st.kept && st'.index == st.index
    requires Seen(kinds, st'.requested) == Seen(kinds, st.requested)
    ensures Indexed(cfg, kinds, st')
  {
    if cfg.dedup {
      forall n | 0 <= n < |st'.kept|
        ensures IndexedAt(cfg, kinds, st', n)
      {
        assert IndexedAt(cfg, kinds, st, n);
      }
    }
  }

  /** Registering a new fingerprint under the next file name keeps the index as Indexed says. */
  lemma IndexedUnique(cfg: Settings, kinds: seq<Kind>, st: Progress, st': Progress)
    requires Counted(cfg, kinds, st) && Indexed(cfg, kinds, st) && st.requested < |kinds| && cfg.dedup
    requires Decodable(kinds[st.requested]) && HashOf(kinds[st.requested]) !in Seen(kinds, st.requested)
    requires st'.requested == st.requested + 1 && st'.kept == st.kept + [st.requested]
    requires st'.index == st.index[HashOf(kinds[st.requested]) := [Name(cfg, kinds[st.requested], |st.kept|)]]
    ensures Indexed(cfg, kinds, st')
  {
    var j := st.requested;
    assert Seen(kinds, j + 1) == Seen(kinds, j) + {HashOf(kinds[j])};
    KeptBelow(cfg, kinds, j);
    IndexedUniqueEntries(cfg, kinds, st, st');
  }

  /** After registering a new fingerprint, every counted entry is indexed under its own name. */
  lemma IndexedUniqueEntries(cfg: Settings, kinds: seq<Kind>, st: Progress, st': Progress)
    requires st.requested < |kinds|
    requires forall n :: 0 <= n < |st.kept| ==> st.kept[n] < st.requested && IndexedAt(cfg, kinds, st, n)
    requires Decodable(kinds[st.requested]) && HashOf(kinds[st.requested]) !in Seen(kinds, st.requested)
    requires st'.kept == st.kept + [st.requested]
    requires st'.index == st.index[HashOf(kinds[st.requested]) := [Name(cfg, kinds[st.requested], |st.kept|)]]
    ensures forall n :: 0 <= n < |st'.kept| ==> IndexedAt(cfg, kinds, st', n)
  {
    forall n | 0 <= n < |st'.kept|
      ensures IndexedAt(cfg, kinds, st', n)
    {
      if n < |st.kept| {
        IndexedUniqueOld(cfg, kinds, st, st', n);
      } else {
        assert n == |st.kept|;
        IndexedUniqueNew(cfg, kinds, st, st');
      }
    }
  }

  /** The file counted last is indexed under its own fingerprint and name. */
  lemma IndexedUniqueNew(cfg: Settings, kinds: seq<Kind>, st: Progress, st': Progress)
    requires st.requested < |kinds| && Decodable(kinds[st.requested])
    requires st'.kept == st.kept + [st.requested]
    requires st'.index == st.index[HashOf(kinds[st.requested]) := [Name(cfg, kinds[st.requested], |st.kept|)]]
    ensures IndexedAt(cfg, kinds, st', |st.kept|)
  {
    assert st'.kept[|st.kept|] == st.requested;
  }

  /** Entry n of the counted list is indexed under its own fingerprint and name. */
  ghost predicate IndexedAt(cfg: Settings, kinds: seq<Kind>, st: Progress, n: nat)
    requires n < |st.kept|
  {
    && st.kept[n] < |kinds| && Decodable(kinds[st.kept[n]])
    && HashOf(kinds[st.kept[n]]) in st.index
    && st.index[HashOf(kinds[st.kept[n]])] == [Name(cfg, kinds[st.kept[n]], n)]
  }

  /** A file counted earlier keeps its index entry when a new fingerprint is registered. */
  lemma IndexedUniqueOld(cfg: Settings, kinds: seq<Kind>, st: Progress, st': Progress, n: nat)
    requires st.requested < |kinds| && n < |st.kept| && st.kept[n] < st.requested
    requires IndexedAt(cfg, kinds, st, n)
    requires Decodable(kinds[st.requested]) && HashOf(kinds[st.requested]) !in Seen(kinds, st.requested)
    requires st'.kept == st.kept + [st.requested]
    requires st'.index == st.index[HashOf(kinds[st.requested]) := [Name(cfg, kinds[st.requested], |st.kept|)]]
    ensures IndexedAt(cfg, kinds, st', n)
  {
    var x := st.kept[n];
    assert st'.kept[n] == x;
    SeenContains(kinds, st.requested, x);
  }

  /** Counted candidates among the first n lie below n. */
  lemma {:induction false} KeptBelow(cfg: Settings, kinds: seq<Kind>, n: nat)
    requires n <= |kinds|
    ensures forall m :: 0 <= m < |Kept(cfg, kinds, n)| ==> Kept(cfg, kinds, n)[m] < n
  {
    if n > 0 {
      KeptBelow(cfg, kinds, n - 1);
    }
  }

  /** Counting candidate j under the next number keeps every file where Stored says it is. */
  lemma StoredAccept(cfg: Settings, kinds: seq<Kind>, st: Progress, st': Progress)
    requires st.requested < |kinds| && st'.requested == st.requested + 1
    requires Stored(cfg, kinds, st)
    requires st'.kept == st.kept + [st.requested]
    requires st'.disk == st.disk[Name(cfg, kinds[st.requested], |st.kept|) := st.requested]
    requires forall n :: 0 <= n < |st.kept| ==>
      Name(cfg, kinds[st.kept[n]], n) != Name(cfg, kinds[st.requested], |st.kept|)
    ensures Stored(cfg, kinds, st')
  {
    StoredAcceptKept(cfg, kinds, st, st');
    StoredAcceptDisk(cfg, kinds, st, st');
  }

  /** After counting candidate j, every counted file is on disk under its own name. */
  lemma StoredAcceptKept(cfg: Settings, kinds: seq<Kind>, st: Progress, st': Progress)
    requires st.requested < |kinds|
    requires forall n :: 0 <= n < |st.kept| ==>
      && st.kept[n] < |kinds|
      && Name(cfg, kinds[st.kept[n]], n) in st.disk
      && st.disk[Name(cfg, kinds[st.kept[n]], n)] == st.kept[n]
    requires st'.kept == st.kept + [st.requested]
    requires st'.disk == st.disk[Name(cfg, kinds[st.requested], |st.kept|) := st.requested]
    requires forall n :: 0 <= n < |st.kept| ==>
      Name(cfg, kinds[st.kept[n]], n) != Name(cfg, kinds[st.requested], |st.kept|)
    ensures forall n :: 0 <= n < |st'.kept| ==>
      && st'.kept[n] < |kinds|
      && Name(cfg, kinds[st'.kept[n]], n) in st'.disk
      && st'.disk[Name(cfg, kinds[st'.kept[n]], n)] == st'.kept[n]
  {
    forall n | 0 <= n < |st'.kept|
      ensures st'.kept[n] < |kinds| && Name(cfg, kinds[st'.kept[n]], n) in st'.disk
      ensures st'.disk[Name(cfg, kinds[st'.kept[n]], n)] == st'.kept[n]
    {
      if n < |st.kept| {
        assert st'.kept[n] == st.kept[n];
      } else {
        assert st'.kept[n] == st.requested;
      }
    }
  }

  /** After counting candidate j, every file on disk is a leftover or a counted file under its own name. */
  lemma StoredAcceptDisk(cfg: Settings, kinds: seq<Kind>, st: Progress, st': Progress)
    requires st.requested < |kinds| && st'.requested == st.requested + 1
    requires forall name :: name in st.disk ==>
      && st.disk[name] < st.requested
      && (Leftover(cfg, kinds, st.disk[name]) || OwnName(cfg, kinds, st.kept, name, st.disk[name]))
    requires st'.kept == st.kept + [st.requested]
    requires st'.disk == st.disk[Name(cfg, kinds[st.requested], |st.kept|) := st.requested]
    ensures forall name :: name in st'.disk ==>
      && st'.disk[name] < st'.requested
      && (Leftover(cfg, kinds, st'.disk[name]) || OwnName(cfg, kinds, st'.kept, name, st'.disk[name]))
  {
    var j := st.requested;
    var name := Name(cfg, kinds[j], |st.kept|);
    assert st'.kept[|st.kept|] == j;
    forall x | x in st'.disk
      ensures st'.disk[x] < st'.requested
      ensures Leftover(cfg, kinds, st'.disk[x]) || OwnName(cfg, kinds, st'.kept, x, st'.disk[x])
    {
      if x == name {
        assert st'.kept[|st.kept|] == j;
      } else if !Leftover(cfg, kinds, st.disk[x]) {
        OwnNameGrows(cfg, kinds, st.kept, j, x, st.disk[x]);
      }
    }
  }

  /** Writing a leftover under a name no counted file has keeps Stored. */
  lemma StoredLeftover(cfg: Settings, kinds: seq<Kind>, st: Progress, st': Progress, name: string)
    requires st.requested < |kinds| && Stored(cfg, kinds, st) && Leftover(cfg, kinds, st.requested)
    requires st'.requested == st.requested + 1 && st'.kept == st.kept
    requires st'.disk == st.disk[name := st.requested]
    requires forall n :: 0 <= n < |st.kept| ==> Name(cfg, kinds[st.kept[n]], n) != name
    ensures Stored(cfg, kinds, st')
  {
    forall x | x in st'.disk && x != name
      ensures st'.disk[x] == st.disk[x] && st'.disk[x] < st'.requested
    {
    }
  }

  /** Writing and then removing a file under a name no counted file has keeps Stored. */
  lemma StoredDrop(cfg: Settings, kinds: seq<Kind>, st: Progress, st': Progress, name: string)
    requires st.requested < |kinds| && Stored(cfg, kinds, st)
    requires st'.requested == st.requested + 1 && st'.kept == st.kept
    requires st'.disk == st.disk[name := st.requested] - {name}
    requires forall n :: 0 <= n < |st.kept| ==> Name(cfg, kinds[st.kept[n]], n) != name
    ensures Stored(cfg, kinds, st')
  {
    forall x | x in st'.disk
      ensures x in st.disk && st'.disk[x] == st.disk[x] && st'.disk[x] < st'.requested
    {
    }
  }

  lemma StartInv(cfg: Settings, kinds: seq<Kind>)
    ensures Inv(cfg, kinds, Start())
  {
  }

  /** A skipped candidate only moves the loop to the next one. */
  lemma StepSkipped(cfg: Settings, kinds: seq<Kind>, st: Progress, st': Progress)
    requires Inv(cfg, kinds, st) && st.requested < |kinds| && st.downloaded != cfg.maxLimit
    requires kinds[st.requested].Skipped?
    requires st' == st.(requested := st.requested + 1)
    ensures Inv(cfg, kinds, st')
  {
    var j := st.requested;
    CountedIdle(cfg, kinds, st, st');
    assert Seen(kinds, j + 1) == Seen(kinds, j);
    IndexedSame(cfg, kinds, st, st');
  }

  /** Without duplicate removal every saved candidate is counted under the next number. */
  lemma StepPlain(cfg: Settings, kinds: seq<Kind>, st: Progress, st': Progress)
    requires Inv(cfg, kinds, st) && Dotted(kinds) && st.requested < |kinds| && st.downloaded != cfg.maxLimit
    requires kinds[st.requested].Saved? && !cfg.dedup
    requires var name := Naming.FileName(cfg.keyword, st.number + 1, kinds[st.requested].ext);
      st' == Accept(st.(requested := st.requested + 1, disk := st.disk[name := st.requested]), st.requested)
    ensures Inv(cfg, kinds, st')
  {
    var j := st.requested;
    var k := kinds[j];
    var name := Naming.FileName(cfg.keyword, st.number + 1, k.ext);
    assert name == Name(cfg, k, |st.kept|);
    CountedAccept(cfg, kinds, st, st');
    FreshName(cfg, kinds, st, k.ext);
    StoredAccept(cfg, kinds, st, st');
  }

  /** With duplicate removal on, a saved image that cannot be decoded stays on disk uncounted. */
  lemma StepUnreadable(cfg: Settings, kinds: seq<Kind>, st: Progress, st': Progress)
    requires Inv(cfg, kinds, st) && Dotted(kinds) && st.requested < |kinds| && st.downloaded != cfg.maxLimit
    requires kinds[st.requested].Saved? && kinds[st.requested].image.None? && cfg.dedup
    requires var name := Naming.FileName(cfg.keyword, st.number + 1, kinds[st.requested].ext);
      st' == st.(requested := st.requested + 1, disk := st.disk[name := st.requested])
    ensures Inv(cfg, kinds, st')
  {
    var j := st.requested;
    var k := kinds[j];
    var name := Naming.FileName(cfg.keyword, st.number + 1, k.ext);
    CountedIdle(cfg, kinds, st, st');
    assert Seen(kinds, j + 1) == Seen(kinds, j);
    IndexedSame(cfg, kinds, st, st');
    FreshName(cfg, kinds, st, k.ext);
    StoredLeftover(cfg, kinds, st, st', name);
  }

  /** With duplicate removal on, an image whose fingerprint was seen is written, removed, and not counted. */
  lemma StepDuplicate(cfg: Settings, kinds: seq<Kind>, st: Progress, st': Progress)
    requires Inv(cfg, kinds, st) && Dotted(kinds) && st.requested < |kinds| && st.downloaded != cfg.maxLimit
    requires Decodable(kinds[st.requested]) && cfg.dedup
    requires HashOf(kinds[st.requested]) in Seen(kinds, st.requested)
    requires var name := Naming.FileName(cfg.keyword, st.number + 1, kinds[st.requested].ext);
      st' == st.(requested := st.requested + 1, disk := st.disk[name := st.requested] - {name})
    ensures Inv(cfg, kinds, st')
  {
    var j := st.requested;
    var k := kinds[j];
    var name := Naming.FileName(cfg.keyword, st.number + 1, k.ext);
    CountedIdle(cfg, kinds, st, st');
    assert Seen(kinds, j + 1) == Seen(kinds, j);
    IndexedSame(cfg, kinds, st, st');
    FreshName(cfg, kinds, st, k.ext);
    StoredDrop(cfg, kinds, st, st', name);
  }

  /** With duplicate removal on, an image with a new fingerprint is registered and counted under the next number. */
  lemma StepUnique(cfg: Settings, kinds: seq<Kind>, st: Progress, st': Progress)
    requires Inv(cfg, kinds, st) && Dotted(kinds) && st.requested < |kinds| && st.downloaded != cfg.maxLimit
    requires Decodable(kinds[st.requested]) && cfg.dedup
    requires HashOf(kinds[st.requested]) !in Seen(kinds, st.requested)
    requires var k := kinds[st.requested]; var name := Naming.FileName(cfg.keyword, st.number + 1, k.ext);
      st' == Accept(st.(requested := st.requested + 1, disk := st.disk[name := st.requested],
                        index := st.index[HashOf(k) := [name]]), st.requested)
    ensures Inv(cfg, kinds, st')
  {
    var j := st.requested;
    var k := kinds[j];
    var name := Naming.FileName(cfg.keyword, st.number + 1, k.ext);
    assert name == Name(cfg, k, |st.kept|);
    CountedAccept(cfg, kinds, st, st');
    IndexedUnique(cfg, kinds, st, st');
    FreshName(cfg, kinds, st, k.ext);
    StoredAccept(cfg, kinds, st, st');
  }

  /** Each iteration that the loop does not break before keeps the invariant. */
  lemma StepInv(cfg: Settings, kinds: seq<Kind>, st: Progress)
    requires Inv(cfg, kinds, st) && Dotted(kinds) && st.requested < |kinds| && st.downloaded != cfg.maxLimit
    ensures Inv(cfg, kinds, Step(cfg, kinds[st.requested], st))
  {
    var k := kinds[st.requested];
    var st' := Step(cfg, k, st);
    if k.Skipped? {
      StepSkipped(cfg, kinds, st, st');
    } else if !cfg.dedup {
      ShapePlain(cfg, k, st);
      StepPlain(cfg, kinds, st, st');
    } else if k.image.None? {
      ShapeUnreadable(cfg, k, st);
      StepUnreadable(cfg, kinds, st, st');
    } else if HashOf(k) in Seen(kinds, st.requested) {
      ShapeDuplicate(cfg, k, st);
      StepDuplicate(cfg, kinds, st, st');
    } else {
      ShapeUnique(cfg, k, st);
      StepUnique(cfg, kinds, st, st');
    }
  }

  /** The loop keeps the invariant and ends only when every candidate was requested or the quota is met. */
  lemma {:induction false} RunFromInv(cfg: Settings, kinds: seq<Kind>, st: Progress)
    requires Inv(cfg, kinds, st) && Dotted(kinds)
    ensures var r := RunFrom(cfg, kinds, st);
      Inv(cfg, kinds, r) && (r.requested == |kinds| || r.downloaded == cfg.maxLimit)
    decreases |kinds| - st.requested
  {
    if st.requested < |kinds| && st.downloaded != cfg.maxLimit {
      StepInv(cfg, kinds, st);
      RunFromInv(cfg, kinds, Step(cfg, kinds[st.requested], st));
    }
  }

  // ---------------------------------------------------------------------
  // What the loop promises.

  /** The invariant holds when the loop ends, and it ends only when every candidate was requested or the quota is met. */
  lemma RunInv(cfg: Settings, outcomes: seq<Fetch>)
    ensures var kinds := Kinds(cfg, outcomes); var r := Run(cfg, outcomes);
      Inv(cfg, kinds, r) && (r.requested == |outcomes| || r.downloaded == cfg.maxLimit)
  {
    StartInv(cfg, Kinds(cfg, outcomes));
    RunFromInv(cfg, Kinds(cfg, outcomes), Start());
  }

  lemma {:induction false} KeptBelowQuota(cfg: Settings, kinds: seq<Kind>, m: nat)
    requires m <= |kinds| && cfg.maxLimit >= 0
    requires forall n :: 0 <= n < m ==> |Kept(cfg, kinds, n)| != cfg.maxLimit
    ensures |Kept(cfg, kinds, m)| <= cfg.maxLimit
  {
    if m > 0 {
      KeptBelowQuota(cfg, kinds, m - 1);
    }
  }

  /**
   * image_number equals count_dict['Downloaded'] when the loop ends, and
   * with a non-negative max_limit neither exceeds it.
   */
  lemma Quota(cfg: Settings, outcomes: seq<Fetch>)
    ensures var r := Run(cfg, outcomes);
      && r.number == r.downloaded == |r.kept|
      && (cfg.maxLimit >= 0 ==> 0 <= r.downloaded <= cfg.maxLimit)
  {
    RunInv(cfg, outcomes);
    var r := Run(cfg, outcomes);
    if cfg.maxLimit >= 0 {
      KeptBelowQuota(cfg, Kinds(cfg, outcomes), r.requested);
    }
  }

  /**
   * The loop requests every candidate unless the quota is met, and when it
   * is met nothing is requested after the candidate that met it (nothing
   * at all when max_limit is 0).
   */
  lemma StopsWhenFull(cfg: Settings, outcomes: seq<Fetch>)
    ensures var r := Run(cfg, outcomes);
      && r.requested <= |outcomes|
      && (r.downloaded != cfg.maxLimit ==> r.requested == |outcomes|)
      && (r.downloaded == cfg.maxLimit ==>
            if cfg.maxLimit == 0 then r.requested == 0
            else r.requested > 0 && |r.kept| > 0 && r.kept[|r.kept| - 1] == r.requested - 1)
  {
    RunCounted(cfg, outcomes);
    StopsAt(cfg, Kinds(cfg, outcomes), Run(cfg, outcomes));
  }

  /** StopsWhenFull for any final state that satisfies the counting half of the invariant. */
  lemma StopsAt(cfg: Settings, kinds: seq<Kind>, r: Progress)
    requires Counted(cfg, kinds, r) && NotFullBefore(cfg, kinds, r)
    requires r.requested == |kinds| || r.downloaded == cfg.maxLimit
    ensures r.downloaded != cfg.maxLimit ==> r.requested == |kinds|
    ensures r.downloaded == cfg.maxLimit ==>
      if cfg.maxLimit == 0 then r.requested == 0
      else r.requested > 0 && |r.kept| > 0 && r.kept[|r.kept| - 1] == r.requested - 1
  {
    if r.downloaded == cfg.maxLimit {
      FullAt(cfg, kinds, r.requested, r.kept);
    }
  }

  /** The counting half of the invariant at the end of the loop. */
  lemma RunCounted(cfg: Settings, outcomes: seq<Fetch>)
    ensures var kinds := Kinds(cfg, outcomes); var r := Run(cfg, outcomes);
      && Counted(cfg, kinds, r) && NotFullBefore(cfg, kinds, r)
      && (r.requested == |outcomes| || r.downloaded == cfg.maxLimit)
  {
    RunInv(cfg, outcomes);
  }

  /** If the first m candidates fill the quota and no shorter prefix did, candidate m-1 filled it. */
  lemma FullAt(cfg: Settings, kinds: seq<Kind>, m: nat, kept: seq<nat>)
    requires m <= |kinds| && kept == Kept(cfg, kinds, m) && |kept| == cfg.maxLimit
    requires forall n :: 0 <= n < m ==> |Kept(cfg, kinds, n)| != cfg.maxLimit
    ensures if cfg.maxLimit == 0 then m == 0 else m > 0 && |kept| > 0 && kept[|kept| - 1] == m - 1
  {
    if m > 0 {
      assert |Kept(cfg, kinds, 0)| == 0;
      assert |Kept(cfg, kinds, m - 1)| != cfg.maxLimit;
    }
  }

  /**
   * Among the requested candidates, one is counted exactly when it is
   * written and, with duplicate removal on, decodable with a fingerprint
   * that no earlier written, decodable candidate had. Without duplicate
   * removal every written candidate is counted.
   */
  lemma CountedCandidates(cfg: Settings, outcomes: seq<Fetch>, j: nat)
    requires j < Run(cfg, outcomes).requested
    ensures j < |outcomes|
    ensures j in Run(cfg, outcomes).kept <==>
      && Written(cfg, outcomes[j])
      && (cfg.dedup ==>
            && outcomes[j].image.Some?
            && forall i :: 0 <= i < j && Written(cfg, outcomes[i]) && outcomes[i].image.Some? ==>
                 DHash.Hash(outcomes[i].image.value) != DHash.Hash(outcomes[j].image.value))
  {
    RunEligible(cfg, outcomes, j);
    EligibleOutcomes(cfg, outcomes, j);
  }

  /** A requested candidate is counted exactly when it is eligible. */
  lemma RunEligible(cfg: Settings, outcomes: seq<Fetch>, j: nat)
    requires j < Run(cfg, outcomes).requested
    ensures j < |outcomes|
    ensures j in Run(cfg, outcomes).kept <==> Eligible(cfg, Kinds(cfg, outcomes), j)
  {
    RunCounted(cfg, outcomes);
    KeptFacts(cfg, Kinds(cfg, outcomes), Run(cfg, outcomes).requested);
  }

  /** Eligibility spelled out on the answers themselves. */
  lemma EligibleOutcomes(cfg: Settings, outcomes: seq<Fetch>, j: nat)
    requires j < |outcomes|
    ensures Eligible(cfg, Kinds(cfg, outcomes), j) <==>
      && Written(cfg, outcomes[j])
      && (cfg.dedup ==>
            && outcomes[j].image.Some?
            && forall i :: 0 <= i < j && Written(cfg, outcomes[i]) && outcomes[i].image.Some? ==>
                 DHash.Hash(outcomes[i].image.value) != DHash.Hash(outcomes[j].image.value))
  {
    var kinds := Kinds(cfg, outcomes);
    EligibleIff(cfg, kinds, j);
    forall i | 0 <= i <= j
      ensures kinds[i].Saved? <==> Written(cfg, outcomes[i])
      ensures Decodable(kinds[i]) <==> Written(cfg, outcomes[i]) && outcomes[i].image.Some?
      ensures Decodable(kinds[i]) ==> HashOf(kinds[i]) == DHash.Hash(outcomes[i].image.value)
    {
      assert kinds[i] == Classify(cfg, outcomes[i]);
    }
  }

  /**
   * Candidate j is eligible exactly when it is saved and, with duplicate
   * removal on, decodable with a fingerprint no earlier decodable saved
   * candidate had.
   */
  lemma EligibleIff(cfg: Settings, kinds: seq<Kind>, j: nat)
    requires j < |kinds|
    ensures Eligible(cfg, kinds, j) <==>
      && kinds[j].Saved?
      && (cfg.dedup ==>
            && Decodable(kinds[j])
            && forall i :: 0 <= i < j && Decodable(kinds[i]) ==> HashOf(kinds[i]) != HashOf(kinds[j]))
  {
    if cfg.dedup && Decodable(kinds[j]) {
      var h := HashOf(kinds[j]);
      if h in Seen(kinds, j) {
        var i := SeenWitness(kinds, j, h);
      }
      forall i | 0 <= i < j && Decodable(kinds[i]) && h !in Seen(kinds, j)
        ensures HashOf(kinds[i]) != h
      {
        SeenContains(kinds, j, i);
      }
    }
  }

  /**
   * The n-th counted image (from 0) is on disk as keyword_<n+1><ext>, with
   * its own body: kept files are numbered 1 to Downloaded without gaps,
   * whatever was skipped or taken back in between.
   */
  lemma FilesNumbered(cfg: Settings, outcomes: seq<Fetch>, n: nat)
    requires n < |Run(cfg, outcomes).kept|
    ensures var r := Run(cfg, outcomes);
      && r.kept[n] < |outcomes| && outcomes[r.kept[n]].Fetched?
      && var name := Naming.FileName(cfg.keyword, n + 1, Naming.Extension(outcomes[r.kept[n]].mime));
         name in r.disk && r.disk[name] == r.kept[n]
  {
    RunInv(cfg, outcomes);
    var r := Run(cfg, outcomes);
    KeptFacts(cfg, Kinds(cfg, outcomes), r.requested);
  }

  /**
   * Every file in the directory is a counted image under its own name or a
   * leftover: a written image the fingerprinting could not decode with
   * duplicate removal on. Without leftovers the directory holds exactly
   * the counted images.
   */
  lemma DirectoryContents(cfg: Settings, outcomes: seq<Fetch>, name: string)
    ensures var r := Run(cfg, outcomes); var kinds := Kinds(cfg, outcomes);
      name in r.disk ==>
        r.disk[name] < r.requested <= |kinds| && (Leftover(cfg, kinds, r.disk[name]) || OwnName(cfg, kinds, r.kept, name, r.disk[name]))
    ensures var r := Run(cfg, outcomes); var kinds := Kinds(cfg, outcomes);
      r.requested <= |kinds| && (forall j :: 0 <= j < r.requested ==> !Leftover(cfg, kinds, j)) ==>
        (name in r.disk <==> OwnNameAt(cfg, kinds, r.kept, name))
  {
    RunInv(cfg, outcomes);
    var r := Run(cfg, outcomes);
    var kinds := Kinds(cfg, outcomes);
    if name in r.disk && OwnName(cfg, kinds, r.kept, name, r.disk[name]) {
      var n :| 0 <= n < |r.kept| && r.kept[n] == r.disk[name] && r.disk[name] < |kinds| && name == Name(cfg, kinds[r.disk[name]], n);
      assert OwnNameAt(cfg, kinds, r.kept, name);
    }
  }

  /** File name belongs to some counted position. */
  predicate OwnNameAt(cfg: Settings, kinds: seq<Kind>, kept: seq<nat>, name: string)
  {
    exists n :: 0 <= n < |kept| && kept[n] < |kinds| && name == Name(cfg, kinds[kept[n]], n)
  }

  /**
   * With duplicate removal on, the counted images have pairwise different
   * fingerprints, and the index maps each of their fingerprints to exactly
   * the counted file's name.
   */
  lemma DistinctFingerprints(cfg: Settings, outcomes: seq<Fetch>, a: nat, b: nat)
    requires cfg.dedup && a < b < |Run(cfg, outcomes).kept|
    ensures var r := Run(cfg, outcomes); var kinds := Kinds(cfg, outcomes);
      && r.kept[a] < |kinds| && Decodable(kinds[r.kept[a]])
      && r.kept[b] < |kinds| && Decodable(kinds[r.kept[b]])
      && HashOf(kinds[r.kept[a]]) != HashOf(kinds[r.kept[b]])
      && LiveDedup.Singletons(r.index)
      && HashOf(kinds[r.kept[a]]) in r.index
      && r.index[HashOf(kinds[r.kept[a]])] == [Name(cfg, kinds[r.kept[a]], a)]
  {
    RunInv(cfg, outcomes);
    var r := Run(cfg, outcomes);
    var kinds := Kinds(cfg, outcomes);
    KeptFacts(cfg, kinds, r.requested);
    assert IndexedAt(cfg, kinds, r, a) && IndexedAt(cfg, kinds, r, b);
    SeenContains(kinds, r.kept[b], r.kept[a]);
  }

  /**
   * With duplicate removal on, every counted image, the last one included,
   * is decodable, and the index maps its fingerprint to exactly its own
   * file's name; every bucket of the index holds one name.
   */
  lemma IndexedEntry(cfg: Settings, outcomes: seq<Fetch>, a: nat)
    requires cfg.dedup && a < |Run(cfg, outcomes).kept|
    ensures var r := Run(cfg, outcomes); var kinds := Kinds(cfg, outcomes);
      && r.kept[a] < |kinds| && Decodable(kinds[r.kept[a]])
      && LiveDedup.Singletons(r.index)
      && HashOf(kinds[r.kept[a]]) in r.index
      && r.index[HashOf(kinds[r.kept[a]])] == [Name(cfg, kinds[r.kept[a]], a)]
  {
    RunInv(cfg, outcomes);
    assert IndexedAt(cfg, Kinds(cfg, outcomes), Run(cfg, outcomes), a);
  }

  /**
   * With duplicate removal on, a written image that cannot be decoded
   * leaves its file behind and changes neither counter: the exception the
   * fingerprinting raises skips the counting lines.
   */
  lemma LeftoverStays(cfg: Settings, k: Kind, st: Progress)
    requires cfg.dedup && k.Saved? && k.image.None?
    ensures var r := Step(cfg, k, st); var name := Naming.FileName(cfg.keyword, st.number + 1, k.ext);
      && r.downloaded == st.downloaded && r.number == st.number && r.kept == st.kept
      && name in r.disk && r.disk[name] == st.requested
  {
  }

  /** A duplicate is net zero: both counters are back where they were and its file is gone. */
  lemma DuplicateNetZero(cfg: Settings, k: Kind, st: Progress)
    requires cfg.dedup && Decodable(k) && LiveDedup.Singletons(st.index) && HashOf(k) in st.index
    ensures var r := Step(cfg, k, st); var name := Naming.FileName(cfg.keyword, st.number + 1, k.ext);
      && r.downloaded == st.downloaded && r.number == st.number && r.kept == st.kept
      && r.index == st.index && r.disk == st.disk - {name}
  {
  }

  // ---------------------------------------------------------------------
  // The loop itself.

  /**
   * One iteration of the loop body for a candidate of the given kind: write
   * it, consult the duplicate index when asked to, and count it or take it
   * back.
   */
  method Visit(cfg: Settings, kind: Kind, st: Progress, index: LiveDedup.DuplicateIndex) returns (next: Progress)
    requires index.Valid() && index.buckets == st.index
    modifies index
    ensures index.Valid() && index.buckets == next.index
    ensures next == Step(cfg, kind, st)
  {
    if kind.Saved? {
      next := VisitSaved(cfg, kind, st, index);
    } else {
      next := st.(requested := st.requested + 1);
    }
  }

  /** Visit for a candidate that is written to disk. */
  method VisitSaved(cfg: Settings, kind: Kind, st: Progress, index: LiveDedup.DuplicateIndex) returns (next: Progress)
    requires kind.Saved?
    requires index.Valid() && index.buckets == st.index
    modifies index
    ensures index.Valid() && index.buckets == next.index
    ensures next == Step(cfg, kind, st)
  {
    if !cfg.dedup {
      var i := st.requested;
      var name := Naming.FileName(cfg.keyword, st.number + 1, kind.ext);
      next := st.(requested := i + 1, disk := st.disk[name := i]);
      next := next.(number := next.number + 1, downloaded := next.downloaded + 1, kept := next.kept + [i]);
    } else {
      next := VisitChecked(cfg, kind, st, index);
    }
  }

  /** Visit for a written candidate when duplicate removal is on: the write, then the duplicate check. */
  method VisitChecked(cfg: Settings, kind: Kind, st: Progress, index: LiveDedup.DuplicateIndex) returns (next: Progress)
    requires kind.Saved? && cfg.dedup
    requires index.Valid() && index.buckets == st.index
    modifies index
    ensures index.Valid() && index.buckets == next.index
    ensures next == Step(cfg, kind, st)
  {
    var i := st.requested;
    var name := Naming.FileName(cfg.keyword, st.number + 1, kind.ext);
    var written := st.(requested := i + 1, disk := st.disk[name := i]);
    next := Consult(kind, written, name, index);
  }

  /**
   * The duplicate check of one iteration: next already holds the written
   * file under name; a duplicate is taken back, a new image counted.
   */
  method Consult(kind: Kind, next: Progress, name: string, index: LiveDedup.DuplicateIndex) returns (after: Progress)
    requires kind.Saved? && next.requested > 0
    requires index.Valid() && index.buckets == next.index
    modifies index
    ensures index.Valid() && index.buckets == after.index
    ensures var (verdict, buckets) := LiveDedup.Register(next.index, name, kind.image);
      after == match verdict
        case Undecodable => next
        case Duplicate => next.(disk := next.disk - {name})
        case Unique => Accept(next.(index := buckets), next.requested - 1)
  {
    var verdict := index.Classify(name, kind.image);
    after := next.(index := index.buckets);
    if verdict != LiveDedup.Undecodable {
      if verdict == LiveDedup.Duplicate {
        after := after.(downloaded := after.downloaded - 1, number := after.number - 1, disk := after.disk - {name});
      } else {
        after := after.(kept := after.kept + [next.requested - 1]);
      }
      after := after.(number := after.number + 1, downloaded := after.downloaded + 1);
    }
  }

  /**
   * From any state the loop ends having requested at most every candidate,
   * with every candidate requested or the quota met, and without taking
   * back any image counted before.
   */
  lemma {:induction false} RunFromEnds(cfg: Settings, kinds: seq<Kind>, st: Progress)
    requires st.requested <= |kinds|
    ensures var r := RunFrom(cfg, kinds, st);
      && st.requested <= r.requested <= |kinds|
      && (r.requested == |kinds| || r.downloaded == cfg.maxLimit)
      && st.kept <= r.kept
    decreases |kinds| - st.requested
  {
    if st.requested < |kinds| && st.downloaded != cfg.maxLimit {
      var st' := Step(cfg, kinds[st.requested], st);
      StepKept(cfg, kinds[st.requested], st);
      RunFromEnds(cfg, kinds, st');
      var r := RunFrom(cfg, kinds, st');
      assert st.kept == st'.kept[..|st.kept|] && st'.kept == r.kept[..|st'.kept|];
      assert st.kept == r.kept[..|st.kept|];
    }
  }

  /** One iteration keeps the counted images and adds at most the candidate it requested. */
  lemma StepKept(cfg: Settings, k: Kind, st: Progress)
    ensures var r := Step(cfg, k, st);
      && r.requested == st.requested + 1
      && (r.kept == st.kept || r.kept == st.kept + [st.requested])
  {
  }

  /** One more iteration of the loop, unless it stops here. */
  lemma RunFromStep(cfg: Settings, kinds: seq<Kind>, st: Progress)
    requires st.requested < |kinds| && st.downloaded != cfg.maxLimit
    ensures RunFrom(cfg, kinds, st) == RunFrom(cfg, kinds, Step(cfg, kinds[st.requested], st))
  {
  }

  /** The per-keyword loop of `download`, with a fresh duplicate index. */
  method DownloadKeyword(cfg: Settings, outcomes: seq<Fetch>) returns (st: Progress)
    ensures st == Run(cfg, outcomes)
  {
    ghost var kinds := Kinds(cfg, outcomes);
    var index := new LiveDedup.DuplicateIndex();
    st := Start();
    while st.requested < |outcomes|
      invariant st.requested <= |outcomes|
      invariant index.Valid() && index.buckets == st.index
      invariant RunFrom(cfg, kinds, st) == Run(cfg, outcomes)
      decreases |outcomes| - st.requested
    {
      if st.downloaded == cfg.maxLimit {
        break;
      }
      var kind := Classify(cfg, outcomes[st.requested]);
      RunFromStep(cfg, kinds, st);
      st := Visit(cfg, kind, st, index);
    }
  }

  /** The answers to a keyword's candidate addresses, in the order they are requested. */
  function Answers(fetch: string -> Fetch, urls: seq<string>): (r: seq<Fetch>)
    ensures |r| == |urls| && forall i :: 0 <= i < |urls| ==> r[i] == fetch(urls[i])
  {
    if urls == [] then [] else [fetch(urls[0])] + Answers(fetch, urls[1..])
  }

  /** count_dict of one keyword: Found and Downloaded. */
  datatype Counts = Counts(found: nat, downloaded: int)

  /** The DOWN keys the whole run sends, keyword by keyword. */
  function TotalPresses(table: seq<(string, int)>, pages: string -> Reveal.SearchPage): nat
  {
    if table == [] then 0
    else Reveal.RevealPresses(table[0].1, pages(table[0].0).moreButton) + TotalPresses(table[1..], pages)
  }

  /**
   * What `download` records for one keyword of the table: the keyword,
   * Found as the number of distinct collected addresses, and Downloaded as
   * the loop over their answers leaves it.
   */
  ghost predicate Reported(row: (string, Counts), urls: seq<string>, entry: (string, int),
                           formats: set<string>, dedup: bool,
                           pages: string -> Reveal.SearchPage, fetch: string -> Fetch)
  {
    var page := pages(entry.0);
    && row.0 == entry.0
    && (forall u :: u in urls <==> u in Reveal.PageUrls(page.thumbnails, |page.thumbnails|))
    && Distinct(urls)
    && row.1.found == |urls|
    && row.1.downloaded == Run(Settings(entry.0, entry.1, formats, dedup), Answers(fetch, urls)).downloaded
  }

  /** One keyword of `download`: collect its addresses, run the loop over them, fill count_dict. */
  method DownloadOne(browser: Reveal.Browser, entry: (string, int), formats: set<string>, dedup: bool,
                     pages: string -> Reveal.SearchPage, fetch: string -> Fetch)
    returns (row: (string, Counts), ghost urls: seq<string>)
    modifies browser
    ensures browser.presses == old(browser.presses) + Reveal.RevealPresses(entry.1, pages(entry.0).moreButton)
    ensures Reported(row, urls, entry, formats, dedup, pages, fetch)
  {
    var (keyword, limit) := entry;
    var found := browser.GetImageUrls(pages(keyword), limit);
    var st := DownloadKeyword(Settings(keyword, limit, formats, dedup), Answers(fetch, found));
    row, urls := (keyword, Counts(|found|, st.downloaded)), found;
  }

  /**
   * The keyword loop of `download` over a table: for every keyword in
   * order, reveal and collect its candidate addresses, run the loop over
   * their answers, and record Found and Downloaded.
   */
  method DownloadTable(browser: Reveal.Browser, table: seq<(string, int)>, formats: set<string>, dedup: bool,
                       pages: string -> Reveal.SearchPage, fetch: string -> Fetch)
    returns (summary: seq<(string, Counts)>, ghost lists: seq<seq<string>>)
    modifies browser
    ensures |summary| == |table| && |lists| == |table|
    ensures browser.presses == old(browser.presses) + TotalPresses(table, pages)
    ensures forall k :: 0 <= k < |table| ==> Reported(summary[k], lists[k], table[k], formats, dedup, pages, fetch)
  {
    summary, lists := [], [];
    var k := 0;
    while k < |table|
      invariant 0 <= k <= |table|
      invariant |summary| == k && |lists| == k
      invariant browser.presses + TotalPresses(table[k..], pages) == old(browser.presses) + TotalPresses(table, pages)
      invariant forall m :: 0 <= m < k ==> Reported(summary[m], lists[m], table[m], formats, dedup, pages, fetch)
    {
      var row, urls := DownloadOne(browser, table[k], formats, dedup, pages, fetch);
      var summary', lists' := summary + [row], lists + [urls];
      forall m | 0 <= m <= k
        ensures Reported(summary'[m], lists'[m], table[m], formats, dedup, pages, fetch)
      {
        if m < k {
          assert summary'[m] == summary[m] && lists'[m] == lists[m];
        }
      }
      summary, lists := summary', lists';
      assert table[k..] == [table[k]] + table[k + 1..];
      k := k + 1;
    }
  }

  /**
   * `download`: build the keyword table from the keywords argument and run
   * the keyword loop over it. pages says what the search page shows for a
   * keyword, fetch what requesting an address gives; lists are the address
   * lists the run used, in the order it used them.
   */
  method Download(browser: Reveal.Browser, keywords: Naming.Keywords, maxLimit: int, formats: set<string>, dedup: bool,
                  pages: string -> Reveal.SearchPage, fetch: string -> Fetch)
    returns (summary: seq<(string, Counts)>, ghost lists: seq<seq<string>>)
    modifies browser
    ensures var table := Naming.KeywordTable(keywords, maxLimit);
      && |summary| == |table| && |lists| == |table|
      && browser.presses == old(browser.presses) + TotalPresses(table, pages)
      && forall k :: 0 <= k < |table| ==> Reported(summary[k], lists[k], table[k], formats, dedup, pages, fetch)
  {
    var table := Naming.KeywordTable(keywords, maxLimit);
    summary, lists := DownloadTable(browser, table, formats, dedup, pages, fetch);
  }

  /** `download` called with only its keywords: at most ten jpg, jpeg or png images per keyword, duplicates kept. */
  method DownloadDefaults(browser: Reveal.Browser, keywords: Naming.Keywords,
                          pages: string -> Reveal.SearchPage, fetch: string -> Fetch)
    returns (summary: seq<(string, Counts)>, ghost lists: seq<seq<string>>)
    modifies browser
    ensures var table := Naming.KeywordTable(keywords, DefaultMaxLimit);
      && |summary| == |table| && |lists| == |table|
      && browser.presses == old(browser.presses) + TotalPresses(table, pages)
      && forall k :: 0 <= k < |table| ==>
           Reported(summary[k], lists[k], table[k], DefaultFormats, DefaultDedup, pages, fetch)
  {
    summary, lists := Download(browser, keywords, DefaultMaxLimit, DefaultFormats, DefaultDedup, pages, fetch);
  }
}
