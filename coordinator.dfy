/**
 * The scan over all files and the bucketing of its results (main.py lines
 * 132-146).  `executor.map` hands back the results in the order of the input
 * files, so the scan is a map over the file list; the buckets are then built
 * by list comprehensions that keep that order.
 */
module Coordinator {

  import opened Wrappers
  import opened Classifier

  /** The threshold prompt accepts e unless `e >= 8 or e <= 0`. */
  function ThresholdAccepted(e: real): (ok: bool)
    ensures ok <==> 0.0 < e < 8.0
  {
    !(e >= 8.0 || e <= 0.0)
  }

  /** `list(executor.map(check, FILES, repeat(e)))`. */
  function Scan(files: seq<FileObs>, minEntropy: real, norm: char -> char, log2: real -> real)
    : (rs: seq<Option<Record>>)
    ensures |rs| == |files|
    ensures forall i :: 0 <= i < |files| ==> rs[i] == Check(files[i], minEntropy, norm, log2)
  {
    seq(|files|, i requires 0 <= i < |files| => Check(files[i], minEntropy, norm, log2))
  }

  /** The first element of a result tuple. */
  datatype Category = KEY | TXT | ENTROPY_HIT | DISKIMG_HIT | ERROR

  function CategoryOf(r: Record): Option<Category> {
    match r
    case Key(_) => Some(KEY)
    case Txt(_, _) => Some(TXT)
    case Flagged(None, _, _) => None
    case Flagged(Some(EntropyHit), _, _) => Some(ENTROPY_HIT)
    case Flagged(Some(DiskImgHit), _, _) => Some(DISKIMG_HIT)
    case Error(_, _) => Some(ERROR)
  }

  /** The category of one entry of the result list; None results have none. */
  function Label(x: Option<Record>): Option<Category> {
    if x.None? then None else CategoryOf(x.value)
  }

  /** What follows the tag in a tuple, `x[1:]`. */
  datatype Payload = NoPayload | Matches(matches: seq<string>) | Score(score: real) | Cause(cause: string)
  datatype Row = Row(path: string, payload: Payload)

  function Strip(r: Record): Row {
    match r
    case Key(p) => Row(p, NoPayload)
    case Txt(p, k) => Row(p, Matches(k))
    case Flagged(_, p, s) => Row(p, Score(s))
    case Error(p, e) => Row(p, Cause(e))
  }

  /** `[x for x in results if x != None]`. */
  function Present(rs: seq<Option<Record>>): seq<Record> {
    if rs == [] then []
    else
      var last := rs[|rs| - 1];
      Present(rs[..|rs| - 1]) + (if last.Some? then [last.value] else [])
  }

  /** `[x for x in results if x[0] == c]`. */
  function Select(rs: seq<Record>, c: Category): seq<Record> {
    if rs == [] then []
    else
      var last := rs[|rs| - 1];
      Select(rs[..|rs| - 1], c) + (if CategoryOf(last) == Some(c) then [last] else [])
  }

  /** Dropping the None results keeps exactly the records that were present. */
  lemma {:induction false} PresentKeepsRecords(rs: seq<Option<Record>>, r: Record)
    ensures r in Present(rs) <==> Some(r) in rs
  {
    if rs != [] {
      var init := rs[..|rs| - 1];
      PresentKeepsRecords(init, r);
      assert rs == init + [rs[|rs| - 1]];
    }
  }

  /** Selection keeps exactly the records of category c. */
  lemma {:induction false} SelectKeepsCategory(rs: seq<Record>, c: Category, r: Record)
    ensures r in Select(rs, c) <==> r in rs && CategoryOf(r) == Some(c)
  {
    if rs != [] {
      var init := rs[..|rs| - 1];
      SelectKeepsCategory(init, c, r);
      assert rs == init + [rs[|rs| - 1]];
    }
  }

  /** `[x[1:] for x in rs]`. */
  function StripAll(rs: seq<Record>): (out: seq<Row>)
    ensures |out| == |rs|
    ensures forall k :: 0 <= k < |rs| ==> out[k] == Strip(rs[k])
  {
    if rs == [] then [] else StripAll(rs[..|rs| - 1]) + [Strip(rs[|rs| - 1])]
  }

  /** One bucket: the present results of category c, tag stripped. */
  function Bucket(results: seq<Option<Record>>, c: Category): seq<Row> {
    StripAll(Select(Present(results), c))
  }

  /** The five lists main.py builds: KEY_FILES, TXT_FILES, ENTROPY_HITS, DISKIMG_HITS, ERRORS. */
  datatype ResultSet = ResultSet(
    keyFiles: seq<Row>, txtFiles: seq<Row>, entropyHits: seq<Row>, diskImgHits: seq<Row>, errors: seq<Row>)

  function Partition(results: seq<Option<Record>>): (p: ResultSet)
    // each list has one row per result of its category
    ensures forall c :: |BucketOf(p, c)| == |Positions(results, c)|
  {
    BucketIsOrderedFilter(results, KEY);
    BucketIsOrderedFilter(results, TXT);
    BucketIsOrderedFilter(results, ENTROPY_HIT);
    BucketIsOrderedFilter(results, DISKIMG_HIT);
    BucketIsOrderedFilter(results, ERROR);
    ResultSet(Bucket(results, KEY), Bucket(results, TXT), Bucket(results, ENTROPY_HIT),
              Bucket(results, DISKIMG_HIT), Bucket(results, ERROR))
  }

  function BucketOf(rs: ResultSet, c: Category): seq<Row> {
    match c
    case KEY => rs.keyFiles
    case TXT => rs.txtFiles
    case ENTROPY_HIT => rs.entropyHits
    case DISKIMG_HIT => rs.diskImgHits
    case ERROR => rs.errors
  }

  /** The indices of the results of category c, in increasing order. */
  function Positions(results: seq<Option<Record>>, c: Category): (idx: seq<nat>)
    ensures forall k :: 0 <= k < |idx| ==> idx[k] < |results| && Label(results[idx[k]]) == Some(c)
    ensures forall k, l :: 0 <= k < l < |idx| ==> idx[k] < idx[l]
    ensures forall i :: 0 <= i < |results| && Label(results[i]) == Some(c) ==> i in idx
  {
    if results == [] then []
    else
      var n := |results| - 1;
      var idx := Positions(results[..n], c);
      assert forall k :: 0 <= k < |idx| ==> results[idx[k]] == results[..n][idx[k]];
      idx + (if Label(results[n]) == Some(c) then [n] else [])
  }

  /**
   * Each bucket is the order-preserving filter of the results: its k-th row
   * is the stripped k-th result of that category, in input order.
   */
  lemma {:induction false} BucketIsOrderedFilter(results: seq<Option<Record>>, c: Category)
    ensures |Bucket(results, c)| == |Positions(results, c)|
    ensures forall k :: 0 <= k < |Positions(results, c)| ==>
              Bucket(results, c)[k] == Strip(results[Positions(results, c)[k]].value)
  {
    if results != [] {
      var n := |results| - 1;
      var init := results[..n];
      BucketIsOrderedFilter(init, c);
      BucketStep(results, c);
      var idx, idx' := Positions(results, c), Positions(init, c);
      var b, b' := Bucket(results, c), Bucket(init, c);
      assert |idx| == |b|;
      forall k | 0 <= k < |idx| ensures b[k] == Strip(results[idx[k]].value) {
        if k < |idx'| {
          assert idx[k] == idx'[k] && b[k] == b'[k];
          assert results[idx'[k]] == init[idx'[k]];
        }
      }
    }
  }

  /** Adding one result adds at most one row, at the end of its own bucket. */
  lemma BucketStep(results: seq<Option<Record>>, c: Category)
    requires results != []
    ensures var n := |results| - 1;
      Bucket(results, c) == Bucket(results[..n], c) +
        (if Label(results[n]) == Some(c) then [Strip(results[n].value)] else [])
  {
    var n := |results| - 1;
    var last := results[n];
    var inc := if last.Some? then [last.value] else [];
    assert Present(results) == Present(results[..n]) + inc;
    SelectAppend(Present(results[..n]), inc, c);
    var sel := Select(inc, c);
    if inc != [] {
      assert inc[..0] == [];
    }
    StripAllAppend(Select(Present(results[..n]), c), sel);
  }

  lemma {:induction false} StripAllAppend(a: seq<Record>, b: seq<Record>)
    ensures StripAll(a + b) == StripAll(a) + StripAll(b)
  {
    if b != [] {
      var ab := a + b;
      assert ab[..|ab| - 1] == a + b[..|b| - 1];
      StripAllAppend(a, b[..|b| - 1]);
    } else {
      assert a + b == a;
    }
  }

  lemma {:induction false} SelectAppend(a: seq<Record>, b: seq<Record>, c: Category)
    ensures Select(a + b, c) == Select(a, c) + Select(b, c)
  {
    if b != [] {
      var ab, init := a + b, b[..|b| - 1];
      var last := b[|b| - 1];
      var tail := if CategoryOf(last) == Some(c) then [last] else [];
      assert ab[..|ab| - 1] == a + init && ab[|ab| - 1] == last;
      assert Select(ab, c) == Select(a + init, c) + tail;
      assert Select(b, c) == Select(init, c) + tail;
      SelectAppend(a, init, c);
    } else {
      assert a + b == a;
    }
  }

  /** The number of results that land in no bucket: None, or tagged None. */
  function Unlabelled(results: seq<Option<Record>>): nat {
    if results == [] then 0
    else Unlabelled(results[..|results| - 1]) + (if Label(results[|results| - 1]).None? then 1 else 0)
  }

  /**
   * The buckets partition the labelled results: together with the unlabelled
   * ones their sizes add up to the number of files, so no result lands in
   * two buckets and none is lost.
   */
  lemma {:induction false} BucketsPartitionResults(results: seq<Option<Record>>)
    ensures var p := Partition(results);
      |p.keyFiles| + |p.txtFiles| + |p.entropyHits| + |p.diskImgHits| + |p.errors| + Unlabelled(results)
      == |results|
  {
    if results != [] {
      var n := |results| - 1;
      BucketsPartitionResults(results[..n]);
      BucketStep(results, KEY);
      BucketStep(results, TXT);
      BucketStep(results, ENTROPY_HIT);
      BucketStep(results, DISKIMG_HIT);
      BucketStep(results, ERROR);
    }
  }

  /** No index of the results is in two buckets. */
  lemma BucketsDisjoint(results: seq<Option<Record>>, c: Category, d: Category, i: nat)
    requires c != d
    ensures !(i in Positions(results, c) && i in Positions(results, d))
  {
  }

  /** A file the classifier dropped is in no bucket. */
  lemma DroppedFileInNoBucket(files: seq<FileObs>, minEntropy: real, norm: char -> char,
                              log2: real -> real, i: nat, c: Category)
    requires i < |files| && Check(files[i], minEntropy, norm, log2) == None
    ensures i !in Positions(Scan(files, minEntropy, norm, log2), c)
  {
  }

  /**
   * A file whose check ended in an exception is in no bucket when that was a
   * PermissionError, and is listed among the errors with its description
   * otherwise.
   */
  lemma RaisedFileIsDroppedOrError(files: seq<FileObs>, minEntropy: real, norm: char -> char,
                                   log2: real -> real, i: nat, e: Exception)
    requires i < |files| && Check(files[i], minEntropy, norm, log2) == Caught(files[i].path, e)
    ensures e == PermissionError ==> forall c :: i !in Positions(Scan(files, minEntropy, norm, log2), c)
    ensures e.OtherException? ==>
      Row(files[i].path, Cause(e.description)) in Partition(Scan(files, minEntropy, norm, log2)).errors
  {
    var rs := Scan(files, minEntropy, norm, log2);
    if e.OtherException? {
      BucketIsOrderedFilter(rs, ERROR);
      var idx := Positions(rs, ERROR);
      assert Label(rs[i]) == Some(ERROR);
      var k :| 0 <= k < |idx| && idx[k] == i;
      assert Bucket(rs, ERROR)[k] == Row(files[i].path, Cause(e.description));
    }
  }

  /** Every regular file with a key-file name is listed among the key files. */
  lemma KeyFileIsListed(files: seq<FileObs>, minEntropy: real, norm: char -> char,
                        log2: real -> real, i: nat)
    requires i < |files| && files[i].isFile && IsKeyFileName(norm, files[i].path)
    ensures Row(files[i].path, NoPayload) in Partition(Scan(files, minEntropy, norm, log2)).keyFiles
  {
    var rs := Scan(files, minEntropy, norm, log2);
    BucketIsOrderedFilter(rs, KEY);
    var idx := Positions(rs, KEY);
    assert Label(rs[i]) == Some(KEY);
    var k :| 0 <= k < |idx| && idx[k] == i;
    assert Bucket(rs, KEY)[k] == Row(files[i].path, NoPayload);
  }

}
