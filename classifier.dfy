/**
 * `check(f, min_entropy)`: the classification of one file.  Every call into
 * the filesystem or a library is an input: a `FileObs` carries what each call
 * returned or which exception it raised.  The decision chain is the source's:
 *
 *   not a regular file         -> (None, f, 0)
 *   recovery-key file name     -> ("KEY", f)
 *   *.TXT of at most 1 MiB     -> ("TXT", f, matches) when a key is found,
 *                                 None when neither UTF-16-LE nor UTF-8
 *                                 decodes; otherwise on to the next step
 *   sector-aligned, MIME "application/octet-stream"
 *                              -> (FLAG, f, score) with FLAG "ENTROPY_HIT"
 *                                 when score > min_entropy, overwritten by
 *                                 "DISKIMG_HIT" on a partition signature
 *   anything else              -> (None, f, score so far)
 *   PermissionError            -> None
 *   any other exception        -> ("ERROR", f, e)
 */
module Classifier {

  import opened Wrappers
  import opened Bytes
  import opened Glob
  import opened KeyScan
  import opened Signature
  import opened Entropy

  /** An exception raised by a filesystem or library call. */
  datatype Exception = PermissionError | OtherException(description: string)

  /** The outcome of one call: its value, or the exception it raised. */
  datatype IO<T> = Value(value: T) | Raised(exc: Exception)

  /** Reading the whole file as text in one encoding. */
  datatype Decoding = Text(text: string) | UnicodeDecodeError | DecodeRaised(exc: Exception)

  /** What the filesystem and the libraries answer about one path. */
  datatype FileObs = FileObs(
    path: string,
    isFile: bool,           // os.path.isfile(f)
    size: IO<nat>,          // os.path.getsize(f)
    utf16: Decoding,        // open(f, "r", encoding="utf-16-le").read()
    utf8: Decoding,         // open(f, "r", encoding="utf-8").read()
    mime: IO<string>,       // magic.from_buffer(open(f, "rb").read(1024), mime=True)
    head: IO<seq<byte>>)    // open(f, "rb").read(2048)

  /** The two flags the container check can set. */
  datatype Tag = EntropyHit | DiskImgHit

  /** The tuples `check` returns. */
  datatype Record =
    | Key(path: string)                                  // ("KEY", f)
    | Txt(path: string, matches: seq<string>)            // ("TXT", f, k)
    | Flagged(tag: Option<Tag>, path: string, score: real) // (FLAG, f, entropy_score)
    | Error(path: string, cause: string)                 // ("ERROR", f, e)

  const KeyFileName: string := "BitLocker Recovery Key"
  const KeyFileNameDe: string := "BitLocker-Wiederherstellungsschl\U{FC}ssel"
  const TextSuffix: string := ".TXT"
  /** The size limit for the text search: 1 MiB. */
  const TextSizeCap: nat := 1048576
  const OctetStream: string := "application/octet-stream"

  /** The glob tests of the file name, on the full path. */
  predicate IsKeyFileName(norm: char -> char, path: string) {
    FnMatch(norm, path, "*" + KeyFileName + "*") || FnMatch(norm, path, "*" + KeyFileNameDe + "*")
  }

  predicate IsTextName(norm: char -> char, path: string) {
    FnMatch(norm, path, "*" + TextSuffix)
  }

  /** The two outer `except` clauses. */
  function Caught(path: string, e: Exception): (r: Option<Record>)
    ensures r == None <==> e == PermissionError
    ensures r.Some? ==> r.value == Error(path, e.description)
  {
    match e
    case PermissionError => None
    case OtherException(d) => Some(Error(path, d))
  }

  /** A step of the chain either returns or lets control fall through. */
  datatype Step = Return(result: Option<Record>) | FallThrough

  /** `k = re.findall(pattern, text); if any(k): return "TXT", f, k`. */
  function SearchKeys(path: string, text: string): (s: Step)
    ensures s.Return? <==> FindAll(text) != []
    ensures s.Return? ==> s.result == Some(Txt(path, FindAll(text)))
  {
    AnyMatchesIffNonEmpty(text);
    var k := FindAll(text);
    if AnyTruthy(k) then Return(Some(Txt(path, k))) else FallThrough
  }

  /** The regex search on text files, main.py lines 61-85. */
  function TextSearch(f: FileObs, norm: char -> char): (s: Step)
    ensures !IsTextName(norm, f.path) ==> s == FallThrough
    ensures IsTextName(norm, f.path) && f.size.Raised? ==> s == Return(Caught(f.path, f.size.exc))
    ensures f.size.Value? && f.size.value > TextSizeCap ==> s == FallThrough
    ensures s.Return? && s.result.Some? ==>
      s.result.value.path == f.path && (s.result.value.Txt? || s.result.value.Error?)
    ensures s == Return(None) ==>
      PermissionDenied(f) || (f.utf16 == UnicodeDecodeError && f.utf8 == UnicodeDecodeError)
  {
    if !IsTextName(norm, f.path) then FallThrough
    else match f.size
      case Raised(e) => Return(Caught(f.path, e))
      case Value(n) =>
        if n > TextSizeCap then FallThrough
        else match f.utf16
          case DecodeRaised(e) => Return(Caught(f.path, e))
          case Text(t) => SearchKeys(f.path, t)
          case UnicodeDecodeError =>
            match f.utf8
            case DecodeRaised(e) => Return(Caught(f.path, e))
            case Text(t) => SearchKeys(f.path, t)
            case UnicodeDecodeError => Return(None)
  }

  /** The container check, main.py lines 90-107. */
  function ContainerCheck(f: FileObs, minEntropy: real, log2: real -> real): (r: Option<Record>)
    ensures r.Some? ==> r.value.path == f.path && (r.value.Flagged? || r.value.Error?)
    ensures f.size.Raised? ==> r == Caught(f.path, f.size.exc)
    // a failed gate skips the later calls (main.py:90, 93) and returns (None, f, 0)
    ensures f.size.Value? && f.size.value % SectorSize != 0 ==> r == Some(Flagged(None, f.path, 0.0))
    ensures f.size.Value? && f.size.value % SectorSize == 0 && f.mime.Value? && f.mime.value != OctetStream ==>
      r == Some(Flagged(None, f.path, 0.0))
    ensures r.Some? && r.value.Flagged? && r.value.tag.Some? ==>
      f.size.Value? && f.size.value % SectorSize == 0 &&
      f.mime == Value(OctetStream) && f.head.Value? &&
      r.value.score == Shannon(f.head.value, log2)
    ensures r.Some? && r.value.Flagged? && r.value.tag == Some(EntropyHit) ==>
      r.value.score > minEntropy && !HasDiskImageSignature(f.head.value)
    ensures r.Some? && r.value.Flagged? && r.value.tag == Some(DiskImgHit) ==>
      HasDiskImageSignature(f.head.value)
  {
    match f.size
    case Raised(e) => Caught(f.path, e)
    case Value(n) =>
      if !SectorAligned(n) then Some(Flagged(None, f.path, 0.0))
      else match f.mime
        case Raised(e) => Caught(f.path, e)
        case Value(m) =>
          if m != OctetStream then Some(Flagged(None, f.path, 0.0))
          else match f.head
            case Raised(e) => Caught(f.path, e)
            case Value(data) =>
              var score := Shannon(data, log2);
              var flag := if score > minEntropy then Some(EntropyHit) else None;
              var flag := if HasDiskImageSignature(data) then Some(DiskImgHit) else flag;
              Some(Flagged(flag, f.path, score))
  }

  /**
   * One of the calls that `check` may make for f raised a PermissionError.
   * Which calls a given file reaches, and so which exception decides, is
   * stated by the per-call lemmas below.
   */
  predicate PermissionDenied(f: FileObs) {
    f.size == Raised(PermissionError) || f.utf16 == DecodeRaised(PermissionError) ||
    f.utf8 == DecodeRaised(PermissionError) || f.mime == Raised(PermissionError) ||
    f.head == Raised(PermissionError)
  }

  /**
   * One of the calls that `check` may make for f raised an exception other
   * than PermissionError, described by d.
   */
  predicate RaisedOther(f: FileObs, d: string) {
    f.size == Raised(OtherException(d)) || f.utf16 == DecodeRaised(OtherException(d)) ||
    f.utf8 == DecodeRaised(OtherException(d)) || f.mime == Raised(OtherException(d)) ||
    f.head == Raised(OtherException(d))
  }

  /** `check(f, min_entropy)` with normcase rule `norm` and logarithm `log2`. */
  function Check(f: FileObs, minEntropy: real, norm: char -> char, log2: real -> real): (r: Option<Record>)
    ensures r.Some? ==> r.value.path == f.path
    ensures !f.isFile ==> r == Some(Flagged(None, f.path, 0.0))
    // the name test comes first and decides alone
    ensures (r.Some? && r.value.Key?) <==> f.isFile && IsKeyFileName(norm, f.path)
    // dropped files: a PermissionError, or undecodable text
    ensures r == None ==>
      f.isFile && (PermissionDenied(f) || (f.utf16 == UnicodeDecodeError && f.utf8 == UnicodeDecodeError))
    ensures r.Some? && r.value.Error? ==> f.isFile && RaisedOther(f, r.value.cause)
    // the size is asked for (main.py:63 or main.py:90) of every regular non-key file
    ensures f.isFile && !IsKeyFileName(norm, f.path) && f.size.Raised? ==>
      r == Caught(f.path, f.size.exc)
    // key text hits: a small enough .TXT file whose decoded text holds keys
    ensures r.Some? && r.value.Txt? ==>
      IsTextName(norm, f.path) && f.size.Value? && f.size.value <= TextSizeCap &&
      r.value.matches != [] &&
      (forall k :: 0 <= k < |r.value.matches| ==> IsKey(r.value.matches[k])) &&
      (f.utf16.Text? ==> r.value.matches == FindAll(f.utf16.text)) &&
      (!f.utf16.Text? ==> f.utf16 == UnicodeDecodeError && f.utf8.Text? &&
                          r.value.matches == FindAll(f.utf8.text))
    // container flags: only behind the size and MIME gates, score kept
    ensures r.Some? && r.value.Flagged? && r.value.tag.Some? ==>
      f.isFile && f.size.Value? && f.size.value % SectorSize == 0 &&
      f.mime == Value(OctetStream) && f.head.Value? &&
      r.value.score == Shannon(f.head.value, log2)
    ensures r.Some? && r.value.Flagged? && r.value.tag == Some(EntropyHit) ==>
      r.value.score > minEntropy && !HasDiskImageSignature(f.head.value)
    ensures r.Some? && r.value.Flagged? && r.value.tag == Some(DiskImgHit) ==>
      HasDiskImageSignature(f.head.value)
  {
    if !f.isFile then Some(Flagged(None, f.path, 0.0))
    else if IsKeyFileName(norm, f.path) then Some(Key(f.path))
    else match TextSearch(f, norm)
      case Return(r) => r
      case FallThrough => ContainerCheck(f, minEntropy, log2)
  }

  /** The literal names hold no wildcard. */
  lemma NamesHoldNoWildcard()
    ensures NoStar(KeyFileName) && NoStar(KeyFileNameDe) && NoStar(TextSuffix)
  {
    forall i | 0 <= i < |KeyFileName| ensures KeyFileName[i] != '*' {}
    forall i | 0 <= i < |KeyFileNameDe| ensures KeyFileNameDe[i] != '*' {}
    forall i | 0 <= i < |TextSuffix| ensures TextSuffix[i] != '*' {}
  }

  /**
   * A regular file is a key file exactly when its normalised full path, not
   * only its base name, contains one of the two names.
   */
  lemma KeyFileIffPathContainsName(f: FileObs, minEntropy: real, norm: char -> char, log2: real -> real)
    requires KeepsWildcard(norm)
    ensures Check(f, minEntropy, norm, log2) == Some(Key(f.path)) <==>
      f.isFile &&
      (IsSubstring(Normalize(norm, KeyFileName), Normalize(norm, f.path)) ||
       IsSubstring(Normalize(norm, KeyFileNameDe), Normalize(norm, f.path)))
  {
    NamesHoldNoWildcard();
    FnMatchContains(norm, f.path, KeyFileName);
    FnMatchContains(norm, f.path, KeyFileNameDe);
  }

  /**
   * A path with "BitLocker Recovery Key" anywhere in it (in a directory name
   * too) is a key file whatever its size, content or extension.
   */
  lemma KeyNameAnywhereInPath(f: FileObs, minEntropy: real, norm: char -> char, log2: real -> real,
                              before: string, after: string)
    requires KeepsWildcard(norm) && f.isFile
    requires f.path == before + KeyFileName + after
    ensures Check(f, minEntropy, norm, log2) == Some(Key(f.path))
  {
    var np, nk := Normalize(norm, f.path), Normalize(norm, KeyFileName);
    forall i | 0 <= i < |nk| ensures np[|before| + i] == nk[i] {
      assert f.path[|before| + i] == KeyFileName[i];
    }
    assert np[|before|..|before| + |nk|] == nk;
    assert OccursAt(nk, np, |before|);
    KeyFileIffPathContainsName(f, minEntropy, norm, log2);
  }

  /** The text search is `*.TXT`: a suffix test on the normalised path. */
  lemma TextNameIsSuffix(norm: char -> char, path: string)
    requires KeepsWildcard(norm)
    ensures IsTextName(norm, path) <==> IsSuffix(Normalize(norm, TextSuffix), Normalize(norm, path))
  {
    NamesHoldNoWildcard();
    FnMatchEndsWith(norm, path, TextSuffix);
  }

  /** UTF-8 is consulted only when UTF-16-LE raised a decode error. */
  lemma Utf8OnlyAfterUtf16DecodeError(f: FileObs, u: Decoding, minEntropy: real,
                                      norm: char -> char, log2: real -> real)
    requires f.utf16 != UnicodeDecodeError
    ensures Check(f, minEntropy, norm, log2) == Check(f.(utf8 := u), minEntropy, norm, log2)
  {
  }

  /** A small .TXT file that decodes in neither encoding is dropped. */
  lemma UndecodableTextIsDropped(f: FileObs, minEntropy: real, norm: char -> char, log2: real -> real)
    requires f.isFile && !IsKeyFileName(norm, f.path) && IsTextName(norm, f.path)
    requires f.size.Value? && f.size.value <= TextSizeCap
    requires f.utf16 == UnicodeDecodeError && f.utf8 == UnicodeDecodeError
    ensures Check(f, minEntropy, norm, log2) == None
  {
  }

  /**
   * A .TXT file that is too large, or whose decoded text holds no key, goes on
   * to the container check exactly as any other file would.
   */
  lemma TextWithoutKeyFallsThrough(f: FileObs, minEntropy: real, norm: char -> char, log2: real -> real)
    requires f.isFile && !IsKeyFileName(norm, f.path) && IsTextName(norm, f.path)
    requires f.size.Value?
    requires f.size.value > TextSizeCap ||
             (f.utf16.Text? && forall j :: !KeyAt(f.utf16.text, j)) ||
             (f.utf16 == UnicodeDecodeError && f.utf8.Text? && forall j :: !KeyAt(f.utf8.text, j))
    ensures Check(f, minEntropy, norm, log2) == ContainerCheck(f, minEntropy, log2)
  {
    if f.size.value <= TextSizeCap {
      if f.utf16.Text? {
        NoMatchesIffNoKey(f.utf16.text);
      } else {
        NoMatchesIffNoKey(f.utf8.text);
      }
    }
  }

  /** A .TXT file of at most 1 MiB whose text holds a key is a key text hit. */
  lemma TextWithKeyIsHit(f: FileObs, minEntropy: real, norm: char -> char, log2: real -> real, j: int)
    requires f.isFile && !IsKeyFileName(norm, f.path) && IsTextName(norm, f.path)
    requires f.size.Value? && f.size.value <= TextSizeCap
    requires f.utf16 == UnicodeDecodeError && f.utf8.Text? && KeyAt(f.utf8.text, j)
    ensures Check(f, minEntropy, norm, log2) == Some(Txt(f.path, FindAll(f.utf8.text)))
  {
    NoMatchesIffNoKey(f.utf8.text);
  }

  /** A .TXT file of at most 1 MiB whose UTF-16-LE text holds a key is a key text hit. */
  lemma Utf16KeyIsHit(f: FileObs, minEntropy: real, norm: char -> char, log2: real -> real, j: int)
    requires f.isFile && !IsKeyFileName(norm, f.path) && IsTextName(norm, f.path)
    requires f.size.Value? && f.size.value <= TextSizeCap
    requires f.utf16.Text? && KeyAt(f.utf16.text, j)
    ensures Check(f, minEntropy, norm, log2) == Some(Txt(f.path, FindAll(f.utf16.text)))
  {
    NoMatchesIffNoKey(f.utf16.text);
  }

  /*
   * The exception paths, one lemma per call that can raise, in the order of
   * main.py.  In each, the earlier calls succeeded and the exception e of
   * that call reaches the handlers at main.py:109-114: None for a
   * PermissionError, ("ERROR", f, e) otherwise.
   */

  /** `os.path.getsize` raising, at main.py:63 for a .TXT name, at main.py:90 otherwise. */
  lemma SizeExceptionIsCaught(f: FileObs, minEntropy: real, norm: char -> char, log2: real -> real,
                              e: Exception)
    requires f.isFile && !IsKeyFileName(norm, f.path)
    requires f.size == Raised(e)
    ensures e == PermissionError ==> Check(f, minEntropy, norm, log2) == None
    ensures e.OtherException? ==>
      Check(f, minEntropy, norm, log2) == Some(Error(f.path, e.description))
  {
  }

  /** The UTF-16-LE read raising something other than a decode error (main.py:67-68). */
  lemma Utf16ExceptionIsCaught(f: FileObs, minEntropy: real, norm: char -> char, log2: real -> real,
                               e: Exception)
    requires f.isFile && !IsKeyFileName(norm, f.path) && IsTextName(norm, f.path)
    requires f.size.Value? && f.size.value <= TextSizeCap
    requires f.utf16 == DecodeRaised(e)
    ensures Check(f, minEntropy, norm, log2) == Caught(f.path, e)
  {
  }

  /** The UTF-8 read raising something other than a decode error (main.py:77-78). */
  lemma Utf8ExceptionIsCaught(f: FileObs, minEntropy: real, norm: char -> char, log2: real -> real,
                              e: Exception)
    requires f.isFile && !IsKeyFileName(norm, f.path) && IsTextName(norm, f.path)
    requires f.size.Value? && f.size.value <= TextSizeCap
    requires f.utf16 == UnicodeDecodeError && f.utf8 == DecodeRaised(e)
    ensures Check(f, minEntropy, norm, log2) == Caught(f.path, e)
  {
  }

  /**
   * A file that reaches the container check but fails a gate, an unaligned
   * size or a MIME type other than application/octet-stream, is not sniffed
   * further or read, and is returned as (None, f, 0): an exception the
   * skipped calls would have raised does not matter.
   */
  lemma UngatedFileIsUnflagged(f: FileObs, minEntropy: real, norm: char -> char, log2: real -> real)
    requires f.isFile && !IsKeyFileName(norm, f.path) && TextSearch(f, norm) == FallThrough
    requires f.size.Value?
    requires f.size.value % SectorSize != 0 || (f.mime.Value? && f.mime.value != OctetStream)
    ensures Check(f, minEntropy, norm, log2) == Some(Flagged(None, f.path, 0.0))
  {
  }

  /** The MIME sniff raising (main.py:92). */
  lemma MimeExceptionIsCaught(f: FileObs, minEntropy: real, norm: char -> char, log2: real -> real,
                              e: Exception)
    requires f.isFile && !IsKeyFileName(norm, f.path) && TextSearch(f, norm) == FallThrough
    requires f.size.Value? && f.size.value % SectorSize == 0
    requires f.mime == Raised(e)
    ensures Check(f, minEntropy, norm, log2) == Caught(f.path, e)
  {
  }

  /** The read of the first 2048 bytes raising (main.py:94-96). */
  lemma HeadExceptionIsCaught(f: FileObs, minEntropy: real, norm: char -> char, log2: real -> real,
                              e: Exception)
    requires f.isFile && !IsKeyFileName(norm, f.path) && TextSearch(f, norm) == FallThrough
    requires f.size.Value? && f.size.value % SectorSize == 0
    requires f.mime == Value(OctetStream) && f.head == Raised(e)
    ensures Check(f, minEntropy, norm, log2) == Caught(f.path, e)
  {
  }

  /**
   * A file that reaches the container check (any file but a key file, a text
   * hit or a dropped text; a *.TXT file above 1 MiB or without a key too)
   * that is a sector-aligned octet-stream whose first bytes carry a partition
   * signature is a disk-image hit even when its entropy is also above the
   * threshold; the record still carries the entropy score.
   */
  lemma SignatureOverridesEntropy(f: FileObs, minEntropy: real, norm: char -> char, log2: real -> real)
    requires f.isFile && !IsKeyFileName(norm, f.path) && TextSearch(f, norm) == FallThrough
    requires f.size.Value? && f.size.value % SectorSize == 0
    requires f.mime == Value(OctetStream) && f.head.Value?
    requires HasDiskImageSignature(f.head.value)
    ensures Check(f, minEntropy, norm, log2) ==
            Some(Flagged(Some(DiskImgHit), f.path, Shannon(f.head.value, log2)))
  {
  }

  /**
   * Without a signature, an aligned octet-stream that reaches the container
   * check (a *.TXT file above 1 MiB or without a key included) is an entropy hit exactly
   * when its score exceeds the threshold strictly.
   */
  lemma EntropyHitIffAboveThreshold(f: FileObs, minEntropy: real, norm: char -> char, log2: real -> real)
    requires f.isFile && !IsKeyFileName(norm, f.path) && TextSearch(f, norm) == FallThrough
    requires f.size.Value? && f.size.value % SectorSize == 0
    requires f.mime == Value(OctetStream) && f.head.Value?
    requires !HasDiskImageSignature(f.head.value)
    ensures Check(f, minEntropy, norm, log2) ==
            Some(Flagged(if Shannon(f.head.value, log2) > minEntropy then Some(EntropyHit) else None,
                         f.path, Shannon(f.head.value, log2)))
  {
  }

  /**
   * As written: a text that UTF-16-LE decodes without error is never read as
   * UTF-8.  A UTF-8 file of 56 bytes (a key and a line feed) decodes as
   * UTF-16-LE into 28 characters, too few for a key, so the key in its UTF-8
   * reading is missed and, its size not being a multiple of 512, the file
   * ends up in no bucket.
   */
  lemma Utf8KeyMissedWhenUtf16Decodes(f: FileObs, minEntropy: real, norm: char -> char,
                                      log2: real -> real, j: int)
    requires f.isFile && !IsKeyFileName(norm, f.path) && IsTextName(norm, f.path)
    requires f.size == Value(56)
    requires f.utf16.Text? && |f.utf16.text| == 28
    requires f.utf8.Text? && KeyAt(f.utf8.text, j)
    ensures Check(f, minEntropy, norm, log2) == Some(Flagged(None, f.path, 0.0))
  {
    assert MatchStarts(f.utf16.text, 0) == [];
  }

  /** Reading as UTF-8, when UTF-16-LE has not produced a result. */
  function Utf8Search(f: FileObs): Step {
    match f.utf8
    case DecodeRaised(e) => Return(Caught(f.path, e))
    case Text(t) => SearchKeys(f.path, t)
    case UnicodeDecodeError => FallThrough
  }

  /**
   * The text search as its comments describe it: UTF-8 is also tried when the
   * UTF-16-LE text holds no key; a file that decodes in neither is dropped.
   */
  function TextSearchIntended(f: FileObs, norm: char -> char): (s: Step)
    ensures !IsTextName(norm, f.path) ==> s == FallThrough
    ensures s.Return? && s.result.Some? && s.result.value.Txt? ==>
      s.result.value.matches != [] &&
      ((f.utf16.Text? && s.result.value.matches == FindAll(f.utf16.text)) ||
       (f.utf8.Text? && s.result.value.matches == FindAll(f.utf8.text)))
    ensures s == Return(None) ==>
      PermissionDenied(f) || (f.utf16 == UnicodeDecodeError && f.utf8 == UnicodeDecodeError)
  {
    if !IsTextName(norm, f.path) then FallThrough
    else match f.size
      case Raised(e) => Return(Caught(f.path, e))
      case Value(n) =>
        if n > TextSizeCap then FallThrough
        else match f.utf16
          case DecodeRaised(e) => Return(Caught(f.path, e))
          case Text(t) => if FindAll(t) != [] then SearchKeys(f.path, t) else Utf8Search(f)
          case UnicodeDecodeError =>
            if f.utf8 == UnicodeDecodeError then Return(None) else Utf8Search(f)
  }

  /** `check` with the intended text search. */
  function CheckIntended(f: FileObs, minEntropy: real, norm: char -> char, log2: real -> real)
    : (r: Option<Record>)
    ensures r.Some? ==> r.value.path == f.path
    ensures (r.Some? && r.value.Key?) <==> f.isFile && IsKeyFileName(norm, f.path)
    ensures r.Some? && r.value.Txt? ==>
      IsTextName(norm, f.path) && r.value.matches != [] &&
      forall k :: 0 <= k < |r.value.matches| ==> IsKey(r.value.matches[k])
  {
    if !f.isFile then Some(Flagged(None, f.path, 0.0))
    else if IsKeyFileName(norm, f.path) then Some(Key(f.path))
    else match TextSearchIntended(f, norm)
      case Return(r) => r
      case FallThrough => ContainerCheck(f, minEntropy, log2)
  }

  /**
   * With the intended search, a small .TXT file whose UTF-16-LE or UTF-8
   * reading holds a key is a key text hit, UTF-16-LE taking precedence.
   */
  lemma IntendedFindsKeyInEitherEncoding(f: FileObs, minEntropy: real, norm: char -> char,
                                         log2: real -> real, j: int)
    requires f.isFile && !IsKeyFileName(norm, f.path) && IsTextName(norm, f.path)
    requires f.size.Value? && f.size.value <= TextSizeCap
    requires (f.utf16.Text? && KeyAt(f.utf16.text, j)) ||
             (!f.utf16.DecodeRaised? && f.utf8.Text? && KeyAt(f.utf8.text, j))
    ensures f.utf16.Text? && FindAll(f.utf16.text) != [] ==>
            CheckIntended(f, minEntropy, norm, log2) == Some(Txt(f.path, FindAll(f.utf16.text)))
    ensures !(f.utf16.Text? && FindAll(f.utf16.text) != []) ==>
            f.utf8.Text? &&
            CheckIntended(f, minEntropy, norm, log2) == Some(Txt(f.path, FindAll(f.utf8.text)))
  {
    if f.utf16.Text? {
      NoMatchesIffNoKey(f.utf16.text);
    }
    if f.utf8.Text? {
      NoMatchesIffNoKey(f.utf8.text);
    }
  }

  /** The intended search changes nothing where the UTF-16-LE text holds a key or does not decode. */
  lemma IntendedAgreesWhenUtf16Decisive(f: FileObs, minEntropy: real, norm: char -> char,
                                        log2: real -> real)
    requires !f.utf16.Text? || FindAll(f.utf16.text) != []
    ensures CheckIntended(f, minEntropy, norm, log2) == Check(f, minEntropy, norm, log2)
  {
  }

}
