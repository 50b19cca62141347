/**
 * The recovery-key pattern `\d{6}-\d{6}-\d{6}-\d{6}-\d{6}-\d{6}-\d{6}-\d{6}`
 * and `re.findall` over it.  The pattern has a fixed length of 55 and no
 * alternation, so findall is a left-to-right scan: a window that matches at
 * position i is emitted and the scan resumes at i + 55, otherwise at i + 1.
 */
module KeyScan {

  /** Eight groups of six digits with seven hyphens between them. */
  const KeyLength: nat := 55

  /** `\d`, restricted to the ASCII digits. */
  predicate IsDigit(c: char) {
    '0' <= c <= '9'
  }

  /** Offset j of a key holds a hyphen exactly when j is 6, 13, 20, ..., 48. */
  predicate IsHyphenOffset(j: nat) {
    j % 7 == 6
  }

  /** w is a whole recovery key. */
  predicate IsKey(w: string) {
    |w| == KeyLength &&
    forall j :: 0 <= j < KeyLength ==>
      if IsHyphenOffset(j) then w[j] == '-' else IsDigit(w[j])
  }

  /** Group g (0 to 7) of a 55-character string: the six characters at 7g. */
  function Group(w: string, g: nat): string
    requires |w| == KeyLength && g < 8
  {
    w[7 * g..7 * g + 6]
  }

  /** The separator after group g (0 to 6). */
  function Separator(w: string, g: nat): char
    requires |w| == KeyLength && g < 7
  {
    w[7 * g + 6]
  }

  /** The pattern read as written: `\d{6}` eight times, joined by `-`. */
  predicate EightGroups(w: string) {
    |w| == KeyLength &&
    (forall g: nat :: g < 8 ==> forall i :: 0 <= i < 6 ==> IsDigit(Group(w, g)[i])) &&
    (forall g: nat :: g < 7 ==> Separator(w, g) == '-')
  }

  /** The offset form of a key agrees with the group form of the pattern. */
  lemma KeyIsEightGroups(w: string)
    ensures IsKey(w) <==> EightGroups(w)
  {
    if IsKey(w) {
      forall g: nat, i | g < 8 && 0 <= i < 6 ensures IsDigit(Group(w, g)[i]) {
        assert Group(w, g)[i] == w[7 * g + i];
        assert (7 * g + i) % 7 == i;
      }
      forall g: nat | g < 7 ensures Separator(w, g) == '-' {
        assert (7 * g + 6) % 7 == 6;
      }
    }
    if EightGroups(w) {
      forall j | 0 <= j < KeyLength ensures if IsHyphenOffset(j) then w[j] == '-' else IsDigit(w[j]) {
        var g, i := j / 7, j % 7;
        assert j == 7 * g + i && g < 8;
        if i == 6 {
          assert Separator(w, g) == w[j];
        } else {
          assert Group(w, g)[i] == w[j];
        }
      }
    }
  }

  /** The 55-character window of s starting at i is a key. */
  predicate KeyAt(s: string, i: int) {
    0 <= i && i + KeyLength <= |s| && IsKey(s[i..i + KeyLength])
  }

  /** Window j lies inside the match that starts at p. */
  predicate Covers(p: int, j: int) {
    p < j < p + KeyLength
  }

  /** Start positions of the matches findall reports, scanning from i. */
  function MatchStarts(s: string, i: nat): (ps: seq<nat>)
    requires i <= |s|
    decreases |s| - i
    ensures forall k :: 0 <= k < |ps| ==> i <= ps[k] && KeyAt(s, ps[k])
    ensures forall k :: 0 <= k < |ps| - 1 ==> ps[k] + KeyLength <= ps[k + 1]
  {
    if |s| - i < KeyLength then []
    else if KeyAt(s, i) then [i] + MatchStarts(s, i + KeyLength)
    else MatchStarts(s, i + 1)
  }

  /** `re.findall(pattern, s)`: the matched substrings, left to right. */
  function FindAll(s: string): (ms: seq<string>)
    ensures |ms| == |MatchStarts(s, 0)|
    ensures forall k :: 0 <= k < |ms| ==> IsKey(ms[k])
    ensures forall k :: 0 <= k < |ms| ==>
              ms[k] == s[MatchStarts(s, 0)[k]..MatchStarts(s, 0)[k] + KeyLength]
  {
    var ps := MatchStarts(s, 0);
    seq(|ps|, k requires 0 <= k < |ps| => s[ps[k]..ps[k] + KeyLength])
  }

  /** Matches never overlap: every later match starts after the earlier one ends. */
  lemma {:induction false} MatchesDisjoint(s: string, i: nat, k: nat, l: nat)
    requires i <= |s|
    requires k < l < |MatchStarts(s, i)|
    ensures MatchStarts(s, i)[k] + KeyLength <= MatchStarts(s, i)[l]
    decreases l - k
  {
    var ps := MatchStarts(s, i);
    if k + 1 < l {
      MatchesDisjoint(s, i, k + 1, l);
    }
  }

  /**
   * Every window that matches is either reported or lies inside a reported
   * match that starts before it: findall skips no key it could report.
   */
  lemma {:induction false} MatchStartsComplete(s: string, i: nat, j: int)
    requires i <= |s|
    requires i <= j && KeyAt(s, j)
    ensures j in MatchStarts(s, i) || exists p :: p in MatchStarts(s, i) && Covers(p, j)
    decreases |s| - i
  {
    if |s| - i < KeyLength {
    } else if KeyAt(s, i) {
      if j >= i + KeyLength {
        MatchStartsComplete(s, i + KeyLength, j);
      } else if j != i {
        assert Covers(i, j);
      }
    } else {
      MatchStartsComplete(s, i + 1, j);
    }
  }

  /** The reported positions are exactly the greedy, leftmost, non-overlapping windows. */
  lemma ReportedWindowsAreLeftmost(s: string, j: int)
    requires KeyAt(s, j)
    requires forall p :: p in MatchStarts(s, 0) ==> !Covers(p, j)
    ensures j in MatchStarts(s, 0)
  {
    MatchStartsComplete(s, 0, j);
  }

  /** findall finds nothing exactly when no window of the text is a key. */
  lemma NoMatchesIffNoKey(s: string)
    ensures FindAll(s) == [] <==> forall j :: !KeyAt(s, j)
  {
    if FindAll(s) == [] {
      forall j | KeyAt(s, j) ensures false {
        MatchStartsComplete(s, 0, j);
      }
    } else {
      assert KeyAt(s, MatchStarts(s, 0)[0]);
    }
  }

  /** Python's `any(k)`: some element is a non-empty string. */
  predicate AnyTruthy(k: seq<string>) {
    exists m :: m in k && m != ""
  }

  /** For a findall result, `any(k)` holds exactly when the list is non-empty. */
  lemma AnyMatchesIffNonEmpty(s: string)
    ensures AnyTruthy(FindAll(s)) <==> FindAll(s) != []
  {
    var ms := FindAll(s);
    if ms != [] {
      assert IsKey(ms[0]);
      assert ms[0] in ms && ms[0] != "";
    }
  }

  /** A text that is one key and nothing else yields exactly that key. */
  lemma {:induction false} WholeKeyIsFound(w: string)
    requires IsKey(w)
    ensures FindAll(w) == [w]
  {
    assert w[0..KeyLength] == w;
    assert KeyAt(w, 0);
    assert MatchStarts(w, KeyLength) == [];
    assert MatchStarts(w, 0) == [0];
  }

}
