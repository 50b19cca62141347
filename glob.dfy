/**
 * `fnmatch.fnmatch` as the scanner uses it: the name and the pattern are
 * first passed through a per-character case rule (`os.path.normcase`), then
 * matched in full, where `*` stands for any run of characters and every other
 * character of the pattern stands for itself.  The patterns of the scanner
 * contain no `?` and no `[...]`, so those are not part of this matcher.
 */
module Glob {

  /** Full-string match of `name` against a pattern of literals and `*`. */
  function GlobMatch(name: string, pat: string): (r: bool)
    decreases |pat|, |name|
    ensures r && NoStar(pat) ==> name == pat
    ensures r && pat != [] && pat[0] != '*' ==> name != [] && name[0] == pat[0]
  {
    if pat == [] then name == []
    else if pat[0] == '*' then
      GlobMatch(name, pat[1..]) || (name != [] && GlobMatch(name[1..], pat))
    else
      name != [] && name[0] == pat[0] && GlobMatch(name[1..], pat[1..])
  }

  predicate NoStar(s: string) {
    forall i :: 0 <= i < |s| ==> s[i] != '*'
  }

  predicate IsPrefix(p: string, s: string) {
    |p| <= |s| && s[..|p|] == p
  }

  predicate IsSuffix(p: string, s: string) {
    |p| <= |s| && s[|s| - |p|..] == p
  }

  predicate OccursAt(p: string, s: string, k: int) {
    0 <= k <= |s| - |p| && s[k..k + |p|] == p
  }

  predicate IsSubstring(p: string, s: string) {
    exists k :: 0 <= k <= |s| - |p| && OccursAt(p, s, k)
  }

  /** A lone `*` matches every name. */
  lemma {:induction false} StarMatchesAll(name: string)
    ensures GlobMatch(name, "*")
  {
    if name != [] {
      StarMatchesAll(name[1..]);
    }
  }

  /** A literal followed by `*` is a prefix test. */
  lemma {:induction false} LiteralStarIsPrefix(name: string, lit: string)
    requires NoStar(lit)
    ensures GlobMatch(name, lit + "*") <==> IsPrefix(lit, name)
  {
    if lit == [] {
      assert lit + "*" == "*";
      StarMatchesAll(name);
    } else {
      assert (lit + "*")[0] == lit[0] && (lit + "*")[1..] == lit[1..] + "*";
      if name != [] && name[0] == lit[0] {
        LiteralStarIsPrefix(name[1..], lit[1..]);
        if IsPrefix(lit[1..], name[1..]) {
          assert name[..|lit|] == [name[0]] + name[1..][..|lit| - 1];
        }
        if IsPrefix(lit, name) {
          assert name[1..][..|lit[1..]|] == name[..|lit|][1..];
        }
      }
    }
  }

  /** A literal alone matches only itself. */
  lemma {:induction false} LiteralMatchesItself(name: string, lit: string)
    requires NoStar(lit)
    ensures GlobMatch(name, lit) <==> name == lit
  {
    if lit != [] && name != [] && name[0] == lit[0] {
      LiteralMatchesItself(name[1..], lit[1..]);
      if name[1..] == lit[1..] {
        assert name == [name[0]] + name[1..];
        assert lit == [lit[0]] + lit[1..];
      }
    }
  }

  /** A leading `*` lets the rest of the pattern match any suffix of the name. */
  lemma {:induction false} LeadingStarMatchesSomeSuffix(name: string, pat: string)
    ensures GlobMatch(name, "*" + pat) <==>
            exists k :: 0 <= k <= |name| && GlobMatch(name[k..], pat)
  {
    var sp := "*" + pat;
    assert sp[0] == '*' && sp[1..] == pat;
    if name == [] {
      assert GlobMatch(name, sp) == GlobMatch(name, pat);
      assert name[0..] == name;
      if exists k :: 0 <= k <= |name| && GlobMatch(name[k..], pat) {
        var k :| 0 <= k <= |name| && GlobMatch(name[k..], pat);
        assert k == 0;
      }
    } else {
      LeadingStarMatchesSomeSuffix(name[1..], pat);
      if GlobMatch(name, sp) {
        if GlobMatch(name, pat) {
          assert name[0..] == name;
        } else {
          var k :| 0 <= k <= |name[1..]| && GlobMatch(name[1..][k..], pat);
          assert name[1..][k..] == name[k + 1..];
        }
      }
      if exists k :: 0 <= k <= |name| && GlobMatch(name[k..], pat) {
        var k :| 0 <= k <= |name| && GlobMatch(name[k..], pat);
        if k == 0 {
          assert name[k..] == name;
        } else {
          assert name[1..][k - 1..] == name[k..];
        }
      }
    }
  }

  /** `*lit*` is a substring test. */
  lemma StarLiteralStarIsSubstring(name: string, lit: string)
    requires NoStar(lit)
    ensures GlobMatch(name, "*" + lit + "*") <==> IsSubstring(lit, name)
  {
    assert "*" + lit + "*" == "*" + (lit + "*");
    LeadingStarMatchesSomeSuffix(name, lit + "*");
    if GlobMatch(name, "*" + lit + "*") {
      var k :| 0 <= k <= |name| && GlobMatch(name[k..], lit + "*");
      LiteralStarIsPrefix(name[k..], lit);
      assert name[k..][..|lit|] == name[k..k + |lit|];
      assert OccursAt(lit, name, k);
    }
    if IsSubstring(lit, name) {
      var k :| 0 <= k <= |name| - |lit| && OccursAt(lit, name, k);
      LiteralStarIsPrefix(name[k..], lit);
      assert name[k..][..|lit|] == name[k..k + |lit|];
    }
  }

  /** `*lit` is a suffix test. */
  lemma StarLiteralIsSuffix(name: string, lit: string)
    requires NoStar(lit)
    ensures GlobMatch(name, "*" + lit) <==> IsSuffix(lit, name)
  {
    LeadingStarMatchesSomeSuffix(name, lit);
    if GlobMatch(name, "*" + lit) {
      var k :| 0 <= k <= |name| && GlobMatch(name[k..], lit);
      LiteralMatchesItself(name[k..], lit);
    }
    if IsSuffix(lit, name) {
      LiteralMatchesItself(name[|name| - |lit|..], lit);
    }
  }

  /** `os.path.normcase` applied character by character. */
  function Normalize(norm: char -> char, s: string): (r: string)
    ensures |r| == |s|
    ensures forall i :: 0 <= i < |s| ==> r[i] == norm(s[i])
  {
    if s == [] then [] else Normalize(norm, s[..|s| - 1]) + [norm(s[|s| - 1])]
  }

  /** The case rule keeps `*` the wildcard and makes no other character one. */
  ghost predicate KeepsWildcard(norm: char -> char) {
    norm('*') == '*' && forall c :: c != '*' ==> norm(c) != '*'
  }

  /** The identity rule leaves every string unchanged. */
  lemma NormalizeByIdentity(norm: char -> char, s: string)
    ensures (forall c :: norm(c) == c) ==> Normalize(norm, s) == s
  {
    if forall c :: norm(c) == c {
      assert forall i :: 0 <= i < |s| ==> Normalize(norm, s)[i] == s[i];
    }
  }

  /** `fnmatch.fnmatch(name, pat)` under the case rule `norm`. */
  function FnMatch(norm: char -> char, name: string, pat: string): (r: bool)
    // under the identity rule (POSIX) fnmatch is the case-sensitive glob match
    ensures (forall c :: norm(c) == c) ==> (r <==> GlobMatch(name, pat))
  {
    NormalizeByIdentity(norm, name);
    NormalizeByIdentity(norm, pat);
    GlobMatch(Normalize(norm, name), Normalize(norm, pat))
  }

  /** fnmatch with `*lit*` is a substring test on the normalised strings. */
  lemma FnMatchContains(norm: char -> char, name: string, lit: string)
    requires KeepsWildcard(norm) && NoStar(lit)
    ensures FnMatch(norm, name, "*" + lit + "*") <==>
            IsSubstring(Normalize(norm, lit), Normalize(norm, name))
  {
    var nl := Normalize(norm, lit);
    assert Normalize(norm, "*" + lit + "*") == "*" + nl + "*";
    StarLiteralStarIsSubstring(Normalize(norm, name), nl);
  }

  /** fnmatch with `*lit` is a suffix test on the normalised strings. */
  lemma FnMatchEndsWith(norm: char -> char, name: string, lit: string)
    requires KeepsWildcard(norm) && NoStar(lit)
    ensures FnMatch(norm, name, "*" + lit) <==>
            IsSuffix(Normalize(norm, lit), Normalize(norm, name))
  {
    var nl := Normalize(norm, lit);
    assert Normalize(norm, "*" + lit) == "*" + nl;
    StarLiteralIsSuffix(Normalize(norm, name), nl);
  }

  /** normcase on POSIX: the identity, so matching is case-sensitive. */
  function PosixNormCase(c: char): (r: char)
    ensures r == c
  {
    c
  }

  /**
   * normcase on Windows: `/` becomes `\` and upper-case letters become
   * lower-case (here: ASCII and the Latin-1 capitals).
   */
  function WindowsNormCase(c: char): (r: char)
    ensures r == '*' <==> c == '*'
    ensures c == '/' ==> r == '\\'
    ensures 'A' <= c <= 'Z' ==> r == (c as int + 32) as char && 'a' <= r <= 'z'
    ensures '\U{C0}' <= c <= '\U{DE}' && c != '\U{D7}' ==> r == (c as int + 32) as char
    ensures c != '/' && !('A' <= c <= 'Z') && !('\U{C0}' <= c <= '\U{DE}' && c != '\U{D7}') ==> r == c
    ensures 'a' <= r <= 'z' ==> c == r || c == (r as int - 32) as char
  {
    if c == '/' then '\\'
    else if 'A' <= c <= 'Z' || ('\U{C0}' <= c <= '\U{DE}' && c != '\U{D7}') then (c as int + 32) as char
    else c
  }

  /** Both case rules keep the wildcard, so the lemmas above apply to either. */
  lemma CaseRulesKeepWildcard()
    ensures KeepsWildcard(PosixNormCase) && KeepsWildcard(WindowsNormCase)
  {
  }

  /**
   * Under the Windows rule `*.TXT` accepts a name exactly when its last four
   * characters lower-case to ".txt", so ".txt", ".Txt" and ".TXT" alike.
   */
  lemma WindowsTextSuffixIgnoresCase(name: string)
    ensures FnMatch(WindowsNormCase, name, "*.TXT") <==>
            |name| >= 4 && Normalize(WindowsNormCase, name[|name| - 4..]) == ".txt"
  {
    CaseRulesKeepWildcard();
    assert "*.TXT" == "*" + ".TXT";
    FnMatchEndsWith(WindowsNormCase, name, ".TXT");
    var nn := Normalize(WindowsNormCase, name);
    var nl := Normalize(WindowsNormCase, ".TXT");
    assert nl == ".txt";
    if |name| >= 4 {
      var tail := Normalize(WindowsNormCase, name[|name| - 4..]);
      forall i | 0 <= i < 4 ensures nn[|nn| - 4..][i] == tail[i] {
        assert nn[|nn| - 4 + i] == WindowsNormCase(name[|name| - 4 + i]);
      }
      assert nn[|nn| - 4..] == tail;
    }
  }

  /** The four spellings ".txt", ".Txt", ".tXT" and ".TXT" all pass `*.TXT` under the Windows rule. */
  lemma WindowsTextSuffixSpellings(stem: string)
    ensures FnMatch(WindowsNormCase, stem + ".txt", "*.TXT")
    ensures FnMatch(WindowsNormCase, stem + ".Txt", "*.TXT")
    ensures FnMatch(WindowsNormCase, stem + ".tXT", "*.TXT")
    ensures FnMatch(WindowsNormCase, stem + ".TXT", "*.TXT")
  {
    var names := [stem + ".txt", stem + ".Txt", stem + ".tXT", stem + ".TXT"];
    forall n | n in names ensures FnMatch(WindowsNormCase, n, "*.TXT") {
      WindowsTextSuffixIgnoresCase(n);
      assert n[|n| - 4..] in {".txt", ".Txt", ".tXT", ".TXT"};
    }
  }

}
