/**
 * The article URL derived from a content file's relative path:
 *   "/blog/" + relativePath.replace(/\/index.mdx?/, "").toLowerCase()
 * The pattern is unanchored and has no `g` flag, so only its leftmost match is removed, and
 * its `.` is unescaped, so it stands for any one character other than a line terminator.
 *
 * Paths are sequences of Unicode code points, while JavaScript strings are sequences of UTF-16
 * code units and the pattern has no `u` flag, so its `.` consumes one code unit. A code point
 * above U+FFFF takes two units; the `.` takes the first and the second is never the `m` the
 * pattern needs next. Such a code point therefore never stands in for the `.`.
 */
module Slug {
  import opened Wrappers
  import opened Ascii

  const UrlPrefix: string := "/blog/"

  /** Characters that JavaScript's `.` does not match without the `s` flag. */
  predicate IsLineTerminator(c: char) {
    c == '\n' || c == '\r' || c == '\U{2028}' || c == '\U{2029}'
  }

  /** Code points that the `.` of a pattern without the `u` flag matches: one UTF-16 code unit, not a line terminator. */
  predicate DotMatches(c: char) {
    !IsLineTerminator(c) && c as int < 0x1_0000
  }

  /** The pattern `\/index.mdx?` matches `s` starting at position `i`. */
  predicate MatchesAt(s: string, i: nat) {
    i + 9 <= |s| && s[i..i + 6] == "/index" && DotMatches(s[i + 6]) && s[i + 7..i + 9] == "md"
  }

  /** Length of the match at `i`: the optional `x` is taken greedily when it is there. */
  function MatchLength(s: string, i: nat): (n: nat)
    requires MatchesAt(s, i)
    ensures n == 9 || n == 10
    ensures i + n <= |s|
  {
    if i + 9 < |s| && s[i + 9] == 'x' then 10 else 9
  }

  /** `i` is where the pattern first matches in `s`. */
  predicate IsLeftmostMatch(s: string, i: nat) {
    MatchesAt(s, i) && forall j: nat :: j < i ==> !MatchesAt(s, j)
  }

  /** A string has at most one leftmost match. */
  lemma LeftmostMatchUnique(s: string, i: nat, k: nat)
    requires IsLeftmostMatch(s, i) && IsLeftmostMatch(s, k)
    ensures i == k
  {
  }

  /** Scans positions `from`, `from + 1`, ... for the first one where the pattern matches. */
  function FindMatch(s: string, from: nat): (r: Option<nat>)
    requires from <= |s|
    ensures r.Some? ==> from <= r.value && MatchesAt(s, r.value)
    ensures r.Some? ==> forall j :: from <= j < r.value ==> !MatchesAt(s, j)
    ensures r.None? <==> forall j :: from <= j ==> !MatchesAt(s, j)
    decreases |s| - from
  {
    if from + 9 > |s| then None
    else if MatchesAt(s, from) then Some(from)
    else FindMatch(s, from + 1)
  }

  /**
   * `relativePath.replace(/\/index.mdx?/, "")`: removes the leftmost match, and only it, keeping
   * the text on both sides in order; a path in which the pattern matches nowhere is left whole.
   */
  function StripIndex(path: string): (r: string)
    ensures |r| <= |path|
    ensures (forall j: nat :: !MatchesAt(path, j)) ==> r == path
    ensures forall i: nat :: IsLeftmostMatch(path, i) ==> r == path[..i] + path[i + MatchLength(path, i)..]
  {
    match FindMatch(path, 0)
    case None =>
      assert forall i: nat :: !MatchesAt(path, i);
      path
    case Some(i) =>
      assert IsLeftmostMatch(path, i);
      assert forall k: nat :: IsLeftmostMatch(path, k) ==> k == i by {
        forall k: nat | IsLeftmostMatch(path, k)
          ensures k == i
        {
          LeftmostMatchUnique(path, i, k);
        }
      }
      path[..i] + path[i + MatchLength(path, i)..]
  }

  /** The article URL for a content file at `relativePath`. */
  function Url(relativePath: string): (url: string)
    ensures |url| >= |UrlPrefix| && url[..|UrlPrefix|] == UrlPrefix
    ensures NoUpper(url[|UrlPrefix|..])
    ensures |url| <= |UrlPrefix| + |relativePath|
  {
    var slug := ToLower(StripIndex(relativePath));
    assert (UrlPrefix + slug)[|UrlPrefix|..] == slug;
    UrlPrefix + slug
  }

  /** The URL keeps every character outside the removed match, lower-cased and in order. */
  lemma UrlLeftmost(path: string, i: nat)
    requires MatchesAt(path, i)
    requires forall j :: 0 <= j < i ==> !MatchesAt(path, j)
    ensures Url(path) == UrlPrefix + ToLower(path[..i]) + ToLower(path[i + MatchLength(path, i)..])
  {
    ToLowerConcat(path[..i], path[i + MatchLength(path, i)..]);
  }

  /** A path the pattern does not match is only lower-cased. */
  lemma UrlNoMatch(path: string)
    requires forall j :: 0 <= j ==> !MatchesAt(path, j)
    ensures Url(path) == UrlPrefix + ToLower(path)
  {
  }

  /** The slug part of a URL is already lower-case, so lower-casing it again changes nothing. */
  lemma SlugIsLowerCaseFixpoint(relativePath: string)
    ensures ToLower(Url(relativePath)[|UrlPrefix|..]) == Url(relativePath)[|UrlPrefix|..]
  {
    ToLowerFixesLower(Url(relativePath)[|UrlPrefix|..]);
  }

  predicate IsIndexFileName(suffix: string) {
    suffix == "/index.md" || suffix == "/index.mdx"
  }

  /** The text the pattern matches at the end of `dir`: "/index", any one character `c`, "md", then `tail`. */
  function IndexName(c: char, tail: string): string {
    "/index" + [c] + "md" + tail
  }

  /** A match that starts inside `dir` cannot run on into a following `IndexName`. */
  lemma NoMatchAcrossBoundary(dir: string, c: char, tail: string, j: nat)
    requires j < |dir| < j + 9
    ensures !MatchesAt(dir + IndexName(c, tail), j)
  {
    var p := dir + IndexName(c, tail);
    if j + 9 <= |p| {
      // the pattern needs "md" at j + 7 and j + 8, which lie in the appended name
      // ("/index" + c + "md"), where no 'm' is directly followed by a 'd' before offset 7
      assert p[j + 8] == IndexName(c, tail)[j + 8 - |dir|];
      assert j + 7 >= |dir| ==> p[j + 7] == IndexName(c, tail)[j + 7 - |dir|];
      if j + 7 < |dir| {
        assert p[j + 7..j + 9][1] == p[j + 8];
      } else {
        assert p[j + 7..j + 9][0] == p[j + 7];
        assert p[j + 7..j + 9][1] == p[j + 8];
      }
    }
  }

  /**
   * When the pattern's first match starts right after `dir`, the URL is `dir` and everything
   * after the match, lower-cased; `rest` may hold further matches, which are kept. The `.` of the
   * pattern accepts any one-unit character `c` but a line terminator, and a following `x` is always taken.
   */
  lemma UrlOfFirstMatch(dir: string, c: char, ext: string, rest: string)
    requires forall j :: 0 <= j ==> !MatchesAt(dir, j)
    requires DotMatches(c)
    requires ext == "x" || (ext == "" && (rest == [] || rest[0] != 'x'))
    ensures Url(dir + IndexName(c, ext + rest)) == UrlPrefix + ToLower(dir) + ToLower(rest)
  {
    var p := dir + IndexName(c, ext + rest);
    MatchAfter(dir, c, ext, rest);
    NoMatchBefore(dir, c, ext + rest);
    var n := MatchLength(p, |dir|);
    assert p[..|dir|] == dir && p[|dir| + n..] == rest;
    UrlLeftmost(p, |dir|);
  }

  /** Where the match right after `dir` sits, how long it is, and what surrounds it. */
  lemma MatchAfter(dir: string, c: char, ext: string, rest: string)
    requires DotMatches(c)
    requires ext == "x" || (ext == "" && (rest == [] || rest[0] != 'x'))
    ensures MatchesAt(dir + IndexName(c, ext + rest), |dir|)
    ensures MatchLength(dir + IndexName(c, ext + rest), |dir|) == 9 + |ext|
    ensures (dir + IndexName(c, ext + rest))[..|dir|] == dir
    ensures (dir + IndexName(c, ext + rest))[|dir| + 9 + |ext|..] == rest
  {
    var name := IndexName(c, ext + rest);
    var p := dir + name;
    assert p[|dir|..|dir| + 6] == name[..6] == "/index";
    assert p[|dir| + 7..|dir| + 9] == name[7..9] == "md";
    assert p[|dir| + 9..] == ext + rest;
  }

  /** No match of the pattern starts inside `dir` when `dir` alone has none. */
  lemma NoMatchBefore(dir: string, c: char, tail: string)
    requires forall j :: 0 <= j ==> !MatchesAt(dir, j)
    ensures forall j :: 0 <= j < |dir| ==> !MatchesAt(dir + IndexName(c, tail), j)
  {
    var p := dir + IndexName(c, tail);
    forall j | 0 <= j < |dir|
      ensures !MatchesAt(p, j)
    {
      if j + 9 <= |dir| {
        assert p[j..j + 9] == dir[j..j + 9];
        assert !MatchesAt(dir, j);
      } else {
        NoMatchAcrossBoundary(dir, c, tail, j);
      }
    }
  }

  /**
   * A content file stored as `dir/index.md` or `dir/index.mdx` gets the URL of its directory,
   * provided the pattern matches nowhere in `dir` itself.
   */
  lemma UrlOfIndexFile(dir: string, suffix: string)
    requires IsIndexFileName(suffix)
    requires forall j :: 0 <= j ==> !MatchesAt(dir, j)
    ensures Url(dir + suffix) == UrlPrefix + ToLower(dir)
  {
    var ext := if suffix == "/index.md" then "" else "x";
    assert suffix == IndexName('.', ext + "");
    UrlOfFirstMatch(dir, '.', ext, "");
    assert ToLower("") == "";
  }
}
