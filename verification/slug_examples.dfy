/**
 * URLs of sample paths, including the corner cases of the unescaped, unanchored pattern.
 * Proof strategy: each sample path is a parameter pinned by a precondition, and the URL is
 * derived from the general lemmas of `Slug` rather than by evaluating `Url` on a literal.
 */
module SlugExamples {
  import opened Ascii
  import opened Slug

  /** `ToLower` on a literal, checked character by character. */
  lemma LowerOf(s: string, t: string)
    requires |s| == |t|
    requires forall i :: 0 <= i < |s| ==> LowerChar(s[i]) == t[i]
    ensures ToLower(s) == t
  {
  }

  /** The pattern matches nowhere in a string with no "/" early enough to start a match. */
  lemma NoMatchWithoutEarlySlash(s: string)
    requires forall j :: 0 <= j < |s| - 8 ==> s[j] != '/'
    ensures forall j :: 0 <= j ==> !MatchesAt(s, j)
  {
    forall j | 0 <= j
      ensures !MatchesAt(s, j)
    {
      if j + 9 <= |s| {
        assert s[j..j + 6][0] == s[j];
      }
    }
  }

  /** "2021/My-Post/index.md" gets the URL "/blog/2021/my-post". */
  lemma UrlExampleMd(dir: string, slug: string)
    requires dir == "2021/My-Post" && slug == "2021/my-post"
    ensures Url(dir + "/index.md") == UrlPrefix + slug
  {
    LowerOf(dir, slug);
    assert forall j :: 0 <= j < |dir| - 8 ==> dir[j] != '/';
    NoMatchWithoutEarlySlash(dir);
    UrlOfIndexFile(dir, "/index.md");
  }

  /** "hello-world/index.mdx" gets the URL "/blog/hello-world". */
  lemma UrlExampleMdx(dir: string, slug: string)
    requires dir == "hello-world" && slug == "hello-world"
    ensures Url(dir + "/index.mdx") == UrlPrefix + slug
  {
    LowerOf(dir, slug);
    assert forall j :: 0 <= j < |dir| - 8 ==> dir[j] != '/';
    NoMatchWithoutEarlySlash(dir);
    UrlOfIndexFile(dir, "/index.mdx");
  }

  /** `UrlOfFirstMatch` for a lower-case directory and a lower-case remainder: both are kept as they are. */
  lemma UrlOfLowerFirstMatch(dir: string, c: char, rest: string)
    requires forall j :: 0 <= j ==> !MatchesAt(dir, j)
    requires DotMatches(c) && (rest == [] || rest[0] != 'x')
    requires ToLower(dir) == dir && ToLower(rest) == rest
    ensures Url(dir + ("/index" + [c] + "md") + rest) == UrlPrefix + dir + rest
  {
    assert dir + ("/index" + [c] + "md") + rest == dir + IndexName(c, "" + rest);
    UrlOfFirstMatch(dir, c, "", rest);
  }

  /** The unescaped `.` lets "/index-md" count as an index file name, even mid-path. */
  lemma UrlExampleAnyCharacter(dir: string, rest: string)
    requires dir == "notes" && rest == "/draft"
    ensures Url(dir + "/index-md" + rest) == UrlPrefix + dir + rest
  {
    LowerOf(dir, dir);
    LowerOf(rest, rest);
    assert "/index-md" == "/index" + ['-'] + "md";
    NoMatchWithoutEarlySlash(dir);
    assert rest[0] == '/';
    UrlOfLowerFirstMatch(dir, '-', rest);
  }

  /** Only the leftmost match is removed; a later index file name stays in the URL. */
  lemma UrlExampleLeftmostOnly(dir: string, rest: string)
    requires dir == "a" && rest == "/b/index.md"
    ensures Url(dir + "/index.md" + rest) == UrlPrefix + dir + rest
  {
    LowerOf(dir, dir);
    LowerOf(rest, rest);
    assert "/index.md" == "/index" + ['.'] + "md";
    NoMatchWithoutEarlySlash(dir);
    assert rest[0] == '/';
    UrlOfLowerFirstMatch(dir, '.', rest);
  }

  /**
   * A character above U+FFFF does not stand in for the `.`: JavaScript sees it as two code
   * units, so "a/index" + U+1F600 + "md" has no match and keeps its whole name.
   */
  lemma UrlExampleAstral(path: string)
    requires path == "a/index\U{1F600}md"
    ensures Url(path) == UrlPrefix + path
  {
    LowerOf(path, path);
    AstralNoMatch(path);
    UrlNoMatch(path);
  }

  lemma AstralNoMatch(path: string)
    requires path == "a/index\U{1F600}md"
    ensures forall j: nat :: !MatchesAt(path, j)
  {
    forall j: nat
      ensures !MatchesAt(path, j)
    {
      if j == 0 {
        assert path[0..6][0] == path[0] == 'a';
      } else if j == 1 {
        assert !DotMatches(path[7]);
      }
    }
  }

  /** An index file at the root has no "/" before its name, so nothing is removed. */
  lemma UrlExampleRootIndex(path: string)
    requires path == "index.md"
    ensures Url(path) == UrlPrefix + path
  {
    NoMatchWithoutEarlySlash(path);
    UrlNoMatch(path);
    LowerOf(path, path);
  }

  /** A directory name too short to hold a match maps its index file to the lower-cased name. */
  lemma UrlOfShortIndexFile(dir: string)
    requires |dir| < 9
    ensures Url(dir + "/index.md") == UrlPrefix + ToLower(dir)
  {
    NoMatchWithoutEarlySlash(dir);
    UrlOfIndexFile(dir, "/index.md");
  }

  /** Paths that differ only in letter case share a URL: the derivation is not injective. */
  lemma UrlExampleCollision(upper: string, lower: string)
    requires upper == "Post" && lower == "post"
    ensures upper + "/index.md" != lower + "/index.md"
    ensures Url(upper + "/index.md") == Url(lower + "/index.md") == UrlPrefix + lower
  {
    assert (upper + "/index.md")[0] != (lower + "/index.md")[0];
    LowerOf(upper, lower);
    LowerOf(lower, lower);
    UrlOfShortIndexFile(upper);
    UrlOfShortIndexFile(lower);
  }
}
