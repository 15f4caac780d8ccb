/** The listing on small sample collections of documents. */
module ListingExamples {
  import opened Wrappers
  import opened Dates
  import opened Slug
  import opened Listing
  import opened Ascii
  import SlugExamples
  import DateExamples

  /** `listed: true` and an absent `listed` pass the filter; `listed: false` does not. */
  lemma FilterExample(a: Document, b: Document, c: Document)
    requires a.listed == Some(true) && b.listed == Some(false) && c.listed == None
    ensures Filter([a, b, c]) == [a, c]
  {
    assert [a, b, c][1..] == [b, c];
    assert [b, c][1..] == [c];
    assert [c][1..] == [];
    assert Filter([c]) == [c];
    assert Filter([b, c]) == [c];
  }

  /** A listing of two documents with different dates puts the newer one first. */
  lemma TwoDocumentListing(docs: seq<Document>, s: seq<Document>, newer: Document, older: Document)
    requires IsListing(docs, s)
    requires newer != older && !OnOrBefore(newer.date, older.date)
    requires forall d :: multiset(s)[d] == multiset{newer, older}[d]
    ensures s == [newer, older]
  {
    assert multiset(s) == multiset{newer, older};
    assert |s| == 2 by {
      assert |multiset(s)| == 2;
    }
    assert s == [s[0], s[1]];
    assert multiset(s) == multiset{s[0], s[1]};
    assert s[0] in multiset(s) && s[1] in multiset(s);
    assert multiset(s)[newer] == 1 && multiset(s)[older] == 1;
    assert OnOrBefore(s[1].date, s[0].date);
  }

  /**
   * Three posts, the second unlisted and the third newer than the first: every admissible answer
   * of the query is the third, then the first (and so are its edges, `ScenarioQuery`). With the dates 2021-03-03, 2020-01-01 and
   * 2021-05-01, the edges carry "May 1, 2021" and then "March 3, 2021" (`FormatExampleMay`,
   * `FormatExampleMarch`).
   */
  lemma ScenarioListing(a: Document, b: Document, c: Document)
    requires IsListed(a) && !IsListed(b) && IsListed(c)
    requires !OnOrBefore(c.date, a.date)
    ensures forall s :: IsListing([a, b, c], s) ==> s == [c, a]
  {
    var docs := [a, b, c];
    assert multiset(docs) == multiset{a, b, c};
    forall s | IsListing(docs, s)
      ensures s == [c, a]
    {
      TwoDocumentListing(docs, s, c, a);
    }
  }

  /** When only one ordering is admissible, the query's edges are that ordering's edges. */
  lemma QueryOfUniqueListing(docs: seq<Document>, s: seq<Document>)
    requires forall t :: IsListing(docs, t) ==> t == s
    ensures Query(docs) == EdgesOf(s)
  {
    var edges := Query(docs);
    var t :| IsListing(docs, t) && edges == EdgesOf(t);
  }

  /** The query's edges for the same three posts. */
  lemma ScenarioQuery(a: Document, b: Document, c: Document)
    requires IsListed(a) && !IsListed(b) && IsListed(c)
    requires !OnOrBefore(c.date, a.date)
    ensures Query([a, b, c]) == [ToEdge(c), ToEdge(a)]
  {
    ScenarioListing(a, b, c);
    QueryOfUniqueListing([a, b, c], [c, a]);
    EdgesOfPair(c, a);
  }

  lemma EdgesOfPair(x: Document, y: Document)
    ensures EdgesOf([x, y]) == [ToEdge(x), ToEdge(y)]
  {
    var s := [x, y];
    var e := EdgesOf(s);
    assert s[0] == x && s[1] == y;
    PairOf(e, ToEdge(x), ToEdge(y));
  }

  /** A sequence of length two is the display of its two elements. */
  lemma PairOf<T>(e: seq<T>, first: T, second: T)
    requires |e| == 2 && e[0] == first && e[1] == second
    ensures e == [first, second]
  {
  }

  /** The URL of an index file in a short, lower-case directory. */
  lemma ShortDirectoryUrl(dir: string, path: string, url: string)
    requires |dir| < 9 && NoUpper(dir)
    requires path == dir + "/index.md" && url == UrlPrefix + dir
    ensures Url(path) == url
  {
    SlugExamples.UrlOfShortIndexFile(dir);
    ToLowerFixesLower(dir);
  }

  lemma UrlOfA(path: string)
    requires path == "a/index.md"
    ensures Url(path) == "/blog/a"
  {
    assert path == "a" + "/index.md";
    assert "/blog/a" == UrlPrefix + "a";
    ShortDirectoryUrl("a", path, "/blog/a");
  }

  lemma UrlOfC(path: string)
    requires path == "c/index.md"
    ensures Url(path) == "/blog/c"
  {
    assert path == "c" + "/index.md";
    assert "/blog/c" == UrlPrefix + "c";
    ShortDirectoryUrl("c", path, "/blog/c");
  }

  /** The articles summarising two documents, in order. */
  lemma SummaryOfPair(articles: seq<Article>, x: Document, y: Document)
    requires Summarises(articles, [x, y])
    ensures x.parent.File? && y.parent.File?
    ensures articles == [Article(x.title, Format(x.date), Url(x.parent.relativePath)),
                         Article(y.title, Format(y.date), Url(y.parent.relativePath))]
  {
    assert articles == [articles[0], articles[1]];
  }

  /** The summary of the three-post scenario, with its dates and URLs written out. */
  lemma ScenarioSummary(a: Document, b: Document, c: Document, articles: seq<Article>)
    requires IsListed(a) && !IsListed(b) && IsListed(c)
    requires a.date == Date(2021, 3, 3) && a.parent == File("a/index.md")
    requires c.date == Date(2021, 5, 1) && c.parent == File("c/index.md")
    requires exists s :: IsListing([a, b, c], s) && Summarises(articles, s)
    ensures articles == [Article(c.title, "May 1, 2021", "/blog/c"), Article(a.title, "March 3, 2021", "/blog/a")]
  {
    var s :| IsListing([a, b, c], s) && Summarises(articles, s);
    ScenarioListing(a, b, c);
    SummaryOfPair(articles, c, a);
    DateExamples.FormatExampleMay();
    DateExamples.FormatExampleMarch();
    UrlOfC(c.parent.relativePath);
    UrlOfA(a.parent.relativePath);
  }

  /**
   * The blog index end to end: "a/index.md" dated 2021-03-03, an unlisted post, and
   * "c/index.md" dated 2021-05-01 give two articles, "/blog/c" shown as "May 1, 2021" and then
   * "/blog/a" shown as "March 3, 2021".
   */
  method ScenarioArticles(a: Document, b: Document, c: Document) returns (r: Result<seq<Article>, Error>)
    requires IsListed(a) && !IsListed(b) && IsListed(c)
    requires a.date == Date(2021, 3, 3) && a.parent == File("a/index.md")
    requires c.date == Date(2021, 5, 1) && c.parent == File("c/index.md")
    ensures r == Success([Article(c.title, "May 1, 2021", "/blog/c"), Article(a.title, "March 3, 2021", "/blog/a")])
  {
    r := ListArticles([a, b, c]);
    ScenarioSummary(a, b, c, r.value);
  }
}
