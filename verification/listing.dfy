/**
 * The blog index: the query the page declares (keep documents whose `listed` front-matter is
 * not `false`, newest first, dates rendered as "MMMM D, YYYY") and the page's mapping of each
 * returned edge to an article summary `{title, date, url}`.
 */
module Listing {
  import opened Wrappers
  import opened Dates
  import opened Slug

  /** The node an MDX document hangs under; only a `File` parent has a relative path. */
  datatype Parent = File(relativePath: string) | OtherParent

  /** An MDX document as the data layer holds it: front matter plus its parent node. */
  datatype Document = Document(title: string, date: CalendarDate, listed: Option<bool>, parent: Parent)

  /** One edge of the query result: the selected front matter, with the date already formatted. */
  datatype Edge = Edge(title: string, date: string, parent: Parent)

  /** The summary the page renders for one article. */
  datatype Article = Article(title: string, date: string, url: string)

  /** Reading `relativePath` of a non-file parent yields `undefined`, and `.replace` on it throws. */
  datatype Error = NoRelativePath(edgeIndex: nat)

  /** The filter `listed: { ne: false }`: absent and `true` pass, only an explicit `false` is dropped. */
  predicate IsListed(d: Document) {
    d.listed != Some(false)
  }

  /** How many documents pass the filter. */
  function CountListed(docs: seq<Document>): nat {
    if docs == [] then 0 else (if IsListed(docs[0]) then 1 else 0) + CountListed(docs[1..])
  }

  /** Keeps exactly the listed documents, each as often as it occurs, in their input order. */
  function Filter(docs: seq<Document>): (r: seq<Document>)
    ensures forall d :: multiset(r)[d] == if IsListed(d) then multiset(docs)[d] else 0
    ensures forall i :: 0 <= i < |r| ==> IsListed(r[i])
  {
    if docs == [] then []
    else
      assert docs == [docs[0]] + docs[1..];
      if IsListed(docs[0]) then [docs[0]] + Filter(docs[1..]) else Filter(docs[1..])
  }

  /** Newest first: no document is older than one after it. */
  predicate NewestFirst(s: seq<Document>) {
    forall i, j :: 0 <= i < j < |s| ==> OnOrBefore(s[j].date, s[i].date)
  }

  /** Inserts `d` into a newest-first sequence before the first document not newer than it. */
  function Insert(d: Document, s: seq<Document>): (r: seq<Document>)
    requires NewestFirst(s)
    ensures NewestFirst(r)
    ensures multiset(r) == multiset(s) + multiset{d}
    ensures |r| == |s| + 1 && (r[0] == d || (s != [] && r[0] == s[0]))
  {
    if s == [] then [d]
    else if OnOrBefore(s[0].date, d.date) then
      PrependNewest(d, s);
      [d] + s
    else
      var t := Insert(d, s[1..]);
      assert s == [s[0]] + s[1..];
      PrependNewest(s[0], t);
      [s[0]] + t
  }

  /** Putting a document in front of a newest-first sequence whose head is not newer keeps it newest first. */
  lemma PrependNewest(d: Document, s: seq<Document>)
    requires NewestFirst(s)
    requires s != [] ==> OnOrBefore(s[0].date, d.date)
    ensures NewestFirst([d] + s)
  {
    var r := [d] + s;
    forall i, j | 0 <= i < j < |r|
      ensures OnOrBefore(r[j].date, r[i].date)
    {
      if i == 0 {
        OnOrBeforeTotalOrder(r[j].date, s[0].date, d.date);
      }
    }
  }

  /** The query's `sort: { order: DESC, fields: frontmatter___date }`. */
  function SortNewestFirst(docs: seq<Document>): (r: seq<Document>)
    ensures NewestFirst(r)
    ensures multiset(r) == multiset(docs)
  {
    if docs == [] then []
    else
      assert docs == [docs[0]] + docs[1..];
      Insert(docs[0], SortNewestFirst(docs[1..]))
  }

  /** The filter keeps one document per listed document of the input. */
  lemma {:induction false} FilterLength(docs: seq<Document>)
    ensures |Filter(docs)| == CountListed(docs)
  {
    if docs != [] {
      FilterLength(docs[1..]);
    }
  }

  /** A document survives the filter if and only if it is in the input and not unlisted. */
  lemma FilterMembership(docs: seq<Document>, d: Document)
    ensures d in Filter(docs) <==> d in docs && IsListed(d)
  {
    assert d in Filter(docs) <==> multiset(Filter(docs))[d] > 0;
    assert d in docs <==> multiset(docs)[d] > 0;
  }

  /** Removing one document keeps a sequence newest first. */
  lemma RemoveKeepsNewestFirst(b: seq<Document>, k: nat)
    requires NewestFirst(b) && k < |b|
    ensures NewestFirst(b[..k] + b[k + 1..])
    ensures multiset(b[..k] + b[k + 1..]) == multiset(b) - multiset{b[k]}
  {
    var rest := b[..k] + b[k + 1..];
    forall i, j | 0 <= i < j < |rest|
      ensures OnOrBefore(rest[j].date, rest[i].date)
    {
      var i' := if i < k then i else i + 1;
      var j' := if j < k then j else j + 1;
      assert rest[i] == b[i'] && rest[j] == b[j'];
    }
    assert b == b[..k] + [b[k]] + b[k + 1..];
  }

  /** When `b` is newest first and its document at `k` is as new as any, every document up to `k` shares its date. */
  lemma NewestPrefixSameDate(b: seq<Document>, k: nat)
    requires NewestFirst(b) && k < |b|
    requires forall j :: 0 <= j < |b| ==> OnOrBefore(b[j].date, b[k].date)
    ensures forall j :: 0 <= j <= k ==> b[j].date == b[k].date
  {
    forall j | 0 <= j <= k
      ensures b[j].date == b[k].date
    {
      OnOrBeforeTotalOrder(b[k].date, b[j].date, b[k].date);
    }
  }

  /**
   * The last step of `NewestFirstDatesDetermined`: `a` starts with `b[k]`, the rest of `a` has
   * the dates of `rest`, which is `b` without position `k`, and `b` has one date up to `k`; then `a` and `b`
   * have the same dates throughout.
   */
  lemma DatesAroundRemoval(a: seq<Document>, b: seq<Document>, k: nat, rest: seq<Document>)
    requires k < |b| && |a| == |b| && a[0] == b[k]
    requires rest == b[..k] + b[k + 1..]
    requires forall i :: 0 <= i < |rest| ==> a[i + 1].date == rest[i].date
    requires forall j :: 0 <= j <= k ==> b[j].date == b[k].date
    ensures forall i :: 0 <= i < |a| ==> a[i].date == b[i].date
  {
    forall i | 0 <= i < |a|
      ensures a[i].date == b[i].date
    {
      if i == 0 {
        assert b[0].date == b[k].date;
      } else if i <= k {
        assert rest[i - 1] == b[i - 1];
      } else {
        assert rest[i - 1] == b[i];
      }
    }
  }

  /** The head of a newest-first sequence is at least as new as every document of any permutation of it. */
  lemma HeadIsNewest(a: seq<Document>, b: seq<Document>)
    requires NewestFirst(a) && a != []
    requires multiset(a) == multiset(b)
    ensures forall j :: 0 <= j < |b| ==> OnOrBefore(b[j].date, a[0].date)
  {
    forall j | 0 <= j < |b|
      ensures OnOrBefore(b[j].date, a[0].date)
    {
      assert b[j] in multiset(a);
      var m :| 0 <= m < |a| && a[m] == b[j];
      OnOrBeforeTotalOrder(a[0].date, a[0].date, a[0].date);
    }
  }

  /**
   * Two newest-first arrangements of the same documents show the same dates, position by
   * position: how the data layer orders documents of equal date does not change the dates listed.
   */
  lemma {:induction false} NewestFirstDatesDetermined(a: seq<Document>, b: seq<Document>)
    requires NewestFirst(a) && NewestFirst(b)
    requires multiset(a) == multiset(b)
    ensures |a| == |b|
    ensures forall i :: 0 <= i < |a| ==> a[i].date == b[i].date
    decreases |a|
  {
    assert |a| == |multiset(a)| == |multiset(b)| == |b|;
    if a != [] {
      var x := a[0];
      assert x in multiset(b);
      var k :| 0 <= k < |b| && b[k] == x;
      HeadIsNewest(a, b);
      NewestPrefixSameDate(b, k);
      var rest := b[..k] + b[k + 1..];
      RemoveKeepsNewestFirst(b, k);
      var tail := a[1..];
      assert multiset(tail) == multiset(a) - multiset{x} by {
        assert a == [x] + tail;
      }
      assert multiset(rest) == multiset(tail);
      assert NewestFirst(tail) by {
        forall i, j | 0 <= i < j < |tail|
          ensures OnOrBefore(tail[j].date, tail[i].date)
        {
          assert tail[i] == a[i + 1] && tail[j] == a[j + 1];
        }
      }
      NewestFirstDatesDetermined(tail, rest);
      forall i | 0 <= i < |rest|
        ensures a[i + 1].date == rest[i].date
      {
        assert tail[i] == a[i + 1];
      }
      DatesAroundRemoval(a, b, k, rest);
    }
  }

  /** `s` is an admissible answer to the query over `docs`: all listed documents, none other, newest first. */
  ghost predicate IsListing(docs: seq<Document>, s: seq<Document>) {
    && NewestFirst(s)
    && forall d :: multiset(s)[d] == if IsListed(d) then multiset(docs)[d] else 0
  }

  /** An admissible answer holds exactly the listed documents of the input. */
  lemma ListingMembership(docs: seq<Document>, s: seq<Document>, d: Document)
    requires IsListing(docs, s)
    ensures d in s <==> d in docs && IsListed(d)
  {
    assert d in s <==> multiset(s)[d] > 0;
    assert d in docs <==> multiset(docs)[d] > 0;
  }

  /** An admissible answer lives entirely in files exactly when every listed input document does. */
  lemma ListingInFiles(docs: seq<Document>, s: seq<Document>)
    requires IsListing(docs, s)
    ensures (forall i :: 0 <= i < |s| ==> s[i].parent.File?)
        <==> (forall d :: d in docs && IsListed(d) ==> d.parent.File?)
  {
    forall d | d in docs && IsListed(d)
      ensures d in s
    {
      ListingMembership(docs, s, d);
    }
    forall i | 0 <= i < |s|
      ensures s[i] in docs && IsListed(s[i])
    {
      ListingMembership(docs, s, s[i]);
    }
  }

  /** Every admissible answer of the query lists the same dates in the same order. */
  lemma ListingDatesDetermined(docs: seq<Document>, s1: seq<Document>, s2: seq<Document>)
    requires IsListing(docs, s1) && IsListing(docs, s2)
    ensures |s1| == |s2|
    ensures forall i :: 0 <= i < |s1| ==> s1[i].date == s2[i].date
  {
    assert multiset(s1) == multiset(s2);
    NewestFirstDatesDetermined(s1, s2);
  }

  /** The documents the query returns, before their fields are selected. */
  function ListedNewestFirst(docs: seq<Document>): (s: seq<Document>)
    ensures IsListing(docs, s)
    ensures |s| == CountListed(docs)
  {
    var s := SortNewestFirst(Filter(docs));
    FilterLength(docs);
    assert |s| == |multiset(s)| == |multiset(Filter(docs))| == |Filter(docs)|;
    s
  }

  /** The edge the query returns for a document: title, formatted date and parent. */
  function ToEdge(d: Document): Edge {
    Edge(d.title, Format(d.date), d.parent)
  }

  function EdgesOf(s: seq<Document>): (edges: seq<Edge>)
    ensures |edges| == |s|
    ensures forall i :: 0 <= i < |s| ==> edges[i] == ToEdge(s[i])
  {
    seq(|s|, i requires 0 <= i < |s| => ToEdge(s[i]))
  }

  /** `BlogIndexQuery`: one edge per listed document, newest first. */
  function Query(docs: seq<Document>): (edges: seq<Edge>)
    ensures |edges| == CountListed(docs)
    ensures exists s :: IsListing(docs, s) && edges == EdgesOf(s)
  {
    var s := ListedNewestFirst(docs);
    assert IsListing(docs, s);
    EdgesOf(s)
  }

  /** `articles` summarises the documents `s`, one article per document, in the same order. */
  ghost predicate Summarises(articles: seq<Article>, s: seq<Document>) {
    && |articles| == |s|
    && forall i :: 0 <= i < |s| ==>
         && s[i].parent.File?
         && articles[i] == Article(s[i].title, Format(s[i].date), Url(s[i].parent.relativePath))
  }

  /** The article the page builds from one edge whose parent is a file. */
  function ArticleOf(e: Edge): Article
    requires e.parent.File?
  {
    Article(e.title, e.date, Url(e.parent.relativePath))
  }

  /** `articles` extended by the article of edge `k`, when it holds the articles of the edges before it. */
  function Append(articles: seq<Article>, edges: seq<Edge>, k: nat): (r: seq<Article>)
    requires k < |edges| && |articles| == k && edges[k].parent.File?
    requires forall i :: 0 <= i < k ==> edges[i].parent.File? && articles[i] == ArticleOf(edges[i])
    ensures |r| == k + 1
    ensures forall i :: 0 <= i <= k ==> edges[i].parent.File? && r[i] == ArticleOf(edges[i])
  {
    articles + [ArticleOf(edges[k])]
  }

  /**
   * The page's `data.allMdx.edges.map(...)`: each edge becomes an article with its title and
   * date copied and its URL derived from the parent file's relative path. The first edge
   * whose parent is not a file aborts the whole mapping.
   */
  method Articles(edges: seq<Edge>) returns (r: Result<seq<Article>, Error>)
    ensures r.Success? <==> forall i :: 0 <= i < |edges| ==> edges[i].parent.File?
    ensures r.Success? ==> |r.value| == |edges|
    ensures r.Success? ==> forall i :: 0 <= i < |edges| ==>
              && r.value[i].title == edges[i].title
              && r.value[i].date == edges[i].date
              && r.value[i].url == Url(edges[i].parent.relativePath)
    ensures r.Failure? ==>
              && r.error.edgeIndex < |edges|
              && edges[r.error.edgeIndex].parent.OtherParent?
              && forall i :: 0 <= i < r.error.edgeIndex ==> edges[i].parent.File?
  {
    var articles: seq<Article> := [];
    var k := 0;
    while k < |edges|
      invariant 0 <= k <= |edges|
      invariant |articles| == k
      invariant forall i :: 0 <= i < k ==> edges[i].parent.File?
      invariant forall i :: 0 <= i < k ==> articles[i] == ArticleOf(edges[i])
    {
      if edges[k].parent.OtherParent? {
        return Failure(NoRelativePath(k));
      }
      articles := Append(articles, edges, k);
      k := k + 1;
    }
    return Success(articles);
  }

  /**
   * The blog index end to end: the query followed by the mapping. It succeeds exactly when every
   * listed document lives in a file, and then lists one article per listed document, newest first.
   */
  method ListArticles(docs: seq<Document>) returns (r: Result<seq<Article>, Error>)
    ensures r.Success? <==> forall d :: d in docs && IsListed(d) ==> d.parent.File?
    ensures r.Success? ==> |r.value| == CountListed(docs)
    ensures r.Success? ==> exists s :: IsListing(docs, s) && Summarises(r.value, s)
  {
    var edges := Query(docs);
    ghost var s :| IsListing(docs, s) && edges == EdgesOf(s);
    r := Articles(edges);
    ListingInFiles(docs, s);
    if r.Success? {
      assert Summarises(r.value, s);
    }
  }
}
