# Blog index listing, modelled in Dafny

This project models the content-listing pipeline of the blog index page of a personal
Gatsby website (`src/pages/blog.js`). The page declares a GraphQL query over all MDX
documents and then maps each returned edge to an article summary:

1. **Filter** (`listed: { ne: false }`): a document is kept unless its `listed` front matter
   is exactly `false`. The flag has three states: `true`, absent, `false`. Absent counts as listed.
2. **Sort** (`sort: { order: DESC, fields: frontmatter___date }`): newest first.
3. **Date format** (`date(formatString: "MMMM D, YYYY")`): full English month name, the day
   without a leading zero, a comma, and the year zero-filled to at least four digits.
4. **Map** (`data.allMdx.edges.map(...)`): each edge becomes `{title, date, url}`. The title
   and the formatted date are copied. The url is
   `"/blog/" + relativePath.replace(/\/index.mdx?/, "").toLowerCase()`.

The model's files:

- `wrappers.dfy`: `Option` and `Result`.
- `ascii.dfy`: ASCII lower-casing.
- `decimal.dfy`: decimal digits and zero-filling.
- `dates.dfy`: calendar dates, the display format, its parser, and the date order.
- `date_examples.dfy`: display strings of sample dates.
- `slug.dfy`: the regular expression and the url.
- `slug_examples.dfy`: urls of sample paths, including corner cases.
- `listing.dfy`: documents, the filter, the sort, the query, and the mapping.
- `listing_examples.dfy`: small sample collections.

Steps 1–3 are run by the data layer, so they are modelled as pure functions with
specification-level contracts: a newest-first predicate plus a multiset permutation. Step 4
is the page's own code. It is modelled as a method with a loop, and the regular expression
is modelled with JavaScript's semantics:

- the pattern is unanchored and has no `g` flag, so only the leftmost match is removed;
- its `.` is unescaped, so it matches any one character except a line terminator
  (`\n`, `\r`, U+2028, U+2029), not only a dot;
- the optional `x` is taken whenever it is present;
- paths are sequences of Unicode code points, while JavaScript strings are UTF-16 code units
  and the pattern has no `u` flag. The `.` therefore consumes a single code unit, and a
  character above U+FFFF, which takes two, never stands in for it
  (`Slug.DotMatches`, `SlugExamples.UrlExampleAstral`).

Three behaviours of the code are easy to misread. The model follows the code in each:

- The pattern is not tied to the end of the path. It removes its leftmost match anywhere in the
  path, and later matches stay. A root file `index.md` has no `/` before its name, so nothing is
  removed from it (`SlugExamples.UrlExampleRootIndex`).
- The sort is not stable by any promise of the code: the order of documents with equal dates
  is left to the data layer. The model does not fix a tie order. It proves that every
  admissible order shows the same dates (`Listing.ListingDatesDetermined`).
- The only input that makes the mapping fail is an edge whose parent is not a `File`. Its
  `relativePath` is then `undefined`, `.replace` throws, and the whole mapping stops. The model
  returns `Failure(NoRelativePath(k))` for the first such edge `k`. Missing titles do not fail:
  titles are copied as they are.

## Model

| member | source | states |
|---|---|---|
| `Ascii.ToLower` | src/pages/blog.js:11 | the result has the input's length, each character is the ASCII lower-case of the input's character at the same position, and no upper-case ASCII letter remains |
| `Ascii.ToLowerIdempotent` | src/pages/blog.js:11 | lower-casing twice gives the same string as lower-casing once |
| `Slug.FindMatch` | src/pages/blog.js:10 | the search returns the leftmost position at or after `from` where `\/index.mdx?` matches, its `.` taking one UTF-16 code unit other than a line terminator; `None` exactly when it matches nowhere there |
| `Slug.Url` | src/pages/blog.js:9-11 | every url starts with "/blog/", the rest has no upper-case ASCII letter, and the url is at most six characters longer than the path |
| `Slug.StripIndex` | src/pages/blog.js:10 | `replace` removes the leftmost match, and only it (9 characters, or 10 with a trailing `x`), keeping the text on both sides in order; a path in which the pattern matches nowhere is returned unchanged |
| `Slug.LeftmostMatchUnique` | src/pages/blog.js:10 | a path has at most one leftmost match, so the position `replace` works on is determined |
| `Slug.UrlLeftmost` | src/pages/blog.js:9-11 | the url is "/blog/" plus the lower-cased text before the leftmost match plus the lower-cased text after it |
| `Slug.UrlNoMatch` | src/pages/blog.js:9-11 | a path without a match gets "/blog/" plus the whole path lower-cased |
| `Slug.SlugIsLowerCaseFixpoint` | src/pages/blog.js:11 | lower-casing the part of a url after "/blog/" changes nothing |
| `Slug.NoMatchAcrossBoundary` | src/pages/blog.js:10 | a match cannot start inside a directory name and run on into a following "/index" + char + "md" |
| `Slug.UrlOfFirstMatch` | src/pages/blog.js:9-11 | if `dir` has no match, then `dir + "/index" + c + "md" + x? + rest` gets the url "/blog/" + lower(dir) + lower(rest), for any single-code-unit, non-line-terminator `c` and any `rest` |
| `Slug.UrlOfIndexFile` | src/pages/blog.js:9-11 | if `dir` has no match, then `dir + "/index.md"` and `dir + "/index.mdx"` both get the url "/blog/" + lower(dir) |
| `SlugExamples.UrlExampleMd` | src/pages/blog.js:9-11 | "2021/My-Post/index.md" gets "/blog/2021/my-post" |
| `SlugExamples.UrlExampleMdx` | src/pages/blog.js:9-11 | "hello-world/index.mdx" gets "/blog/hello-world" |
| `SlugExamples.UrlExampleAnyCharacter` | src/pages/blog.js:10 | the unescaped dot makes "notes/index-md/draft" get "/blog/notes/draft" |
| `SlugExamples.UrlExampleLeftmostOnly` | src/pages/blog.js:10 | "a/index.md/b/index.md" gets "/blog/a/b/index.md": only the first match is removed |
| `SlugExamples.UrlExampleRootIndex` | src/pages/blog.js:10 | "index.md" has no leading "/", so it gets "/blog/index.md" |
| `SlugExamples.UrlExampleAstral` | src/pages/blog.js:10 | "a/index" + U+1F600 + "md" has no match, because the `.` takes one code unit of the two-unit character, so the url keeps the whole path |
| `SlugExamples.UrlOfShortIndexFile` | src/pages/blog.js:9-11 | a directory shorter than nine characters cannot hold a match, so `dir + "/index.md"` gets "/blog/" + lower(dir) |
| `SlugExamples.UrlExampleCollision` | src/pages/blog.js:11 | the distinct paths "Post/index.md" and "post/index.md" get the same url, so urls are not unique |
| `Decimal.NatToString` | src/pages/blog.js:46 | the `D` token: at least one digit, no leading zero, and the digits read back as the number |
| `Decimal.ZeroPad` | src/pages/blog.js:46 | the zero-filled text has the requested width (or the input's, if longer), ends with the input, and has only `0` in front of it |
| `Decimal.PaddedValue` | src/pages/blog.js:46 | a zero-filled number, as in the `YYYY` token, is all digits and still reads back as the number |
| `Decimal.NumeralRoundTrip` | src/pages/blog.js:46 | a numeral without a leading zero is exactly the `D` rendering of the number it denotes |
| `Decimal.PaddedRoundTrip` | src/pages/blog.js:46 | a numeral zero-filled to a width, with no leading zero beyond the fill, is exactly the zero-filled rendering of its number |
| `Dates.MonthNumber` | src/pages/blog.js:46 | the `MMMM` token read back: a name gives the month whose full English name it is, and `None` exactly when no month has that name |
| `Dates.DayText` | src/pages/blog.js:46 | the `D` token is a numeral with no leading zero that denotes the day |
| `Dates.YearText` | src/pages/blog.js:46 | the `YYYY` token is the year's absolute value zero-filled to at least four digits, with no leading zero beyond the fill, behind a minus sign exactly when the year is negative |
| `Dates.Format` | src/pages/blog.js:46 | the display date starts with the full month name and is at least seven characters longer than it |
| `Dates.ParseFormat` | src/pages/blog.js:46 | parsing a display date "MMMM D, YYYY" gives back the date it was rendered from |
| `Dates.FormatOfParse` | src/pages/blog.js:46 | a string that reads back as a date is exactly that date's "MMMM D, YYYY" rendering, so a zero-filled day or an unfilled year is never taken for one |
| `Dates.ParseInvertsFormat` | src/pages/blog.js:46 | a string reads back as a date if and only if it is that date's rendering |
| `Dates.FormatInjective` | src/pages/blog.js:46 | two dates have the same display string exactly when they are the same date |
| `DateExamples.FormatExampleMarch` | src/pages/blog.js:46 | (2021, 3, 3) is shown as "March 3, 2021" |
| `DateExamples.FormatExampleMay` | src/pages/blog.js:46 | (2021, 5, 1) is shown as "May 1, 2021" |
| `DateExamples.FormatExamplePadded` | src/pages/blog.js:46 | (987, 1, 9) is shown as "January 9, 0987": the year is zero-filled and the day is not |
| `Dates.OnOrBeforeTotalOrder` | src/pages/blog.js:39 | the date order used by the sort is reflexive, total, antisymmetric and transitive |
| `Listing.Filter` | src/pages/blog.js:40 | each document occurs in the result as often as in the input if its `listed` flag is not `false`, and not at all otherwise |
| `Listing.FilterLength` | src/pages/blog.js:40 | the filter's result has one entry per document whose `listed` flag is not `false` |
| `Listing.FilterMembership` | src/pages/blog.js:40 | a document is in the filter's result if and only if it is in the input and its flag is `true` or absent |
| `Listing.Insert` | src/pages/blog.js:39 | inserting into a newest-first sequence keeps it newest first and adds exactly the new document |
| `Listing.SortNewestFirst` | src/pages/blog.js:39 | the sort returns a permutation of its input, non-increasing by date |
| `Listing.NewestFirstDatesDetermined` | src/pages/blog.js:39 | any two newest-first permutations of the same documents have equal dates at every position |
| `Listing.ListingMembership` | src/pages/blog.js:39-40 | an admissible query answer contains a document exactly when the input contains it and it is listed |
| `Listing.ListingDatesDetermined` | src/pages/blog.js:39-40 | every admissible query answer lists the same dates in the same order, whatever it does with ties |
| `Listing.ListingInFiles` | src/pages/blog.js:9 | every document of an admissible answer has a file parent exactly when every listed input document has one |
| `Listing.ListedNewestFirst` | src/pages/blog.js:39-40 | the query's documents are an admissible answer: exactly the listed documents, newest first, with as many entries as there are listed documents |
| `Listing.EdgesOf` | src/pages/blog.js:42-53 | one edge per document, in order, each with the document's title, its date in the "MMMM D, YYYY" format and its parent |
| `Listing.Query` | src/pages/blog.js:37-58 | the query returns one edge per listed document; the edges come from an admissible answer and carry each title, the formatted date and the parent |
| `Listing.Articles` | src/pages/blog.js:6-12 | it succeeds exactly when every edge's parent is a file; on success it returns one article per edge, in order, with the title and date copied and the url derived from the path; on failure it reports the first edge without a file parent |
| `Listing.ListArticles` | src/pages/blog.js:6-46 | it succeeds exactly when every listed document lives in a file; on success it returns one article per listed document, summarising an admissible newest-first answer |
| `ListingExamples.FilterExample` | src/pages/blog.js:40 | of three documents with `listed` true, false and absent, the first and third are kept, in that order |
| `ListingExamples.ScenarioListing` | src/pages/blog.js:39-46 | if the first and third of three documents are listed, the second is not, and the third is newer, then every admissible answer is the third then the first |
| `ListingExamples.ScenarioQuery` | src/pages/blog.js:39-46 | for the same three documents, the query returns exactly two edges: the third document's, then the first's |
| `ListingExamples.ScenarioArticles` | src/pages/blog.js:6-46 | with "a/index.md" dated 2021-03-03, an unlisted post and "c/index.md" dated 2021-05-01, the page lists "/blog/c" shown as "May 1, 2021" and then "/blog/a" shown as "March 3, 2021" |

## Left out

- `src/pages/index.js`: the home page. It holds static biography content and an image query, with no listing logic.
- JSX rendering, `Link`, `H1`, and the use of `url` as a React key (src/pages/blog.js:14-33). These are presentational.
- Execution of the GraphQL query by the data layer. Only the filter, sort and format it declares are modelled.
- Unpaired surrogates: JavaScript strings may hold them, but the model's `char` is a Unicode scalar value, so paths containing them are not modelled.
- `Ascii.ToLower`: only ASCII `A`–`Z` are lower-cased. JavaScript's `toLowerCase` also maps non-ASCII letters; the model keeps them unchanged.
- `Listing.SortNewestFirst`: the order of documents with equal dates is not claimed. The code leaves it to the data layer, which promises none.
- No uniqueness of urls is claimed. Lower-casing makes distinct paths collide (`SlugExamples.UrlExampleCollision`), and the code does not prevent this.
- Dates are calendar dates without time of day or time zone. The data layer's parsing of front-matter date strings, and its handling of missing or unparseable dates, are not modelled: every document carries a valid date.
- Missing titles are not modelled. The code copies whatever the front matter holds, including `null`; the model's titles are strings.
- `Dates.Format`: years outside 0–9999 are rendered by the model's own rule (zero-fill to at least four digits, a minus sign for negative years). That rule is not checked against the data layer's date library.
