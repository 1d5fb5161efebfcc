# News feed reader: a Dafny model

This project models the logic of a small news-feed reader. `NewsFeedService`
fetches an RSS-style XML feed and turns its `item` elements into article
records, newest first. Any failure gives an empty list. `DateFormatter` renders
an optional date as "12th November 2025".

Modules (one per source concept):

- `Wrappers` (`wrappers.dfy`): `Option`, for C#'s `null` and `DateTime?`. `KeepSome` is the `Where(a => a is not null)` filter.
- `Xml` (`xml.dfy`): a parsed document as an immutable element tree. It has `XElement.Element(name)` as `FirstChild` and `XDocument.Descendants(name)` as a pre-order walk, `DescendantsOrSelf`. The walk is proved equal to a reference definition: all pre-order nodes, filtered by name.
- `StableSort` (`stable_sort.dfy`): LINQ's `OrderByDescending`, as a stable insertion sort on an integer key. Stability is stated this way: for every key value, the elements with that key appear in the output in the same order as in the input.
- `ViewModels` (`view_models.dfy`): `ArticleViewModel` as an immutable `Article` datatype. Dates are `DateTime` tick counts, from `MinTicks` (`DateTime.MinValue`) to `MaxTicks`.
- `NewsFeedService` (`news_feed_service.dfy`): description truncation, `MapToArticle`, the query that selects, maps and sorts, and `GetArticles`, the never-failing boundary.
- `DateFormatter` (`date_formatter.dfy`): the ordinal suffix, decimal rendering and `FormatWithOrdinal`. `ParseFormatted` reads a formatted date back, which shows the format loses nothing.

The outside world is passed in as parameters. `fetch: string -> FetchOutcome` covers the HTTP GET, the body read and `XDocument.Parse`:

- `TransportFailure` stands for any exception while fetching, including the timeout and cancellation.
- `Response(status, None)` is a body that is not well-formed XML.
- `Response(status, Some(root))` is a parsed document.

`parseDate: string -> Option<Ticks>` stands for `DateTime.TryParse` with the invariant culture and UTC adjustment.

Two consequences of the code are worth stating:

- `MapToArticle` returns null from its catch block (NewsFeedService.cs:110-114), and the query drops nulls (:56), so an item whose mapping failed would be skipped. Nothing in the try body (:84-108) can throw: the `Element` lookups, the `(string?)` casts, `TryParse` with `AssumeUniversal | AdjustToUniversal`, and `[..100]` after the length test. The model keeps the `Option` result, with `None` as the skip marker, and proves it is always `Some`. So the output has exactly one article per `item` element.
- `Descendants("item")` (:54) finds items at any depth, not only under `channel`, and so does the model.

`IsWhiteSpace` is exactly the set .NET's `char.IsWhiteSpace` accepts: the Unicode categories Zs, Zl and Zp, U+0009 to U+000D, and U+0085. The blank-URL guard of `string.IsNullOrWhiteSpace` rests on it.

## Model

| member | source | states |
|---|---|---|
| Wrappers.KeepSomeAllPresent | TestProject/Services/NewsFeedService.cs:55-57 | when every mapping succeeds, the null filter keeps every result, in order |
| Wrappers.KeepSomeMembers | TestProject/Services/NewsFeedService.cs:56-57 | a value survives the null filter exactly when it was present in the input |
| Xml.FirstIndexFrom | TestProject/Services/NewsFeedService.cs:84-87 | finds the first child with a given name: it has the name, no earlier child has it, and absence means no child has it |
| Xml.FirstChild | TestProject/Services/NewsFeedService.cs:84-87 | `Element(name)` yields a direct child with that name, the first one; it is absent exactly when no child has the name |
| Xml.ChildValue | TestProject/Services/NewsFeedService.cs:84-90 | `(string?)item.Element(n)`: absent exactly when there is no child `n`, otherwise the text of the first such child |
| Xml.DescendantsAreNamedNodes | TestProject/Services/NewsFeedService.cs:54 | the descendant search returns exactly the document's nodes with the name, in document (pre-)order, root included |
| Xml.DescendantsMembers | TestProject/Services/NewsFeedService.cs:54 | an element is selected iff it is a node of the document with the name; selections never outnumber the nodes |
| StableSort.SortDescendingCorrect | TestProject/Services/NewsFeedService.cs:58 | the sort returns a permutation of its input, non-increasing by key, with equal-key elements in input order |
| Wrappers.KeepSome | TestProject/Services/NewsFeedService.cs:56-57 | the null filter yields no more values than it is given, and each was present in the input |
| Xml.DescendantsOrSelf | TestProject/Services/NewsFeedService.cs:54 | every selected element carries the name; a root carrying the name comes first |
| Xml.DescendantsOfAll | TestProject/Services/NewsFeedService.cs:54 | every element selected under a list of children carries the name |
| StableSort.SortDescending | TestProject/Services/NewsFeedService.cs:58 | `OrderByDescending` returns the same elements (a permutation of equal length) |
| StableSort.InsertKeepsKeyOrder | TestProject/Services/NewsFeedService.cs:58 | inserting an element keeps the order of every group of equal-key elements, with the new one first in its group |
| NewsFeedService.IsSuccessStatusCode | TestProject/Services/NewsFeedService.cs:42 | success is exactly the 2xx class; 304, 404 and 500 are failures |
| NewsFeedService.IsWhiteSpace | TestProject/Services/NewsFeedService.cs:33 | space, tab, LF and CR are white space; printable ASCII other than space, U+200B and U+FEFF are not |
| NewsFeedService.IsBlank | TestProject/Services/NewsFeedService.cs:33 | the character-by-character scan accepts a URL exactly when every character is white space (the empty URL included) |
| NewsFeedService.ChildText | TestProject/Services/NewsFeedService.cs:84-87 | `(string?)item.Element(n) ?? ""`: "" when there is no child `n`, otherwise the first such child's text |
| NewsFeedService.SortKey | TestProject/Services/NewsFeedService.cs:58 | `PublishedDateUtc ?? DateTime.MinValue`: an undated article's key is `MinTicks`, which no dated article's key is below |
| NewsFeedService.ChildlessItemIsEmptyArticle | TestProject/Services/NewsFeedService.cs:84-108 | an `item` with no children maps to an article with every property at its `ArticleViewModel` default |
| NewsFeedService.Truncate | TestProject/Services/NewsFeedService.cs:98-99 | a description of at most 100 chars is unchanged; a longer one becomes its first 100 chars plus one ellipsis, length 101 |
| NewsFeedService.TruncateIdempotent | TestProject/Services/NewsFeedService.cs:98-99 | truncating a truncated description changes nothing |
| NewsFeedService.MapToArticle | TestProject/Services/NewsFeedService.cs:75-115 | mapping never skips; each missing title/description/link/image child gives ""; present ones give their text (description truncated); no pubDate child or an unparsable one gives no date, a parsed one is kept unchanged |
| NewsFeedService.Items | TestProject/Services/NewsFeedService.cs:54 | `Descendants("item")` selects only `item` elements, and a root that is itself an `item` comes first |
| NewsFeedService.Mapped | TestProject/Services/NewsFeedService.cs:54-57 | one article per `item` element, in document order, each the mapping of that item |
| NewsFeedService.Articles | TestProject/Services/NewsFeedService.cs:54-59 | the result has one article per `item`, is a permutation of the mapped items, is sorted newest first by `date ?? MinValue`, and keeps equal dates in document order |
| NewsFeedService.GetArticles | TestProject/Services/NewsFeedService.cs:31-68 | blank URL, transport failure, non-success status or malformed XML give the empty sequence; otherwise the sorted articles of the document |
| NewsFeedService.BlankUrlNeverFetches | TestProject/Services/NewsFeedService.cs:33-37 | with a null/empty/whitespace URL the result is empty whatever the fetcher would do, so no request is needed |
| NewsFeedService.ArticlesComeFromItems | TestProject/Services/NewsFeedService.cs:54-57 | an article is returned iff it is the mapping of some `item`; the count equals the number of items and is at most the number of elements |
| NewsFeedService.ArticlesHaveShortDescriptions | TestProject/Services/NewsFeedService.cs:98-99 | every returned description is at most 100 chars, or exactly 100 chars followed by the ellipsis |
| NewsFeedService.UndatedAfterDated | TestProject/Services/NewsFeedService.cs:58 | an undated article comes after every article dated later than `DateTime.MinValue` |
| NewsFeedService.SingleItemExample | TestProject/Services/NewsFeedService.cs:49-61 | the one-item RSS document gives one article with title "A", its parsed date, and empty other fields |
| NewsFeedService.OrderingExample | TestProject/Services/NewsFeedService.cs:58 | articles dated 2025-01-01, undated, 2025-01-03 come out as 2025-01-03, 2025-01-01, undated |
| DateFormatter.OrdinalSuffix | TestProject/Utils/DateFormatter.cs:23-35 | the suffix is "st"/"nd"/"rd" exactly when the last digit is 1/2/3 and the day is not 11/12/13, and "th" otherwise; always one of the four |
| DateFormatter.MonthName | TestProject/Utils/DateFormatter.cs:37 | the "MMMM" name of a month is a non-empty word without spaces that names that month and no other |
| DateFormatter.SuffixIsEnglishOrdinal | TestProject/Utils/DateFormatter.cs:23-35 | for days 1-31 the suffix agrees with the general English ordinal rule (numbers ending 11-13 take "th") |
| DateFormatter.DecimalString | TestProject/Utils/DateFormatter.cs:41 | an integer renders as a non-empty string of decimal digits without a leading zero |
| DateFormatter.DecimalRoundTrip | TestProject/Utils/DateFormatter.cs:41 | the rendered digits denote the original number |
| DateFormatter.FormatWithOrdinal | TestProject/Utils/DateFormatter.cs:15-42 | an absent date gives "" and only it does; a present date gives day, suffix, space, English month name, space, year |
| DateFormatter.FormatRoundTrip | TestProject/Utils/DateFormatter.cs:37-41 | the formatted text reads back to the original date |
| DateFormatter.FormatInjective | TestProject/Utils/DateFormatter.cs:37-41 | two different dates never format to the same text |
| DateFormatter.OrdinalExamples | TestProject/Utils/DateFormatter.cs:17-35 | no date gives ""; days 1, 2, 3, 11, 12, 13, 21, 22 give 1st, 2nd, 3rd, 11th, 12th, 13th, 21st, 22nd |
| DateFormatter.FormatExample | TestProject/Utils/DateFormatter.cs:37-41 | 12 November 2025 formats as "12th November 2025" |

## Left out

- HTTP, the 10-second timeout, async/await and cancellation are not modelled. They are network and concurrency plumbing. Every way they fail is the `TransportFailure` outcome of the `fetch` parameter.
- Logging is left out. The warning and error log calls have no observable result.
- `XDocument.Parse` is not modelled. It is a library parser; the `fetch` outcome carries the parsed tree, or `None` for malformed XML.
- `DateTime.TryParse` with the invariant culture and UTC adjustment is not modelled. It is culture- and format-dependent library code, so it is the `parseDate` parameter, and the model only says how its result is used.
- DateFormatter.FormatWithOrdinal: takes calendar fields (year, month, day) rather than a tick count. Converting ticks to a calendar date is `DateTime` library code.
- DateFormatter.FormatWithOrdinal: month names are a fixed table of the twelve English names. This matches the invariant culture's `"MMMM"` format but does not model `CultureInfo` itself.
- The `item == null` guard of `MapToArticle` is left out. `Descendants` never yields null, so the guard is unreachable.
- A null feed URL is not represented, because Dafny strings cannot be null. The source sends null down the same branch as the empty string, which the model covers.
- NewsFeedService.Truncate: counts Dafny characters (Unicode scalar values), while C# `Length` counts UTF-16 code units. The two differ only for text outside the Basic Multilingual Plane, where the source could split a surrogate pair.
- Xml.FirstChild: an element's text is one `value` field, the string value of `XElement`. How text interleaves with child elements is not modelled. Names are compared as plain strings, so XML namespaces are not modelled.
- `INewsFeedService` is left out. It only declares the operation.
- The mutable setters of `ArticleViewModel` are left out. `Article` is immutable, and `EmptyArticle` holds the default property values.
