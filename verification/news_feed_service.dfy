/** `NewsFeedService`: fetch a feed, select its `item` elements, map each to
    an Article, and order them newest first. The network and the XML and date
    parsers are parameters; every failure degrades to an empty sequence. */
module NewsFeedService {
  import opened Wrappers
  import opened Xml
  import opened ViewModels
  import StableSort

  const ItemElement := "item"
  const TitleElement := "title"
  const DescriptionElement := "description"
  const LinkElement := "link"
  const ImageElement := "image"
  const PubDateElement := "pubDate"

  /** Longest description kept untouched; longer ones are cut to this length. */
  const MaxDescriptionLength := 100
  /** HORIZONTAL ELLIPSIS, appended to a cut description. */
  const Ellipsis: char := '\U{2026}'

  /** The result of the HTTP GET and XML parse for one feed URL. A failure in
      transport, including the timeout and cancellation, is `TransportFailure`;
      a body that is not well-formed XML is `Response(status, None)`. The body
      is only read and parsed after a success status, so `document` means
      nothing when `status` is not 2xx: GetArticles never looks at it then. */
  datatype FetchOutcome =
    | TransportFailure
    | Response(status: int, document: Option<Element>)

  /** `HttpResponseMessage.IsSuccessStatusCode`: the 2xx class. */
  function IsSuccessStatusCode(status: int): (ok: bool)
    ensures ok <==> status / 100 == 2
    ensures ok ==> status != 404 && status != 500 && status != 304
  {
    200 <= status <= 299
  }

  /** `char.IsWhiteSpace`: the characters of the Unicode categories Zs, Zl
      and Zp, the controls U+0009 to U+000D, and U+0085. */
  function IsWhiteSpace(c: char): (white: bool)
    ensures c == ' ' || c == '\t' || c == '\n' || c == '\r' ==> white
    ensures '!' <= c <= '~' ==> !white
    ensures c == '\U{200B}' || c == '\U{FEFF}' ==> !white
  {
    || '\U{0009}' <= c <= '\U{000D}'
    || c == ' ' || c == '\U{0085}' || c == '\U{00A0}' || c == '\U{1680}'
    || '\U{2000}' <= c <= '\U{200A}'
    || c == '\U{2028}' || c == '\U{2029}' || c == '\U{202F}'
    || c == '\U{205F}' || c == '\U{3000}'
  }

  /** `string.IsNullOrWhiteSpace` for a non-null string: a scan that stops at
      the first character that is not white space. */
  function IsBlank(s: string): (blank: bool)
    ensures blank <==> forall i :: 0 <= i < |s| ==> IsWhiteSpace(s[i])
  {
    s == [] || (IsWhiteSpace(s[0]) && IsBlank(s[1..]))
  }

  /** What every mapped description looks like: at most the limit, or exactly
      the limit followed by the ellipsis. */
  ghost predicate ShortDescription(d: string) {
    |d| <= MaxDescriptionLength || (|d| == MaxDescriptionLength + 1 && d[MaxDescriptionLength] == Ellipsis)
  }

  /** Cuts a description longer than the limit to its first 100 characters
      plus an ellipsis. */
  function Truncate(d: string): (r: string)
    ensures |d| <= MaxDescriptionLength ==> r == d
    ensures |d| > MaxDescriptionLength ==>
              |r| == MaxDescriptionLength + 1
              && r[..MaxDescriptionLength] == d[..MaxDescriptionLength]
              && r[MaxDescriptionLength] == Ellipsis
    ensures ShortDescription(r)
  {
    if |d| > MaxDescriptionLength then d[..MaxDescriptionLength] + [Ellipsis] else d
  }

  /** Truncating an already-truncated description changes nothing. */
  lemma TruncateIdempotent(d: string)
    ensures Truncate(Truncate(d)) == Truncate(d)
  {
    if |d| > MaxDescriptionLength {
      assert Truncate(d)[..MaxDescriptionLength] == d[..MaxDescriptionLength];
    }
  }

  /** `(string?)item.Element(name) ?? ""`: the text of the first child
      `name`, or "" when the item has no such child. */
  function ChildText(item: Element, name: string): (text: string)
    ensures FirstChild(item, name).None? ==> text == ""
    ensures FirstChild(item, name).Some? ==> text == FirstChild(item, name).value.value
  {
    ChildValue(item, name).GetOr("")
  }

  /** `MapToArticle`. `parseDate` stands for `DateTime.TryParse` with the
      invariant culture, assuming and adjusting to UTC: a failed parse is
      `None`. A missing `pubDate` child is a failed parse of null. `None` as a
      result is the skip marker of the source's catch block, which nothing
      in the mapping can reach. */
  function MapToArticle(item: Element, parseDate: string -> Option<Ticks>): (r: Option<Article>)
    ensures r.Some?
    ensures FirstChild(item, TitleElement).None? ==> r.value.title == ""
    ensures FirstChild(item, TitleElement).Some? ==> r.value.title == FirstChild(item, TitleElement).value.value
    ensures FirstChild(item, LinkElement).None? ==> r.value.link == ""
    ensures FirstChild(item, LinkElement).Some? ==> r.value.link == FirstChild(item, LinkElement).value.value
    ensures FirstChild(item, ImageElement).None? ==> r.value.imageUrl == ""
    ensures FirstChild(item, ImageElement).Some? ==> r.value.imageUrl == FirstChild(item, ImageElement).value.value
    ensures FirstChild(item, DescriptionElement).None? ==> r.value.description == ""
    ensures FirstChild(item, DescriptionElement).Some? ==>
              r.value.description == Truncate(FirstChild(item, DescriptionElement).value.value)
    ensures FirstChild(item, PubDateElement).None? ==> r.value.publishedDateUtc == None
    ensures FirstChild(item, PubDateElement).Some? ==>
              r.value.publishedDateUtc == parseDate(FirstChild(item, PubDateElement).value.value)
    ensures ShortDescription(r.value.description)
  {
    var pubDate := match ChildValue(item, PubDateElement)
      case None => None
      case Some(text) => parseDate(text);
    Some(Article(
      title := ChildText(item, TitleElement),
      imageUrl := ChildText(item, ImageElement),
      description := Truncate(ChildText(item, DescriptionElement)),
      publishedDateUtc := pubDate,
      link := ChildText(item, LinkElement)))
  }

  /** The `item` elements of the document, anywhere, in document order. */
  function Items(root: Element): (items: seq<Element>)
    ensures forall i :: 0 <= i < |items| ==> items[i].name == ItemElement
    ensures root.name == ItemElement ==> items != [] && items[0] == root
  {
    DescendantsOrSelf(root, ItemElement)
  }

  /** The successfully mapped items, in document order. */
  function Mapped(root: Element, parseDate: string -> Option<Ticks>): (r: seq<Article>)
    ensures |r| == |Items(root)|
    ensures forall i :: 0 <= i < |r| ==> Some(r[i]) == MapToArticle(Items(root)[i], parseDate)
  {
    var items := Items(root);
    var results := seq(|items|, i requires 0 <= i < |items| => MapToArticle(items[i], parseDate));
    KeepSomeAllPresent(results);
    KeepSome(results)
  }

  /** The sort key: `PublishedDateUtc ?? DateTime.MinValue`. No key is below
      that of an undated article. */
  function SortKey(a: Article): (k: int)
    ensures MinTicks <= k <= MaxTicks
    ensures a.publishedDateUtc.None? ==> k == MinTicks
    ensures a.publishedDateUtc.Some? ==> k == a.publishedDateUtc.value
  {
    a.publishedDateUtc.GetOr(MinTicks)
  }

  /** The `Descendants`/`Select`/`Where`/`OrderByDescending` query of
      `GetArticlesAsync`, over a parsed document. */
  function Articles(root: Element, parseDate: string -> Option<Ticks>): (r: seq<Article>)
    ensures |r| == |Items(root)|
    ensures multiset(r) == multiset(Mapped(root, parseDate))
    ensures StableSort.SortedDesc(r, SortKey)
    ensures forall k :: StableSort.WithKey(r, SortKey, k) == StableSort.WithKey(Mapped(root, parseDate), SortKey, k)
  {
    var mapped := Mapped(root, parseDate);
    StableSort.SortDescendingCorrect(mapped, SortKey);
    StableSort.SortDescending(mapped, SortKey)
  }

  /** `GetArticlesAsync`: never fails; a blank URL, a transport failure, a
      non-success status or malformed XML all give the empty sequence. */
  function GetArticles(feedUrl: string, fetch: string -> FetchOutcome,
                       parseDate: string -> Option<Ticks>): (r: seq<Article>)
    ensures IsBlank(feedUrl) ==> r == []
    ensures fetch(feedUrl).TransportFailure? ==> r == []
    ensures fetch(feedUrl).Response? && !IsSuccessStatusCode(fetch(feedUrl).status) ==> r == []
    ensures fetch(feedUrl).Response? && fetch(feedUrl).document.None? ==> r == []
    ensures (&& !IsBlank(feedUrl)
             && fetch(feedUrl).Response?
             && IsSuccessStatusCode(fetch(feedUrl).status)
             && fetch(feedUrl).document.Some?)
            ==> r == Articles(fetch(feedUrl).document.value, parseDate)
  {
    if IsBlank(feedUrl) then []
    else match fetch(feedUrl)
      case TransportFailure => []
      case Response(status, document) =>
        if !IsSuccessStatusCode(status) then []
        else match document
          case None => []
          case Some(root) => Articles(root, parseDate)
  }

  /** A blank URL is rejected before any request: the fetch is never
      consulted, so any two fetchers give the same (empty) result. */
  lemma BlankUrlNeverFetches(feedUrl: string, fetch1: string -> FetchOutcome,
                             fetch2: string -> FetchOutcome, parseDate: string -> Option<Ticks>)
    requires IsBlank(feedUrl)
    ensures GetArticles(feedUrl, fetch1, parseDate) == GetArticles(feedUrl, fetch2, parseDate) == []
  {
  }

  /** Every article returned comes from an `item` of the fetched document, and
      each `item` gives exactly one article. */
  lemma MappedMembers(root: Element, parseDate: string -> Option<Ticks>, a: Article)
    ensures a in Mapped(root, parseDate) <==>
              exists i :: 0 <= i < |Items(root)| && MapToArticle(Items(root)[i], parseDate) == Some(a)
  {
    var items := Items(root);
    var m := Mapped(root, parseDate);
    if a in m {
      var i :| 0 <= i < |m| && m[i] == a;
      assert MapToArticle(items[i], parseDate) == Some(a);
    }
    if exists i :: 0 <= i < |items| && MapToArticle(items[i], parseDate) == Some(a) {
      var i :| 0 <= i < |items| && MapToArticle(items[i], parseDate) == Some(a);
      assert m[i] == a;
    }
  }

  lemma {:induction false} ArticlesComeFromItems(root: Element, parseDate: string -> Option<Ticks>, a: Article)
    ensures a in Articles(root, parseDate) <==>
              exists i :: 0 <= i < |Items(root)| && MapToArticle(Items(root)[i], parseDate) == Some(a)
    ensures |Articles(root, parseDate)| == |Items(root)| <= |Nodes(root)|
  {
    var r := Articles(root, parseDate);
    var m := Mapped(root, parseDate);
    assert multiset(r) == multiset(m);
    assert a in r <==> a in multiset(r);
    assert a in m <==> a in multiset(m);
    MappedMembers(root, parseDate, a);
    DescendantsMembers(root, ItemElement, root);
  }

  /** Every returned description is at most 100 characters, or 100 characters
      and an ellipsis. */
  lemma {:induction false} ArticlesHaveShortDescriptions(feedUrl: string, fetch: string -> FetchOutcome,
                                                          parseDate: string -> Option<Ticks>)
    ensures var r := GetArticles(feedUrl, fetch, parseDate);
            forall i :: 0 <= i < |r| ==> ShortDescription(r[i].description)
  {
    var r := GetArticles(feedUrl, fetch, parseDate);
    forall i | 0 <= i < |r| ensures ShortDescription(r[i].description) {
      var root := fetch(feedUrl).document.value;
      ArticlesComeFromItems(root, parseDate, r[i]);
    }
  }

  /** In any sequence sorted by SortKey, an undated article comes after every
      article dated later than `DateTime.MinValue`. */
  lemma UndatedAfterDatedIn(r: seq<Article>)
    requires StableSort.SortedDesc(r, SortKey)
    ensures forall i, j :: 0 <= i < |r| && 0 <= j < |r| && r[i].publishedDateUtc.None?
                           && r[j].publishedDateUtc.Some? && r[j].publishedDateUtc.value > MinTicks
                           ==> j < i
  {
    forall i, j | 0 <= i < |r| && 0 <= j < |r| && r[i].publishedDateUtc.None?
                  && r[j].publishedDateUtc.Some? && r[j].publishedDateUtc.value > MinTicks
      ensures j < i
    {
      assert SortKey(r[i]) == MinTicks < SortKey(r[j]);
    }
  }

  /** Undated articles sort as `DateTime.MinValue`: after every article dated
      later than that. */
  lemma UndatedAfterDated(root: Element, parseDate: string -> Option<Ticks>)
    ensures var r := Articles(root, parseDate);
            forall i, j :: 0 <= i < |r| && 0 <= j < |r| && r[i].publishedDateUtc.None?
                           && r[j].publishedDateUtc.Some? && r[j].publishedDateUtc.value > MinTicks
                           ==> j < i
  {
    UndatedAfterDatedIn(Articles(root, parseDate));
  }

  /** An item without any child element maps to a default-constructed
      `ArticleViewModel`. */
  lemma ChildlessItemIsEmptyArticle(item: Element, parseDate: string -> Option<Ticks>)
    requires item.children == []
    ensures MapToArticle(item, parseDate) == Some(EmptyArticle)
  {
  }

  const ExamplePubDate := "Wed, 02 Oct 2024 10:00:00 GMT"
  const ExampleItem := Element("item", "", [Element("title", "A", []), Element("pubDate", ExamplePubDate, [])])
  const ExampleFeed := Element("rss", "", [Element("channel", "", [ExampleItem])])

  lemma ExampleItems()
    ensures Items(ExampleFeed) == [ExampleItem]
  {
    var title := Element("title", "A", []);
    var pubDate := Element("pubDate", ExamplePubDate, []);
    var channel := Element("channel", "", [ExampleItem]);
    assert DescendantsOrSelf(title, ItemElement) == [];
    assert DescendantsOrSelf(pubDate, ItemElement) == [];
    assert [title, pubDate][1..] == [pubDate];
    assert DescendantsOfAll([pubDate], ItemElement) == [];
    assert DescendantsOfAll([title, pubDate], ItemElement) == [];
    assert DescendantsOrSelf(ExampleItem, ItemElement) == [ExampleItem];
    assert DescendantsOfAll([ExampleItem], ItemElement) == [ExampleItem];
    assert DescendantsOrSelf(channel, ItemElement) == [ExampleItem];
    assert DescendantsOfAll([channel], ItemElement) == [ExampleItem];
  }

  lemma ExampleMapping(parseDate: string -> Option<Ticks>)
    requires parseDate(ExamplePubDate) == Some(638634600000000000)
    ensures MapToArticle(ExampleItem, parseDate) == Some(Article("A", "", "", Some(638634600000000000), ""))
  {
    assert FirstChild(ExampleItem, TitleElement) == Some(ExampleItem.children[0]);
    assert FirstChild(ExampleItem, PubDateElement) == Some(ExampleItem.children[1]);
    assert FirstChild(ExampleItem, DescriptionElement) == None;
    assert FirstChild(ExampleItem, LinkElement) == None;
    assert FirstChild(ExampleItem, ImageElement) == None;
  }

  /** A one-item RSS document maps to one article carrying the item's title
      and parsed date, with every missing field empty. */
  lemma SingleItemExample(parseDate: string -> Option<Ticks>)
    requires parseDate(ExamplePubDate) == Some(638634600000000000)
    ensures GetArticles("https://example.org/feed", _ => Response(200, Some(ExampleFeed)), parseDate)
              == [Article("A", "", "", Some(638634600000000000), "")]
  {
    var article := Article("A", "", "", Some(638634600000000000), "");
    ExampleItems();
    ExampleMapping(parseDate);
    assert Mapped(ExampleFeed, parseDate) == [article];
    assert Articles(ExampleFeed, parseDate) == [article];
    assert !IsBlank("https://example.org/feed") by {
      assert !IsWhiteSpace("https://example.org/feed"[0]);
    }
  }

  /** Articles dated 2025-01-01, undated, and 2025-01-03, in that document
      order, come out newest first with the undated one last. */
  lemma OrderingExample(first: Article, undated: Article, third: Article)
    requires first.publishedDateUtc == Some(638712864000000000)
    requires undated.publishedDateUtc == None
    requires third.publishedDateUtc == Some(638714592000000000)
    ensures StableSort.SortDescending([first, undated, third], SortKey) == [third, first, undated]
  {
    var s := [first, undated, third];
    assert s[1..] == [undated, third] && s[1..][1..] == [third];
    assert SortKey(first) < SortKey(third) && SortKey(undated) < SortKey(first);
    assert StableSort.SortDescending([third], SortKey) == [third];
    assert [third][1..] == [];
    assert StableSort.Insert(undated, [third], SortKey) == [third, undated];
    assert StableSort.SortDescending([undated, third], SortKey) == [third, undated];
    assert [third, undated][1..] == [undated];
    assert StableSort.Insert(first, [undated], SortKey) == [first, undated];
    assert StableSort.Insert(first, [third, undated], SortKey) == [third, first, undated];
  }
}
