/** The display record the feed reader produces for each feed item. */
module ViewModels {
  import opened Wrappers

  /** `DateTime.MinValue` and `DateTime.MaxValue` as 100-nanosecond ticks. */
  const MinTicks: int := 0
  const MaxTicks: int := 3155378975999999999

  /** A `DateTime` instant (already normalised to UTC), as its tick count. */
  type Ticks = t: int | MinTicks <= t <= MaxTicks

  /** `ArticleViewModel`: four strings that default to "" and an optional
      publication instant. Immutable here; the source's setters are only used
      by its object initialiser. */
  datatype Article = Article(
    title: string,
    imageUrl: string,
    description: string,
    publishedDateUtc: Option<Ticks>,
    link: string)

  /** A freshly constructed `ArticleViewModel` with every property at its default. */
  const EmptyArticle := Article("", "", "", None, "")
}
