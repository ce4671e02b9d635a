/**
 * The record types shared by the scraper and the store: an image, a nested
 * reaction (a reply), a reaction and a news item, with their field defaults.
 */
module Models {
  import opened Wrappers

  /**
   * The part of URL validation this model keeps: an absolute `http` or
   * `https` URL with something after the scheme.  The full URL grammar of
   * the validation library is not modelled.
   */
  predicate IsHttpUrl(s: string) {
    (|s| > 7 && s[..7] == "http://") || (|s| > 8 && s[..8] == "https://")
  }

  /** A validated URL; its text is what `str(url)` gives back. */
  type HttpUrl = s: string | IsHttpUrl(s) witness "http://a"

  /** Validation of a string handed to an URL field: it succeeds exactly on valid URLs. */
  function ParseHttpUrl(s: string): Option<HttpUrl> {
    if IsHttpUrl(s) then Some(s) else None
  }

  /** A URL read back from the store validates again, and validation keeps its text. */
  lemma ValidUrlRevalidates(u: HttpUrl)
    ensures ParseHttpUrl(u) == Some(u)
  {
  }

  const UnknownUser := "Unknown"
  const UnknownLanguage := "Unknown"
  const NoLikes := "0"

  datatype Image = Image(url: HttpUrl, alt: string)

  datatype NestedReaction = NestedReaction(text: string, language: string := UnknownLanguage)

  datatype Reaction = Reaction(
    user: string := UnknownUser,
    text: string,
    language: string := UnknownLanguage,
    likes: string := NoLikes,
    nestedReactions: seq<NestedReaction> := [])

  datatype NewsItem = NewsItem(
    title: string,
    category: string,
    reactionsInfo: string,
    reactionsLink: Option<HttpUrl> := None,
    reactions: seq<Reaction> := [],
    articleLink: HttpUrl,
    image: Option<Image> := None)

  /** What a record built from its required fields alone holds in the others. */
  lemma Defaults(text: string, title: string, category: string, info: string, link: HttpUrl)
    ensures NestedReaction(text).language == "Unknown"
    ensures var r := Reaction(text := text);
      r.user == "Unknown" && r.language == "Unknown" && r.likes == "0" && r.nestedReactions == []
    ensures var n := NewsItem(title, category, info, articleLink := link);
      n.reactionsLink == None && n.reactions == [] && n.image == None
  {
  }
}
