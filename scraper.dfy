/**
 * The extraction pass over the news page and over each item's reactions
 * page.  The pass reports, per news item, what it finds (title, category,
 * reactions summary and link, the reactions, article link, image); a field
 * the markup lacks is reported as absent.  A reaction is a record whose
 * fields are present only when the markup supplied them, the way a Python
 * dictionary filled key by key is.
 */
module Scraper {
  import opened Wrappers
  import opened Dom

  /** The origin every extracted `href` is appended to. */
  const SiteOrigin := "https://www.waldnet.nl"

  /** How many news-item containers one pass looks at. */
  const MaxItems := 10

  const ReactieSel := Selector("div", Some("reactie"))
  const UserNicknameSel := Selector("div", Some("usernickname"))
  const SpanSel := Selector("span", None)
  const ParagraphSel := Selector("p", None)
  const DateSel := Selector("div", Some("reaksje_datum"))
  const LikeCountSel := Selector("span", Some("like-count"))
  const NestedSel := Selector("div", Some("geneste-reacties"))
  const NewsItemSel := Selector("div", Some("nieuws-item"))
  const TitleSel := Selector("h2", Some("titel"))
  const CategorySel := Selector("div", Some("categorie"))
  const AnchorSel := Selector("a", None)
  const ReactionsLinkSel := Selector("div", Some("reacties-link"))
  const ArticleLinkSel := Selector("a", Some("nieuws-link"))
  const ImageSel := Selector("img", Some("nieuws-afbeelding"))

  /** A reply: its `text` key is present only when the reply has a paragraph. */
  datatype NestedRecord = NestedRecord(text: Option<string>)

  /** A reaction dictionary; each field is a key that may be missing. */
  datatype ReactionRecord = ReactionRecord(
    user: Option<string>,
    text: Option<string>,
    likes: Option<string>,
    nestedReactions: Option<seq<NestedRecord>>)

  /** The `src` and `alt` attributes of an item's image, each possibly missing. */
  datatype ImageRecord = ImageRecord(src: Option<string>, alt: Option<string>)

  /** What the pass reports for one news-item container. */
  datatype ItemRecord = ItemRecord(
    title: Option<string>,
    category: Option<string>,
    reactionsInfo: Option<string>,
    reactionsUrl: Option<string>,
    reactions: seq<ReactionRecord>,
    articleLink: Option<string>,
    image: Option<ImageRecord>)

  /**
   * Retrieval of a page: the parsed document, or nothing when the page
   * cannot be had.  Retrieval is a function, so the same URL always gives
   * the same page.
   */
  type Fetcher = string -> Option<Document>

  // ---------------------------------------------------------------------
  // The specification of one reaction

  /** The stripped text of the first `sel` node below node `i`, if there is one. */
  function StrippedTextOf(doc: Document, i: nat, sel: Selector): Option<string>
    requires i < |doc|
  {
    match Find(doc, i, sel)
    case None => None
    case Some(j) => Some(Strip(doc[j].text))
  }

  /** The span text inside the first nickname block of reaction `i`. */
  function UserOf(doc: Document, i: nat): Option<string>
    requires i < |doc|
  {
    match Find(doc, i, UserNicknameSel)
    case None => None
    case Some(u) => StrippedTextOf(doc, u, SpanSel)
  }

  /** The like count of the first date block anywhere after node `i`. */
  function LikesOf(doc: Document, i: nat): Option<string>
    requires i < |doc|
  {
    match FindNext(doc, i, DateSel)
    case None => None
    case Some(dd) => StrippedTextOf(doc, dd, LikeCountSel)
  }

  /** One reply record per reaction container below node `g`. */
  function RepliesOf(doc: Document, g: nat): seq<NestedRecord>
    requires g < |doc|
  {
    var rs := FindAll(doc, g, ReactieSel);
    seq(|rs|, k requires 0 <= k < |rs| => NestedRecord(StrippedTextOf(doc, rs[k], ParagraphSel)))
  }

  /** The replies of the first nested-reactions block anywhere after node `i`. */
  function NestedOf(doc: Document, i: nat): Option<seq<NestedRecord>>
    requires i < |doc|
  {
    match FindNext(doc, i, NestedSel)
    case None => None
    case Some(g) => Some(RepliesOf(doc, g))
  }

  function ReactionOf(doc: Document, i: nat): ReactionRecord
    requires i < |doc|
  {
    ReactionRecord(UserOf(doc, i), StrippedTextOf(doc, i, ParagraphSel), LikesOf(doc, i), NestedOf(doc, i))
  }

  /** The reactions of a reactions page: none when it could not be had, else one per reaction container. */
  function ReactionsOf(page: Option<Document>): seq<ReactionRecord> {
    match page
    case None => []
    case Some(doc) =>
      var ds := FindAllInDocument(doc, ReactieSel);
      seq(|ds|, k requires 0 <= k < |ds| => ReactionOf(doc, ds[k]))
  }

  // What the report shows for a missing key.

  function ShownUser(r: ReactionRecord): string { r.user.GetOr("Unknown") }
  function ShownText(r: ReactionRecord): string { r.text.GetOr("") }
  function ShownLikes(r: ReactionRecord): string { r.likes.GetOr("0") }
  function ShownReplyText(n: NestedRecord): string { n.text.GetOr("") }

  // ---------------------------------------------------------------------
  // The specification of one news item

  function CategoryOf(doc: Document, i: nat): Option<string>
    requires i < |doc|
  {
    match Find(doc, i, CategorySel)
    case None => None
    case Some(c) => StrippedTextOf(doc, c, AnchorSel)
  }

  function ReactionsInfoOf(doc: Document, i: nat): Option<string>
    requires i < |doc|
  {
    match Find(doc, i, ReactionsLinkSel)
    case None => None
    case Some(r) => Some(Strip(doc[r].text))
  }

  /** The origin followed by the `href` of node `a`, rendered as an f-string renders it. */
  function LinkOf(doc: Document, a: nat): string
    requires a < |doc|
  {
    SiteOrigin + Format(GetAttr(doc[a], "href"))
  }

  function ReactionsUrlOf(doc: Document, i: nat): Option<string>
    requires i < |doc|
  {
    match Find(doc, i, ReactionsLinkSel)
    case None => None
    case Some(r) =>
      match Find(doc, r, AnchorSel)
      case None => None
      case Some(a) => Some(LinkOf(doc, a))
  }

  function ArticleLinkOf(doc: Document, i: nat): Option<string>
    requires i < |doc|
  {
    match Find(doc, i, ArticleLinkSel)
    case None => None
    case Some(a) => Some(LinkOf(doc, a))
  }

  /** The image inside the article-link anchor; an image elsewhere in the item is not looked at. */
  function ImageOf(doc: Document, i: nat): Option<ImageRecord>
    requires i < |doc|
  {
    match Find(doc, i, ArticleLinkSel)
    case None => None
    case Some(a) =>
      match Find(doc, a, ImageSel)
      case None => None
      case Some(m) => Some(ImageRecord(GetAttr(doc[m], "src"), GetAttr(doc[m], "alt")))
  }

  function ItemOf(doc: Document, i: nat, fetch: Fetcher): ItemRecord
    requires i < |doc|
  {
    var url := ReactionsUrlOf(doc, i);
    ItemRecord(
      StrippedTextOf(doc, i, TitleSel),
      CategoryOf(doc, i),
      ReactionsInfoOf(doc, i),
      url,
      if url.Some? then ReactionsOf(fetch(url.value)) else [],
      ArticleLinkOf(doc, i),
      ImageOf(doc, i))
  }


  // ---------------------------------------------------------------------
  // The extraction pass

  /** The replies below nested-reactions block `g`, read one by one. */
  method ReadReplies(doc: Document, g: nat) returns (nested: seq<NestedRecord>)
    requires g < |doc|
    ensures nested == RepliesOf(doc, g)
  {
    var replies := FindAll(doc, g, ReactieSel);
    nested := [];
    var j := 0;
    while j < |replies|
      invariant 0 <= j <= |replies|
      invariant |nested| == j
      invariant forall k :: 0 <= k < j ==> nested[k] == NestedRecord(StrippedTextOf(doc, replies[k], ParagraphSel))
    {
      var reply := NestedRecord(None);
      var replyText := Find(doc, replies[j], ParagraphSel);
      if replyText.Some? {
        reply := reply.(text := Some(Strip(doc[replyText.value].text)));
      }
      nested := nested + [reply];
      j := j + 1;
    }
  }

  /** One reaction dictionary, filled key by key from reaction container `d`. */
  method ReadReaction(doc: Document, d: nat) returns (reaction: ReactionRecord)
    requires d < |doc|
    ensures reaction == ReactionOf(doc, d)
  {
    reaction := ReactionRecord(None, None, None, None);

    var nickname := Find(doc, d, UserNicknameSel);
    if nickname.Some? {
      var span := Find(doc, nickname.value, SpanSel);
      if span.Some? {
        reaction := reaction.(user := Some(Strip(doc[span.value].text)));
      }
    }
    assert reaction.user == UserOf(doc, d) && reaction.text == None && reaction.likes == None && reaction.nestedReactions == None;

    var paragraph := Find(doc, d, ParagraphSel);
    if paragraph.Some? {
      reaction := reaction.(text := Some(Strip(doc[paragraph.value].text)));
    }
    assert reaction.text == StrippedTextOf(doc, d, ParagraphSel);

    var dateDiv := FindNext(doc, d, DateSel);
    if dateDiv.Some? {
      var likeCount := Find(doc, dateDiv.value, LikeCountSel);
      if likeCount.Some? {
        reaction := reaction.(likes := Some(Strip(doc[likeCount.value].text)));
      }
    }
    assert reaction.likes == LikesOf(doc, d);

    var nestedDiv := FindNext(doc, d, NestedSel);
    if nestedDiv.Some? {
      var nested := ReadReplies(doc, nestedDiv.value);
      reaction := reaction.(nestedReactions := Some(nested));
    }
  }

  /**
   * Reads a reactions page.  A page that could not be retrieved gives no
   * reactions; otherwise there is one record per reaction container of the
   * whole page, in document order.
   */
  method GetReactions(page: Option<Document>) returns (reactions: seq<ReactionRecord>)
    ensures page.None? ==> reactions == []
    ensures page.Some? ==>
      var ds := FindAllInDocument(page.value, ReactieSel);
      |reactions| == |ds| && forall k :: 0 <= k < |ds| ==> reactions[k] == ReactionOf(page.value, ds[k])
    ensures reactions == ReactionsOf(page)
  {
    if page.None? {
      return [];
    }
    var doc := page.value;
    var divs := FindAllInDocument(doc, ReactieSel);
    reactions := [];
    var i := 0;
    while i < |divs|
      invariant 0 <= i <= |divs|
      invariant |reactions| == i
      invariant forall k :: 0 <= k < i ==> reactions[k] == ReactionOf(doc, divs[k])
    {
      var reaction := ReadReaction(doc, divs[i]);
      reactions := reactions + [reaction];
      i := i + 1;
    }
  }

  /** The reactions summary of news item `item` and, when it holds a link, that page's reactions. */
  method ReadReactionsBlock(doc: Document, item: nat, fetch: Fetcher)
    returns (info: Option<string>, reactionsUrl: Option<string>, reactions: seq<ReactionRecord>)
    requires item < |doc|
    ensures info == ReactionsInfoOf(doc, item)
    ensures reactionsUrl == ReactionsUrlOf(doc, item)
    ensures reactions == if reactionsUrl.Some? then ReactionsOf(fetch(reactionsUrl.value)) else []
  {
    info, reactionsUrl, reactions := None, None, [];
    var reactionsNode := Find(doc, item, ReactionsLinkSel);
    if reactionsNode.Some? {
      info := Some(Strip(doc[reactionsNode.value].text));
      var link := Find(doc, reactionsNode.value, AnchorSel);
      if link.Some? {
        var url := SiteOrigin + Format(GetAttr(doc[link.value], "href"));
        reactionsUrl := Some(url);
        reactions := GetReactions(fetch(url));
      }
    }
  }

  /** The article link of news item `item` and the image inside that link. */
  method ReadArticleLink(doc: Document, item: nat) returns (articleLink: Option<string>, image: Option<ImageRecord>)
    requires item < |doc|
    ensures articleLink == ArticleLinkOf(doc, item)
    ensures image == ImageOf(doc, item)
  {
    articleLink, image := None, None;
    var articleNode := Find(doc, item, ArticleLinkSel);
    if articleNode.Some? {
      articleLink := Some(SiteOrigin + Format(GetAttr(doc[articleNode.value], "href")));
      var img := Find(doc, articleNode.value, ImageSel);
      if img.Some? {
        image := Some(ImageRecord(GetAttr(doc[img.value], "src"), GetAttr(doc[img.value], "alt")));
      }
    }
  }

  /** The report on news-item container `item`. */
  method ReadItem(doc: Document, item: nat, fetch: Fetcher) returns (record: ItemRecord)
    requires item < |doc|
    ensures record == ItemOf(doc, item, fetch)
  {
    var title := None;
    var titleNode := Find(doc, item, TitleSel);
    if titleNode.Some? {
      title := Some(Strip(doc[titleNode.value].text));
    }

    var category := None;
    var categoryNode := Find(doc, item, CategorySel);
    if categoryNode.Some? {
      var categoryLink := Find(doc, categoryNode.value, AnchorSel);
      if categoryLink.Some? {
        category := Some(Strip(doc[categoryLink.value].text));
      }
    }

    var info, reactionsUrl, reactions := ReadReactionsBlock(doc, item, fetch);
    var articleLink, image := ReadArticleLink(doc, item);
    record := ItemRecord(title, category, info, reactionsUrl, reactions, articleLink, image);
  }

  /**
   * The pass over the news page: the first `MaxItems` news-item containers,
   * in document order, each reported as `ItemOf` describes.  A page that could
   * not be retrieved gives no items.
   */
  method ScrapeNewsPage(page: Option<Document>, fetch: Fetcher) returns (items: seq<ItemRecord>)
    ensures page.None? ==> items == []
    ensures page.Some? ==>
      var ns := FindAllInDocument(page.value, NewsItemSel);
      && |items| == (if |ns| < MaxItems then |ns| else MaxItems)
      && forall k :: 0 <= k < |items| ==> items[k] == ItemOf(page.value, ns[k], fetch)
  {
    items := [];
    if page.None? {
      return;
    }
    var doc := page.value;
    var newsItems := FindAllInDocument(doc, NewsItemSel);
    var n := if |newsItems| < MaxItems then |newsItems| else MaxItems;
    items := ReadItems(doc, newsItems[..n], fetch);
  }

  /** The loop over the news-item containers `ns`: one record per container, in order. */
  method ReadItems(doc: Document, ns: seq<nat>, fetch: Fetcher) returns (items: seq<ItemRecord>)
    requires forall k :: 0 <= k < |ns| ==> ns[k] < |doc|
    ensures |items| == |ns|
    ensures forall k :: 0 <= k < |ns| ==> items[k] == ItemOf(doc, ns[k], fetch)
  {
    items := [];
    var i := 0;
    while i < |ns|
      invariant 0 <= i <= |ns|
      invariant |items| == i
      invariant forall k :: 0 <= k < i ==> items[k] == ItemOf(doc, ns[k], fetch)
    {
      var record := ReadItem(doc, ns[i], fetch);
      items := items + [record];
      i := i + 1;
    }
  }

  // ---------------------------------------------------------------------
  // Properties of the extraction

  /**
   * A reactions page gives one record per reaction container of the whole
   * page: each record comes from a reaction container, the containers are
   * taken in document order, and none is skipped.
   */
  lemma OneRecordPerReactionContainer(doc: Document)
    ensures var ds := FindAllInDocument(doc, ReactieSel); var rs := ReactionsOf(Some(doc));
      && |rs| == |ds|
      && (forall k :: 0 <= k < |rs| ==> Matches(doc[ds[k]], ReactieSel) && rs[k] == ReactionOf(doc, ds[k]))
      && (forall k, l :: 0 <= k < l < |ds| ==> ds[k] < ds[l])
      && (forall j :: 0 <= j < |doc| && Matches(doc[j], ReactieSel) ==> exists k :: 0 <= k < |ds| && ds[k] == j)
  {
    AllInMatches(doc, 0, |doc|, ReactieSel);
    AllInSorted(doc, 0, |doc|, ReactieSel);
    AllInComplete(doc, 0, |doc|, ReactieSel);
  }

  /**
   * A reply inside the nested-reactions block that follows reaction `i` is
   * listed twice: among reaction `i`'s nested reactions and as a reaction of
   * its own.
   */
  lemma RepliesAreAlsoReactions(doc: Document, i: nat, g: nat, j: nat)
    requires i < |doc| && FirstMatch(doc, i + 1, |doc|, NestedSel, g)
    requires g < j < doc[g].end && Matches(doc[j], ReactieSel)
    ensures ReactionOf(doc, i).nestedReactions == Some(RepliesOf(doc, g))
    ensures exists m: nat :: 0 <= m < |RepliesOf(doc, g)| && FindAll(doc, g, ReactieSel)[m] == j
    ensures exists k :: 0 <= k < |ReactionsOf(Some(doc))| && FindAllInDocument(doc, ReactieSel)[k] == j
  {
    FirstInIs(doc, i + 1, |doc|, NestedSel, g);
    assert FindNext(doc, i, NestedSel) == Some(g);
    var rs := FindAll(doc, g, ReactieSel);
    AllInComplete(doc, g + 1, doc[g].end, ReactieSel);
    assert j in rs;
    var m :| 0 <= m < |rs| && rs[m] == j;
    assert |RepliesOf(doc, g)| == |rs|;
    var ds := FindAllInDocument(doc, ReactieSel);
    AllInComplete(doc, 0, |doc|, ReactieSel);
    assert j in ds;
    var k :| 0 <= k < |ds| && ds[k] == j;
    assert |ReactionsOf(Some(doc))| == |ds|;
  }

  /** The user is the stripped text of the first span of the first nickname block in the reaction. */
  lemma UserFromFirstNickname(doc: Document, i: nat, u: nat, sp: nat)
    requires i < |doc| && FirstMatch(doc, i + 1, doc[i].end, UserNicknameSel, u)
    requires FirstMatch(doc, u + 1, doc[u].end, SpanSel, sp)
    ensures ReactionOf(doc, i).user == Some(Strip(doc[sp].text))
  {
    FirstInIs(doc, i + 1, doc[i].end, UserNicknameSel, u);
    FirstInIs(doc, u + 1, doc[u].end, SpanSel, sp);
  }

  /** Without a nickname block, or when its first one holds no span, the user key is missing and shows as `Unknown`. */
  lemma UserUnknown(doc: Document, i: nat)
    requires i < |doc|
    requires NoMatch(doc, i + 1, doc[i].end, UserNicknameSel)
      || exists u: nat :: FirstMatch(doc, i + 1, doc[i].end, UserNicknameSel, u) && NoMatch(doc, u + 1, doc[u].end, SpanSel)
    ensures ReactionOf(doc, i).user == None
    ensures ShownUser(ReactionOf(doc, i)) == "Unknown"
  {
    assert ReactionOf(doc, i).user == UserOf(doc, i);
    if NoMatch(doc, i + 1, doc[i].end, UserNicknameSel) {
      FirstInNone(doc, i + 1, doc[i].end, UserNicknameSel);
      assert Find(doc, i, UserNicknameSel) == None;
    } else {
      var u: nat :| FirstMatch(doc, i + 1, doc[i].end, UserNicknameSel, u) && NoMatch(doc, u + 1, doc[u].end, SpanSel);
      FirstInIs(doc, i + 1, doc[i].end, UserNicknameSel, u);
      assert Find(doc, i, UserNicknameSel) == Some(u);
      FirstInNone(doc, u + 1, doc[u].end, SpanSel);
      assert Find(doc, u, SpanSel) == None;
    }
    assert UserOf(doc, i) == None;
  }

  /** The text is the stripped text of the reaction's first paragraph, and shows as empty without one. */
  lemma TextFromFirstParagraph(doc: Document, i: nat)
    requires i < |doc|
    ensures forall p: nat :: FirstMatch(doc, i + 1, doc[i].end, ParagraphSel, p) ==>
      ReactionOf(doc, i).text == Some(Strip(doc[p].text))
    ensures NoMatch(doc, i + 1, doc[i].end, ParagraphSel) ==>
      ReactionOf(doc, i).text == None && ShownText(ReactionOf(doc, i)) == ""
  {
    FirstInFinds(doc, i + 1, doc[i].end, ParagraphSel);
    forall p: nat | FirstMatch(doc, i + 1, doc[i].end, ParagraphSel, p)
      ensures ReactionOf(doc, i).text == Some(Strip(doc[p].text))
    {
      FirstInIs(doc, i + 1, doc[i].end, ParagraphSel, p);
    }
  }

  /**
   * The likes come from the first date block after the reaction in document
   * order, which need not lie inside the reaction; without any such block the
   * likes key is missing and shows as `0`.
   */
  lemma LikesFromFollowingDateBlock(doc: Document, i: nat)
    requires i < |doc|
    ensures forall dd: nat :: FirstMatch(doc, i + 1, |doc|, DateSel, dd) ==>
      ReactionOf(doc, i).likes == StrippedTextOf(doc, dd, LikeCountSel)
    ensures NoMatch(doc, i + 1, |doc|, DateSel) ==>
      ReactionOf(doc, i).likes == None && ShownLikes(ReactionOf(doc, i)) == "0"
  {
    FirstInFinds(doc, i + 1, |doc|, DateSel);
    forall dd: nat | FirstMatch(doc, i + 1, |doc|, DateSel, dd)
      ensures ReactionOf(doc, i).likes == StrippedTextOf(doc, dd, LikeCountSel)
    {
      FirstInIs(doc, i + 1, |doc|, DateSel, dd);
    }
  }

  /** The nested-reactions key is present exactly when some nested-reactions block follows the reaction. */
  lemma NestedKeyPresence(doc: Document, i: nat)
    requires i < |doc|
    ensures ReactionOf(doc, i).nestedReactions.Some? <==> exists g :: i < g < |doc| && Matches(doc[g], NestedSel)
  {
    FirstInFinds(doc, i + 1, |doc|, NestedSel);
  }

  /** The nested reactions of reaction `i` are the replies of the first nested-reactions block after it. */
  lemma NestedFromFollowingBlock(doc: Document, i: nat, g: nat)
    requires i < |doc| && FirstMatch(doc, i + 1, |doc|, NestedSel, g)
    ensures ReactionOf(doc, i).nestedReactions == Some(RepliesOf(doc, g))
  {
    FirstInIs(doc, i + 1, |doc|, NestedSel, g);
  }

  /**
   * The replies of a block are one entry per reaction container inside it, in
   * order; an entry has a text exactly when its container has a paragraph,
   * and it is that paragraph's stripped text.
   */
  lemma RepliesShape(doc: Document, g: nat, k: nat)
    requires g < |doc| && k < |FindAll(doc, g, ReactieSel)|
    ensures |RepliesOf(doc, g)| == |FindAll(doc, g, ReactieSel)|
    ensures var c := FindAll(doc, g, ReactieSel)[k];
      && (RepliesOf(doc, g)[k].text.None? <==> NoMatch(doc, c + 1, doc[c].end, ParagraphSel))
      && (forall p: nat :: FirstMatch(doc, c + 1, doc[c].end, ParagraphSel, p) ==>
            RepliesOf(doc, g)[k].text == Some(Strip(doc[p].text)))
  {
    var c := FindAll(doc, g, ReactieSel)[k];
    FirstInFinds(doc, c + 1, doc[c].end, ParagraphSel);
    forall p: nat | FirstMatch(doc, c + 1, doc[c].end, ParagraphSel, p)
      ensures RepliesOf(doc, g)[k].text == Some(Strip(doc[p].text))
    {
      FirstInIs(doc, c + 1, doc[c].end, ParagraphSel, p);
    }
  }

  /** On a page that could not be retrieved the reaction extraction gives nothing. */
  lemma FailedPageGivesNoReactions()
    ensures ReactionsOf(None) == []
  {
  }

  /** A link is the origin followed by the `href` exactly as written; a missing `href` renders as `None`. */
  lemma LinkKeepsHref(doc: Document, a: nat)
    requires a < |doc|
    ensures "href" in doc[a].attrs ==>
      && LinkOf(doc, a) == SiteOrigin + doc[a].attrs["href"]
      && LinkOf(doc, a)[..|SiteOrigin|] == SiteOrigin
      && LinkOf(doc, a)[|SiteOrigin|..] == doc[a].attrs["href"]
    ensures "href" !in doc[a].attrs ==> LinkOf(doc, a) == SiteOrigin + "None"
  {
  }

  /**
   * With a reactions block whose first anchor has an `href`, the reactions
   * URL is the origin followed by that `href`, and the reactions are those of
   * the page fetched from exactly that URL.
   */
  lemma ReactionsUrlFromHref(doc: Document, i: nat, r: nat, a: nat, fetch: Fetcher)
    requires i < |doc| && FirstMatch(doc, i + 1, doc[i].end, ReactionsLinkSel, r)
    requires FirstMatch(doc, r + 1, doc[r].end, AnchorSel, a) && "href" in doc[a].attrs
    ensures var it := ItemOf(doc, i, fetch); var url := SiteOrigin + doc[a].attrs["href"];
      && it.reactionsInfo == Some(Strip(doc[r].text))
      && it.reactionsUrl == Some(url)
      && it.reactions == ReactionsOf(fetch(url))
  {
    FirstInIs(doc, i + 1, doc[i].end, ReactionsLinkSel, r);
    FirstInIs(doc, r + 1, doc[r].end, AnchorSel, a);
    assert ReactionsInfoOf(doc, i) == Some(Strip(doc[r].text));
    assert ReactionsUrlOf(doc, i) == Some(SiteOrigin + doc[a].attrs["href"]);
  }

  /**
   * Reactions are fetched only when the reactions block holds an anchor:
   * otherwise the item has no reactions URL, no reactions, and its report
   * does not depend on what retrieval would return.
   */
  lemma ReactionsFetchedOnlyWithLink(doc: Document, i: nat, f1: Fetcher, f2: Fetcher)
    requires i < |doc|
    requires NoMatch(doc, i + 1, doc[i].end, ReactionsLinkSel)
      || exists r: nat :: FirstMatch(doc, i + 1, doc[i].end, ReactionsLinkSel, r) && NoMatch(doc, r + 1, doc[r].end, AnchorSel)
    ensures ItemOf(doc, i, f1).reactionsUrl == None
    ensures ItemOf(doc, i, f1).reactions == []
    ensures ItemOf(doc, i, f1) == ItemOf(doc, i, f2)
  {
    if NoMatch(doc, i + 1, doc[i].end, ReactionsLinkSel) {
      FirstInNone(doc, i + 1, doc[i].end, ReactionsLinkSel);
    } else {
      var r: nat :| FirstMatch(doc, i + 1, doc[i].end, ReactionsLinkSel, r) && NoMatch(doc, r + 1, doc[r].end, AnchorSel);
      FirstInIs(doc, i + 1, doc[i].end, ReactionsLinkSel, r);
      FirstInNone(doc, r + 1, doc[r].end, AnchorSel);
    }
  }

  /**
   * The article link is the origin followed by the `href` of the item's
   * first article anchor, and the image is looked up inside that anchor only:
   * there is one exactly when the anchor contains an image of the article
   * class.
   */
  lemma ArticleLinkAndImage(doc: Document, i: nat, a: nat, fetch: Fetcher)
    requires i < |doc| && FirstMatch(doc, i + 1, doc[i].end, ArticleLinkSel, a)
    ensures ItemOf(doc, i, fetch).articleLink == Some(SiteOrigin + Format(GetAttr(doc[a], "href")))
    ensures ItemOf(doc, i, fetch).image.Some? <==> exists m: nat :: a < m < doc[a].end && Matches(doc[m], ImageSel)
    ensures forall m: nat :: FirstMatch(doc, a + 1, doc[a].end, ImageSel, m) ==>
      ItemOf(doc, i, fetch).image == Some(ImageRecord(GetAttr(doc[m], "src"), GetAttr(doc[m], "alt")))
  {
    var item := ItemOf(doc, i, fetch);
    assert item.articleLink == ArticleLinkOf(doc, i) && item.image == ImageOf(doc, i);
    FirstInIs(doc, i + 1, doc[i].end, ArticleLinkSel, a);
    assert Find(doc, i, ArticleLinkSel) == Some(a);
    assert ImageOf(doc, i).Some? <==> Find(doc, a, ImageSel).Some?;
    FirstInFinds(doc, a + 1, doc[a].end, ImageSel);
    forall m: nat | FirstMatch(doc, a + 1, doc[a].end, ImageSel, m)
      ensures item.image == Some(ImageRecord(GetAttr(doc[m], "src"), GetAttr(doc[m], "alt")))
    {
      FirstInIs(doc, a + 1, doc[a].end, ImageSel, m);
      assert Find(doc, a, ImageSel) == Some(m);
    }
  }

  /** Without an article anchor the item has neither article link nor image, whatever images it holds elsewhere. */
  lemma NoArticleLinkNoImage(doc: Document, i: nat, fetch: Fetcher)
    requires i < |doc| && NoMatch(doc, i + 1, doc[i].end, ArticleLinkSel)
    ensures ItemOf(doc, i, fetch).articleLink == None
    ensures ItemOf(doc, i, fetch).image == None
  {
    FirstInNone(doc, i + 1, doc[i].end, ArticleLinkSel);
  }
}
