# waldprut news scraper: a verified model

waldprut reads the news page of a Frisian news site. For each of the first ten news items it:

- reports the title, category and reactions summary;
- reports the reactions link, the article link and the image;
- fetches the item's reactions page and reports every reader reaction with its replies.

A relational store keeps news items, reactions and replies in three tables linked by foreign keys. It gives back the newest items rebuilt from those rows.

This project models three parts of the program:

- the extraction pass (`main.py`), in modules `Dom` and `Scraper`;
- the store (`database.py`), in module `Database`;
- the record types with their defaults (`models.py`), in module `Models`.

`Wrappers` holds the `Option` and `Result` types.

**The parsed page (`Dom`).** A parsed page is a sequence of element nodes in document order. Each node records where its subtree ends.

- `find` is the first match strictly inside a node's subtree.
- `find_all` is every match there, in order.
- `find_next` is the first match anywhere after the node.
- `str.strip` removes the characters Python's `isspace` accepts.

**The extraction pass (`Scraper`).**

- The reaction dictionary a reactions page yields is a record whose keys may each be missing.
- The fetch of a page is a function from URL to an optional parsed page. None stands for a request that raises. A reactions page gets no status-code check, so an error page is parsed like any other; only the news page must answer with status 200.
- Each loop of the source is a method proved equal to a specification function: `GetReactions` to `ReactionsOf`, `ReadItems` (inside `ScrapeNewsPage`) to `ItemOf` per container.
- Lemmas state what those functions promise.

**The store (`Database`).** The store is a class holding:

- the set of tables that exist;
- the three tables as sequences of rows;
- the three autoincrement counters.

How the model reaches its results:

- The insert cascade of `store_news_item` is one insert, then two nested loops. Its statements and their first failure are given by a schedule.
- An engine failure is an argument `fault` saying which statements the engine refuses. A missing table makes a statement fail too.
- On failure the snapshot taken at the start is restored and the first failure is returned.
- On success the new state is `Appended(old, item)`.
- `get_latest_news_items` is proved equal to `Latest`. The store-then-fetch round trip is proved about `Latest` and `Appended`.

**Behaviour of the code worth knowing.**

- `main.py` only prints. It builds no model records, validates nothing and never calls the store, so the extraction is modelled as producing what it prints.
- `language` is a stored string with default `Unknown`; no code computes it.
- The likes come from the first date block after the reaction anywhere in the page, and the replies from the first nested-reactions block after it. Both may lie outside the reaction.
- Replies are also listed as reactions of their own, because `find_all` runs over the whole page.
- Every `href` is appended to the site origin, including an absolute one. A missing `href` gives the text `None`.

## Model

| member | source | states |
|---|---|---|
| Models.ValidUrlRevalidates | database.py:144-151 | a URL the store wrote validates again when the row is read back, with its text unchanged |
| Models.Defaults | models.py:9-30 | a record built from its required fields has user `Unknown`, language `Unknown`, likes `0`, no replies, no reactions link, no reactions and no image |
| Dom.FirstIn | main.py:28 | the match reported lies in the searched range |
| Dom.FirstInFinds | main.py:28 | the first search reports the first matching node of the range, and reports none only when no node of the range matches |
| Dom.FirstInIs | main.py:28 | whichever node is the first match, the search names it |
| Dom.FirstInNone | main.py:28 | with no matching node in range the search finds nothing |
| Dom.AllIn | main.py:24 | every listed node lies in the searched range |
| Dom.AllInMatches | main.py:24 | `find_all` lists matching nodes only |
| Dom.AllInSorted | main.py:24 | `find_all` lists nodes in strictly increasing document order |
| Dom.AllInComplete | main.py:24 | `find_all` misses no matching node of the range |
| Dom.Find | main.py:28 | `find` returns a descendant of the node whose own subtree lies within the node's |
| Dom.FindAll | main.py:50 | `find_all` on a node returns descendants of that node only |
| Dom.FindNext | main.py:40 | `find_next` returns a node after the given one, anywhere in the page |
| Dom.FindAllInDocument | main.py:73 | `soup.find_all` returns nodes of the page |
| Dom.LeadingSpacesCounts | main.py:32 | the counted prefix is whitespace and the next character is not |
| Dom.TrailingSpacesCounts | main.py:32 | the counted suffix is whitespace and the character before it is not |
| Dom.Strip | main.py:32 | stripping never lengthens the text |
| Dom.StripTrims | main.py:32 | the stripped text is the slice of the input between a whitespace prefix and a whitespace suffix, and neither starts nor ends with whitespace |
| Dom.StripIdempotent | main.py:32 | stripping twice equals stripping once |
| Dom.StripKeepsTrimmed | main.py:32 | text without surrounding whitespace is left unchanged |
| Scraper.ReadReplies | main.py:49-55 | the loop builds one reply per reaction container in the block, each with the stripped text of its first paragraph when it has one |
| Scraper.ReadReaction | main.py:25-56 | the dictionary filled key by key equals the reaction's specification: user, text, likes and replies, each present only when the markup supplies it |
| Scraper.GetReactions | main.py:15-63 | a failed retrieval gives no reactions; otherwise one record per reaction container of the whole page, the k-th from the k-th container |
| Scraper.ReadReactionsBlock | main.py:91-102 | the summary is the stripped text of the reactions block; the URL is the origin plus the anchor's `href`; reactions come from fetching exactly that URL, and none without it |
| Scraper.ReadArticleLink | main.py:119-127 | the article link is the origin plus the anchor's `href`, and the image is read from inside that anchor |
| Scraper.ReadItem | main.py:78-127 | the report on a news-item container equals its specification, field by field |
| Scraper.ReadItems | main.py:75-127 | one record per news-item container handed to the loop, in order, each as specified |
| Scraper.ScrapeNewsPage | main.py:65-129 | a failed news-page retrieval reports nothing; otherwise the first `min(10, n)` news-item containers, in document order, each reported as specified |
| Scraper.OneRecordPerReactionContainer | main.py:24-58 | one record per reaction container, each from a reaction container, in document order, none skipped |
| Scraper.RepliesAreAlsoReactions | main.py:24-56 | a reply in the block following a reaction is listed among that reaction's replies and again as a reaction of its own |
| Scraper.UserFromFirstNickname | main.py:28-32 | the user is the stripped text of the first span in the first nickname block |
| Scraper.UserUnknown | main.py:28-32 | without a nickname block, or without a span in it, the user key is missing and shows as `Unknown` |
| Scraper.TextFromFirstParagraph | main.py:35-37 | the text is the stripped first paragraph; without one the key is missing and shows as empty |
| Scraper.LikesFromFollowingDateBlock | main.py:40-44 | the likes come from the first date block after the reaction in document order; without one the key is missing and shows as `0` |
| Scraper.NestedKeyPresence | main.py:47-56 | the replies key is present exactly when a nested-reactions block follows the reaction somewhere in the page |
| Scraper.NestedFromFollowingBlock | main.py:47-56 | the replies are those of the first nested-reactions block after the reaction |
| Scraper.RepliesShape | main.py:50-55 | one reply per reaction container of the block, with a text exactly when the container has a paragraph, and then its stripped text |
| Scraper.FailedPageGivesNoReactions | main.py:61-63 | a page that could not be had gives the empty list |
| Scraper.LinkKeepsHref | main.py:96-97 | a link is the site origin followed by the `href` unchanged; a missing `href` renders as `None` |
| Scraper.ReactionsUrlFromHref | main.py:91-102 | with a reactions block whose first anchor has an `href`, the summary, URL and reactions are those of that block, anchor and URL |
| Scraper.ReactionsFetchedOnlyWithLink | main.py:91-102 | without a reactions block or anchor there is no URL and no reactions, and the report does not depend on retrieval |
| Scraper.ArticleLinkAndImage | main.py:119-127 | the article link comes from the first article anchor; an image is reported exactly when that anchor contains one, and it is the first such |
| Scraper.NoArticleLinkNoImage | main.py:119-127 | without an article anchor there is neither link nor image, whatever images the item holds elsewhere |
| Database.InitIdempotent | database.py:12-50 | creating the schema a second time changes nothing |
| Database.InitKeepsWellFormed | database.py:6-53 | creating the schema keeps the stored data well formed |
| Database.Store.InitDb | database.py:6-53 | after `init_db` the three tables exist and no row or counter has changed |
| Database.Store.Rollback | database.py:124 | a rollback restores the content the transaction started from |
| Database.Store.InsertNestedReactions | database.py:105-113 | reports the first failing reply insert; otherwise appends one row per reply, in order, with consecutive fresh ids, all pointing at the given reaction |
| Database.Store.InsertOneReaction | database.py:89-113 | reports the first failure of the reaction insert and its reply inserts; otherwise appends the reaction's row under the next id, then its reply rows pointing at it |
| Database.Store.InsertReactions | database.py:88-113 | reports the first failing statement of the reaction loop; otherwise appends one row per reaction pointing at the news item, and each reaction's reply rows |
| Database.Store.RunStatements | database.py:61-116 | the inserts and the commit end with the first statement failure of the cascade, if any; without one the database has gained exactly the item's rows |
| Database.Store.StoreNewsItem | database.py:55-127 | fails exactly when a statement of the cascade fails, with the first failure, leaving the database unchanged; otherwise returns the fresh news-item id and the database gains exactly the item's rows |
| Database.FirstErrorIsEarliest | database.py:61-125 | the cascade raises error `e` exactly when some statement raises `e` and every statement before it succeeds, and raises nothing exactly when no statement fails |
| Database.ReactionRowsOf | database.py:88-98 | one reaction row per reaction |
| Database.NestedRowsOfOne | database.py:105-113 | one reply row per reply |
| Database.NestedRowsOf | database.py:88-113 | as many reply rows as replies in total |
| Database.FirstErrorAppend | database.py:61-125 | running two statement lists in sequence raises the first list's failure, or else the second's |
| Database.NestedSchedulePrefix | database.py:105-113 | a failure among the first reply inserts is the failure of the whole reply loop |
| Database.ReactionsSchedulePrefix | database.py:88-113 | a failure among the first reaction inserts is the failure of the whole reaction loop |
| Database.NestedRowsShape | database.py:100-113 | reply rows get consecutive ids and point at the reaction rows inserted for the same item |
| Database.NestedRowOfReply | database.py:100-113 | reply j of reaction k is stored at its position in insertion order, pointing at reaction k's id |
| Database.AppendedWellFormed | database.py:14-48 | a successful store keeps ids consecutive and fresh, stored links valid, and every foreign key pointing at an existing row |
| Database.StoreAddsExactly | database.py:69-113 | a store adds one news row, one row per reaction and one per reply, changes no existing row, gives the news row a fresh id and points every new reaction row at it with the reaction's fields |
| Database.StoreLinksReplies | database.py:100-113 | each new reply row points at the row inserted for its own reaction, carries the reply's fields and has a fresh id |
| Database.NullsForAbsentValues | database.py:63-80 | an absent reactions link and an absent image are stored as NULL, present ones as their text, and the row is valid |
| Database.StoreWithoutSchemaFails | database.py:69-81 | without the schema the first insert raises for the missing news-items table |
| Database.StoreSucceedsWithoutFaults | database.py:61-117 | with the schema and no engine fault the cascade succeeds |
| Database.NoErrorWithoutFaults | database.py:61-117 | no statement fails when every table exists and the engine refuses none |
| Database.SelectLatest | database.py:135-141 | the query returns `limit` rows, or all of them when fewer exist or the limit is negative |
| Database.SelectLatestNewestFirst | database.py:135-141 | at most `limit` rows, newest first, with strictly decreasing ids |
| Database.ImageRebuiltIffUrl | database.py:151 | an image is rebuilt exactly when the image URL column is neither NULL nor empty |
| Database.NewsRowRoundTrip | database.py:69-81 | a row the store wrote validates back into the stored item, without reactions |
| Database.ReactionsOfNewsAppend | database.py:156-160 | the reactions query over two row lists is the query over each, in order |
| Database.NestedOfReactionRowsAppend | database.py:164-168 | the replies query over two row lists is the query over each, in order |
| Database.ReactionsOfNewsAll | database.py:156-160 | the reactions query keeps every row with the key |
| Database.ReactionsOfNewsNone | database.py:156-160 | the reactions query keeps no row without the key |
| Database.NestedOfReactionRowsAll | database.py:164-168 | the replies query keeps every row with the key |
| Database.NestedOfReactionRowsNone | database.py:164-168 | the replies query keeps no row without the key |
| Database.RepliesOfStoredReaction | database.py:105-113 | among an item's reply rows, those pointing at reaction k are exactly reaction k's replies |
| Database.RepliesRoundTrip | database.py:164-173 | the replies read back for a stored reaction are the stored replies, in order |
| Database.RepliesFromRows | database.py:170-173 | reading back reply rows gives the replies they were stored from |
| Database.ReactionRowsSelected | database.py:155-160 | the reaction query on a newly stored item selects exactly the rows its reactions were stored as, in order |
| Database.ReactionsRebuilt | database.py:162-182 | each selected reaction row rebuilds, with its replies, into the reaction it was stored from |
| Database.ReactionsRoundTrip | database.py:155-182 | the reactions read back for a stored item are its reactions with their replies, in order |
| Database.StoreThenFetch | database.py:55-186 | storing an item and reading one newest item gives back exactly that item |
| Database.RebuildAllValidRows | database.py:143-186 | on a well-formed database with its schema, any list of valid rows rebuilds without error, the m-th item from the m-th row |
| Database.ValidRowParses | database.py:145-153 | a row the store could have written always validates |
| Database.LatestNewestFirst | database.py:129-186 | the read succeeds with `min(limit, count)` items (all for a negative limit), the m-th rebuilt from the m-th newest row |
| Database.LatestWithoutSchema | database.py:135-141 | without the schema the read raises at its first query |
| Database.Store.GetLatestNewsItems | database.py:129-189 | the returned items or error are `Latest` of the current content |
| Database.Store.RebuildRow | database.py:144-184 | one row validated, then rebuilt with its reactions and each reaction's replies, or the first error raised on the way |

## Left out

- HTTP retrieval is not modelled: the request, headers, encoding, the status-code check and the `RequestException` handler. A retrieval is a function from URL to an optional parsed page, and a news page that cannot be had gives an empty pass.
- `time.sleep` throttling between fetches is not modelled, because it has no observable effect on the data.
- HTML parsing is not modelled. The pass starts from a parsed page, and a node's `.text` is the text the parser reports for it.
- The printed output is not modelled. The pass returns records of what it prints. Only the fallbacks of `reaction.get` (`Unknown`, `''`, `'0'`) are kept, as `Scraper.ShownUser`, `ShownText`, `ShownLikes` and `ShownReplyText`.
- The numbering and layout of the printed lines are not modelled.
- The sqlite engine, SQL text, the `news.db` file and opening or closing connections are not modelled. Tables are in-memory sequences.
- Engine failures other than a missing table become the `fault` argument of `StoreNewsItem`. A failure of `conn.close()` is not modelled.
- Database.Store.GetLatestNewsItems: engine failures of the read queries are not modelled; it takes no fault argument, and only a missing table makes a query fail.
- Scraper.ItemOf: retrieval is a function of the URL, so two items with the same reactions URL get the same reactions; a site whose page changes between two fetches is not modelled.
- Failures of `init_db` itself are not modelled, because the source does not handle them.
- `created_at` timestamps are not modelled, because they are wall-clock values. `ORDER BY created_at DESC` is modelled as id descending, although equal timestamps could order rows differently.
- The child queries have no `ORDER BY`. They are modelled as returning rows in id order.
- The pydantic `HttpUrl` grammar and its normalisation of URL text (such as an added trailing slash) are not modelled. A URL is an absolute http(s) string whose text is kept as given.
- The exact exception types the store re-raises are not modelled, and neither are the Python model-validation messages. Errors are `NoSuchTable`, `EngineFault` or `ValidationError`.
- Database.Store.GetLatestNewsItems: the `category` and `reactions_info` columns of `news_items` and the reaction and reply columns are modelled as non-NULL text, because the store writes only strings there. A NULL in those columns, and the validation error it would cause, are not modelled.
- Database.StoreAddsExactly: ids are consecutive, which relies on only this program writing the file and on a rollback also undoing the autoincrement counter.
- Language detection is not part of this model, because no classifier appears in the modelled files.
- Models.Defaults: the defaults follow from the datatype declarations, so this lemma needs no proof.
