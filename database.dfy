/**
 * The relational store: three tables (news items, their reactions, the
 * replies to those reactions) linked by foreign keys, each with an
 * autoincrement id counter.  `StoreNewsItem` decomposes a news item into
 * rows inside one transaction that is rolled back when any statement of the
 * cascade raises; `GetLatestNewsItems` rebuilds the newest items from the
 * rows by following the foreign keys.
 */
module Database {
  import opened Wrappers
  import opened Models

  datatype Table = NewsItemsTable | ReactionsTable | NestedReactionsTable

  const AllTables: set<Table> := {NewsItemsTable, ReactionsTable, NestedReactionsTable}

  /** A `news_items` row; the nullable columns the store can leave NULL are options. */
  datatype NewsRow = NewsRow(
    id: nat,
    title: string,
    category: string,
    reactionsInfo: string,
    reactionsLink: Option<string>,
    articleLink: Option<string>,
    imageUrl: Option<string>,
    imageAlt: Option<string>)

  /** A `reactions` row; `newsItemId` refers to `news_items.id`. */
  datatype ReactionRow = ReactionRow(id: nat, newsItemId: nat, user: string, text: string, language: string, likes: string)

  /** A `nested_reactions` row; `reactionId` refers to `reactions.id`. */
  datatype NestedRow = NestedRow(id: nat, reactionId: nat, text: string, language: string)

  /**
   * One statement of the store cascade: the news-item insert, the insert of
   * reaction `k`, the insert of reply `j` of reaction `k`, and the commit.
   */
  datatype Stmt = InsertNews | InsertReaction(k: nat) | InsertNested(k: nat, j: nat) | Commit

  /** What a statement or a query raises. */
  datatype DbError =
    | NoSuchTable(table: Table)   // the statement names a table `init_db` has not created
    | EngineFault(stmt: Stmt)     // the engine fails the statement for a reason of its own (disk, lock, ...)
    | ValidationError             // a row read back does not validate as a model record

  /**
   * Engine failures outside the model's knowledge: which statements of a
   * cascade the engine refuses.
   */
  type Faults = Stmt -> bool

  /** The whole content of the database: the tables that exist, their rows and the id counters. */
  datatype Db = Db(
    tables: set<Table>,
    news: seq<NewsRow>,
    reactions: seq<ReactionRow>,
    nested: seq<NestedRow>,
    nextNews: nat,
    nextReaction: nat,
    nextNested: nat)

  const EmptyDb := Db({}, [], [], [], 1, 1, 1)

  // ---------------------------------------------------------------------
  // Invariant of the stored data

  /** A news row as the store writes it: the article link present, every link and image URL valid, the alt text present exactly with an image. */
  predicate ValidNewsRow(row: NewsRow) {
    && row.articleLink.Some? && IsHttpUrl(row.articleLink.value)
    && (row.reactionsLink.Some? ==> IsHttpUrl(row.reactionsLink.value))
    && (row.imageUrl.Some? ==> IsHttpUrl(row.imageUrl.value))
    && (row.imageUrl.Some? <==> row.imageAlt.Some?)
  }

  /**
   * The tables exist all or not at all (and are empty when absent); ids are
   * 1, 2, 3, ... in each table, with the counter one past the last (rows are
   * never deleted, and a rollback also undoes the counter); every foreign key
   * names an existing row.
   */
  predicate WellFormedDb(db: Db) {
    && (db.tables == {} || db.tables == AllTables)
    && (db.tables == {} ==> db.news == [] && db.reactions == [] && db.nested == [])
    && db.nextNews == |db.news| + 1
    && db.nextReaction == |db.reactions| + 1
    && db.nextNested == |db.nested| + 1
    && (forall m :: 0 <= m < |db.news| ==> db.news[m].id == m + 1 && ValidNewsRow(db.news[m]))
    && (forall m :: 0 <= m < |db.reactions| ==>
          db.reactions[m].id == m + 1 && 1 <= db.reactions[m].newsItemId <= |db.news|)
    && (forall m :: 0 <= m < |db.nested| ==>
          db.nested[m].id == m + 1 && 1 <= db.nested[m].reactionId <= |db.reactions|)
  }

  // ---------------------------------------------------------------------
  // init_db

  /** The database after `CREATE TABLE IF NOT EXISTS` for the three tables. */
  function Initialized(db: Db): Db {
    db.(tables := AllTables)
  }

  /** Running the schema script again changes nothing. */
  lemma InitIdempotent(db: Db)
    ensures Initialized(Initialized(db)) == Initialized(db)
  {
  }

  /** Creating the schema keeps the stored data well formed. */
  lemma InitKeepsWellFormed(db: Db)
    requires WellFormedDb(db)
    ensures WellFormedDb(Initialized(db))
  {
  }

  // ---------------------------------------------------------------------
  // store_news_item: the rows

  /** The `news_items` row of `item`: absent links and the absent image become NULL. */
  function NewsRowOf(id: nat, item: NewsItem): NewsRow {
    NewsRow(
      id, item.title, item.category, item.reactionsInfo,
      match item.reactionsLink case Some(u) => Some(u) case None => None,
      Some(item.articleLink),
      match item.image case Some(img) => Some(img.url) case None => None,
      match item.image case Some(img) => Some(img.alt) case None => None)
  }

  /** The `reactions` rows of `rs`, ids from `rid0` on, all pointing at news item `newsId`. */
  function ReactionRowsOf(rs: seq<Reaction>, newsId: nat, rid0: nat): (r: seq<ReactionRow>)
    ensures |r| == |rs|
  {
    seq(|rs|, k requires 0 <= k < |rs| =>
      ReactionRow(rid0 + k, newsId, rs[k].user, rs[k].text, rs[k].language, rs[k].likes))
  }

  /** The `nested_reactions` rows of the replies `ns` of reaction `rid`, ids from `nid0` on. */
  function NestedRowsOfOne(ns: seq<NestedReaction>, rid: nat, nid0: nat): (r: seq<NestedRow>)
    ensures |r| == |ns|
  {
    seq(|ns|, j requires 0 <= j < |ns| => NestedRow(nid0 + j, rid, ns[j].text, ns[j].language))
  }

  /** How many replies the reactions `rs` carry in total. */
  function TotalNested(rs: seq<Reaction>): nat {
    if rs == [] then 0 else TotalNested(rs[..|rs| - 1]) + |rs[|rs| - 1].nestedReactions|
  }

  /** The `nested_reactions` rows of all reactions `rs`, the `k`-th reaction having id `rid0 + k`. */
  function NestedRowsOf(rs: seq<Reaction>, rid0: nat, nid0: nat): (r: seq<NestedRow>)
    ensures |r| == TotalNested(rs)
  {
    if rs == [] then []
    else
      var k := |rs| - 1;
      NestedRowsOf(rs[..k], rid0, nid0) + NestedRowsOfOne(rs[k].nestedReactions, rid0 + k, nid0 + TotalNested(rs[..k]))
  }

  /** The database after a successful store of `item`: its rows appended, the counters advanced. */
  function Appended(db: Db, item: NewsItem): Db {
    var rs := item.reactions;
    db.(
      news := db.news + [NewsRowOf(db.nextNews, item)],
      reactions := db.reactions + ReactionRowsOf(rs, db.nextNews, db.nextReaction),
      nested := db.nested + NestedRowsOf(rs, db.nextReaction, db.nextNested),
      nextNews := db.nextNews + 1,
      nextReaction := db.nextReaction + |rs|,
      nextNested := db.nextNested + TotalNested(rs))
  }

  // ---------------------------------------------------------------------
  // store_news_item: the statements and their failures

  /** The statements inserting the replies of reaction `k`, in order. */
  function NestedSchedule(k: nat, n: nat): seq<Stmt> {
    if n == 0 then [] else NestedSchedule(k, n - 1) + [InsertNested(k, n - 1)]
  }

  /** The statements inserting the reactions `rs` and their replies, in order. */
  function ReactionsSchedule(rs: seq<Reaction>): seq<Stmt> {
    if rs == [] then []
    else
      var k := |rs| - 1;
      ReactionsSchedule(rs[..k]) + [InsertReaction(k)] + NestedSchedule(k, |rs[k].nestedReactions|)
  }

  /** Every statement `store_news_item` runs for `item`, in order, ending with the commit. */
  function Schedule(item: NewsItem): seq<Stmt> {
    [InsertNews] + ReactionsSchedule(item.reactions) + [Commit]
  }

  function TableOf(s: Stmt): Option<Table> {
    match s
    case InsertNews => Some(NewsItemsTable)
    case InsertReaction(_) => Some(ReactionsTable)
    case InsertNested(_, _) => Some(NestedReactionsTable)
    case Commit => None
  }

  /** What running `s` raises, if anything: a missing table first, else an engine fault. */
  function StmtError(tables: set<Table>, fault: Faults, s: Stmt): Option<DbError> {
    if TableOf(s).Some? && TableOf(s).value !in tables then Some(NoSuchTable(TableOf(s).value))
    else if fault(s) then Some(EngineFault(s))
    else None
  }

  /** The error of the first statement of `ss` that raises; the rest of `ss` is not run. */
  function FirstError(tables: set<Table>, fault: Faults, ss: seq<Stmt>): Option<DbError> {
    if ss == [] then None
    else if StmtError(tables, fault, ss[0]).Some? then StmtError(tables, fault, ss[0])
    else FirstError(tables, fault, ss[1..])
  }

  /** The cascade is aborted by its earliest failing statement, and raises nothing only when no statement fails. */
  lemma {:induction false} FirstErrorIsEarliest(tables: set<Table>, fault: Faults, ss: seq<Stmt>, e: DbError)
    ensures FirstError(tables, fault, ss) == Some(e) <==>
      exists i :: 0 <= i < |ss| && StmtError(tables, fault, ss[i]) == Some(e)
        && forall j :: 0 <= j < i ==> StmtError(tables, fault, ss[j]).None?
    ensures FirstError(tables, fault, ss).None? <==> forall i :: 0 <= i < |ss| ==> StmtError(tables, fault, ss[i]).None?
  {
    if ss != [] {
      var rest := ss[1..];
      FirstErrorIsEarliest(tables, fault, rest, e);
      assert forall i :: 0 <= i < |rest| ==> rest[i] == ss[i + 1];
      if StmtError(tables, fault, ss[0]).None? {
        if FirstError(tables, fault, ss) == Some(e) {
          var i :| 0 <= i < |rest| && StmtError(tables, fault, rest[i]) == Some(e)
            && forall j :: 0 <= j < i ==> StmtError(tables, fault, rest[j]).None?;
          assert forall j :: 0 <= j < i + 1 ==> StmtError(tables, fault, ss[j]).None? by {
            forall j | 0 <= j < i + 1 ensures StmtError(tables, fault, ss[j]).None? {
              if j > 0 { assert ss[j] == rest[j - 1]; }
            }
          }
          assert StmtError(tables, fault, ss[i + 1]) == Some(e);
        }
        if exists i :: 0 <= i < |ss| && StmtError(tables, fault, ss[i]) == Some(e)
            && forall j :: 0 <= j < i ==> StmtError(tables, fault, ss[j]).None? {
          var i :| 0 <= i < |ss| && StmtError(tables, fault, ss[i]) == Some(e)
            && forall j :: 0 <= j < i ==> StmtError(tables, fault, ss[j]).None?;
          assert i > 0;
          assert StmtError(tables, fault, rest[i - 1]) == Some(e);
          assert forall j :: 0 <= j < i - 1 ==> StmtError(tables, fault, rest[j]).None?;
        }
        if forall i :: 0 <= i < |rest| ==> StmtError(tables, fault, rest[i]).None? {
          forall i | 0 <= i < |ss| ensures StmtError(tables, fault, ss[i]).None? {
            if i > 0 { assert ss[i] == rest[i - 1]; }
          }
        }
      }
    }
  }

  /** What the store of `item` raises, if anything. */
  function CascadeError(tables: set<Table>, item: NewsItem, fault: Faults): Option<DbError> {
    FirstError(tables, fault, Schedule(item))
  }

  // ---------------------------------------------------------------------
  // get_latest_news_items: the queries and the rebuild

  const DefaultLimit := 10

  /** `ORDER BY created_at DESC LIMIT limit`: newest row first; a negative limit is no limit. */
  function SelectLatest(news: seq<NewsRow>, limit: int): (r: seq<NewsRow>)
    ensures |r| == if 0 <= limit < |news| then limit else |news|
  {
    var n := if 0 <= limit < |news| then limit else |news|;
    seq(n, m requires 0 <= m < n => news[|news| - 1 - m])
  }

  /** `SELECT ... FROM reactions WHERE news_item_id = id`, in id order. */
  function ReactionsOfNews(rows: seq<ReactionRow>, id: nat): seq<ReactionRow> {
    if rows == [] then []
    else (if rows[0].newsItemId == id then [rows[0]] else []) + ReactionsOfNews(rows[1..], id)
  }

  /** `SELECT ... FROM nested_reactions WHERE reaction_id = id`, in id order. */
  function NestedOfReactionRows(rows: seq<NestedRow>, id: nat): seq<NestedRow> {
    if rows == [] then []
    else (if rows[0].reactionId == id then [rows[0]] else []) + NestedOfReactionRows(rows[1..], id)
  }

  /** The replies rebuilt from the nested rows of reaction `id`. */
  function NestedOfReaction(rows: seq<NestedRow>, id: nat): (r: seq<NestedReaction>) {
    var ns := NestedOfReactionRows(rows, id);
    seq(|ns|, j requires 0 <= j < |ns| => NestedReaction(ns[j].text, ns[j].language))
  }

  function ReactionOfRow(nested: seq<NestedRow>, row: ReactionRow): Reaction {
    Reaction(row.user, row.text, row.language, row.likes, NestedOfReaction(nested, row.id))
  }

  /** The image column pair read back: an image only when the URL is neither NULL nor empty. */
  function ParseImage(url: Option<string>, alt: Option<string>): Result<Option<Image>, DbError> {
    if url.None? || url.value == "" then Ok(None)
    else match ParseHttpUrl(url.value)
      case None => Err(ValidationError)
      case Some(u) => if alt.None? then Err(ValidationError) else Ok(Some(Image(u, alt.value)))
  }

  /** A nullable URL column read back into an optional URL field. */
  function ParseOptionalUrl(s: Option<string>): Result<Option<HttpUrl>, DbError> {
    match s
    case None => Ok(None)
    case Some(v) => match ParseHttpUrl(v) case None => Err(ValidationError) case Some(u) => Ok(Some(u))
  }

  /** A news row validated as a `NewsItem` without reactions. */
  function ParseNewsRow(row: NewsRow): Result<NewsItem, DbError> {
    match ParseImage(row.imageUrl, row.imageAlt)
    case Err(e) => Err(e)
    case Ok(image) =>
      match ParseOptionalUrl(row.reactionsLink)
      case Err(e) => Err(e)
      case Ok(link) =>
        if row.articleLink.None? then Err(ValidationError)
        else match ParseHttpUrl(row.articleLink.value)
          case None => Err(ValidationError)
          case Some(article) =>
            Ok(NewsItem(row.title, row.category, row.reactionsInfo, link, [], article, image))
  }

  /**
   * One news row rebuilt with its reactions and their replies; the reactions
   * query fails without its table, the replies query (run once per reaction)
   * likewise.
   */
  function RebuildItem(db: Db, row: NewsRow): Result<NewsItem, DbError> {
    match ParseNewsRow(row)
    case Err(e) => Err(e)
    case Ok(header) =>
      if ReactionsTable !in db.tables then Err(NoSuchTable(ReactionsTable))
      else
        var rr := ReactionsOfNews(db.reactions, row.id);
        if rr != [] && NestedReactionsTable !in db.tables then Err(NoSuchTable(NestedReactionsTable))
        else Ok(header.(reactions := seq(|rr|, k requires 0 <= k < |rr| => ReactionOfRow(db.nested, rr[k]))))
  }

  /** The rows rebuilt in order; the first one that fails makes the whole read fail. */
  function RebuildAll(db: Db, rows: seq<NewsRow>): Result<seq<NewsItem>, DbError> {
    if rows == [] then Ok([])
    else match RebuildAll(db, rows[..|rows| - 1])
      case Err(e) => Err(e)
      case Ok(items) =>
        match RebuildItem(db, rows[|rows| - 1])
        case Err(e) => Err(e)
        case Ok(item) => Ok(items + [item])
  }

  /** What `get_latest_news_items(limit)` returns or raises. */
  function Latest(db: Db, limit: int): Result<seq<NewsItem>, DbError> {
    if NewsItemsTable !in db.tables then Err(NoSuchTable(NewsItemsTable))
    else RebuildAll(db, SelectLatest(db.news, limit))
  }

  // ---------------------------------------------------------------------
  // The database object

  class Store {
    var tables: set<Table>
    var newsItems: seq<NewsRow>
    var reactionRows: seq<ReactionRow>
    var nestedRows: seq<NestedRow>
    var nextNewsId: nat
    var nextReactionId: nat
    var nextNestedId: nat

    function State(): Db
      reads this
    {
      Db(tables, newsItems, reactionRows, nestedRows, nextNewsId, nextReactionId, nextNestedId)
    }

    ghost predicate Valid()
      reads this
    {
      WellFormedDb(State())
    }

    /** A fresh database file: no tables yet. */
    constructor()
      ensures State() == EmptyDb && Valid()
    {
      tables := {};
      newsItems := [];
      reactionRows := [];
      nestedRows := [];
      nextNewsId := 1;
      nextReactionId := 1;
      nextNestedId := 1;
    }

    /** `init_db`: create each table that does not exist yet. */
    method InitDb()
      requires Valid()
      modifies this
      ensures Valid()
      ensures State() == Initialized(old(State()))
    {
      InitKeepsWellFormed(State());
      tables := tables + {NewsItemsTable};
      tables := tables + {ReactionsTable};
      tables := tables + {NestedReactionsTable};
    }

    /** `conn.rollback()`: put back the content the transaction started from. */
    method Rollback(snapshot: Db)
      modifies this
      ensures State() == snapshot
    {
      tables := snapshot.tables;
      newsItems := snapshot.news;
      reactionRows := snapshot.reactions;
      nestedRows := snapshot.nested;
      nextNewsId := snapshot.nextNews;
      nextReactionId := snapshot.nextReaction;
      nextNestedId := snapshot.nextNested;
    }

    /** The inner loop: insert the replies `ns` of reaction `k`, whose id is `rid`. */
    method InsertNestedReactions(ns: seq<NestedReaction>, k: nat, rid: nat, fault: Faults) returns (err: Option<DbError>)
      modifies this
      ensures err == FirstError(tables, fault, NestedSchedule(k, |ns|))
      ensures err.None? ==> nestedRows == old(nestedRows) + NestedRowsOfOne(ns, rid, old(nextNestedId))
      ensures err.None? ==> nextNestedId == old(nextNestedId) + |ns|
      ensures tables == old(tables) && newsItems == old(newsItems) && reactionRows == old(reactionRows)
      ensures nextNewsId == old(nextNewsId) && nextReactionId == old(nextReactionId)
    {
      var j := 0;
      while j < |ns|
        invariant 0 <= j <= |ns|
        invariant FirstError(tables, fault, NestedSchedule(k, j)) == None
        invariant nestedRows == old(nestedRows) + NestedRowsOfOne(ns[..j], rid, old(nextNestedId))
        invariant nextNestedId == old(nextNestedId) + j
        invariant tables == old(tables) && newsItems == old(newsItems) && reactionRows == old(reactionRows)
        invariant nextNewsId == old(nextNewsId) && nextReactionId == old(nextReactionId)
      {
        var e := StmtError(tables, fault, InsertNested(k, j));
        FirstErrorAppend(tables, fault, NestedSchedule(k, j), [InsertNested(k, j)]);
        if e.Some? {
          NestedSchedulePrefix(tables, fault, k, j + 1, |ns|);
          return e;
        }
        NestedRowsOfOneStep(ns, j, rid, old(nextNestedId));
        nestedRows := nestedRows + [NestedRow(nextNestedId, rid, ns[j].text, ns[j].language)];
        nextNestedId := nextNestedId + 1;
        j := j + 1;
      }
      assert ns[..j] == ns;
      return None;
    }

    /** One pass of the outer loop: insert reaction `k` of news item `newsId`, then its replies. */
    method InsertOneReaction(r: Reaction, k: nat, newsId: nat, fault: Faults) returns (err: Option<DbError>)
      modifies this
      ensures err == FirstError(tables, fault, [InsertReaction(k)] + NestedSchedule(k, |r.nestedReactions|))
      ensures err.None? ==>
        reactionRows == old(reactionRows) + [ReactionRow(old(nextReactionId), newsId, r.user, r.text, r.language, r.likes)]
      ensures err.None? ==>
        nestedRows == old(nestedRows) + NestedRowsOfOne(r.nestedReactions, old(nextReactionId), old(nextNestedId))
      ensures err.None? ==> nextReactionId == old(nextReactionId) + 1 && nextNestedId == old(nextNestedId) + |r.nestedReactions|
      ensures tables == old(tables) && newsItems == old(newsItems) && nextNewsId == old(nextNewsId)
    {
      FirstErrorAppend(tables, fault, [InsertReaction(k)], NestedSchedule(k, |r.nestedReactions|));
      err := StmtError(tables, fault, InsertReaction(k));
      if err.Some? {
        return;
      }
      var rid := nextReactionId;
      reactionRows := reactionRows + [ReactionRow(rid, newsId, r.user, r.text, r.language, r.likes)];
      nextReactionId := nextReactionId + 1;
      err := InsertNestedReactions(r.nestedReactions, k, rid, fault);
    }

    /** The outer loop: insert the reactions `rs` of news item `newsId`, each followed by its replies. */
    method InsertReactions(rs: seq<Reaction>, newsId: nat, fault: Faults) returns (err: Option<DbError>)
      modifies this
      ensures err == FirstError(tables, fault, ReactionsSchedule(rs))
      ensures err.None? ==> reactionRows == old(reactionRows) + ReactionRowsOf(rs, newsId, old(nextReactionId))
      ensures err.None? ==> nestedRows == old(nestedRows) + NestedRowsOf(rs, old(nextReactionId), old(nextNestedId))
      ensures err.None? ==> nextReactionId == old(nextReactionId) + |rs| && nextNestedId == old(nextNestedId) + TotalNested(rs)
      ensures tables == old(tables) && newsItems == old(newsItems) && nextNewsId == old(nextNewsId)
    {
      var k := 0;
      while k < |rs|
        invariant 0 <= k <= |rs|
        invariant FirstError(tables, fault, ReactionsSchedule(rs[..k])) == None
        invariant reactionRows == old(reactionRows) + ReactionRowsOf(rs[..k], newsId, old(nextReactionId))
        invariant nestedRows == old(nestedRows) + NestedRowsOf(rs[..k], old(nextReactionId), old(nextNestedId))
        invariant nextReactionId == old(nextReactionId) + k
        invariant nextNestedId == old(nextNestedId) + TotalNested(rs[..k])
        invariant tables == old(tables) && newsItems == old(newsItems) && nextNewsId == old(nextNewsId)
      {
        ghost var rows, replies, rid, nid := reactionRows, nestedRows, nextReactionId, nextNestedId;
        var e := InsertOneReaction(rs[k], k, newsId, fault);
        ReactionsErrorStep(tables, fault, rs, k, e);
        if e.Some? {
          return e;
        }
        InsertReactionsStep(rs, k, newsId, old(nextReactionId), old(nextNestedId), rid, nid,
          old(reactionRows), rows, reactionRows, old(nestedRows), replies, nestedRows);
        k := k + 1;
      }
      assert rs[..k] == rs;
      return None;
    }

    /**
     * `store_news_item`: insert the item's row, then each reaction's row
     * followed by its replies' rows, then commit.  The first statement that
     * raises rolls the whole transaction back and is re-raised.
     */
    method StoreNewsItem(item: NewsItem, fault: Faults) returns (result: Result<nat, DbError>)
      requires Valid()
      modifies this
      ensures Valid()
      ensures result.Err? ==> CascadeError(old(tables), item, fault) == Some(result.error) && State() == old(State())
      ensures result.Ok? ==> CascadeError(old(tables), item, fault) == None
      ensures result.Ok? ==> result.value == old(nextNewsId) && State() == Appended(old(State()), item)
    {
      var snapshot := State();
      var newsId := nextNewsId;
      var err := RunStatements(item, fault);
      if err.Some? {
        Rollback(snapshot);
        return Err(err.value);
      }
      AppendedWellFormed(snapshot, item);
      return Ok(newsId);
    }

    /** The body of the transaction: the inserts and the commit, stopping at the first statement that raises. */
    method RunStatements(item: NewsItem, fault: Faults) returns (err: Option<DbError>)
      modifies this
      ensures err == CascadeError(old(tables), item, fault)
      ensures err.None? ==> State() == Appended(old(State()), item)
    {
      var rs := item.reactions;
      err := StmtError(tables, fault, InsertNews);
      FirstErrorAppend(tables, fault, [InsertNews], ReactionsSchedule(rs) + [Commit]);
      assert Schedule(item) == [InsertNews] + (ReactionsSchedule(rs) + [Commit]);
      if err.Some? {
        return;
      }
      var newsId := nextNewsId;
      newsItems := newsItems + [NewsRowOf(newsId, item)];
      nextNewsId := nextNewsId + 1;
      err := InsertReactions(rs, newsId, fault);
      FirstErrorAppend(tables, fault, ReactionsSchedule(rs), [Commit]);
      if err.None? {
        err := StmtError(tables, fault, Commit);
      }
    }

    /**
     * `get_latest_news_items`: the newest `limit` news rows, each rebuilt with
     * the reactions that point at it and, for each reaction, the replies that
     * point at it.
     */
    method GetLatestNewsItems(limit: int := DefaultLimit) returns (result: Result<seq<NewsItem>, DbError>)
      ensures result == Latest(State(), limit)
    {
      if NewsItemsTable !in tables {
        return Err(NoSuchTable(NewsItemsTable));
      }
      var rows := SelectLatest(newsItems, limit);
      var items: seq<NewsItem> := [];
      var i := 0;
      while i < |rows|
        invariant 0 <= i <= |rows|
        invariant RebuildAll(State(), rows[..i]) == Ok(items)
      {
        assert rows[..i + 1][..i] == rows[..i];
        var item := RebuildRow(rows[i]);
        if item.Err? {
          RebuildAllFails(State(), rows, i + 1);
          return Err(item.error);
        }
        items := items + [item.value];
        i := i + 1;
      }
      assert rows[..i] == rows;
      return Ok(items);
    }

    /** The body of the row loop: validate the row, then fetch and rebuild its reactions one by one. */
    method RebuildRow(row: NewsRow) returns (result: Result<NewsItem, DbError>)
      ensures result == RebuildItem(State(), row)
    {
      var header := ParseNewsRow(row);
      if header.Err? {
        return Err(header.error);
      }
      if ReactionsTable !in tables {
        return Err(NoSuchTable(ReactionsTable));
      }
      var reactRows := ReactionsOfNews(reactionRows, row.id);
      var replyRows := nestedRows;
      var reactions: seq<Reaction> := [];
      var k := 0;
      while k < |reactRows|
        invariant 0 <= k <= |reactRows|
        invariant k > 0 ==> NestedReactionsTable in tables
        invariant |reactions| == k
        invariant forall m :: 0 <= m < k ==> reactions[m] == ReactionOfRow(replyRows, reactRows[m])
      {
        if NestedReactionsTable !in tables {
          return Err(NoSuchTable(NestedReactionsTable));
        }
        var nested := NestedOfReaction(replyRows, reactRows[k].id);
        reactions := reactions + [Reaction(reactRows[k].user, reactRows[k].text, reactRows[k].language, reactRows[k].likes, nested)];
        k := k + 1;
      }
      assert reactions == seq(|reactRows|, m requires 0 <= m < |reactRows| => ReactionOfRow(replyRows, reactRows[m]));
      return Ok(header.value.(reactions := reactions));
    }
  }

  // ---------------------------------------------------------------------
  // Lemmas the loops rest on

  /** Running `a` then `b` raises what `a` raises, or else what `b` raises. */
  lemma {:induction false} FirstErrorAppend(tables: set<Table>, fault: Faults, a: seq<Stmt>, b: seq<Stmt>)
    ensures FirstError(tables, fault, a + b) ==
      if FirstError(tables, fault, a).Some? then FirstError(tables, fault, a) else FirstError(tables, fault, b)
  {
    if a == [] {
      assert a + b == b;
    } else {
      assert (a + b)[0] == a[0];
      assert (a + b)[1..] == a[1..] + b;
      FirstErrorAppend(tables, fault, a[1..], b);
    }
  }

  /** A failure among the first `j` reply inserts is the failure of all `n`. */
  lemma {:induction false} NestedSchedulePrefix(tables: set<Table>, fault: Faults, k: nat, j: nat, n: nat)
    requires j <= n && FirstError(tables, fault, NestedSchedule(k, j)).Some?
    ensures FirstError(tables, fault, NestedSchedule(k, n)) == FirstError(tables, fault, NestedSchedule(k, j))
    decreases n - j
  {
    if j < n {
      NestedSchedulePrefix(tables, fault, k, j, n - 1);
      FirstErrorAppend(tables, fault, NestedSchedule(k, n - 1), [InsertNested(k, n - 1)]);
    }
  }

  lemma ReactionsScheduleStep(rs: seq<Reaction>, k: nat)
    requires k < |rs|
    ensures ReactionsSchedule(rs[..k + 1]) ==
      ReactionsSchedule(rs[..k]) + [InsertReaction(k)] + NestedSchedule(k, |rs[k].nestedReactions|)
  {
    assert rs[..k + 1][..k] == rs[..k];
  }

  /** A failure while inserting the first `j` reactions is the failure of inserting all of `rs`. */
  lemma {:induction false} ReactionsSchedulePrefix(tables: set<Table>, fault: Faults, rs: seq<Reaction>, j: nat)
    requires j <= |rs| && FirstError(tables, fault, ReactionsSchedule(rs[..j])).Some?
    ensures FirstError(tables, fault, ReactionsSchedule(rs)) == FirstError(tables, fault, ReactionsSchedule(rs[..j]))
    decreases |rs| - j
  {
    if j == |rs| {
      assert rs[..j] == rs;
    } else {
      var k := |rs| - 1;
      assert rs[..k][..j] == rs[..j];
      ReactionsSchedulePrefix(tables, fault, rs[..k], j);
      FirstErrorAppend(tables, fault, ReactionsSchedule(rs[..k]), [InsertReaction(k)]);
      FirstErrorAppend(tables, fault, ReactionsSchedule(rs[..k]) + [InsertReaction(k)], NestedSchedule(k, |rs[k].nestedReactions|));
    }
  }

  /** One pass of the outer insert loop: it either keeps the cascade free of failures or raises the failure of the whole loop. */
  lemma ReactionsErrorStep(tables: set<Table>, fault: Faults, rs: seq<Reaction>, k: nat, e: Option<DbError>)
    requires k < |rs|
    requires FirstError(tables, fault, ReactionsSchedule(rs[..k])) == None
    requires e == FirstError(tables, fault, [InsertReaction(k)] + NestedSchedule(k, |rs[k].nestedReactions|))
    ensures e.None? ==> FirstError(tables, fault, ReactionsSchedule(rs[..k + 1])) == None
    ensures e.Some? ==> FirstError(tables, fault, ReactionsSchedule(rs)) == e
  {
    var before := ReactionsSchedule(rs[..k]);
    var step := [InsertReaction(k)] + NestedSchedule(k, |rs[k].nestedReactions|);
    FirstErrorAppend(tables, fault, before, step);
    ReactionsScheduleStep(rs, k);
    assert ReactionsSchedule(rs[..k + 1]) == before + step;
    if e.Some? {
      ReactionsSchedulePrefix(tables, fault, rs, k + 1);
    }
  }

  lemma NestedRowsOfOneStep(ns: seq<NestedReaction>, j: nat, rid: nat, nid0: nat)
    requires j < |ns|
    ensures NestedRowsOfOne(ns[..j + 1], rid, nid0) ==
      NestedRowsOfOne(ns[..j], rid, nid0) + [NestedRow(nid0 + j, rid, ns[j].text, ns[j].language)]
  {
  }

  lemma ReactionRowsOfStep(rs: seq<Reaction>, k: nat, newsId: nat, rid0: nat)
    requires k < |rs|
    ensures ReactionRowsOf(rs[..k + 1], newsId, rid0) ==
      ReactionRowsOf(rs[..k], newsId, rid0) + [ReactionRow(rid0 + k, newsId, rs[k].user, rs[k].text, rs[k].language, rs[k].likes)]
  {
  }

  lemma NestedRowsOfStep(rs: seq<Reaction>, k: nat, rid0: nat, nid0: nat)
    requires k < |rs|
    ensures NestedRowsOf(rs[..k + 1], rid0, nid0) ==
      NestedRowsOf(rs[..k], rid0, nid0) + NestedRowsOfOne(rs[k].nestedReactions, rid0 + k, nid0 + TotalNested(rs[..k]))
    ensures TotalNested(rs[..k + 1]) == TotalNested(rs[..k]) + |rs[k].nestedReactions|
  {
    assert rs[..k + 1][..k] == rs[..k];
  }

  /** One pass of the outer insert loop extends both row tables by the rows of reaction `k`. */
  lemma InsertReactionsStep(rs: seq<Reaction>, k: nat, newsId: nat, rid0: nat, nid0: nat, rid: nat, nid: nat,
                            base: seq<ReactionRow>, before: seq<ReactionRow>, after: seq<ReactionRow>,
                            nbase: seq<NestedRow>, nbefore: seq<NestedRow>, nafter: seq<NestedRow>)
    requires k < |rs| && rid == rid0 + k && nid == nid0 + TotalNested(rs[..k])
    requires before == base + ReactionRowsOf(rs[..k], newsId, rid0)
    requires after == before + [ReactionRow(rid, newsId, rs[k].user, rs[k].text, rs[k].language, rs[k].likes)]
    requires nbefore == nbase + NestedRowsOf(rs[..k], rid0, nid0)
    requires nafter == nbefore + NestedRowsOfOne(rs[k].nestedReactions, rid, nid)
    ensures after == base + ReactionRowsOf(rs[..k + 1], newsId, rid0)
    ensures nafter == nbase + NestedRowsOf(rs[..k + 1], rid0, nid0)
    ensures TotalNested(rs[..k + 1]) == TotalNested(rs[..k]) + |rs[k].nestedReactions|
  {
    ReactionRowsOfStep(rs, k, newsId, rid0);
    NestedRowsOfStep(rs, k, rid0, nid0);
    assert after == base + (ReactionRowsOf(rs[..k], newsId, rid0)
      + [ReactionRow(rid0 + k, newsId, rs[k].user, rs[k].text, rs[k].language, rs[k].likes)]);
    assert nafter == nbase + (NestedRowsOf(rs[..k], rid0, nid0)
      + NestedRowsOfOne(rs[k].nestedReactions, rid0 + k, nid0 + TotalNested(rs[..k])));
  }

  /** The first row that fails to rebuild makes the rebuild of any longer list fail the same way. */
  lemma {:induction false} RebuildAllFails(db: Db, rows: seq<NewsRow>, j: nat)
    requires 0 < j <= |rows| && RebuildAll(db, rows[..j]).Err?
    ensures RebuildAll(db, rows) == RebuildAll(db, rows[..j])
    decreases |rows| - j
  {
    if j == |rows| {
      assert rows[..j] == rows;
    } else {
      var k := |rows| - 1;
      assert rows[..k][..j] == rows[..j];
      RebuildAllFails(db, rows[..k], j);
    }
  }

  // ---------------------------------------------------------------------
  // What a store adds

  /** The reply rows of `rs`: one per reply, ids `nid0, nid0+1, ...`, pointing at reactions `rid0 .. rid0+|rs|-1`. */
  lemma {:induction false} NestedRowsShape(rs: seq<Reaction>, rid0: nat, nid0: nat)
    ensures forall m :: 0 <= m < |NestedRowsOf(rs, rid0, nid0)| ==>
      NestedRowsOf(rs, rid0, nid0)[m].id == nid0 + m &&
      rid0 <= NestedRowsOf(rs, rid0, nid0)[m].reactionId < rid0 + |rs|
  {
    if rs != [] {
      var k := |rs| - 1;
      NestedRowsShape(rs[..k], rid0, nid0);
      var front := NestedRowsOf(rs[..k], rid0, nid0);
      var one := NestedRowsOfOne(rs[k].nestedReactions, rid0 + k, nid0 + TotalNested(rs[..k]));
      var r := NestedRowsOf(rs, rid0, nid0);
      assert r == front + one;
      forall m | 0 <= m < |r|
        ensures r[m].id == nid0 + m && rid0 <= r[m].reactionId < rid0 + |rs|
      {
        if m < |front| {
          assert r[m] == front[m];
          assert front[m].id == nid0 + m && rid0 <= front[m].reactionId < rid0 + k;
        } else {
          assert r[m] == one[m - |front|];
          assert |front| == TotalNested(rs[..k]);
          assert one[m - |front|].id == nid0 + TotalNested(rs[..k]) + (m - |front|);
        }
      }
    }
  }

  /** Reply `j` of reaction `k` is stored in order, pointing at the row of reaction `k`. */
  lemma {:induction false} NestedRowOfReply(rs: seq<Reaction>, rid0: nat, nid0: nat, k: nat, j: nat)
    requires k < |rs| && j < |rs[k].nestedReactions|
    ensures TotalNested(rs[..k]) + j < TotalNested(rs)
    ensures NestedRowsOf(rs, rid0, nid0)[TotalNested(rs[..k]) + j] ==
      NestedRow(nid0 + TotalNested(rs[..k]) + j, rid0 + k,
        rs[k].nestedReactions[j].text, rs[k].nestedReactions[j].language)
  {
    var last := |rs| - 1;
    if k == last {
    } else {
      assert rs[..last][..k] == rs[..k];
      NestedRowOfReply(rs[..last], rid0, nid0, k, j);
    }
  }

  /** Storing keeps the invariant: fresh consecutive ids, valid links, keys that point at existing rows. */
  lemma AppendedWellFormed(db: Db, item: NewsItem)
    requires WellFormedDb(db) && db.tables == AllTables
    ensures WellFormedDb(Appended(db, item))
  {
    var rs := item.reactions;
    var a := Appended(db, item);
    var row := NewsRowOf(db.nextNews, item);
    var rr := ReactionRowsOf(rs, db.nextNews, db.nextReaction);
    var nr := NestedRowsOf(rs, db.nextReaction, db.nextNested);
    assert a.news == db.news + [row] && a.reactions == db.reactions + rr && a.nested == db.nested + nr;
    assert ValidNewsRow(row);
    forall m | 0 <= m < |a.news|
      ensures a.news[m].id == m + 1 && ValidNewsRow(a.news[m])
    {
      if m < |db.news| { assert a.news[m] == db.news[m]; } else { assert a.news[m] == row; }
    }
    forall m | 0 <= m < |a.reactions|
      ensures a.reactions[m].id == m + 1 && 1 <= a.reactions[m].newsItemId <= |a.news|
    {
      if m < |db.reactions| {
        assert a.reactions[m] == db.reactions[m];
      } else {
        assert a.reactions[m] == rr[m - |db.reactions|];
      }
    }
    NestedRowsShape(rs, db.nextReaction, db.nextNested);
    forall m | 0 <= m < |a.nested|
      ensures a.nested[m].id == m + 1 && 1 <= a.nested[m].reactionId <= |a.reactions|
    {
      if m < |db.nested| {
        assert a.nested[m] == db.nested[m];
      } else {
        assert a.nested[m] == nr[m - |db.nested|];
      }
    }
  }

  /**
   * A successful store adds one news row, one reaction row per reaction and
   * one reply row per reply and changes no existing row; the new news row's
   * id is fresh, and every new reaction row points at it.
   */
  lemma StoreAddsExactly(db: Db, item: NewsItem)
    requires WellFormedDb(db)
    ensures var a := Appended(db, item);
      && |a.news| == |db.news| + 1
      && |a.reactions| == |db.reactions| + |item.reactions|
      && |a.nested| == |db.nested| + TotalNested(item.reactions)
      && a.news[..|db.news|] == db.news && a.reactions[..|db.reactions|] == db.reactions
      && a.nested[..|db.nested|] == db.nested
      && (forall m :: 0 <= m < |db.news| ==> db.news[m].id < a.news[|db.news|].id)
      && (forall k :: 0 <= k < |item.reactions| ==>
            a.reactions[|db.reactions| + k].newsItemId == a.news[|db.news|].id
            && a.reactions[|db.reactions| + k].user == item.reactions[k].user
            && a.reactions[|db.reactions| + k].text == item.reactions[k].text
            && a.reactions[|db.reactions| + k].language == item.reactions[k].language
            && a.reactions[|db.reactions| + k].likes == item.reactions[k].likes)
  {
  }

  /** Reply `j` of reaction `k` is stored with a fresh id, pointing at the row stored for reaction `k`. */
  lemma StoreLinksReplies(db: Db, item: NewsItem, k: nat, j: nat)
    requires WellFormedDb(db)
    requires k < |item.reactions| && j < |item.reactions[k].nestedReactions|
    ensures var a := Appended(db, item); var rs := item.reactions; var m := |db.nested| + TotalNested(rs[..k]) + j;
      && m < |a.nested|
      && a.nested[m].reactionId == a.reactions[|db.reactions| + k].id
      && a.nested[m].text == rs[k].nestedReactions[j].text
      && a.nested[m].language == rs[k].nestedReactions[j].language
      && (forall n :: 0 <= n < |db.nested| ==> db.nested[n].id < a.nested[m].id)
  {
    var rs := item.reactions;
    NestedRowOfReply(rs, db.nextReaction, db.nextNested, k, j);
    var a := Appended(db, item);
    var m := |db.nested| + TotalNested(rs[..k]) + j;
    assert a.nested[m] == NestedRowsOf(rs, db.nextReaction, db.nextNested)[TotalNested(rs[..k]) + j];
  }

  /** Absent links and an absent image are stored as NULL, present ones as their text. */
  lemma NullsForAbsentValues(id: nat, item: NewsItem)
    ensures var row := NewsRowOf(id, item);
      && (row.reactionsLink.None? <==> item.reactionsLink.None?)
      && (item.reactionsLink.Some? ==> row.reactionsLink.value == item.reactionsLink.value)
      && row.articleLink == Some(item.articleLink)
      && (row.imageUrl.None? <==> item.image.None?) && (row.imageAlt.None? <==> item.image.None?)
      && (item.image.Some? ==> row.imageUrl.value == item.image.value.url && row.imageAlt.value == item.image.value.alt)
      && ValidNewsRow(row)
  {
  }

  /** Every statement runs against a missing table before any schema exists, so the very first insert raises. */
  lemma StoreWithoutSchemaFails(item: NewsItem, fault: Faults)
    ensures CascadeError({}, item, fault) == Some(NoSuchTable(NewsItemsTable))
  {
  }

  /** With every table present and no engine fault, the store succeeds. */
  lemma {:induction false} StoreSucceedsWithoutFaults(item: NewsItem, fault: Faults)
    requires forall s :: !fault(s)
    ensures CascadeError(AllTables, item, fault) == None
  {
    NoErrorWithoutFaults(fault, ReactionsSchedule(item.reactions) + [Commit]);
    assert Schedule(item) == [InsertNews] + (ReactionsSchedule(item.reactions) + [Commit]);
  }

  lemma {:induction false} NoErrorWithoutFaults(fault: Faults, ss: seq<Stmt>)
    requires forall s :: !fault(s)
    ensures FirstError(AllTables, fault, ss) == None
  {
    if ss != [] {
      NoErrorWithoutFaults(fault, ss[1..]);
    }
  }

  // ---------------------------------------------------------------------
  // What a read returns

  /** At most `limit` rows (all of them for a negative limit), newest first. */
  lemma SelectLatestNewestFirst(db: Db, limit: int)
    requires WellFormedDb(db)
    ensures var r := SelectLatest(db.news, limit);
      && |r| <= |db.news| && (0 <= limit ==> |r| <= limit)
      && (forall m :: 0 <= m < |r| ==> r[m] == db.news[|db.news| - 1 - m])
      && (forall m, n :: 0 <= m < n < |r| ==> r[m].id > r[n].id)
  {
  }

  /** An image is rebuilt exactly when the URL column is neither NULL nor empty. */
  lemma ImageRebuiltIffUrl(row: NewsRow)
    requires ParseNewsRow(row).Ok?
    ensures ParseNewsRow(row).value.image.Some? <==> (row.imageUrl.Some? && row.imageUrl.value != "")
  {
  }

  /** A row the store wrote reads back as the item it came from, without its reactions. */
  lemma NewsRowRoundTrip(id: nat, item: NewsItem)
    ensures ParseNewsRow(NewsRowOf(id, item)) == Ok(item.(reactions := []))
  {
    var row := NewsRowOf(id, item);
    match item.image {
      case None =>
      case Some(img) => assert row.imageUrl.value != "";
    }
  }

  lemma {:induction false} ReactionsOfNewsAppend(a: seq<ReactionRow>, b: seq<ReactionRow>, id: nat)
    ensures ReactionsOfNews(a + b, id) == ReactionsOfNews(a, id) + ReactionsOfNews(b, id)
  {
    if a == [] {
      assert a + b == b;
    } else {
      var head: seq<ReactionRow> := if a[0].newsItemId == id then [a[0]] else [];
      assert (a + b)[0] == a[0];
      assert (a + b)[1..] == a[1..] + b;
      assert ReactionsOfNews(a + b, id) == head + ReactionsOfNews(a[1..] + b, id);
      ReactionsOfNewsAppend(a[1..], b, id);
      assert head + (ReactionsOfNews(a[1..], id) + ReactionsOfNews(b, id)) == (head + ReactionsOfNews(a[1..], id)) + ReactionsOfNews(b, id);
    }
  }

  lemma {:induction false} NestedOfReactionRowsAppend(a: seq<NestedRow>, b: seq<NestedRow>, id: nat)
    ensures NestedOfReactionRows(a + b, id) == NestedOfReactionRows(a, id) + NestedOfReactionRows(b, id)
  {
    if a == [] {
      assert a + b == b;
    } else {
      var head: seq<NestedRow> := if a[0].reactionId == id then [a[0]] else [];
      assert (a + b)[0] == a[0];
      assert (a + b)[1..] == a[1..] + b;
      assert NestedOfReactionRows(a + b, id) == head + NestedOfReactionRows(a[1..] + b, id);
      NestedOfReactionRowsAppend(a[1..], b, id);
      assert head + (NestedOfReactionRows(a[1..], id) + NestedOfReactionRows(b, id)) == (head + NestedOfReactionRows(a[1..], id)) + NestedOfReactionRows(b, id);
    }
  }

  /** The reaction query keeps exactly the rows with the key, in table order. */
  lemma {:induction false} ReactionsOfNewsAll(rows: seq<ReactionRow>, id: nat)
    requires forall m :: 0 <= m < |rows| ==> rows[m].newsItemId == id
    ensures ReactionsOfNews(rows, id) == rows
  {
    if rows != [] {
      ReactionsOfNewsAll(rows[1..], id);
    }
  }

  lemma {:induction false} ReactionsOfNewsNone(rows: seq<ReactionRow>, id: nat)
    requires forall m :: 0 <= m < |rows| ==> rows[m].newsItemId != id
    ensures ReactionsOfNews(rows, id) == []
  {
    if rows != [] {
      ReactionsOfNewsNone(rows[1..], id);
    }
  }

  lemma {:induction false} NestedOfReactionRowsAll(rows: seq<NestedRow>, id: nat)
    requires forall m :: 0 <= m < |rows| ==> rows[m].reactionId == id
    ensures NestedOfReactionRows(rows, id) == rows
  {
    if rows != [] {
      NestedOfReactionRowsAll(rows[1..], id);
    }
  }

  lemma {:induction false} NestedOfReactionRowsNone(rows: seq<NestedRow>, id: nat)
    requires forall m :: 0 <= m < |rows| ==> rows[m].reactionId != id
    ensures NestedOfReactionRows(rows, id) == []
  {
    if rows != [] {
      NestedOfReactionRowsNone(rows[1..], id);
    }
  }

  /** Among the reply rows of `rs`, those pointing at reaction `rid0 + k` are exactly the rows of that reaction's replies. */
  lemma {:induction false} RepliesOfStoredReaction(rs: seq<Reaction>, rid0: nat, nid0: nat, k: nat)
    requires k < |rs|
    ensures NestedOfReactionRows(NestedRowsOf(rs, rid0, nid0), rid0 + k) ==
      NestedRowsOfOne(rs[k].nestedReactions, rid0 + k, nid0 + TotalNested(rs[..k]))
  {
    var last := |rs| - 1;
    var front := NestedRowsOf(rs[..last], rid0, nid0);
    var one := NestedRowsOfOne(rs[last].nestedReactions, rid0 + last, nid0 + TotalNested(rs[..last]));
    assert NestedRowsOf(rs, rid0, nid0) == front + one;
    if k == last {
      NestedRowsShape(rs[..last], rid0, nid0);
      FilterKeepsLast(front, one, rid0 + k);
    } else {
      var init := rs[..last];
      assert init[..k] == rs[..k];
      assert init[k] == rs[k];
      RepliesOfStoredReaction(init, rid0, nid0, k);
      FilterDropsLast(front, one, rid0 + k);
    }
  }

  /** Filtering rows whose keys are all below `id`, followed by rows all keyed `id`, keeps the latter. */
  lemma FilterKeepsLast(front: seq<NestedRow>, one: seq<NestedRow>, id: nat)
    requires forall m :: 0 <= m < |front| ==> front[m].reactionId < id
    requires forall m :: 0 <= m < |one| ==> one[m].reactionId == id
    ensures NestedOfReactionRows(front + one, id) == one
  {
    NestedOfReactionRowsAppend(front, one, id);
    NestedOfReactionRowsNone(front, id);
    NestedOfReactionRowsAll(one, id);
    assert [] + one == one;
  }

  /** Rows none of which is keyed `id` add nothing to the filter. */
  lemma FilterDropsLast(front: seq<NestedRow>, one: seq<NestedRow>, id: nat)
    requires forall m :: 0 <= m < |one| ==> one[m].reactionId != id
    ensures NestedOfReactionRows(front + one, id) == NestedOfReactionRows(front, id)
  {
    NestedOfReactionRowsAppend(front, one, id);
    NestedOfReactionRowsNone(one, id);
    assert NestedOfReactionRows(front, id) + [] == NestedOfReactionRows(front, id);
  }

  /** The replies read back for a stored reaction are the replies it was stored with, in order. */
  lemma RepliesRoundTrip(nested: seq<NestedRow>, rs: seq<Reaction>, rid0: nat, nid0: nat, k: nat)
    requires forall m :: 0 <= m < |nested| ==> nested[m].reactionId < rid0
    requires k < |rs|
    ensures NestedOfReaction(nested + NestedRowsOf(rs, rid0, nid0), rid0 + k) == rs[k].nestedReactions
  {
    var rid := rid0 + k;
    var ns := rs[k].nestedReactions;
    NestedOfReactionRowsAppend(nested, NestedRowsOf(rs, rid0, nid0), rid);
    NestedOfReactionRowsNone(nested, rid);
    RepliesOfStoredReaction(rs, rid0, nid0, k);
    RepliesFromRows(ns, rid, nid0 + TotalNested(rs[..k]));
  }

  /** Reading back the reply rows of `ns` gives `ns`. */
  lemma RepliesFromRows(ns: seq<NestedReaction>, rid: nat, nid0: nat)
    ensures var rows := NestedRowsOfOne(ns, rid, nid0);
      seq(|rows|, j requires 0 <= j < |rows| => NestedReaction(rows[j].text, rows[j].language)) == ns
  {
  }

  /** The reactions read back for a stored item are the reactions it was stored with, replies included, in order. */
  lemma {:induction false} ReactionsRoundTrip(reactions: seq<ReactionRow>, nested: seq<NestedRow>, rs: seq<Reaction>, newsId: nat, rid0: nat, nid0: nat)
    requires forall m :: 0 <= m < |reactions| ==> reactions[m].newsItemId < newsId
    requires forall m :: 0 <= m < |nested| ==> nested[m].reactionId < rid0
    ensures ReactionsOfNews(reactions + ReactionRowsOf(rs, newsId, rid0), newsId) == ReactionRowsOf(rs, newsId, rid0)
    ensures var rr := ReactionRowsOf(rs, newsId, rid0);
      seq(|rr|, k requires 0 <= k < |rr| => ReactionOfRow(nested + NestedRowsOf(rs, rid0, nid0), rr[k])) == rs
  {
    ReactionRowsSelected(reactions, rs, newsId, rid0);
    ReactionsRebuilt(nested, rs, newsId, rid0, nid0);
  }

  /** The reaction query on item `newsId` selects exactly the rows its reactions were stored as. */
  lemma ReactionRowsSelected(reactions: seq<ReactionRow>, rs: seq<Reaction>, newsId: nat, rid0: nat)
    requires forall m :: 0 <= m < |reactions| ==> reactions[m].newsItemId < newsId
    ensures ReactionsOfNews(reactions + ReactionRowsOf(rs, newsId, rid0), newsId) == ReactionRowsOf(rs, newsId, rid0)
  {
    var rr := ReactionRowsOf(rs, newsId, rid0);
    ReactionsOfNewsAppend(reactions, rr, newsId);
    ReactionsOfNewsNone(reactions, newsId);
    ReactionsOfNewsAll(rr, newsId);
    assert [] + rr == rr;
  }

  /** Each selected reaction row rebuilds, with its replies, into the reaction it was stored from. */
  lemma ReactionsRebuilt(nested: seq<NestedRow>, rs: seq<Reaction>, newsId: nat, rid0: nat, nid0: nat)
    requires forall m :: 0 <= m < |nested| ==> nested[m].reactionId < rid0
    ensures var rr := ReactionRowsOf(rs, newsId, rid0);
      seq(|rr|, k requires 0 <= k < |rr| => ReactionOfRow(nested + NestedRowsOf(rs, rid0, nid0), rr[k])) == rs
  {
    var rr := ReactionRowsOf(rs, newsId, rid0);
    var all := nested + NestedRowsOf(rs, rid0, nid0);
    forall i | 0 <= i < |rr|
      ensures ReactionOfRow(all, rr[i]) == rs[i]
    {
      RepliesRoundTrip(nested, rs, rid0, nid0, i);
    }
  }

  /**
   * Storing an item into a database with its schema and then reading the
   * newest item gives back the item: its fields, its links and image, its
   * reactions in order and each reaction's replies in order.
   */
  lemma StoreThenFetch(db: Db, item: NewsItem)
    requires WellFormedDb(db) && db.tables == AllTables
    ensures Latest(Appended(db, item), 1) == Ok([item])
  {
    var a := Appended(db, item);
    var row := NewsRowOf(db.nextNews, item);
    assert SelectLatest(a.news, 1) == [row];
    assert [row][..0] == [];
    NewsRowRoundTrip(db.nextNews, item);
    ReactionsRoundTrip(db.reactions, db.nested, item.reactions, db.nextNews, db.nextReaction, db.nextNested);
    assert RebuildItem(a, row) == Ok(item);
    assert RebuildAll(a, [row]) == Ok([] + [item]);
    assert [] + [item] == [item];
  }

  /** On a well-formed database with its schema, any list of valid rows rebuilds, row by row and in order. */
  lemma {:induction false} RebuildAllValidRows(db: Db, rows: seq<NewsRow>)
    requires WellFormedDb(db) && db.tables == AllTables
    requires forall m :: 0 <= m < |rows| ==> ValidNewsRow(rows[m])
    ensures RebuildAll(db, rows).Ok?
    ensures |RebuildAll(db, rows).value| == |rows|
    ensures forall m :: 0 <= m < |rows| ==> Ok(RebuildAll(db, rows).value[m]) == RebuildItem(db, rows[m])
  {
    if rows != [] {
      var k := |rows| - 1;
      RebuildAllValidRows(db, rows[..k]);
      ValidRowParses(rows[k]);
    }
  }

  /** A row the store could have written always validates. */
  lemma ValidRowParses(row: NewsRow)
    requires ValidNewsRow(row)
    ensures ParseNewsRow(row).Ok?
  {
  }

  /**
   * `get_latest_news_items(limit)` on a database with its schema returns
   * `min(limit, count)` items (every item for a negative limit), the `m`-th
   * rebuilt from the `m`-th newest row.
   */
  lemma LatestNewestFirst(db: Db, limit: int)
    requires WellFormedDb(db) && db.tables == AllTables
    ensures Latest(db, limit).Ok?
    ensures |Latest(db, limit).value| == if 0 <= limit < |db.news| then limit else |db.news|
    ensures forall m :: 0 <= m < |Latest(db, limit).value| ==>
      Ok(Latest(db, limit).value[m]) == RebuildItem(db, db.news[|db.news| - 1 - m])
  {
    RebuildAllValidRows(db, SelectLatest(db.news, limit));
  }

  /** Without the schema, the read raises at its first query. */
  lemma LatestWithoutSchema(db: Db, limit: int)
    requires NewsItemsTable !in db.tables
    ensures Latest(db, limit) == Err(NoSuchTable(NewsItemsTable))
  {
  }
}
