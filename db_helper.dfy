/** The persistence store of db_helper.py: three independent SQLite tables (`posts`,
    `templates`, `user_preferences`) held as in-memory sequences of rows in insertion order.
    `CURRENT_TIMESTAMP` is the `now` argument of each insert, which never goes back in time;
    `AUTOINCREMENT` is a per-table counter of the largest id ever issued. */
module DbHelper {
  import opened Wrappers
  import opened Seqs

  /** The tables `init_db` creates. */
  datatype Table = Posts | Templates | UserPreferences

  const AllTables: set<Table> := {Posts, Templates, UserPreferences}

  /** A row of any table: the `id` column, the `created_at` column and the other columns. */
  datatype Row<D> = Row(id: int, createdAt: nat, data: D)

  /** The other columns of `posts`. SQLite stores the Python bool `is_template` as 0 or 1. */
  datatype Post = Post(content: string, topic: string, length: string, language: string,
                       isTemplate: int, engagementScore: int)

  /** The other columns of `templates`. */
  datatype Template = Template(name: string, content: string, category: string)

  /** The other columns of `user_preferences`; the two flags are stored as 0 or 1. */
  datatype Preferences = Preferences(useEmojis: int, showHashtags: int,
                                     defaultLength: string, defaultLanguage: string)

  /** How `sqlite3` binds a Python bool: True as 1, False as 0. */
  function SqlBool(b: bool): (v: int)
    ensures v == 0 || v == 1
    ensures (v != 0) == b
  {
    if b then 1 else 0
  }

  /** Row `a` was inserted before row `b`: a smaller id and no later timestamp. */
  predicate Before<D>(a: Row<D>, b: Row<D>)
  {
    a.id < b.id && a.createdAt <= b.createdAt
  }

  /** The rows of a table in insertion order: ids issued by the counter, timestamps read from
      a clock that has reached `clock`. Ids are therefore unique. */
  ghost predicate TableValid<D(!new)>(rows: seq<Row<D>>, lastId: nat, clock: nat)
  {
    && Pairwise(rows, Before)
    && forall r :: r in rows ==> 0 < r.id <= lastId && r.createdAt <= clock
  }

  /** An INSERT: the new row gets the next id and the current time. */
  function Inserted<D>(rows: seq<Row<D>>, lastId: nat, now: nat, data: D): (r: seq<Row<D>>)
  {
    rows + [Row(lastId + 1, now, data)]
  }

  /** An INSERT keeps the table valid, with the counter advanced and the clock at `now`. */
  lemma InsertedValid<D(!new)>(rows: seq<Row<D>>, lastId: nat, clock: nat, now: nat, data: D)
    requires TableValid(rows, lastId, clock) && clock <= now
    ensures TableValid(Inserted(rows, lastId, now, data), lastId + 1, now)
    ensures forall r :: r in rows ==> r.id < lastId + 1
  {
    var row := Row(lastId + 1, now, data);
    assert forall k :: 0 <= k < |rows| ==> rows[k] in rows;
    PairwiseAppendOne(rows, row, Before);
  }

  /** `WHERE is_template = 0`. */
  predicate IsGenuinePost(r: Row<Post>)
  {
    r.data.isTemplate == 0
  }

  /** `SELECT * FROM posts WHERE is_template = 0 ORDER BY created_at DESC LIMIT ? OFFSET ?`:
      the genuine posts newest first, then the page. Among rows with equal timestamps the
      later insertion is listed first. */
  function PostsPage(posts: seq<Row<Post>>, limit: nat, offset: nat): (r: seq<Row<Post>>)
    ensures forall x :: x in r ==> x in posts && x.data.isTemplate == 0
    ensures |r| <= limit
    ensures var n := |Filter(posts, IsGenuinePost)|; |r| == if offset < n then Min(limit, n - offset) else 0
  {
    var page := Page(Reversed(Filter(posts, IsGenuinePost)), limit, offset);
    assert forall k :: 0 <= k < |page| ==> page[k] in Filter(posts, IsGenuinePost);
    page
  }

  /** On a table in insertion order the page is in non-increasing `created_at` order and
      lists no row twice. */
  lemma PostsPageNewestFirst(posts: seq<Row<Post>>, limit: nat, offset: nat)
    requires Pairwise(posts, Before)
    ensures var r := PostsPage(posts, limit, offset);
            forall i, j :: 0 <= i < j < |r| ==> r[i].createdAt >= r[j].createdAt && r[i].id != r[j].id
  {
    var genuine := Filter(posts, IsGenuinePost);
    FilterPairwise(posts, IsGenuinePost, Before);
    var desc := Reversed(genuine);
    var r := PostsPage(posts, limit, offset);
    forall i, j | 0 <= i < j < |r| ensures r[i].createdAt >= r[j].createdAt && r[i].id != r[j].id {
      assert r[i] == desc[offset + i] == genuine[|genuine| - 1 - (offset + i)];
      assert r[j] == desc[offset + j] == genuine[|genuine| - 1 - (offset + j)];
    }
  }

  /** Rows strictly newer than time `t`. */
  function NewerThan(t: nat): (r: Row<Post> -> bool)
  {
    (x: Row<Post>) => x.createdAt > t
  }

  /** Rows no older than time `t`. */
  function AsNewAs(t: nat): (r: Row<Post> -> bool)
  {
    (x: Row<Post>) => x.createdAt >= t
  }

  /** `x` may stand at 0-based position `rank` when `genuine` is listed newest first, whichever
      way rows with equal timestamps are ordered: at most `rank` rows are strictly newer, and
      more than `rank` rows (`x` among them) are at least as new. */
  ghost predicate RankedAt(x: Row<Post>, genuine: seq<Row<Post>>, rank: nat)
  {
    |Filter(genuine, NewerThan(x.createdAt))| <= rank < |Filter(genuine, AsNewAs(x.createdAt))|
  }

  /** On a table in insertion order, the `i`-th row of the page holds rank `offset + i` among
      the genuine posts: the page is the newest genuine posts after skipping `offset`. */
  lemma PostsPageRanked(posts: seq<Row<Post>>, limit: nat, offset: nat)
    requires Pairwise(posts, Before)
    ensures var r := PostsPage(posts, limit, offset);
            forall i :: 0 <= i < |r| ==> RankedAt(r[i], Filter(posts, IsGenuinePost), offset + i)
  {
    var genuine := Filter(posts, IsGenuinePost);
    FilterPairwise(posts, IsGenuinePost, Before);
    var r := PostsPage(posts, limit, offset);
    forall i | 0 <= i < |r| ensures RankedAt(r[i], genuine, offset + i) {
      var j := |genuine| - 1 - (offset + i);
      assert r[i] == Reversed(genuine)[offset + i] == genuine[j];
      NewerCountAtMost(genuine, j);
      AsNewCountAtLeast(genuine, j);
    }
  }

  /** In insertion order, no row at or before position `j` is strictly newer than row `j`. */
  lemma NewerCountAtMost(genuine: seq<Row<Post>>, j: nat)
    requires Pairwise(genuine, Before) && j < |genuine|
    ensures |Filter(genuine, NewerThan(genuine[j].createdAt))| <= |genuine| - (j + 1)
  {
    var t := genuine[j].createdAt;
    forall k | 0 <= k < j + 1 ensures !NewerThan(t)(genuine[k]) {
      if k < j {
        assert Before(genuine[k], genuine[j]);
      }
    }
    FilterCountAtMost(genuine, NewerThan(t), j + 1);
  }

  /** In insertion order, every row from position `j` on is at least as new as row `j`. */
  lemma AsNewCountAtLeast(genuine: seq<Row<Post>>, j: nat)
    requires Pairwise(genuine, Before) && j < |genuine|
    ensures |Filter(genuine, AsNewAs(genuine[j].createdAt))| >= |genuine| - j
  {
    var t := genuine[j].createdAt;
    forall k | j <= k < |genuine| ensures AsNewAs(t)(genuine[k]) {
      if j < k {
        assert Before(genuine[j], genuine[k]);
      }
    }
    FilterCountAtLeast(genuine, AsNewAs(t), j);
  }

  /** A genuine row newer than `x` gives `x` a rank of at least one. */
  lemma NewerRowRaisesRank(genuine: seq<Row<Post>>, x: Row<Post>, y: Row<Post>)
    requires y in genuine
    ensures x.createdAt < y.createdAt ==> |Filter(genuine, NewerThan(x.createdAt))| >= 1
  {
    if x.createdAt < y.createdAt {
      assert y in Filter(genuine, NewerThan(x.createdAt));
    }
  }

  /** A genuine row strictly newer than every other one is the only row that can hold rank 0. */
  lemma StrictlyNewestRanksFirst(genuine: seq<Row<Post>>, x: Row<Post>, y: Row<Post>)
    requires x in genuine && y in genuine && RankedAt(x, genuine, 0)
    requires forall z :: z in genuine && z != y ==> z.createdAt < y.createdAt
    ensures x == y
  {
    NewerRowRaisesRank(genuine, x, y);
  }

  /** A genuine post saved strictly later than every other row heads the first page. */
  lemma NewPostListedFirst(posts: seq<Row<Post>>, lastId: nat, now: nat, post: Post, limit: nat)
    requires forall r :: r in posts ==> r.createdAt < now
    requires post.isTemplate == 0 && limit >= 1
    ensures var r := PostsPage(Inserted(posts, lastId, now, post), limit, 0);
            |r| >= 1 && r[0] == Row(lastId + 1, now, post)
  {
    var row := Row(lastId + 1, now, post);
    FilterAppendOne(posts, row, IsGenuinePost);
    var genuine := Filter(posts + [row], IsGenuinePost);
    assert genuine[|genuine| - 1] == row;
    assert Reversed(genuine)[0] == row;
  }

  /** `r` is a row of `rows` with the largest timestamp. */
  ghost predicate IsNewest<D(!new)>(r: Row<D>, rows: seq<Row<D>>)
  {
    r in rows && forall x :: x in rows ==> x.createdAt <= r.createdAt
  }

  /** A row strictly newer than all others is the only one a newest-first read can return. */
  lemma NewestIsStrictlyLatest<D(!new)>(rows: seq<Row<D>>, row: Row<D>, r: Row<D>)
    requires forall x :: x in rows ==> x.createdAt < row.createdAt
    requires IsNewest(r, rows + [row])
    ensures r == row
  {
    assert row in rows + [row];
  }

  /** `SELECT * FROM user_preferences ORDER BY created_at DESC LIMIT 1`: a row with the
      largest timestamp, or none for an empty table. Among equal timestamps the later
      insertion is chosen. */
  function Latest<D>(rows: seq<Row<D>>): (r: Option<Row<D>>)
    ensures r.None? <==> rows == []
    ensures r.Some? ==> r.value in rows
    ensures r.Some? ==> forall k :: 0 <= k < |rows| ==> rows[k].createdAt <= r.value.createdAt
  {
    if rows == [] then None
    else
      var last := rows[|rows| - 1];
      var earlier := Latest(rows[..|rows| - 1]);
      assert forall k :: 0 <= k < |rows| - 1 ==> rows[k] == rows[..|rows| - 1][k];
      if earlier.Some? && earlier.value.createdAt > last.createdAt then earlier else Some(last)
  }

  /** A row saved strictly later than every other one is the one read back. */
  lemma LastSavedIsLatest<D>(rows: seq<Row<D>>, row: Row<D>)
    requires forall k :: 0 <= k < |rows| ==> rows[k].createdAt < row.createdAt
    ensures Latest(rows + [row]) == Some(row)
  {
    var all := rows + [row];
    assert all[..|all| - 1] == rows;
  }

  /** In a valid table, a row inserted after the clock has moved on is the latest one. */
  lemma InsertedIsLatest<D(!new)>(rows: seq<Row<D>>, lastId: nat, clock: nat, now: nat, data: D)
    requires TableValid(rows, lastId, clock)
    ensures clock < now ==> Latest(Inserted(rows, lastId, now, data)) == Some(Row(lastId + 1, now, data))
  {
    if clock < now {
      assert forall k :: 0 <= k < |rows| ==> rows[k] in rows;
      LastSavedIsLatest(rows, Row(lastId + 1, now, data));
    }
  }

  /** The row filter of `DELETE FROM posts WHERE id = ?`: which rows survive. */
  function IdOtherThan(id: int): (r: Row<Post> -> bool)
  {
    (r: Row<Post>) => r.id != id
  }

  /** `DELETE FROM posts WHERE id = ?`: exactly the rows with that id go; the rest keep
      their order. */
  function WithoutPost(posts: seq<Row<Post>>, id: int): (r: seq<Row<Post>>)
    ensures forall x :: x in r <==> x in posts && x.id != id
  {
    Filter(posts, IdOtherThan(id))
  }

  /** Deleting an id no row has changes nothing. */
  lemma DeleteMissingIdIsNoOp(posts: seq<Row<Post>>, id: int)
    requires forall x :: x in posts ==> x.id != id
    ensures WithoutPost(posts, id) == posts
  {
    FilterKeepsAll(posts, IdOtherThan(id));
  }

  /** `UPDATE posts SET engagement_score = ? WHERE id = ?`. */
  function WithEngagement(posts: seq<Row<Post>>, id: int, score: int): (r: seq<Row<Post>>)
    ensures |r| == |posts|
    ensures forall k :: 0 <= k < |posts| && posts[k].id != id ==> r[k] == posts[k]
    ensures forall k :: 0 <= k < |posts| && posts[k].id == id ==>
      r[k] == posts[k].(data := posts[k].data.(engagementScore := score))
  {
    seq(|posts|, k requires 0 <= k < |posts| =>
      if posts[k].id == id then posts[k].(data := posts[k].data.(engagementScore := score)) else posts[k])
  }

  /** Updating an id no row has changes nothing. */
  lemma UpdateMissingIdIsNoOp(posts: seq<Row<Post>>, id: int, score: int)
    requires forall k :: 0 <= k < |posts| ==> posts[k].id != id
    ensures WithEngagement(posts, id, score) == posts
  {
  }

  /** An update touches only `engagement_score`: every other column of every row stays. */
  lemma UpdateTouchesOnlyScore(posts: seq<Row<Post>>, id: int, score: int)
    ensures var r := WithEngagement(posts, id, score);
            forall k :: 0 <= k < |posts| ==>
              && r[k].id == posts[k].id && r[k].createdAt == posts[k].createdAt
              && r[k].data.content == posts[k].data.content && r[k].data.topic == posts[k].data.topic
              && r[k].data.length == posts[k].data.length && r[k].data.language == posts[k].data.language
              && r[k].data.isTemplate == posts[k].data.isTemplate
  {
  }

  /** The database behind `DatabaseHelper`: which tables exist, their rows, the
      `AUTOINCREMENT` counters and the last timestamp handed out. */
  class DatabaseHelper {
    var tables: set<Table>
    var posts: seq<Row<Post>>
    var templates: seq<Row<Template>>
    var preferences: seq<Row<Preferences>>
    var lastPostId: nat
    var lastTemplateId: nat
    var lastPreferencesId: nat
    var clock: nat

    /** A table that does not exist yet has no rows and has issued no ids. */
    ghost predicate Consistent()
      reads this
    {
      && (Posts !in tables ==> posts == [] && lastPostId == 0)
      && (Templates !in tables ==> templates == [] && lastTemplateId == 0)
      && (UserPreferences !in tables ==> preferences == [] && lastPreferencesId == 0)
      && TableValid(posts, lastPostId, clock)
      && TableValid(templates, lastTemplateId, clock)
      && TableValid(preferences, lastPreferencesId, clock)
    }

    /** After `init_db`: all three tables exist. */
    ghost predicate Valid()
      reads this
    {
      tables == AllTables && Consistent()
    }

    /** `DatabaseHelper()` on a database file without tables: `__init__` runs `init_db`. */
    constructor ()
      ensures Valid()
      ensures posts == [] && templates == [] && preferences == []
      ensures lastPostId == 0 && lastTemplateId == 0 && lastPreferencesId == 0 && clock == 0
    {
      tables := {};
      posts, templates, preferences := [], [], [];
      lastPostId, lastTemplateId, lastPreferencesId := 0, 0, 0;
      clock := 0;
      new;
      InitDb();
    }

    /** `init_db`: `CREATE TABLE IF NOT EXISTS` for the three tables. Rows already present
        stay as they are, so running it again changes nothing. */
    method InitDb()
      requires Consistent()
      modifies this`tables
      ensures Valid()
      ensures tables == AllTables
    {
      tables := AllTables;
    }

    /** `save_post`: appends one row with a fresh id, the given columns, `is_template` as
        passed (false by default) and `engagement_score` 0. */
    method SavePost(now: nat, content: string, topic: string, length: string, language: string,
                    isTemplate: bool := false)
      requires Valid() && clock <= now
      modifies this`posts, this`lastPostId, this`clock
      ensures Valid()
      ensures posts == old(posts) + [Row(old(lastPostId) + 1, now,
                                         Post(content, topic, length, language, SqlBool(isTemplate), 0))]
      ensures forall r :: r in old(posts) ==> r.id < posts[|posts| - 1].id
      ensures lastPostId == old(lastPostId) + 1 && clock == now
    {
      InsertedValid(posts, lastPostId, clock, now, Post(content, topic, length, language, SqlBool(isTemplate), 0));
      Advance(now);
      posts := Inserted(posts, lastPostId, now, Post(content, topic, length, language, SqlBool(isTemplate), 0));
      lastPostId := lastPostId + 1;
    }

    /** The clock moves to `now`; every table stays valid. */
    method Advance(now: nat)
      requires Consistent() && clock <= now
      modifies this`clock
      ensures Consistent() && clock == now
    {
      TableLater(posts, lastPostId, clock, now);
      TableLater(templates, lastTemplateId, clock, now);
      TableLater(preferences, lastPreferencesId, clock, now);
      clock := now;
    }

    /** `get_all_posts`: at most `limit` genuine posts (never a template row), the newest ones
        after skipping `offset` of them, newest first. */
    method GetAllPosts(limit: nat := 10, offset: nat := 0) returns (r: seq<Row<Post>>)
      requires Valid()
      ensures forall x :: x in r ==> x in posts && x.data.isTemplate == 0
      ensures var n := |Filter(posts, IsGenuinePost)|; |r| == if offset < n then Min(limit, n - offset) else 0
      ensures forall i, j :: 0 <= i < j < |r| ==> r[i].createdAt >= r[j].createdAt && r[i].id != r[j].id
      ensures forall i :: 0 <= i < |r| ==> RankedAt(r[i], Filter(posts, IsGenuinePost), offset + i)
    {
      PostsPageNewestFirst(posts, limit, offset);
      PostsPageRanked(posts, limit, offset);
      r := PostsPage(posts, limit, offset);
    }

    /** `get_templates`: every template row, unfiltered. */
    method GetTemplates() returns (r: seq<Row<Template>>)
      ensures r == templates
    {
      r := templates;
    }

    /** `save_template`: appends one row with a fresh id; names need not be unique. */
    method SaveTemplate(now: nat, name: string, content: string, category: string)
      requires Valid() && clock <= now
      modifies this`templates, this`lastTemplateId, this`clock
      ensures Valid()
      ensures templates == old(templates) + [Row(old(lastTemplateId) + 1, now, Template(name, content, category))]
      ensures forall r :: r in old(templates) ==> r.id < templates[|templates| - 1].id
      ensures lastTemplateId == old(lastTemplateId) + 1 && clock == now
    {
      InsertedValid(templates, lastTemplateId, clock, now, Template(name, content, category));
      Advance(now);
      templates := Inserted(templates, lastTemplateId, now, Template(name, content, category));
      lastTemplateId := lastTemplateId + 1;
    }

    /** `save_user_preferences`: only ever appends. When the clock has moved on since the
        last insert, the new row is the one `get_user_preferences` reads back. */
    method SaveUserPreferences(now: nat, useEmojis: bool, showHashtags: bool,
                               defaultLength: string, defaultLanguage: string)
      requires Valid() && clock <= now
      modifies this`preferences, this`lastPreferencesId, this`clock
      ensures Valid()
      ensures preferences == old(preferences) + [Row(old(lastPreferencesId) + 1, now,
        Preferences(SqlBool(useEmojis), SqlBool(showHashtags), defaultLength, defaultLanguage))]
      ensures lastPreferencesId == old(lastPreferencesId) + 1 && clock == now
      ensures old(clock) < now ==> forall x :: x in old(preferences) ==> x.createdAt < now
      ensures old(clock) < now ==> Latest(preferences) == Some(Row(old(lastPreferencesId) + 1, now,
        Preferences(SqlBool(useEmojis), SqlBool(showHashtags), defaultLength, defaultLanguage)))
    {
      var data := Preferences(SqlBool(useEmojis), SqlBool(showHashtags), defaultLength, defaultLanguage);
      InsertedValid(preferences, lastPreferencesId, clock, now, data);
      InsertedIsLatest(preferences, lastPreferencesId, clock, now, data);
      Advance(now);
      preferences := Inserted(preferences, lastPreferencesId, now, data);
      lastPreferencesId := lastPreferencesId + 1;
    }

    /** `get_user_preferences`: the most recent row, or none. */
    method GetUserPreferences() returns (r: Option<Row<Preferences>>)
      ensures r.None? <==> preferences == []
      ensures r.Some? ==> IsNewest(r.value, preferences)
    {
      r := Latest(preferences);
      assert forall k :: 0 <= k < |preferences| ==> preferences[k] in preferences;
    }

    /** `delete_post`: removes exactly the rows with that id; a missing id changes nothing. */
    method DeletePost(id: int)
      requires Valid()
      modifies this`posts
      ensures Valid()
      ensures posts == WithoutPost(old(posts), id)
      ensures (forall x :: x in old(posts) ==> x.id != id) ==> posts == old(posts)
    {
      FilterPairwise(posts, IdOtherThan(id), Before);
      if forall x :: x in posts ==> x.id != id {
        DeleteMissingIdIsNoOp(posts, id);
      }
      posts := WithoutPost(posts, id);
    }

    /** `update_post_engagement`: sets the score of the rows with that id and nothing else;
        a missing id changes nothing. */
    method UpdatePostEngagement(id: int, score: int)
      requires Valid()
      modifies this`posts
      ensures Valid()
      ensures posts == WithEngagement(old(posts), id, score)
      ensures (forall x :: x in old(posts) ==> x.id != id) ==> posts == old(posts)
    {
      var updated := WithEngagement(posts, id, score);
      forall i, j | 0 <= i < j < |updated| ensures Before(updated[i], updated[j]) {
        assert Before(posts[i], posts[j]);
      }
      forall x | x in updated ensures 0 < x.id <= lastPostId && x.createdAt <= clock {
        var k :| 0 <= k < |updated| && updated[k] == x;
        assert posts[k] in posts;
      }
      if forall x :: x in posts ==> x.id != id {
        assert forall k :: 0 <= k < |posts| ==> posts[k] in posts;
        UpdateMissingIdIsNoOp(posts, id, score);
      }
      posts := updated;
    }
  }

  /** A table valid at one time is valid at any later time. */
  lemma TableLater<D(!new)>(rows: seq<Row<D>>, lastId: nat, clock: nat, now: nat)
    requires TableValid(rows, lastId, clock) && clock <= now
    ensures TableValid(rows, lastId, now)
  {
  }
}
