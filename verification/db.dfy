/**
  The SQLite store of `app/db.py` as an abstract data type: the `users` table
  (primary key `id`) as a map from id to names, and the `videos` table as the
  sequence of its rows in insertion (autoincrement) order.
 */
module Db {
  import opened PyStr
  import opened Seqs

  datatype Video = Video(title: string, link: string)

  datatype Names = Names(first: string, last: string)

  /** One row of `SELECT id, first_name, last_name FROM users`. */
  datatype UserRow = UserRow(id: int, first: string, last: string)

  datatype Store = Store(users: map<int, Names>, videos: seq<Video>)

  const Empty: Store := Store(map[], [])

  /** Range of an SQLite INTEGER; the sqlite3 binding refuses any other int. */
  const MinSqlInteger: int := -0x8000_0000_0000_0000
  const MaxSqlInteger: int := 0x7FFF_FFFF_FFFF_FFFF

  predicate FitsSqlInteger(n: int) {
    MinSqlInteger <= n <= MaxSqlInteger
  }

  // ------------------------------------------------------------------ users

  /** `INSERT OR IGNORE INTO users`: a new id gets the given names; an existing
      id keeps the names it has. */
  function AddUser(db: Store, id: int, first: string, last: string): (r: Store)
    ensures r.videos == db.videos
    ensures r.users.Keys == db.users.Keys + {id}
    ensures forall u :: u in db.users ==> r.users[u] == db.users[u]
    ensures id !in db.users ==> r.users[id] == Names(first, last)
  {
    if id in db.users then db else db.(users := db.users[id := Names(first, last)])
  }

  /** Inserting an id that is already stored changes nothing, whatever names come with it. */
  lemma AddUserIdempotent(db: Store, id: int, first: string, last: string, first': string, last': string)
    ensures AddUser(AddUser(db, id, first, last), id, first', last') == AddUser(db, id, first, last)
  {
  }

  /** `DELETE FROM users WHERE id = ?`. */
  function RemoveUser(db: Store, id: int): (r: Store)
    ensures r.videos == db.videos
    ensures id !in r.users
    ensures forall u :: u in db.users && u != id ==> u in r.users && r.users[u] == db.users[u]
    ensures r.users.Keys <= db.users.Keys
    ensures id !in db.users ==> r == db
  {
    var users := map u | u in db.users && u != id :: db.users[u];
    assert id !in db.users ==> users == db.users;
    db.(users := users)
  }

  /** `SELECT id FROM users`: the stored ids. */
  function GetUsers(db: Store): (ids: set<int>)
    ensures forall u :: u in ids <==> u in db.users
  {
    db.users.Keys
  }

  /** `SELECT id, first_name, last_name FROM users`: one row per stored user
      with that user's names; since `id` is the primary key no two rows share an id. */
  function GetAllUsers(db: Store): (rows: set<UserRow>)
    ensures forall row :: row in rows ==> row.id in db.users && db.users[row.id] == Names(row.first, row.last)
    ensures forall u :: u in db.users ==> UserRow(u, db.users[u].first, db.users[u].last) in rows
    ensures forall a, b :: a in rows && b in rows && a.id == b.id ==> a == b
  {
    set u | u in db.users :: UserRow(u, db.users[u].first, db.users[u].last)
  }

  /** The ids of a set of rows. */
  function RowIdSet(rows: set<UserRow>): set<int> {
    set row | row in rows :: row.id
  }

  /** The two queries agree on which users are stored. */
  lemma GetAllUsersIds(db: Store)
    ensures RowIdSet(GetAllUsers(db)) == GetUsers(db)
    ensures GetAllUsers(db) == {} <==> GetUsers(db) == {}
  {
    var rows := GetAllUsers(db);
    forall u | u in db.users ensures u in RowIdSet(rows) {
      assert UserRow(u, db.users[u].first, db.users[u].last) in rows;
    }
  }

  /** Adding a user adds its id to `get_users()`. */
  lemma GetUsersAfterAdd(db: Store, id: int, first: string, last: string)
    ensures GetUsers(AddUser(db, id, first, last)) == GetUsers(db) + {id}
  {
  }

  /** Removing a user takes its id out of `get_users()` and nothing else. */
  lemma GetUsersAfterRemove(db: Store, id: int)
    ensures GetUsers(RemoveUser(db, id)) == GetUsers(db) - {id}
  {
  }

  /** Adding a new user adds its row to `get_all_users()`; adding a stored id
      changes no row. */
  lemma GetAllUsersAfterAdd(db: Store, id: int, first: string, last: string)
    ensures id in db.users ==> GetAllUsers(AddUser(db, id, first, last)) == GetAllUsers(db)
    ensures id !in db.users ==> GetAllUsers(AddUser(db, id, first, last)) == GetAllUsers(db) + {UserRow(id, first, last)}
  {
    if id !in db.users {
      var r := AddUser(db, id, first, last);
      forall row | row in GetAllUsers(db) + {UserRow(id, first, last)} ensures row in GetAllUsers(r) {
        if row != UserRow(id, first, last) {
          assert r.users[row.id] == db.users[row.id];
        }
      }
    }
  }

  /** Removing a user drops exactly the row with its id from `get_all_users()`. */
  lemma GetAllUsersAfterRemove(db: Store, id: int)
    ensures GetAllUsers(RemoveUser(db, id)) == set row | row in GetAllUsers(db) && row.id != id
  {
    var r := RemoveUser(db, id);
    forall row | row in GetAllUsers(db) && row.id != id ensures row in GetAllUsers(r) {
      assert r.users[row.id] == db.users[row.id];
    }
  }

  // ------------------------------------------------------------------ videos

  /** `INSERT INTO videos (title, link)`: always one more row, duplicates included. */
  function AddVideo(db: Store, title: string, link: string): (r: Store)
    ensures r.users == db.users
    ensures |r.videos| == |db.videos| + 1
    ensures r.videos[..|db.videos|] == db.videos
    ensures r.videos[|db.videos|] == Video(title, link)
    ensures multiset(r.videos)[Video(title, link)] == multiset(db.videos)[Video(title, link)] + 1
  {
    db.(videos := db.videos + [Video(title, link)])
  }

  /** `DELETE FROM videos WHERE link = ?`: every row with exactly that link goes,
      every other row stays, in order. */
  function RemoveVideoByLink(db: Store, link: string): (r: Store)
    ensures r.users == db.users
    ensures forall v :: multiset(r.videos)[v] == if v.link == link then 0 else multiset(db.videos)[v]
    ensures (forall k :: 0 <= k < |db.videos| ==> db.videos[k].link != link) ==> r == db
  {
    db.(videos := Filter(db.videos, (v: Video) => v.link != link))
  }

  /** Removing a freshly added user gives the old users back. */
  lemma AddThenRemoveUser(db: Store, id: int, first: string, last: string)
    requires id !in db.users
    ensures var r := RemoveUser(AddUser(db, id, first, last), id);
      && r.videos == db.videos
      && (forall u :: u in r.users <==> u in db.users)
      && (forall u :: u in db.users ==> r.users[u] == db.users[u])
  {
  }

  /** Removing by a link no stored row had undoes adding a video with it. */
  lemma AddThenRemoveVideo(db: Store, title: string, link: string)
    requires forall k :: 0 <= k < |db.videos| ==> db.videos[k].link != link
    ensures RemoveVideoByLink(AddVideo(db, title, link), link) == db
  {
    var keep := (v: Video) => v.link != link;
    FilterAppend(db.videos, Video(title, link), keep);
    assert Filter(db.videos, keep) == db.videos;
  }

  /** Deleting after one more insert: a row with the deleted link is gone
      again, any other row stays at the end, so the kept rows keep their
      order. */
  lemma RemoveVideoByLinkAfterAdd(db: Store, title: string, l: string, link: string)
    ensures l == link ==>
      RemoveVideoByLink(AddVideo(db, title, l), link) == RemoveVideoByLink(db, link)
    ensures l != link ==>
      RemoveVideoByLink(AddVideo(db, title, l), link) == AddVideo(RemoveVideoByLink(db, link), title, l)
  {
    FilterAppend(db.videos, Video(title, l), (v: Video) => v.link != link);
  }

  /** Removing by link twice is removing once. */
  lemma RemoveVideoByLinkIdempotent(db: Store, link: string)
    ensures RemoveVideoByLink(RemoveVideoByLink(db, link), link) == RemoveVideoByLink(db, link)
  {
    var r := RemoveVideoByLink(db, link);
    forall k | 0 <= k < |r.videos| ensures r.videos[k].link != link {
      assert r.videos[k] in multiset(r.videos);
    }
  }

  // ------------------------------------------------------------------ ordering

  /** Lexicographic order on code points, a proper prefix first (SQLite's BINARY
      collation; UTF-8 byte order and code-point order agree). */
  predicate LexLe(a: string, b: string)
    decreases |a|
  {
    |a| == 0 || (|b| > 0 && (a[0] < b[0] || (a[0] == b[0] && LexLe(a[1..], b[1..]))))
  }

  lemma {:induction false} LexLeTotal(a: string, b: string)
    ensures LexLe(a, b) || LexLe(b, a)
    decreases |a|
  {
    if |a| > 0 && |b| > 0 && a[0] == b[0] {
      LexLeTotal(a[1..], b[1..]);
    }
  }

  lemma {:induction false} LexLeTransitive(a: string, b: string, c: string)
    requires LexLe(a, b) && LexLe(b, c)
    ensures LexLe(a, c)
    decreases |a|
  {
    if |a| > 0 && a[0] == b[0] && b[0] == c[0] {
      LexLeTransitive(a[1..], b[1..], c[1..]);
    }
  }

  /** `ORDER BY title COLLATE NOCASE`: titles compared after ASCII lower-casing. */
  predicate TitleLe(a: Video, b: Video) {
    LexLe(Lower(a.title), Lower(b.title))
  }

  predicate SortedByTitle(s: seq<Video>) {
    forall i, j :: 0 <= i < j < |s| ==> TitleLe(s[i], s[j])
  }

  /** A title no greater than the head of a sorted list is no greater than any of it. */
  lemma BelowSorted(v: Video, s: seq<Video>)
    requires SortedByTitle(s) && |s| > 0 && TitleLe(v, s[0])
    ensures forall k :: 0 <= k < |s| ==> TitleLe(v, s[k])
  {
    forall k | 0 <= k < |s| ensures TitleLe(v, s[k]) {
      if k > 0 {
        LexLeTransitive(Lower(v.title), Lower(s[0].title), Lower(s[k].title));
      }
    }
  }

  lemma SortedCons(v: Video, s: seq<Video>)
    requires SortedByTitle(s)
    requires forall k :: 0 <= k < |s| ==> TitleLe(v, s[k])
    ensures SortedByTitle([v] + s)
  {
    var r := [v] + s;
    forall i, j | 0 <= i < j < |r| ensures TitleLe(r[i], r[j]) {
      assert r[j] == s[j - 1];
      if i > 0 {
        assert r[i] == s[i - 1];
      }
    }
  }

  lemma SortedTail(s: seq<Video>)
    requires SortedByTitle(s) && |s| > 0
    ensures SortedByTitle(s[1..])
  {
    forall i, j | 0 <= i < j < |s[1..]| ensures TitleLe(s[1..][i], s[1..][j]) {
      assert s[1..][i] == s[i + 1] && s[1..][j] == s[j + 1];
    }
  }

  /** The head of a sorted list is no greater than anything in a list holding
      its tail and one row that sorts after the head. */
  lemma HeadBelowAll(v: Video, s: seq<Video>, rest: seq<Video>)
    requires SortedByTitle(s) && |s| > 0 && !TitleLe(v, s[0])
    requires multiset(rest) == multiset(s[1..]) + multiset{v}
    ensures forall k :: 0 <= k < |rest| ==> TitleLe(s[0], rest[k])
  {
    LexLeTotal(Lower(v.title), Lower(s[0].title));
    forall k | 0 <= k < |rest| ensures TitleLe(s[0], rest[k]) {
      assert rest[k] in multiset(rest);
      if rest[k] != v {
        assert rest[k] in multiset(s[1..]);
        var m :| 0 <= m < |s[1..]| && s[1..][m] == rest[k];
        assert s[m + 1] == rest[k];
      }
    }
  }

  /** Inserting one row into a title-sorted list, before the first row whose
      title is not smaller. */
  function InsertByTitle(v: Video, s: seq<Video>): (r: seq<Video>)
    requires SortedByTitle(s)
    ensures SortedByTitle(r)
    ensures multiset(r) == multiset(s) + multiset{v}
  {
    if |s| == 0 then
      [v]
    else if TitleLe(v, s[0]) then
      BelowSorted(v, s);
      SortedCons(v, s);
      [v] + s
    else
      assert s == [s[0]] + s[1..];
      SortedTail(s);
      var rest := InsertByTitle(v, s[1..]);
      HeadBelowAll(v, s, rest);
      SortedCons(s[0], rest);
      [s[0]] + rest
  }

  /** Insertion sort by title. */
  function SortByTitle(s: seq<Video>): (r: seq<Video>)
    ensures SortedByTitle(r)
    ensures multiset(r) == multiset(s)
  {
    if |s| == 0 then []
    else
      assert s == [s[0]] + s[1..];
      InsertByTitle(s[0], SortByTitle(s[1..]))
  }

  /** `SELECT title, link FROM videos ORDER BY title COLLATE NOCASE`: all rows,
      each as often as stored, ordered by case-folded title. */
  function GetVideos(db: Store): (r: seq<Video>)
    ensures SortedByTitle(r)
    ensures multiset(r) == multiset(db.videos)
    ensures |r| == |db.videos|
  {
    var r := SortByTitle(db.videos);
    assert |r| == |multiset(r)| == |multiset(db.videos)| == |db.videos|;
    r
  }

  // ------------------------------------------------------------------ search

  /** `title LIKE '%keyword%'`: the keyword occurs in the title, ignoring ASCII case. */
  ghost predicate TitleMatches(v: Video, keyword: string) {
    IsInfix(Lower(keyword), Lower(v.title))
  }

  /** `SELECT title, link FROM videos WHERE title LIKE ?`: exactly the rows whose
      title matches, each as often as stored, in storage order. */
  function SearchVideosByTitle(db: Store, keyword: string): (r: seq<Video>)
    ensures forall v :: multiset(r)[v] == if TitleMatches(v, keyword) then multiset(db.videos)[v] else 0
    ensures forall k :: 0 <= k < |r| ==> TitleMatches(r[k], keyword)
  {
    var matches := (v: Video) => Contains(Lower(v.title), Lower(keyword));
    assert forall v :: matches(v) <==> TitleMatches(v, keyword) by {
      forall v ensures matches(v) <==> TitleMatches(v, keyword) {
        ContainsIsInfix(Lower(v.title), Lower(keyword));
      }
    }
    Filter(db.videos, matches)
  }

  /** `LIKE '%%'` matches every title: an empty keyword finds every row. */
  lemma SearchEmptyKeyword(db: Store)
    ensures SearchVideosByTitle(db, "") == db.videos
  {
    forall k | 0 <= k < |db.videos| ensures TitleMatches(db.videos[k], "") {
      assert OccursAt(Lower(""), Lower(db.videos[k].title), 0);
    }
  }
}
