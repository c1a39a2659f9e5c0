/**
 * The `posts` table (app.js:18-28) as an in-memory store.
 *
 * Rows are kept in rowid order, which is the order in which SQLite scans the
 * table. `id INTEGER PRIMARY KEY AUTOINCREMENT` makes every new id one more
 * than the largest id the table has ever handed out (kept by SQLite in
 * `sqlite_sequence`, here `lastId`), so ids are never reused, even after the
 * row that held one is deleted.
 */
module PostsStore {
  import opened Wrappers
  import opened TextOrder

  /** The four text columns a client supplies. */
  datatype Fields = Fields(author: string, title: string, category: string, content: string)

  /** One row of the table. */
  datatype Post = Post(
    id: nat,
    author: string,
    title: string,
    category: string,
    content: string,
    createdAt: string,
    updatedAt: string)

  /** Ids strictly grow along the rowid scan order; in particular they are unique. */
  predicate IdsAscending(rows: seq<Post>)
  {
    forall i, j :: 0 <= i < j < |rows| ==> rows[i].id < rows[j].id
  }

  /** Each row's `created_at` is no later than the one before it. */
  predicate NewestFirst(s: seq<Post>)
  {
    forall i :: 0 < i < |s| ==> TextLe(s[i].createdAt, s[i - 1].createdAt)
  }

  /** Number of rows that `WHERE id = ?` selects: what `result.changes` reports. */
  function CountId(rows: seq<Post>, id: int): nat
  {
    if rows == [] then 0
    else (if rows[0].id == id then 1 else 0) + CountId(rows[1..], id)
  }

  /** Position of the row with the given id, if any. */
  function FindRow(rows: seq<Post>, id: int): (r: Option<nat>)
    ensures r.Some? ==> r.value < |rows| && rows[r.value].id == id
    ensures r.None? <==> forall i :: 0 <= i < |rows| ==> rows[i].id != id
  {
    if rows == [] then None
    else if rows[0].id == id then Some(0)
    else match FindRow(rows[1..], id)
      case None => None
      case Some(k) => Some(k + 1)
  }

  /** With unique ids, `WHERE id = ?` touches one row when the id is present and none otherwise. */
  lemma {:induction false} CountIdUnique(rows: seq<Post>, id: int)
    requires IdsAscending(rows)
    ensures CountId(rows, id) == if FindRow(rows, id).Some? then 1 else 0
  {
    if rows != [] {
      CountIdUnique(rows[1..], id);
      if rows[0].id == id {
        assert FindRow(rows[1..], id).None?;
      }
    }
  }

  /** The table after `DELETE FROM posts WHERE id = ?`. */
  function Without(rows: seq<Post>, id: int): (r: seq<Post>)
    ensures |r| == |rows| - CountId(rows, id)
  {
    if rows == [] then []
    else (if rows[0].id == id then [] else [rows[0]]) + Without(rows[1..], id)
  }

  /** Deleting keeps exactly the rows with another id. */
  lemma {:induction false} WithoutMembers(rows: seq<Post>, id: int, p: Post)
    ensures p in Without(rows, id) <==> p in rows && p.id != id
  {
    if rows != [] {
      WithoutMembers(rows[1..], id, p);
      assert rows == [rows[0]] + rows[1..];
    }
  }

  lemma {:induction false} WithoutAscending(rows: seq<Post>, id: int)
    requires IdsAscending(rows)
    ensures IdsAscending(Without(rows, id))
  {
    if rows != [] {
      WithoutAscending(rows[1..], id);
      var rest := Without(rows[1..], id);
      forall q | q in rest ensures rows[0].id < q.id {
        WithoutMembers(rows[1..], id, q);
        var j :| 0 <= j < |rows[1..]| && rows[1..][j] == q;
        assert rows[j + 1] == q;
      }
    }
  }

  lemma IdsAscendingTail(rows: seq<Post>)
    requires IdsAscending(rows) && rows != []
    ensures IdsAscending(rows[1..])
    ensures forall i :: 0 <= i < |rows[1..]| ==> rows[0].id < rows[1..][i].id
  {
    var rest := rows[1..];
    forall i, j | 0 <= i < j < |rest| ensures rest[i].id < rest[j].id {
      assert rest[i] == rows[i + 1] && rest[j] == rows[j + 1];
    }
    forall i | 0 <= i < |rest| ensures rows[0].id < rest[i].id {
      assert rest[i] == rows[i + 1];
    }
  }

  /** With unique ids, deleting a present row is cutting it out at its position. */
  lemma {:induction false} WithoutAt(rows: seq<Post>, id: int, k: nat)
    requires IdsAscending(rows)
    requires k < |rows| && rows[k].id == id
    ensures Without(rows, id) == rows[..k] + rows[k + 1..]
    decreases k, 1
  {
    IdsAscendingTail(rows);
    if k == 0 {
      WithoutAtFirst(rows, id);
    } else {
      assert rows[0].id < rows[k].id;
      WithoutAtLater(rows, id, k);
    }
  }

  lemma WithoutAtFirst(rows: seq<Post>, id: int)
    requires rows != [] && rows[0].id == id
    requires forall i :: 0 <= i < |rows[1..]| ==> rows[0].id < rows[1..][i].id
    ensures Without(rows, id) == rows[1..]
  {
    WithoutAbsent(rows[1..], id);
  }

  lemma {:induction false} WithoutAtLater(rows: seq<Post>, id: int, k: nat)
    requires 0 < k < |rows| && rows[k].id == id && rows[0].id != id
    requires IdsAscending(rows[1..])
    ensures Without(rows, id) == rows[..k] + rows[k + 1..]
    decreases k, 0
  {
    var rest := rows[1..];
    WithoutAt(rest, id, k - 1);
    calc {
      Without(rows, id);
      [rows[0]] + Without(rest, id);
      [rows[0]] + (rest[..k - 1] + rest[k..]);
      { assert rest[..k - 1] == rows[1..k]; assert rest[k..] == rows[k + 1..]; }
      [rows[0]] + (rows[1..k] + rows[k + 1..]);
      { assert rows[..k] == [rows[0]] + rows[1..k]; }
      rows[..k] + rows[k + 1..];
    }
  }

  /** With ascending ids, a row holding the id is the only one. */
  lemma IdPosition(rows: seq<Post>, id: int, k: nat)
    requires IdsAscending(rows)
    requires k < |rows| && rows[k].id == id
    ensures forall j :: 0 <= j < |rows| && rows[j].id == id ==> j == k
  {
  }

  /** Cutting out position `k` keeps the rows before it and moves the rows after it down by one. */
  lemma CutAt(rows: seq<Post>, k: nat)
    requires k < |rows|
    ensures |rows[..k] + rows[k + 1..]| == |rows| - 1
    ensures forall i :: 0 <= i < k ==> (rows[..k] + rows[k + 1..])[i] == rows[i]
    ensures forall i :: k < i < |rows| ==> (rows[..k] + rows[k + 1..])[i - 1] == rows[i]
  {
  }

  /** With ascending ids, cutting out the row that holds an id leaves no row holding it. */
  lemma CutGone(rows: seq<Post>, id: int, k: nat, cut: seq<Post>)
    requires IdsAscending(rows)
    requires k < |rows| && rows[k].id == id
    requires cut == rows[..k] + rows[k + 1..]
    ensures forall i :: 0 <= i < |cut| ==> cut[i].id != id
  {
    CutAt(rows, k);
    forall i | 0 <= i < |cut| ensures cut[i].id != id {
      if i < k {
        assert cut[i] == rows[i];
      } else {
        assert cut[i] == rows[i + 1];
      }
    }
  }

  /** Deleting an absent id leaves the table as it was. */
  lemma {:induction false} WithoutAbsent(rows: seq<Post>, id: int)
    requires forall i :: 0 <= i < |rows| ==> rows[i].id != id
    ensures Without(rows, id) == rows
  {
    if rows != [] {
      WithoutAbsent(rows[1..], id);
      assert rows == [rows[0]] + rows[1..];
    }
  }

  /**
   * Places `p` in front of the first row that is not newer than it, so that
   * among equal timestamps earlier-scanned rows stay first.
   */
  function InsertNewestFirst(p: Post, s: seq<Post>): (r: seq<Post>)
    requires NewestFirst(s)
    ensures NewestFirst(r)
    ensures multiset(r) == multiset(s) + multiset{p}
    ensures r[0] == p || (s != [] && r[0] == s[0])
  {
    if s == [] || TextLe(s[0].createdAt, p.createdAt) then [p] + s
    else
      TextLeTotal(s[0].createdAt, p.createdAt);
      assert s == [s[0]] + s[1..];
      [s[0]] + InsertNewestFirst(p, s[1..])
  }

  /** The rows as `ORDER BY created_at DESC` returns them. */
  function OrderByCreatedDesc(rows: seq<Post>): (r: seq<Post>)
    ensures NewestFirst(r)
    ensures multiset(r) == multiset(rows)
  {
    if rows == [] then []
    else
      assert rows == [rows[0]] + rows[1..];
      InsertNewestFirst(rows[0], OrderByCreatedDesc(rows[1..]))
  }

  /** Adjacent order gives the order between any two positions. */
  lemma {:induction false} NewestFirstPairwise(s: seq<Post>, i: nat, j: nat)
    requires NewestFirst(s)
    requires i < j < |s|
    ensures TextLe(s[j].createdAt, s[i].createdAt)
    decreases j - i
  {
    if i + 1 < j {
      NewestFirstPairwise(s, i + 1, j);
      TextLeTransitive(s[j].createdAt, s[i + 1].createdAt, s[i].createdAt);
    }
  }

  /** A post strictly newer than every other listed post comes first. */
  lemma NewestComesFirst(l: seq<Post>, p: Post)
    requires NewestFirst(l) && p in l
    requires forall q :: q in l && q != p ==> !TextLe(p.createdAt, q.createdAt)
    ensures l[0] == p
  {
    var j :| 0 <= j < |l| && l[j] == p;
    if j > 0 {
      NewestFirstPairwise(l, 0, j);
    }
  }

  /** The row with its four text fields replaced and `updated_at` refreshed; `id` and `created_at` kept. */
  function Overwrite(p: Post, f: Fields, now: string): Post
  {
    p.(author := f.author, title := f.title, category := f.category, content := f.content, updatedAt := now)
  }

  class PostsTable {
    /** The rows, in rowid order. */
    var rows: seq<Post>
    /** The largest id ever assigned (`sqlite_sequence`), 0 before the first insert. */
    var lastId: nat

    ghost predicate Valid()
      reads this
    {
      IdsAscending(rows) &&
      forall i :: 0 <= i < |rows| ==> 0 < rows[i].id <= lastId
    }

    /** A freshly created, empty table (`CREATE TABLE IF NOT EXISTS` on a new database). */
    constructor ()
      ensures Valid()
      ensures rows == [] && lastId == 0
    {
      rows := [];
      lastId := 0;
    }

    /** `SELECT * FROM posts ORDER BY created_at DESC`. */
    method SelectAllNewestFirst() returns (r: seq<Post>)
      ensures NewestFirst(r)
      ensures multiset(r) == multiset(rows)
    {
      r := OrderByCreatedDesc(rows);
    }

    /** `SELECT * FROM posts WHERE id = ?`. */
    method SelectById(id: int) returns (r: Option<Post>)
      requires Valid()
      ensures r.None? <==> forall i :: 0 <= i < |rows| ==> rows[i].id != id
      ensures forall i :: 0 <= i < |rows| && rows[i].id == id ==> r == Some(rows[i])
    {
      var k := FindRow(rows, id);
      if k.Some? {
        r := Some(rows[k.value]);
      } else {
        r := None;
      }
    }

    /** `INSERT INTO posts (...) VALUES (...)`; returns `lastInsertRowid`. */
    method Insert(f: Fields, createdAt: string, updatedAt: string) returns (rowid: nat)
      requires Valid()
      modifies this
      ensures Valid()
      ensures rowid == old(lastId) + 1 && lastId == rowid
      ensures forall i :: 0 <= i < |old(rows)| ==> old(rows)[i].id < rowid
      ensures rows == old(rows) + [Post(rowid, f.author, f.title, f.category, f.content, createdAt, updatedAt)]
    {
      rowid := lastId + 1;
      rows := rows + [Post(rowid, f.author, f.title, f.category, f.content, createdAt, updatedAt)];
      lastId := rowid;
    }

    /** `UPDATE posts SET author = ?, title = ?, category = ?, content = ?, updated_at = ? WHERE id = ?`. */
    method UpdateById(id: int, f: Fields, now: string) returns (changes: nat)
      requires Valid()
      modifies this
      ensures Valid() && lastId == old(lastId)
      ensures changes == CountId(old(rows), id)
      ensures |rows| == |old(rows)|
      ensures forall i :: 0 <= i < |rows| ==>
                rows[i] == if old(rows)[i].id == id then Overwrite(old(rows)[i], f, now) else old(rows)[i]
    {
      CountIdUnique(rows, id);
      var k := FindRow(rows, id);
      if k.Some? {
        rows := rows[k.value := Overwrite(rows[k.value], f, now)];
        changes := 1;
      } else {
        changes := 0;
      }
    }

    /** `DELETE FROM posts WHERE id = ?`. */
    method DeleteById(id: int) returns (changes: nat)
      requires Valid()
      modifies this
      ensures Valid() && lastId == old(lastId)
      ensures changes == CountId(old(rows), id)
      ensures rows == Without(old(rows), id)
    {
      CountIdUnique(rows, id);
      WithoutAscending(rows, id);
      var k := FindRow(rows, id);
      if k.Some? {
        WithoutAt(rows, id, k.value);
        rows := rows[..k.value] + rows[k.value + 1..];
        changes := 1;
      } else {
        WithoutAbsent(rows, id);
        changes := 0;
      }
    }
  }
}
