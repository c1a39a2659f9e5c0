/**
 * The five request handlers of app.js (lines 51-96) and the start-up seeding
 * (lines 30-46), as methods over a `PostsTable`. The clock reading
 * `new Date().toISOString()` is the parameter `now`; the `:id` path segment is
 * passed in as the integer SQLite compares the `id` column with.
 */
module PostsApi {
  import opened Wrappers
  import opened TextOrder
  import opened PostsStore

  /** The JSON request body; a field the client left out is `None`. */
  datatype RequestBody = RequestBody(
    author: Option<string>,
    title: Option<string>,
    category: Option<string>,
    content: Option<string>)

  /** What the handler sends back. */
  datatype Payload =
    | PostObject(post: Post)
    | PostArray(posts: seq<Post>)
    | Summary(id: nat, fields: Fields)   // `{ id, author, title, category, content }`
    | NoContent

  datatype Response =
    | Ok(status: nat, payload: Payload)
    | NotFound(message: string)
    | BadRequest(message: string)

  const PostNotFound := "Post not found"
  const MissingFields := "Missing fields"

  /** JavaScript truthiness of a string field: present and not empty. */
  predicate Truthy(v: Option<string>)
  {
    v.Some? && v.value != ""
  }

  /** `!author || !title || !category || !content` fails: all four are present and non-empty. */
  function RequiredFields(b: RequestBody): Option<Fields>
  {
    if Truthy(b.author) && Truthy(b.title) && Truthy(b.category) && Truthy(b.content) then
      Some(Fields(b.author.value, b.title.value, b.category.value, b.content.value))
    else None
  }

  /** Every stored row has its four text fields non-empty, as the handlers enforce. */
  predicate RowsComplete(rows: seq<Post>)
  {
    forall i :: 0 <= i < |rows| ==>
      rows[i].author != "" && rows[i].title != "" && rows[i].category != "" && rows[i].content != ""
  }

  /** Cutting out one row keeps the others complete. */
  lemma CutComplete(rows: seq<Post>, k: nat)
    requires k < |rows| && RowsComplete(rows)
    ensures RowsComplete(rows[..k] + rows[k + 1..])
  {
    CutAt(rows, k);
    var cut := rows[..k] + rows[k + 1..];
    forall i | 0 <= i < |cut| ensures cut[i].author != "" && cut[i].title != "" && cut[i].category != "" && cut[i].content != "" {
      if i < k {
        assert cut[i] == rows[i];
      } else {
        assert cut[i] == rows[i + 1];
      }
    }
  }

  /** GET /posts */
  method ListPosts(db: PostsTable) returns (resp: Response)
    ensures resp.Ok? && resp.status == 200 && resp.payload.PostArray?
    ensures NewestFirst(resp.payload.posts)
    ensures multiset(resp.payload.posts) == multiset(db.rows)
  {
    var posts := db.SelectAllNewestFirst();
    resp := Ok(200, PostArray(posts));
  }

  /** GET /posts/:id */
  method GetPost(db: PostsTable, id: int) returns (resp: Response)
    requires db.Valid()
    ensures (forall i :: 0 <= i < |db.rows| ==> db.rows[i].id != id) ==> resp == NotFound(PostNotFound)
    ensures forall i :: 0 <= i < |db.rows| && db.rows[i].id == id ==> resp == Ok(200, PostObject(db.rows[i]))
  {
    var post := db.SelectById(id);
    if post.None? {
      return NotFound(PostNotFound);
    }
    resp := Ok(200, PostObject(post.value));
  }

  /** POST /posts */
  method CreatePost(db: PostsTable, body: RequestBody, now: string) returns (resp: Response)
    requires db.Valid()
    modifies db
    ensures db.Valid()
    ensures RequiredFields(body).None? ==>
              resp == BadRequest(MissingFields) && db.rows == old(db.rows) && db.lastId == old(db.lastId)
    ensures RequiredFields(body).Some? ==>
              var f, id := RequiredFields(body).value, old(db.lastId) + 1;
              && resp == Ok(201, Summary(id, f))
              && db.lastId == id
              && (forall i :: 0 <= i < |old(db.rows)| ==> old(db.rows)[i].id < id)
              && db.rows == old(db.rows) + [Post(id, f.author, f.title, f.category, f.content, now, now)]
    ensures RowsComplete(old(db.rows)) ==> RowsComplete(db.rows)
  {
    var fields := RequiredFields(body);
    if fields.None? {
      return BadRequest(MissingFields);
    }
    var id := db.Insert(fields.value, now, now);
    resp := Ok(201, Summary(id, fields.value));
  }

  /** PUT /posts/:id */
  method UpdatePost(db: PostsTable, id: int, body: RequestBody, now: string) returns (resp: Response)
    requires db.Valid()
    modifies db
    ensures db.Valid() && db.lastId == old(db.lastId)
    ensures RequiredFields(body).None? ==> resp == BadRequest(MissingFields) && db.rows == old(db.rows)
    ensures RequiredFields(body).Some? && (forall i :: 0 <= i < |old(db.rows)| ==> old(db.rows)[i].id != id) ==>
              resp == NotFound(PostNotFound) && db.rows == old(db.rows)
    ensures forall k :: 0 <= k < |old(db.rows)| && old(db.rows)[k].id == id && RequiredFields(body).Some? ==>
              var f, was := RequiredFields(body).value, old(db.rows)[k];
              && id >= 0
              && resp == Ok(200, Summary(id as nat, f))
              && db.rows == old(db.rows)[k := Post(was.id, f.author, f.title, f.category, f.content, was.createdAt, now)]
    ensures RowsComplete(old(db.rows)) ==> RowsComplete(db.rows)
  {
    var fields := RequiredFields(body);
    if fields.None? {
      return BadRequest(MissingFields);
    }
    var changes := db.UpdateById(id, fields.value, now);
    if changes == 0 {
      assert forall i :: 0 <= i < |old(db.rows)| ==> old(db.rows)[i].id != id by {
        CountIdUnique(old(db.rows), id);
      }
      assert db.rows == old(db.rows);
      return NotFound(PostNotFound);
    }
    CountIdUnique(old(db.rows), id);
    var k := FindRow(old(db.rows), id).value;
    assert db.rows == old(db.rows)[k := Overwrite(old(db.rows)[k], fields.value, now)];
    resp := Ok(200, Summary(id as nat, fields.value));
  }

  /** DELETE /posts/:id */
  method DeletePost(db: PostsTable, id: int) returns (resp: Response)
    requires db.Valid()
    modifies db
    ensures db.Valid() && db.lastId == old(db.lastId)
    ensures (forall i :: 0 <= i < |old(db.rows)| ==> old(db.rows)[i].id != id) ==>
              resp == NotFound(PostNotFound) && db.rows == old(db.rows)
    ensures forall k :: 0 <= k < |old(db.rows)| && old(db.rows)[k].id == id ==>
              resp == Ok(204, NoContent) && db.rows == old(db.rows)[..k] + old(db.rows)[k + 1..]
    ensures forall i :: 0 <= i < |db.rows| ==> db.rows[i].id != id
    ensures RowsComplete(old(db.rows)) ==> RowsComplete(db.rows)
  {
    ghost var before := db.rows;
    CountIdUnique(before, id);
    ghost var k := FindRow(before, id);
    var changes := db.DeleteById(id);
    if changes == 0 {
      WithoutAbsent(before, id);
      return NotFound(PostNotFound);
    }
    WithoutAt(before, id, k.value);
    IdPosition(before, id, k.value);
    CutGone(before, id, k.value, db.rows);
    if RowsComplete(before) {
      CutComplete(before, k.value);
    }
    resp := Ok(204, NoContent);
  }

  /** One entry of `initialPosts`. */
  datatype SeedPost = SeedPost(author: string, title: string, category: string, content: string, time: string, last: string)

  const InitialPosts: seq<SeedPost> := [
    SeedPost("Anna", "Anna konyhája", "Étel", "Anna kedvenc sütije", "2025-05-20T00:00:00Z", "2025-05-21T00:00:00Z"),
    SeedPost("Bazsi", "Földön kívüli a marsról", "SCI-FI", "Egy új fajta földlakó", "2025-03-18T00:00:00Z", "2025-03-30T00:00:00Z"),
    SeedPost("Gábor", "Gábor autós sorozata", "Motosport", "Gábor kedvenc autói", "2025-04-13T00:00:00Z", "2025-04-14T00:00:00Z")
  ]

  /** The rows the first `n` seed inserts add to a table whose last id was `base`. */
  function SeededRows(base: nat, n: nat): (r: seq<Post>)
    requires n <= |InitialPosts|
    ensures |r| == n
  {
    seq(n, i requires 0 <= i < n =>
      var s := InitialPosts[i];
      Post(base + i + 1, s.author, s.title, s.category, s.content, s.time, s.last))
  }

  /** Lines 37-46: insert the three sample posts when the table has no rows. */
  method SeedIfEmpty(db: PostsTable)
    requires db.Valid()
    modifies db
    ensures db.Valid()
    ensures |old(db.rows)| == 0 ==> db.rows == SeededRows(old(db.lastId), 3) && db.lastId == old(db.lastId) + 3
    ensures |old(db.rows)| != 0 ==> db.rows == old(db.rows) && db.lastId == old(db.lastId)
    ensures RowsComplete(old(db.rows)) ==> RowsComplete(db.rows)
  {
    var count := |db.rows|;
    if count == 0 {
      ghost var base := db.lastId;
      for k := 0 to |InitialPosts|
        invariant db.Valid()
        invariant db.lastId == base + k
        invariant db.rows == SeededRows(base, k)
      {
        var s := InitialPosts[k];
        var _ := db.Insert(Fields(s.author, s.title, s.category, s.content), s.time, s.last);
      }
      SeededRowsComplete(base);
    }
  }

  /** The sample posts have all four text fields filled in. */
  lemma SeededRowsComplete(base: nat)
    ensures RowsComplete(SeededRows(base, 3))
  {
    var rows := SeededRows(base, 3);
    assert rows[0].author == "Anna" && rows[0].title == "Anna konyhája";
    assert rows[0].category == "Étel" && rows[0].content == "Anna kedvenc sütije";
    assert rows[1].author == "Bazsi" && rows[1].title == "Földön kívüli a marsról";
    assert rows[1].category == "SCI-FI" && rows[1].content == "Egy új fajta földlakó";
    assert rows[2].author == "Gábor" && rows[2].title == "Gábor autós sorozata";
    assert rows[2].category == "Motosport" && rows[2].content == "Gábor kedvenc autói";
  }

  /** The sample `created_at` values, compared as text: Anna's is strictly newest, Bazsi's strictly oldest. */
  lemma SampleTimestampOrder()
    ensures TextLe(InitialPosts[2].time, InitialPosts[0].time) && !TextLe(InitialPosts[0].time, InitialPosts[2].time)
    ensures TextLe(InitialPosts[1].time, InitialPosts[2].time) && !TextLe(InitialPosts[2].time, InitialPosts[1].time)
    ensures TextLe(InitialPosts[1].time, InitialPosts[0].time) && !TextLe(InitialPosts[0].time, InitialPosts[1].time)
  {
    var anna, bazsi, gabor := InitialPosts[0].time, InitialPosts[1].time, InitialPosts[2].time;
    assert anna == "2025-05-20T00:00:00Z";
    assert bazsi == "2025-03-18T00:00:00Z";
    assert gabor == "2025-04-13T00:00:00Z";
    assert anna[..6] == "2025-0" && anna[6] == '5';
    assert bazsi[..6] == "2025-0" && bazsi[6] == '3';
    assert gabor[..6] == "2025-0" && gabor[6] == '4';
    TextLeFirstDiff(gabor, anna, 6);
    TextLeFirstDiff(bazsi, gabor, 6);
    TextLeFirstDiff(bazsi, anna, 6);
  }

  /** The three seeded rows, in insertion order: distinct, with the sample authors and timestamps. */
  lemma SeededRowsShape(base: nat)
    ensures var rows := SeededRows(base, 3);
            && rows == [rows[0], rows[1], rows[2]]
            && rows[0].author == "Anna" && rows[1].author == "Bazsi" && rows[2].author == "Gábor"
            && rows[0].createdAt == InitialPosts[0].time
            && rows[1].createdAt == InitialPosts[1].time
            && rows[2].createdAt == InitialPosts[2].time
  {
  }

  /** Taking the head off a listing takes it off its multiset. */
  lemma DropHead(l: seq<Post>, m: multiset<Post>)
    requires l != [] && multiset(l) == multiset{l[0]} + m
    ensures multiset(l[1..]) == m
    ensures NewestFirst(l) ==> NewestFirst(l[1..])
  {
    var rest := l[1..];
    assert l == [l[0]] + rest;
    assert multiset(l) == multiset{l[0]} + multiset(rest);
    forall y ensures multiset(rest)[y] == m[y] {
      assert multiset(l)[y] == (multiset{l[0]} + m)[y];
    }
    assert multiset(rest) == m;
    if NewestFirst(l) {
      forall i | 0 < i < |rest| ensures TextLe(rest[i].createdAt, rest[i - 1].createdAt) {
        assert rest[i] == l[i + 1] && rest[i - 1] == l[i];
      }
    }
  }

  /** Two posts with strictly ordered `created_at` have one newest-first listing. */
  lemma NewestFirstOfTwo(l: seq<Post>, b: Post, c: Post)
    requires NewestFirst(l) && multiset(l) == multiset{b, c}
    requires !TextLe(c.createdAt, b.createdAt)
    ensures l == [c, b]
  {
    assert |l| == 2;
    assert l[0] in multiset(l) && l[1] in multiset(l);
  }

  /** Of three posts, one strictly newer than the other two is listed first. */
  lemma NewestOfThreeFirst(l: seq<Post>, a: Post, b: Post, c: Post)
    requires NewestFirst(l) && multiset(l) == multiset{a, b, c}
    requires !TextLe(a.createdAt, b.createdAt) && !TextLe(a.createdAt, c.createdAt)
    ensures l != [] && l[0] == a
  {
    forall q | q in l && q != a ensures !TextLe(a.createdAt, q.createdAt) {
      assert q in multiset(l);
    }
    assert a in multiset(l);
    NewestComesFirst(l, a);
  }

  lemma SplitThree(a: Post, b: Post, c: Post)
    ensures multiset{a, b, c} == multiset{a} + multiset{b, c}
  {
  }

  /** After the newest of three posts, the other two follow in their own order. */
  lemma RestOfThree(l: seq<Post>, a: Post, b: Post, c: Post)
    requires NewestFirst(l) && l != [] && l[0] == a
    requires multiset(l) == multiset{a} + multiset{b, c}
    requires !TextLe(c.createdAt, b.createdAt)
    ensures l == [a, c, b]
  {
    DropHead(l, multiset{b, c});
    NewestFirstOfTwo(l[1..], b, c);
    assert l == [l[0]] + l[1..];
  }

  /** Three posts with strictly ordered `created_at` have one newest-first listing. */
  lemma NewestFirstOfThree(l: seq<Post>, a: Post, b: Post, c: Post)
    requires NewestFirst(l) && multiset(l) == multiset{a, b, c}
    requires !TextLe(a.createdAt, b.createdAt) && !TextLe(a.createdAt, c.createdAt)
    requires !TextLe(c.createdAt, b.createdAt)
    ensures l == [a, c, b]
  {
    NewestOfThreeFirst(l, a, b, c);
    SplitThree(a, b, c);
    RestOfThree(l, a, b, c);
  }

  /**
   * Whatever order among equal timestamps the database picks, a newest-first
   * listing of a freshly seeded table is Anna, Gábor, Bazsi.
   */
  lemma SeededListOrder(base: nat, l: seq<Post>)
    requires NewestFirst(l) && multiset(l) == multiset(SeededRows(base, 3))
    ensures var rows := SeededRows(base, 3);
            l == [rows[0], rows[2], rows[1]]
  {
    var rows := SeededRows(base, 3);
    SeededRowsShape(base);
    SampleTimestampOrder();
    assert multiset(rows) == multiset{rows[0], rows[1], rows[2]};
    NewestFirstOfThree(l, rows[0], rows[1], rows[2]);
  }

  /** Seeding an empty table and listing it shows the sample posts newest first: Anna, Gábor, Bazsi. */
  method SeedThenList(db: PostsTable) returns (resp: Response)
    requires db.Valid() && db.rows == []
    modifies db
    ensures resp.Ok? && resp.status == 200 && resp.payload.PostArray?
    ensures var rows := SeededRows(old(db.lastId), 3);
            resp.payload.posts == [rows[0], rows[2], rows[1]]
    ensures var l := resp.payload.posts;
            |l| == 3 && l[0].author == "Anna" && l[1].author == "Gábor" && l[2].author == "Bazsi"
  {
    ghost var base := db.lastId;
    SeedIfEmpty(db);
    resp := ListPosts(db);
    SeededRowsShape(base);
    SeededListOrder(base, resp.payload.posts);
  }

  /** Creating a post and fetching it by the returned id gives back the submitted fields. */
  method CreateThenGet(db: PostsTable, body: RequestBody, now: string) returns (created: Response, fetched: Response)
    requires db.Valid()
    modifies db
    ensures RequiredFields(body).Some? ==>
              var f := RequiredFields(body).value;
              && created.Ok? && created.status == 201 && created.payload.Summary?
              && fetched == Ok(200, PostObject(Post(created.payload.id, f.author, f.title, f.category, f.content, now, now)))
    ensures RequiredFields(body).None? ==> created == BadRequest(MissingFields) && db.rows == old(db.rows)
  {
    created := CreatePost(db, body, now);
    var id := if created.Ok? && created.payload.Summary? then created.payload.id else 0;
    fetched := GetPost(db, id);
    if RequiredFields(body).Some? {
      assert db.rows[|db.rows| - 1].id == id;
    }
  }

  /** Deleting an id twice: the second attempt always reports `NotFound`. */
  method DeleteTwice(db: PostsTable, id: int) returns (first: Response, second: Response)
    requires db.Valid()
    modifies db
    ensures first.Ok? <==> exists k :: 0 <= k < |old(db.rows)| && old(db.rows)[k].id == id
    ensures second == NotFound(PostNotFound)
  {
    first := DeletePost(db, id);
    second := DeletePost(db, id);
  }
}
