# Blog posts service: a verified model

The blog is a small REST service over one SQLite table, `posts`, plus a
browser page that lists, creates, edits and deletes posts through it. This
project models the two pieces of it that carry logic and proves their
properties in Dafny:

- **The posts resource (`app.js`).** The table is the class
  `PostsStore.PostsTable`. Its rows are a sequence in rowid order. `lastId`
  is the AUTOINCREMENT counter (`sqlite_sequence`), so ids only grow and are
  never reused. The table has a method for each of the handlers' SQL
  statements: select-all ordered by `created_at DESC`, select-by-id, insert,
  update-by-id and delete-by-id, the last two returning `result.changes`. The
  seeding's `SELECT COUNT(*)` (app.js:37) has no method of its own: it is the
  length of the row sequence, read in `PostsApi.SeedIfEmpty`. `PostsApi` holds the five HTTP handlers
  as methods over a table, the start-up seeding loop, and the tagged
  `Response` (`Ok` with a status and payload, `NotFound`, `BadRequest`).
  Timestamps are ISO-8601 strings compared as text (`TextOrder`, SQLite's
  BINARY collation). The clock is the parameter `now`.
- **The browser helpers (`blog/public/blog.js`).** `HtmlEscape.EscapeHtml` is
  the chain of five `replace` calls. It is proved equal to escaping each
  character on its own, and the lemmas are proved on top of that. The form
  is the class `BlogClient.PostForm`, with its four fields, the
  `dataset.editingId` attribute and the button label. `OpenEditForm`,
  `ResetForm`, `Submit` and `OnResponse` model the edit/create mode.
  `Submit` returns the request it would send, or `None`. `Decimal` models
  `String(id)`, which the form stores in `editingId` and puts into the PUT
  path.

Behaviour of the code that the model keeps, though a reader might expect otherwise:

- The create response is `{id, author, title, category, content}`, with no
  timestamps (app.js:74).
- The update response echoes the path id and the four fields, not the stored
  row (app.js:88).
- The sample posts are inserted whenever the table has no rows at start-up
  (app.js:37-38), not only on the first run. After the table is emptied they
  come back with fresh ids, because AUTOINCREMENT does not reuse ids.
- `created_at <= updated_at` is not enforced by the code: an update stores
  whatever the clock reads. The model therefore does not claim it.

## Model

| member | source | states |
|---|---|---|
| TextOrder.TextLe | app.js:52 | definition: the order `ORDER BY created_at` uses, character by character, a proper prefix first |
| TextOrder.TextLeFirstDiff | app.js:31-33 | two texts that agree up to a position and differ there are strictly ordered by that character |
| TextOrder.TextLeTotal | app.js:52 | any two `created_at` texts are comparable |
| TextOrder.TextLeTransitive | app.js:52 | the text order used by `ORDER BY created_at` is transitive |
| TextOrder.TextLeAntisymmetric | app.js:52 | two texts that each sort no later than the other are equal |
| TextOrder.TextLeReflexive | app.js:52 | every text sorts no later than itself |
| TextOrder.TextLeCommonPrefix | app.js:52 | a shared prefix does not change the comparison of two texts |
| PostsStore.FindRow | app.js:58 | returns a position holding the requested id, or none exactly when no row has that id |
| PostsStore.CountId | app.js:87 | definition: the number of rows `WHERE id = ?` matches, which `result.changes` reports |
| PostsStore.CountIdUnique | app.js:84-87 | with unique ids, `WHERE id = ?` changes one row when the id is present and none when it is absent |
| PostsStore.Without | app.js:93 | the table after DELETE is shorter by the number of matching rows |
| PostsStore.WithoutMembers | app.js:93 | after DELETE, a row remains exactly when it was there and has another id |
| PostsStore.WithoutAscending | app.js:20 | DELETE keeps ids strictly ascending, so still unique |
| PostsStore.WithoutAt | app.js:93 | deleting a present id cuts out exactly that one row and keeps the order of the rest |
| PostsStore.IdPosition | app.js:20 | with ids strictly ascending, one position at most holds a given id |
| PostsStore.CutGone | app.js:93 | cutting out the row that holds an id leaves no row holding that id |
| PostsStore.WithoutAbsent | app.js:93-94 | deleting an absent id leaves the table unchanged |
| PostsStore.InsertNewestFirst | app.js:52 | inserting one row into a newest-first list keeps it newest first and adds exactly that row |
| PostsStore.OrderByCreatedDesc | app.js:52 | the result is ordered by `created_at` descending and is a permutation of the rows |
| PostsStore.NewestFirstPairwise | app.js:52 | in the listed order, every later post was created no later than every earlier one |
| PostsStore.NewestComesFirst | app.js:52 | a post created strictly later than every other row is listed first |
| PostsStore.Overwrite | app.js:85 | definition: the SET clause, replacing the four fields and `updated_at` of a row and keeping its `id` and `created_at` |
| PostsStore.PostsTable.constructor | app.js:16-28 | a newly created table is empty and has handed out no ids |
| PostsStore.PostsTable.SelectAllNewestFirst | app.js:52 | `SELECT * ... ORDER BY created_at DESC` returns all rows, each once, newest first |
| PostsStore.PostsTable.SelectById | app.js:58 | `SELECT ... WHERE id = ?` finds nothing exactly when no row has the id, and otherwise returns that stored row |
| PostsStore.PostsTable.Insert | app.js:70-73 | INSERT appends one row whose id is the AUTOINCREMENT counter plus one (app.js:20), greater than every id ever assigned, and returns it as `lastInsertRowid` |
| PostsStore.PostsTable.UpdateById | app.js:84-86 | UPDATE overwrites the four fields and `updated_at` of the matching row, keeps its `id` and `created_at` and all other rows, and reports the match count |
| PostsStore.PostsTable.DeleteById | app.js:93 | DELETE removes the matching rows, keeps the id counter, and reports how many it removed |
| PostsApi.RequiredFields | app.js:66 | definition: the required-field check, giving the four fields only when each is present and non-empty |
| PostsApi.CutComplete | app.js:93 | deleting one row keeps every other row's four non-empty fields |
| PostsApi.ListPosts | app.js:51-54 | GET /posts answers 200 with every row once, ordered by `created_at` descending |
| PostsApi.GetPost | app.js:57-61 | GET /posts/:id answers 404 "Post not found" when no row has the id, and otherwise 200 with exactly the stored row |
| PostsApi.CreatePost | app.js:64-75 | a missing or empty field gives 400 "Missing fields" and no change; otherwise one row with a fresh, larger id and `created_at = updated_at = now` is appended, and the answer is 201 with the id and the four fields; rows with four non-empty fields stay so |
| PostsApi.UpdatePost | app.js:78-89 | validation comes first (400, no change, even for an absent id); an absent id gives 404 and no change; otherwise only that row's four fields and `updated_at` change; the answer is 200 with the id and fields; rows with four non-empty fields stay so |
| PostsApi.DeletePost | app.js:92-96 | an absent id gives 404 and no change; a present id removes exactly that row and answers 204; afterwards no row has the id |
| PostsApi.InitialPosts | app.js:30-34 | definition: the three sample posts with their texts and timestamps |
| PostsApi.SeedIfEmpty | app.js:30-46 | when the table has no rows, the three sample posts are inserted in order with the next three ids; otherwise nothing changes; rows with four non-empty fields stay so |
| PostsApi.SeededRowsComplete | app.js:30-34 | every sample post has four non-empty text fields |
| PostsApi.SampleTimestampOrder | app.js:31-33 | Anna's sample post is strictly the newest, Gábor's strictly next, Bazsi's strictly the oldest |
| PostsApi.SeededRowsShape | app.js:39-45 | the seeded rows are Anna's, Bazsi's and Gábor's posts in insertion order, with the sample `created_at` values |
| PostsApi.DropHead | app.js:52 | removing the first post of a newest-first listing leaves a newest-first listing of the other rows |
| PostsApi.NewestFirstOfTwo | app.js:52 | two posts with different `created_at` have exactly one newest-first order |
| PostsApi.NewestOfThreeFirst | app.js:52 | of three posts, one created strictly later than the other two heads every newest-first listing of them |
| PostsApi.RestOfThree | app.js:52 | after that newest post, the other two follow newest first |
| PostsApi.NewestFirstOfThree | app.js:52 | three posts whose `created_at` values are strictly ordered have exactly one newest-first order |
| PostsApi.SeededListOrder | app.js:30-54 | every newest-first permutation of a freshly seeded table, whatever the tie order, is Anna, Gábor, Bazsi |
| PostsApi.SeedThenList | app.js:37-54 | seeding an empty table and then listing it answers 200 with Anna's, Gábor's and Bazsi's posts in that order |
| PostsApi.CreateThenGet | app.js:57-75 | fetching a post by the id its creation returned yields the submitted fields with both timestamps equal to `now` |
| PostsApi.DeleteTwice | app.js:92-96 | a second DELETE of the same id always answers 404 |
| HtmlEscape.ReplaceAll | blog/public/blog.js:145-149 | definition: `.replace(/c/g, rep)`, every occurrence of one character replaced by a string |
| HtmlEscape.EscapeHtml | blog/public/blog.js:143-150 | definition: `escapeHtml`, the five replacements in the source's order |
| HtmlEscape.ReplaceAllAppend | blog/public/blog.js:145-149 | a global one-character replace of a concatenation is the concatenation of the replaces |
| HtmlEscape.EscapeHtmlAppend | blog/public/blog.js:143-150 | escape(a + b) = escape(a) + escape(b) |
| HtmlEscape.EscapeHtmlChar | blog/public/blog.js:145-149 | because `&` is replaced first, each special character becomes exactly one entity, never escaped a second time |
| HtmlEscape.EscapeHtmlPerChar | blog/public/blog.js:143-150 | the chain of replacements equals escaping each character independently |
| HtmlEscape.EscapeHtmlSafe | blog/public/blog.js:146-149 | the output contains no `<`, `>`, `"` or `'`, and every `&` in it begins `&amp;`, `&lt;`, `&gt;`, `&quot;` or `&#039;` |
| HtmlEscape.EscapeHtmlLength | blog/public/blog.js:143-150 | the output is at least as long as the input; the lengths are equal exactly when no special character occurs, and then the output is the input |
| HtmlEscape.EscapeHtmlPlainChar | blog/public/blog.js:143-150 | a character other than the five specials is copied unchanged |
| HtmlEscape.UnescapeEscapeHtml | blog/public/blog.js:143-150 | decoding the five entities in the escaped text gives back the original text |
| Decimal.Text | blog/public/blog.js:85 | `String(id)` is a non-empty run of digits without a leading zero |
| Decimal.TextValue | blog/public/blog.js:113-116 | reading the digits of `String(id)` back gives the id |
| Decimal.TextInjective | blog/public/blog.js:115-116 | different ids give different PUT paths |
| BlogClient.Trim | blog/public/blog.js:99-102 | definition: `trim()`, the leading and then the trailing whitespace and line terminators removed |
| BlogClient.TrimStart | blog/public/blog.js:99-102 | drops exactly the leading whitespace and line terminators |
| BlogClient.TrimEnd | blog/public/blog.js:99-102 | drops exactly the trailing whitespace and line terminators |
| BlogClient.TrimSlice | blog/public/blog.js:99-102 | `trim()` returns a contiguous middle part of the input whose two ends are not whitespace, everything cut away being whitespace |
| BlogClient.TrimEmpty | blog/public/blog.js:104 | a field is empty after trimming exactly when it consists of whitespace only |
| BlogClient.TrimIdempotent | blog/public/blog.js:99-102 | trimming twice equals trimming once |
| BlogClient.AllFilled | blog/public/blog.js:104 | definition: all four trimmed fields are non-empty |
| BlogClient.PostForm.Editing | blog/public/blog.js:113 | definition: `if (postForm.dataset.editingId)`, the attribute is present and non-empty |
| BlogClient.PostForm.constructor | blog/public/blog.js:3-5 | the form the page handler finds on load: empty fields, no `editingId`, the create label (taken from markup that is not part of this model) |
| BlogClient.PostForm.OpenEditForm | blog/public/blog.js:76-86 | the fields become the post's fields, `editingId` becomes `String(post.id)`, the button reads "Mentés", and the form is in edit mode |
| BlogClient.PostForm.ResetForm | blog/public/blog.js:89-93 | the fields are cleared, `editingId` is removed and the button reads "Létrehozás": create mode |
| BlogClient.PostForm.Submit | blog/public/blog.js:96-128 | no request exactly when some trimmed field is empty; otherwise the payload is the trimmed fields, sent with PUT to `/posts/{editingId}` in edit mode and with POST to `/posts` otherwise; the form is not changed |
| BlogClient.PostForm.OnResponse | blog/public/blog.js:130-136 | a successful response resets the form to create mode; a failed one leaves every field and the mode as they were |
| BlogClient.EditThenSubmit | blog/public/blog.js:76-120 | submitting right after opening a post for editing sends a PUT to that post's own path with its trimmed fields |
| BlogClient.SubmittedFieldsTrimmed | blog/public/blog.js:99-109 | every payload field sent is non-empty and has nothing left to trim |

## Left out

- Express wiring is not modelled: JSON body parsing, static files, route matching, the plain-text 404 fallback and `app.listen` (app.js:9-13, app.js:99-106). It is framework plumbing.
- The SQLite engine, the SQL text and `better-sqlite3` are not modelled. Only the table's observable behaviour is.
- The handlers take the `:id` path segment as an integer. SQLite's coercion of the segment text (for example `"05"` or `"abc"`) is not modelled.
- A request body field is either absent or a string. JSON numbers, booleans and objects, and a missing body, are not modelled.
- PostsApi.UpdatePost: the source echoes `req.params.id`, the path text (a JSON string). The model echoes the integer id.
- `new Date().toISOString()` is not modelled. The timestamp is the `now` parameter.
- PostsStore.OrderByCreatedDesc: SQL leaves the order of posts with equal `created_at` unspecified. The model keeps rowid order for ties but proves only "sorted and a permutation", not that tie order.
- Concurrent requests are not modelled. Each handler is one SQL statement, so the model runs them one after another.
- In blog/public/blog.js, `loadPosts`, `createPostElement`, `deletePost` and the `fetch`, `confirm`, `alert` and `innerHTML` calls are not modelled. They are I/O and DOM rendering.
- public/blog.js is not part of this model. It holds only `fetch` wrappers and rendering.
- Ids are unbounded. In SQLite a rowid is a signed 64-bit integer: once rowid 9223372036854775807 has been used, AUTOINCREMENT makes the INSERT fail with SQLITE_FULL and the create handler throws. `lastInsertRowid` and `post.id` are JavaScript numbers, exact only up to 2^53. Neither limit is modelled.
- The page markup (`index.html`) is not part of this model. `BlogClient.PostForm.constructor` assumes the form starts with empty fields and the button label "Létrehozás". `postForm.reset()` (blog/public/blog.js:90) restores the markup's default values, and `ResetForm` assumes they are empty.
- BlogClient.PostForm.OpenEditForm: the model stores an assigned value verbatim. A browser form control can rewrite it on assignment (blog/public/blog.js:78-81): an `<input type="text">` strips CR and LF, and a `<textarea>` reads back CR and CRLF as LF. The server accepts any non-empty text, so a post created through the API may contain line breaks. The contract `title == post.title` (and the same for the other three fields) holds only for texts with no CR or LF.
- BlogClient.EditThenSubmit: for the same reason, the payload `Trim(post.title)` (and the same for the other three fields) is what the browser sends only when the post's texts contain no CR or LF.
- HtmlEscape.UnescapeEscapeHtml: it is about the model's own decoder of the five entities. The browser's HTML parser behind `innerHTML` also turns CR and CRLF into LF and drops U+0000 in text. That normalisation is not modelled, so the model does not claim the page shows the stored text character for character.
- JavaScript strings are UTF-16 code units; the model's strings are Unicode scalar values. `trim` and the five one-character replacements treat both views the same way.
