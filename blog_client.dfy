/**
 * The post form of the browser client (blog/public/blog.js:76-140): its
 * create/edit mode, the trimmed required-field check and the choice between
 * PUT and POST. The DOM, `fetch`, `alert` and rendering are left out; `Submit`
 * returns the request the handler would send.
 */
module BlogClient {
  import opened Wrappers
  import opened PostsStore
  import Decimal

  /**
   * The characters `String.prototype.trim` removes: ECMAScript WhiteSpace
   * (tab, vertical tab, form feed, space, no-break space, the byte order mark
   * and the other space separators) and LineTerminator.
   */
  predicate IsTrimmable(c: char)
  {
    c == '\t' || c == '\U{000B}' || c == '\U{000C}' || c == ' ' || c == '\U{00A0}' || c == '\U{FEFF}' ||
    c == '\n' || c == '\r' || c == '\U{2028}' || c == '\U{2029}' ||
    c == '\U{1680}' || ('\U{2000}' <= c <= '\U{200A}') || c == '\U{202F}' || c == '\U{205F}' || c == '\U{3000}'
  }

  /** Drops leading trimmable characters: the result is the suffix that starts with a kept one. */
  function TrimStart(s: string): (r: string)
    ensures |r| <= |s| && r == s[|s| - |r|..]
    ensures r != [] ==> !IsTrimmable(r[0])
    ensures forall i :: 0 <= i < |s| - |r| ==> IsTrimmable(s[i])
  {
    if s != [] && IsTrimmable(s[0]) then TrimStart(s[1..]) else s
  }

  /** Drops trailing trimmable characters: the result is the prefix that ends with a kept one. */
  function TrimEnd(s: string): (r: string)
    ensures |r| <= |s| && r == s[..|r|]
    ensures r != [] ==> !IsTrimmable(r[|r| - 1])
    ensures forall i :: |r| <= i < |s| ==> IsTrimmable(s[i])
  {
    if s != [] && IsTrimmable(s[|s| - 1]) then TrimEnd(s[..|s| - 1]) else s
  }

  /** `s.trim()`. */
  function Trim(s: string): string
  {
    TrimEnd(TrimStart(s))
  }

  /**
   * `trim` cuts out a contiguous middle part whose ends are kept characters,
   * everything cut away being trimmable.
   */
  lemma TrimSlice(s: string)
    ensures exists i, j :: 0 <= i <= j <= |s| && Trim(s) == s[i..j] &&
              (forall k :: 0 <= k < i ==> IsTrimmable(s[k])) &&
              (forall k :: j <= k < |s| ==> IsTrimmable(s[k]))
    ensures Trim(s) != [] ==> !IsTrimmable(Trim(s)[0]) && !IsTrimmable(Trim(s)[|Trim(s)| - 1])
  {
    var t := TrimStart(s);
    var r := TrimEnd(t);
    var i := |s| - |t|;
    var j := i + |r|;
    assert t == s[i..];
    assert r == t[..|r|];
    assert r == s[i..j];
    if r != [] {
      assert r[0] == t[0];
    }
    forall k | j <= k < |s| ensures IsTrimmable(s[k]) {
      assert s[k] == t[k - i];
    }
    assert Trim(s) == s[i..j];
  }

  /** A field counts as empty after trimming exactly when all its characters are trimmable. */
  lemma TrimEmpty(s: string)
    ensures Trim(s) == [] <==> forall k :: 0 <= k < |s| ==> IsTrimmable(s[k])
  {
    var t := TrimStart(s);
    var i := |s| - |t|;
    if TrimEnd(t) != [] {
      var r := TrimEnd(t);
      assert !IsTrimmable(s[i]) by { assert s[i] == t[0] == r[0]; }
    }
  }

  /** Trimming twice is trimming once. */
  lemma TrimIdempotent(s: string)
    ensures Trim(Trim(s)) == Trim(s)
  {
    var r := Trim(s);
    TrimSlice(s);
    assert TrimStart(r) == r;
    assert TrimEnd(r) == r;
  }

  datatype HttpMethod = PUT | POST

  /** What `fetch` would be called with: the method, the path and the JSON body. */
  datatype Request = Request(verb: HttpMethod, path: string, payload: Fields)

  const CreateLabel := "Létrehozás"
  const SaveLabel := "Mentés"

  /** The four text fields are non-empty after trimming. */
  predicate AllFilled(author: string, title: string, category: string, content: string)
  {
    Trim(author) != "" && Trim(title) != "" && Trim(category) != "" && Trim(content) != ""
  }

  class PostForm {
    var author: string
    var title: string
    var category: string
    var content: string
    /** `postForm.dataset.editingId`; `None` when the attribute is absent. */
    var editingId: Option<string>
    /** Text of the submit button. */
    var submitLabel: string

    /** Editing an existing post: `dataset.editingId` is a non-empty string. */
    predicate Editing()
      reads this
    {
      editingId.Some? && editingId.value != ""
    }

    /** The form as the page first shows it: empty fields, create mode. */
    constructor ()
      ensures author == "" && title == "" && category == "" && content == ""
      ensures editingId == None && submitLabel == CreateLabel
    {
      author, title, category, content := "", "", "", "";
      editingId := None;
      submitLabel := CreateLabel;
    }

    /** `openEditForm(post)`: fill the fields from the post and switch to edit mode. */
    method OpenEditForm(post: Post)
      modifies this
      ensures author == post.author && title == post.title
      ensures category == post.category && content == post.content
      ensures editingId == Some(Decimal.Text(post.id)) && submitLabel == SaveLabel
      ensures Editing()
    {
      author := post.author;
      title := post.title;
      category := post.category;
      content := post.content;
      submitLabel := SaveLabel;
      editingId := Some(Decimal.Text(post.id));
    }

    /** `resetForm()`: clear the fields and return to create mode. */
    method ResetForm()
      modifies this
      ensures author == "" && title == "" && category == "" && content == ""
      ensures editingId == None && submitLabel == CreateLabel
      ensures !Editing()
    {
      author, title, category, content := "", "", "", "";
      submitLabel := CreateLabel;
      editingId := None;
    }

    /**
     * The submit handler up to the `fetch` call: no request when a trimmed
     * field is empty; otherwise the trimmed fields, sent with PUT to the
     * post being edited or with POST to the collection. The form is not changed.
     */
    method Submit() returns (req: Option<Request>)
      ensures req.None? <==> !AllFilled(author, title, category, content)
      ensures req.Some? ==> req.value.payload == Fields(Trim(author), Trim(title), Trim(category), Trim(content))
      ensures req.Some? && Editing() ==> req.value.verb == PUT && req.value.path == "/posts/" + editingId.value
      ensures req.Some? && !Editing() ==> req.value.verb == POST && req.value.path == "/posts"
    {
      var a := Trim(author);
      var t := Trim(title);
      var c := Trim(category);
      var b := Trim(content);
      if a == "" || t == "" || c == "" || b == "" {
        return None;
      }
      var data := Fields(a, t, c, b);
      if Editing() {
        var id := editingId.value;
        req := Some(Request(PUT, "/posts/" + id, data));
      } else {
        req := Some(Request(POST, "/posts", data));
      }
    }

    /** After the response: a successful one resets the form, a failed one leaves it as it was. */
    method OnResponse(ok: bool)
      modifies this
      ensures ok ==> author == "" && title == "" && category == "" && content == "" &&
                     editingId == None && submitLabel == CreateLabel
      ensures !ok ==> author == old(author) && title == old(title) && category == old(category) &&
                      content == old(content) && editingId == old(editingId) && submitLabel == old(submitLabel)
    {
      if ok {
        ResetForm();
      }
    }
  }

  /**
   * Submitting right after `openEditForm(post)` sends a PUT to that post's own
   * path (when every field of the post survives trimming), carrying its trimmed fields.
   */
  method EditThenSubmit(form: PostForm, post: Post) returns (req: Option<Request>)
    modifies form
    ensures AllFilled(post.author, post.title, post.category, post.content) ==>
              && req.Some? && req.value.verb == PUT
              && req.value.path == "/posts/" + Decimal.Text(post.id)
              && req.value.payload == Fields(Trim(post.author), Trim(post.title), Trim(post.category), Trim(post.content))
    ensures !AllFilled(post.author, post.title, post.category, post.content) ==> req.None?
  {
    form.OpenEditForm(post);
    req := form.Submit();
  }

  /** Every payload `Submit` builds has non-empty fields with nothing left to trim. */
  lemma SubmittedFieldsTrimmed(author: string, title: string, category: string, content: string)
    requires AllFilled(author, title, category, content)
    ensures var f := Fields(Trim(author), Trim(title), Trim(category), Trim(content));
            && f.author != "" && f.title != "" && f.category != "" && f.content != ""
            && Trim(f.author) == f.author && Trim(f.title) == f.title
            && Trim(f.category) == f.category && Trim(f.content) == f.content
  {
    TrimIdempotent(author);
    TrimIdempotent(title);
    TrimIdempotent(category);
    TrimIdempotent(content);
  }
}
