/** The route handlers that read and write the stores: posts (POST /posts,
    GET /posts/edit/:id, PATCH /posts/:id, DELETE /posts/:id, GET /posts/show/:id,
    GET /posts) and contact submissions (POST /contact). A store keeps the
    server's in-memory list and the contents of its JSON file as two fields;
    whether a file write succeeds is a parameter. */
module Handlers {
  import opened Wrappers
  import opened Text
  import opened Validation
  import opened PostList

  /** What a handler sends back. An `EditForm` with no errors, `[]`, stands
      for the `errors: null` the edit page is first rendered with. */
  datatype Response =
    | Redirect                                   // res.redirect("/posts")
    | PostIndex(posts: seq<Post>)                // index.ejs
    | PostForm(errors: seq<Message>, username: Field, shayri: Field)   // form.ejs, re-filled
    | EditForm(post: Post, errors: seq<Message>) // editForm.ejs
    | PostView(post: Post)                       // view.ejs
    | ContactForm(errors: seq<Message>, name: Field, email: Field, message: Field)
    | ContactThanks                              // the thank-you page
    | NotFound                                   // 404 "Post not found"
    | ServerError                                // 500, a failed file write

  /** The posts: `posts` is the module-level variable every handler
      reassigns from the file, `saved` is what posts.json holds. */
  class PostStore {
    var posts: seq<Post>
    var saved: seq<Post>

    /** Start-up: the list is read from the file (and written back when the
        file did not exist), so both agree. */
    constructor(initial: seq<Post>)
      ensures posts == initial && saved == initial
    {
      posts := initial;
      saved := initial;
    }

    /** `posts = readPosts()`. */
    method ReadPosts()
      modifies this
      ensures posts == saved && saved == old(saved)
    {
      posts := saved;
    }

    /** `savePosts(posts)`: the file receives the list, or the write throws. */
    method SavePosts(writeOk: bool) returns (ok: bool)
      modifies this
      ensures ok == writeOk && posts == old(posts)
      ensures saved == if writeOk then posts else old(saved)
    {
      ok := writeOk;
      if writeOk {
        saved := posts;
      }
    }

    /** GET /posts: the list as stored. */
    method ListPage() returns (r: Response)
      modifies this
      ensures posts == old(saved) && saved == old(saved)
      ensures r == PostIndex(old(saved))
    {
      ReadPosts();
      r := PostIndex(posts);
    }

    /** POST /posts: invalid input re-renders the form and touches nothing;
        valid input appends one trimmed post with the fresh id and saves. */
    method Create(username: Field, shayri: Field, freshId: string, writeOk: bool) returns (r: Response)
      requires !HasId(saved, freshId)
      modifies this
      ensures var v := ValidatePost(username, shayri);
        !v.isValid ==> r == PostForm(v.errors, username, shayri) && posts == old(posts) && saved == old(saved)
      ensures var v := ValidatePost(username, shayri);
        v.isValid ==>
          && posts == old(saved) + [Post(freshId, Normalized(username), Normalized(shayri))]
          && Find(posts, freshId) == Some(Post(freshId, Normalized(username), Normalized(shayri)))
          && saved == (if writeOk then posts else old(saved))
          && r == (if writeOk then Redirect else ServerError)
      ensures UniqueIds(old(saved)) ==> UniqueIds(saved)
      ensures AllWellFormed(old(saved)) ==> AllWellFormed(saved)
    {
      var v := ValidatePost(username, shayri);
      if !v.isValid {
        return PostForm(v.errors, username, shayri);
      }
      var post := Post(freshId, v.data.username, v.data.shayri);
      AppendIsFound(saved, post);
      if UniqueIds(saved) {
        AppendKeepsUnique(saved, post);
      }
      if AllWellFormed(saved) {
        ValidatedPostIsWellFormed(username, shayri, freshId);
        AppendKeepsWellFormed(saved, post);
      }
      ReadPosts();
      posts := posts + [post];
      var ok := SavePosts(writeOk);
      r := if ok then Redirect else ServerError;
    }

    /** GET /posts/edit/:id: the edit form for the first post with that id. */
    method EditPage(id: string) returns (r: Response)
      modifies this
      ensures posts == old(saved) && saved == old(saved)
      ensures !HasId(old(saved), id) ==> r == NotFound
      ensures HasId(old(saved), id) ==> r == EditForm(old(saved)[FindIndex(old(saved), id).value], [])
    {
      ReadPosts();
      var found := Find(posts, id);
      if found.None? {
        return NotFound;
      }
      r := EditForm(found.value, []);
    }

    /** GET /posts/show/:id: the view page for the first post with that id. */
    method ShowPage(id: string) returns (r: Response)
      modifies this
      ensures posts == old(saved) && saved == old(saved)
      ensures !HasId(old(saved), id) ==> r == NotFound
      ensures HasId(old(saved), id) ==> r == PostView(old(saved)[FindIndex(old(saved), id).value])
    {
      ReadPosts();
      var found := Find(posts, id);
      if found.None? {
        return NotFound;
      }
      r := PostView(found.value);
    }

    /** PATCH /posts/:id: the shayri is validated with a stand-in username.
        An absent id is not found either way; an invalid shayri re-renders the
        edit form with only the shayri messages; a valid one replaces that
        post's shayri, and nothing else, and saves. */
    method Update(id: string, shayri: Field, writeOk: bool) returns (r: Response)
      modifies this
      ensures !HasId(old(saved), id) ==>
        r == NotFound && posts == old(saved) && saved == old(saved)
      ensures HasId(old(saved), id) && !(MinShayri <= |Normalized(shayri)| <= MaxShayri) ==>
        && r == EditForm(old(saved)[FindIndex(old(saved), id).value], ShayriErrors(shayri))
        && (forall i :: 0 <= i < |r.errors| ==> !Contains(r.errors[i].Text(), "Username"))
        && posts == old(saved) && saved == old(saved)
      ensures HasId(old(saved), id) && MinShayri <= |Normalized(shayri)| <= MaxShayri ==>
        && posts == SetShayri(old(saved), FindIndex(old(saved), id).value, Normalized(shayri))
        && saved == (if writeOk then posts else old(saved))
        && r == (if writeOk then Redirect else ServerError)
      ensures UniqueIds(old(saved)) ==> UniqueIds(saved)
      ensures AllWellFormed(old(saved)) ==> AllWellFormed(saved)
    {
      var v := ValidatePost(Some(EditUsername), shayri);
      EditValidationIgnoresUsername(shayri);
      if !v.isValid {
        ReadPosts();
        var found := FindIndex(posts, id);
        if found.None? {
          return NotFound;
        }
        return EditForm(posts[found.value], WithoutUsernameMessages(v.errors));
      }
      ReadPosts();
      var found := FindIndex(posts, id);
      if found.None? {
        return NotFound;
      }
      var i, trimmed := found.value, v.data.shayri;
      assert trimmed == Normalized(shayri);
      SetShayriKeepsIds(posts, i, trimmed, id);
      if shayri.Some? {
        TrimIdempotent(shayri.value);
      }
      if AllWellFormed(posts) {
        SetShayriKeepsWellFormed(posts, i, trimmed);
      }
      posts := SetShayri(posts, i, trimmed);
      var ok := SavePosts(writeOk);
      r := if ok then Redirect else ServerError;
    }

    /** DELETE /posts/:id: every post with that id is filtered out; when the
        length did not change nothing was found and nothing is saved. */
    method Delete(id: string, writeOk: bool) returns (r: Response)
      modifies this
      ensures posts == Without(old(saved), id)
      ensures !HasId(old(saved), id) ==> r == NotFound && posts == old(saved) && saved == old(saved)
      ensures HasId(old(saved), id) ==>
        && |posts| < |old(saved)|
        && saved == (if writeOk then posts else old(saved))
        && r == (if writeOk then Redirect else ServerError)
      ensures UniqueIds(old(saved)) ==> UniqueIds(saved)
      ensures AllWellFormed(old(saved)) ==> AllWellFormed(saved)
    {
      ReadPosts();
      var initialLength := |posts|;
      WithoutNoMatch(posts, id);
      if UniqueIds(posts) {
        WithoutKeepsUnique(posts, id);
      }
      if AllWellFormed(posts) {
        WithoutKeepsWellFormed(posts, id);
      }
      posts := Without(posts, id);
      if |posts| == initialLength {
        return NotFound;
      }
      var ok := SavePosts(writeOk);
      r := if ok then Redirect else ServerError;
    }
  }

  /** One stored contact submission: the trimmed fields plus the id and the
      timestamp generated when it was saved. */
  datatype Contact = Contact(name: string, email: string, message: string, id: string, timestamp: string)

  /** The contact submissions held in contacts.json. */
  class ContactLog {
    var saved: seq<Contact>

    constructor(initial: seq<Contact>)
      ensures saved == initial
    {
      saved := initial;
    }

    /** `saveContact(contact)`: append the record with its id and timestamp,
        or leave the file as it was when the write throws. */
    method SaveContact(data: ContactData, id: string, timestamp: string, writeOk: bool) returns (ok: bool)
      modifies this
      ensures ok == writeOk
      ensures saved == if writeOk then old(saved) + [Contact(data.name, data.email, data.message, id, timestamp)]
                       else old(saved)
    {
      var contacts := saved;
      contacts := contacts + [Contact(data.name, data.email, data.message, id, timestamp)];
      ok := writeOk;
      if writeOk {
        saved := contacts;
      }
    }

    /** POST /contact: invalid input re-renders the form with every field's
        errors; valid input stores the trimmed fields once. */
    method Submit(name: Field, email: Field, message: Field, id: string, timestamp: string, writeOk: bool)
      returns (r: Response)
      modifies this
      ensures var v := ValidateContact(name, email, message);
        !v.isValid ==> r == ContactForm(v.errors, name, email, message) && saved == old(saved)
      ensures ContactFieldsOk(Normalized(name), Normalized(email), Normalized(message)) ==>
        && saved == (if writeOk
                     then old(saved) + [Contact(Normalized(name), Normalized(email), Normalized(message), id, timestamp)]
                     else old(saved))
        && r == (if writeOk then ContactThanks else ServerError)
    {
      var v := ValidateContact(name, email, message);
      if !v.isValid {
        return ContactForm(v.errors, name, email, message);
      }
      var ok := SaveContact(v.data, id, timestamp, writeOk);
      r := if ok then ContactThanks else ServerError;
    }
  }
}
