# Quotes-Project: validators and post store

A Dafny model of the logic inside `index.js` of the Quotes-Project Express
server. The server stores short quotes ("shayri"), each with a username and an
id, in `data/posts.json`, and stores contact-form entries in
`data/contacts.json`. The model covers:

- the two input validators, `validatePost` and `validateContact`;
- the list logic of the handlers that create, look up, edit and delete posts;
- the handler that stores a contact submission.

Modules, one per file:

- `Wrappers` (`wrappers.dfy`): `Option`, used for a request-body field that
  may be absent.
- `Text` (`text.dfy`): the string functions the validators use.
  - `Trim` models `String.prototype.trim`. It strips the ECMAScript
    white-space and line-terminator characters, the same set that `\s`
    matches in a regular expression (ECMA-262, sections 12.2 and 12.3).
  - `Contains` models `String.prototype.includes`.
- `Validation` (`validation.dfy`): the rules themselves.
  - `ValidatePost` and `ValidateContact` return `isValid`, the ordered error
    list and the trimmed data. A field that is absent is normalised to `""`.
  - The error messages are a datatype, and `Message.Text` gives each one's
    exact wording.
  - The email regular expression `^[^\s@]+@[^\s@]+\.[^\s@]+$` is written as
    the split it describes (`MatchesEmailPattern`). It is proved equivalent
    to a direct check (`IsEmailShape`).
  - The edit handler's `filter(e => !e.includes("Username"))` is
    `WithoutUsernameMessages`.
- `PostList` (`posts.dfy`): a post is a value with `id`, `username` and
  `shayri`.
  - `FindIndex`/`Find` model `posts.find` by id.
  - `SetShayri` models the in-place `post.shayri = ...` on the found post.
  - `Without` models `posts.filter(post => post.id !== id)`.
  - Lemmas cover order, uniqueness of ids and well-formedness.
- `Handlers` (`handlers.dfy`): two classes.
  - `PostStore` holds `posts`, the server's module-level list, and `saved`,
    the contents of the posts file.
    - Every `PostStore` handler re-reads the file (`posts := saved`, which is
      `readPosts`) before it looks at the list; POST /posts does so only after
      validation passes. `ContactLog.Submit` never reads the posts.
    - `savePosts` copies `posts` into `saved` when the write succeeds.
      Whether it succeeds is the `writeOk` parameter; a failed write yields
      the 500 response.
  - `ContactLog` holds the contact entries and models `saveContact` and
    POST /contact.
  - The uuid and the timestamp are parameters. A new post's id must not
    already be in the file.

The username rule accepts up to and including 50 trimmed characters, even
though its message says "less than 50 characters"
(`BoundaryLengthsAccepted`). The name and message rules behave the same way at
100 and 1000.

## Model

| member | source | states |
|---|---|---|
| Text.Trim | index.js:104-156 | `trim()` as every validator applies it: white space, the set ECMAScript defines, is cut from both ends; its meaning is stated by the four lemmas below |
| Text.TrimIsSlice | index.js:104-106 | `trim()` returns a contiguous slice of its input, and everything cut from either end is white space |
| Text.TrimHasNoSpaceAtEnds | index.js:122-123 | a trimmed string neither starts nor ends with white space |
| Text.TrimEmptyIffBlank | index.js:104 | `s.trim().length === 0` exactly when `s` is all white space, so a blank field counts as missing |
| Text.TrimIdempotent | index.js:122-123 | trimming trimmed data changes nothing, so stored fields are already normalised |
| Text.ContainsAt | index.js:268 | `includes` is true when the part occurs at some position |
| Text.ContainsNeedsFirstChar | index.js:268 | `includes` is false when the first character of the part never occurs |
| Text.Contains | index.js:268 | `includes`: the part is a prefix of the string or of one of its suffixes, that is, it occurs at some position |
| Validation.Message.Text | index.js:105-147 | the exact wording of each of the eleven error messages the validators push |
| Validation.Normalized | index.js:122-123 | `field ? field.trim() : ""`: an absent field becomes `""`, a present one its trimmed text |
| Validation.UsernameErrors | index.js:104-108 | at most one username error: "required" exactly when the trimmed username is empty, "too long" exactly when it exceeds 50, none exactly when its length is 1..50 |
| Validation.ShayriErrors | index.js:110-116 | at most one shayri error, applied as a chain: "required" when blank, "too short" only for lengths 1..9, "too long" only above 500, none exactly for 10..500 |
| Validation.ValidatePost | index.js:101-126 | `isValid` holds exactly when the error list is empty, and exactly when both trimmed fields meet their bounds; `data` is the trimmed input, or `""` for an absent field |
| Validation.PostErrorsReported | index.js:104-120 | each of the five post messages appears exactly when its rule is broken, and every username message comes before every shayri message |
| Validation.BoundaryLengthsAccepted | index.js:106-114 | a 50-character username with a shayri of 10 or 500 characters is valid, with no errors |
| Validation.EmptyUsernameShortShayri | index.js:104-113 | an empty username and the shayri "short" give exactly ["Username is required", "too short"] and are invalid |
| Validation.IndexOf | index.js:130 | the position of the first occurrence of a character, or the length when there is none |
| Validation.EmailShapeMatches | index.js:130 | every email the direct check accepts matches `^[^\s@]+@[^\s@]+\.[^\s@]+$` |
| Validation.MatchesEmailPattern | index.js:130 | `/^[^\s@]+@[^\s@]+\.[^\s@]+$/`: the string splits as a local part, `@`, a domain part, `.` and a final part, each non-empty and free of white space and `@` |
| Validation.PatternIsEmailShape | index.js:130 | every email matching the regular expression passes the direct check |
| Validation.EmailShapeIsPattern | index.js:130-141 | the direct check and the regular expression accept exactly the same strings |
| Validation.NoAtSignNoEmail | index.js:130 | a string without '@' never has the email shape |
| Validation.NameErrors | index.js:132-136 | at most one name error: "required" exactly when blank, "too long" exactly above 100 |
| Validation.EmailErrors | index.js:138-142 | at most one email error: "required" exactly when blank, "invalid" exactly when non-blank and not of the email shape |
| Validation.MessageErrors | index.js:144-148 | at most one message error: "required" exactly when blank, "too long" exactly above 1000 |
| Validation.FieldOrder | index.js:132-148 | joining one list per field, each with at most one message of that field, keeps the name, email, message order |
| Validation.ValidateContact | index.js:128-159 | `isValid` holds exactly when there are no errors, and exactly when all three trimmed fields pass; at most one error per field, strictly in field order; `data` is the trimmed input |
| Validation.ContactErrorsReported | index.js:132-148 | every violated contact rule is reported in the same call: each of the six messages appears exactly when its rule is broken |
| Validation.ContactEmailRule | index.js:138-142 | "Invalid email format" appears exactly when the trimmed email is non-empty and fails the regular expression, and validity is stated on the regular expression |
| Validation.MalformedEmailOnly | index.js:138-141 | a good name and message with the email "not-an-email" give exactly ["Invalid email format"] |
| Validation.WithoutUsernameMessages | index.js:268 | the edit filter leaves no message that mentions "Username" and keeps only messages from its input |
| Validation.UsernameMessageMentionsUsername | index.js:105-107 | both username messages mention "Username", so the edit filter drops them |
| Validation.ShayriMessageOmitsUsername | index.js:111-115 | no shayri message mentions "Username", so the edit filter keeps them |
| Validation.FilterKeepsShayriMessages | index.js:268 | the edit filter returns a list of shayri messages unchanged |
| Validation.FilterLeavesShayriErrors | index.js:256-268 | filtering any validatePost result leaves exactly its shayri errors, in order |
| Validation.EditUsernameIsValid | index.js:256 | the stand-in username "temp" passes the username rule |
| Validation.EditValidationIgnoresUsername | index.js:256-268 | validating an edit with "temp" is valid exactly when the trimmed shayri has 10..500 characters; its errors are exactly the shayri errors, and the filter leaves them as they are |
| PostList.FindIndex | index.js:231 | `find` by id: none exactly when no post has the id, otherwise the index of the first post with that id |
| PostList.Find | index.js:231 | the post `find` returns is in the list and carries the id; none exactly when no post does |
| PostList.FindUnique | index.js:231 | with unique ids, `find` returns the one post with that id |
| PostList.FindIndexSameIds | index.js:273 | `find` depends only on the ids of the posts |
| PostList.SetShayri | index.js:282 | the edit changes only the found post's shayri; its id and username, every other post, and the length stay as they were |
| PostList.SetShayriKeepsIds | index.js:273-282 | after the edit every id is unchanged, ids stay unique, and a lookup finds the same post |
| PostList.SetShayriKeepsWellFormed | index.js:282 | storing a trimmed shayri of 10..500 characters keeps every post well formed |
| PostList.Without | index.js:301 | filtering never lengthens the list |
| PostList.WithoutMembers | index.js:301 | the survivors are exactly the posts whose id differs |
| PostList.WithoutNoMatch | index.js:300-303 | the length stays the same exactly when no post has the id, and then the list is unchanged |
| PostList.WithoutConcat | index.js:301 | filtering distributes over concatenation, so survivors keep their order |
| PostList.WithoutSingle | index.js:301 | a single post survives exactly when its id differs |
| PostList.OnlyMatchAt | index.js:301 | with unique ids, no post before or after a post shares its id |
| PostList.WithoutOnlyMatch | index.js:301 | deleting the id of the only post that carries it removes just that post |
| PostList.WithoutUnique | index.js:301 | with unique ids, deleting a present id removes exactly that post and keeps the rest in order |
| PostList.WithoutKeepsUnique | index.js:301 | deleting keeps ids unique |
| PostList.WithoutKeepsWellFormed | index.js:301 | deleting keeps every remaining post well formed |
| PostList.WithoutTwice | index.js:300-307 | after a delete no post has the id, so deleting again changes nothing (the second delete is not found) |
| PostList.AppendKeepsUnique | index.js:205-213 | appending a post with a fresh id keeps ids unique |
| PostList.AppendIsFound | index.js:205-213 | a post appended with a fresh id is the one a later lookup by that id finds, at the end of the list |
| PostList.AppendKeepsWellFormed | index.js:213 | appending a well-formed post keeps all posts well formed |
| PostList.ValidatedPostIsWellFormed | index.js:206-210 | a post built from a successful validation has trimmed fields within the bounds |
| Handlers.PostStore.constructor | index.js:161-166 | at start-up the in-memory list equals the file contents |
| Handlers.PostStore.ReadPosts | index.js:36-41 | `readPosts` replaces the list by the file contents |
| Handlers.PostStore.SavePosts | index.js:71-78 | the file receives the list when the write succeeds, and is unchanged when it throws |
| Handlers.PostStore.ListPage | index.js:174-177 | the index page shows the stored posts |
| Handlers.PostStore.Create | index.js:193-223 | invalid input re-renders the form with the errors and the raw fields and changes nothing; valid input makes the list the stored posts followed by one post with the fresh id and the trimmed fields, which a lookup by that id now finds, saves it, and keeps ids unique and posts well formed |
| Handlers.PostStore.EditPage | index.js:228-240 | the edit form shows the first post with the id, or 404 when there is none |
| Handlers.PostStore.ShowPage | index.js:322-336 | the view page shows the first post with the id, or 404 when there is none |
| Handlers.PostStore.Update | index.js:251-292 | an absent id is not found and nothing changes; an invalid shayri re-renders the form with the shayri errors only, none mentioning "Username", and saves nothing; a valid one changes only the found post's shayri to the trimmed value and saves |
| Handlers.PostStore.Delete | index.js:296-318 | the list becomes the stored posts without that id; if none matched the result is 404 and nothing is saved, otherwise the length strictly decreases and the result is saved |
| Handlers.ContactLog.constructor | index.js:83-87 | the log starts from the stored entries |
| Handlers.ContactLog.SaveContact | index.js:81-98 | the entry, with its id and timestamp, is appended and written, or the file is unchanged when the write throws |
| Handlers.ContactLog.Submit | index.js:356-430 | invalid input re-renders the form with the errors and changes nothing; valid input appends the trimmed fields once and thanks the user |

## Left out

- Express setup, routing, method override, the static and body-parsing
  middleware, and the catch-all 404/500 handlers: framework plumbing.
- EJS rendering and the inline thank-you page with its countdown script: the
  model returns a `Response` value naming the page and the data it receives.
- File I/O and JSON: `existsSync`, `readFileSync`, `writeFileSync`,
  `mkdirSync`, `JSON.parse` and `JSON.stringify`. The file is the `saved`
  field, and a write either succeeds or throws, as `writeOk` says.
- The default seed posts `readPosts` returns when the file is missing or does
  not parse: the store's constructor takes whatever list the file holds.
- A failing read inside `saveContact`: only the failing write is modelled.
- `uuidv4()` and `new Date().toISOString()`: they come in as parameters.
- The `typeof` checks: a field is either absent (`None`) or a string. A
  non-string body value, such as an array produced by extended body parsing,
  is not modelled.
- JavaScript truthiness beyond absence: `!field` for an empty string
  coincides with the blank check, so it needs no case of its own.
- Text.Whitespace: the Unicode space separators are those of Unicode 15.
- Lengths count Dafny characters, which are Unicode scalar values. JavaScript's
  `length` counts UTF-16 code units, so a character outside the Basic
  Multilingual Plane counts twice against the limits there and once here.
- Concurrent requests and the races between their reads and writes of the
  file.
- Object identity: posts are values; `post.shayri = ...` on the object found
  in the freshly read list is modelled as replacing that element.
- The `console.error` logging in every `catch` block and the start-up
  `console.log` lines: output only, with no effect on the responses or the
  files.
- GET /, GET /posts/new, GET /posts/back and GET /posts/contact: they only
  redirect or render an empty form.
