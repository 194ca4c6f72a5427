/**
 The two input validators of the server, validatePost and validateContact.
 Each trims its optional string fields, checks presence and length bounds
 (and, for contacts, the shape of the email address), and returns the ordered
 list of error messages, a validity flag and the trimmed data.
 */
module Validation {
  import opened Wrappers
  import opened Text

  /** A request-body field: absent, or the string the form sent. */
  type Field = Option<string>

  const MaxUsername := 50
  const MinShayri := 10
  const MaxShayri := 500
  const MaxName := 100
  const MaxMessage := 1000

  /** The words every shayri message starts with. */
  const ShayriPrefix := "Quote/Shayri "

  /** The error messages the validators push, in the source's wording. */
  datatype Message =
    | UsernameRequired | UsernameTooLong
    | ShayriRequired | ShayriTooShort | ShayriTooLong
    | NameRequired | NameTooLong
    | EmailRequired | EmailInvalid
    | MessageRequired | MessageTooLong
  {
    /** The text shown to the user. */
    function Text(): string {
      match this
      case UsernameRequired => "Username is required"
      case UsernameTooLong => "Username must be less than 50 characters"
      case ShayriRequired => ShayriPrefix + "is required"
      case ShayriTooShort => ShayriPrefix + "must be at least 10 characters long"
      case ShayriTooLong => ShayriPrefix + "must be less than 500 characters"
      case NameRequired => "Name is required"
      case NameTooLong => "Name must be less than 100 characters"
      case EmailRequired => "Email is required"
      case EmailInvalid => "Invalid email format"
      case MessageRequired => "Message is required"
      case MessageTooLong => "Message must be less than 1000 characters"
    }

    predicate IsUsernameMessage() { UsernameRequired? || UsernameTooLong? }
    predicate IsShayriMessage() { ShayriRequired? || ShayriTooShort? || ShayriTooLong? }

    /** Which field a contact message is about: 0 name, 1 email, 2 message,
        3 for the post messages, which validateContact never emits. */
    function ContactField(): nat {
      if NameRequired? || NameTooLong? then 0
      else if EmailRequired? || EmailInvalid? then 1
      else if MessageRequired? || MessageTooLong? then 2
      else 3
    }
  }

  /** `field ? field.trim() : ""`; an absent field and an empty one both give "". */
  function Normalized(f: Field): string {
    match f
    case None => ""
    case Some(s) => Trim(s)
  }

  /** The outcome of a validator: `isValid`, `errors` and the normalised `data`. */
  datatype Verdict<D> = Verdict(isValid: bool, errors: seq<Message>, data: D)

  datatype PostData = PostData(username: string, shayri: string)

  datatype ContactData = ContactData(name: string, email: string, message: string)

  // ---------------------------------------------------------------- posts

  function UsernameErrors(username: Field): (r: seq<Message>)
    ensures |r| <= 1 && forall i :: 0 <= i < |r| ==> r[i].IsUsernameMessage()
    ensures UsernameRequired in r <==> |Normalized(username)| == 0
    ensures UsernameTooLong in r <==> |Normalized(username)| > MaxUsername
    ensures r == [] <==> 0 < |Normalized(username)| <= MaxUsername
  {
    var t := Normalized(username);
    if |t| == 0 then [UsernameRequired]
    else if |t| > MaxUsername then [UsernameTooLong]
    else []
  }

  /** The shayri rules form one chain: at most one of them fires. */
  function ShayriErrors(shayri: Field): (r: seq<Message>)
    ensures |r| <= 1 && forall i :: 0 <= i < |r| ==> r[i].IsShayriMessage()
    ensures ShayriRequired in r <==> |Normalized(shayri)| == 0
    ensures ShayriTooShort in r <==> 0 < |Normalized(shayri)| < MinShayri
    ensures ShayriTooLong in r <==> |Normalized(shayri)| > MaxShayri
    ensures r == [] <==> MinShayri <= |Normalized(shayri)| <= MaxShayri
  {
    var t := Normalized(shayri);
    if |t| == 0 then [ShayriRequired]
    else if |t| < MinShayri then [ShayriTooShort]
    else if |t| > MaxShayri then [ShayriTooLong]
    else []
  }

  /** The field rules of a post, stated on the trimmed lengths. */
  predicate PostFieldsOk(username: string, shayri: string) {
    0 < |username| <= MaxUsername && MinShayri <= |shayri| <= MaxShayri
  }

  /** validatePost: valid exactly when both fields pass, with the trimmed
      fields as data; which messages appear, and in which order, is stated by
      PostErrorsReported. */
  function ValidatePost(username: Field, shayri: Field): (v: Verdict<PostData>)
    ensures v.isValid <==> v.errors == []
    ensures v.isValid <==> PostFieldsOk(Normalized(username), Normalized(shayri))
    ensures v.data == PostData(Normalized(username), Normalized(shayri))
  {
    var errors := UsernameErrors(username) + ShayriErrors(shayri);
    Verdict(|errors| == 0, errors, PostData(Normalized(username), Normalized(shayri)))
  }

  /** The messages of validatePost: each one exactly when its rule is broken,
      at most one username error followed by at most one shayri error. */
  lemma PostErrorsReported(username: Field, shayri: Field)
    ensures var v := ValidatePost(username, shayri);
      && (UsernameRequired in v.errors <==> |Normalized(username)| == 0)
      && (UsernameTooLong in v.errors <==> |Normalized(username)| > MaxUsername)
      && (ShayriRequired in v.errors <==> |Normalized(shayri)| == 0)
      && (ShayriTooShort in v.errors <==> 0 < |Normalized(shayri)| < MinShayri)
      && (ShayriTooLong in v.errors <==> |Normalized(shayri)| > MaxShayri)
      && (forall i :: 0 <= i < |v.errors| ==>
            v.errors[i].IsUsernameMessage() || v.errors[i].IsShayriMessage())
      && (forall i, j :: 0 <= i < j < |v.errors| ==>
            v.errors[i].IsUsernameMessage() && v.errors[j].IsShayriMessage())
  {
    var u, t := UsernameErrors(username), ShayriErrors(shayri);
    var errors := u + t;
    assert forall m :: m in errors <==> m in u || m in t;
    assert forall m :: m in u ==> m.IsUsernameMessage();
    assert forall m :: m in t ==> m.IsShayriMessage();
  }

  // ---------------------------------------------------------------- email

  /** No whitespace and no '@': the character class [^\s@]. */
  predicate EmailPart(p: string) {
    forall k :: 0 <= k < |p| ==> !IsSpace(p[k]) && p[k] != '@'
  }

  /** The regular expression ^[^\s@]+@[^\s@]+\.[^\s@]+$, written as the
      split it describes: a non-empty local part, '@', a non-empty name,
      '.', and a non-empty last label, none of them holding whitespace or '@'. */
  ghost predicate MatchesEmailPattern(e: string) {
    exists at, dot ::
      && 0 < at && at + 1 < dot && dot + 1 < |e|
      && e[at] == '@' && e[dot] == '.'
      && EmailPart(e[..at]) && EmailPart(e[at + 1..dot]) && EmailPart(e[dot + 1..])
  }

  /** Index of the first `c` in `s`, or |s| when there is none. */
  function IndexOf(s: string, c: char): (r: nat)
    ensures r <= |s|
    ensures r < |s| ==> s[r] == c
    ensures forall k :: 0 <= k < r ==> s[k] != c
    decreases |s|
  {
    if |s| == 0 then 0
    else if s[0] == c then 0
    else 1 + IndexOf(s[1..], c)
  }

  /** A '.' that is neither the first nor the last character of `d`. */
  predicate HasInnerDot(d: string) {
    exists k :: 0 < k < |d| - 1 && d[k] == '.'
  }

  /** The email check performed directly: no whitespace, exactly one '@'
      with something before it, and an inner '.' after it. */
  predicate IsEmailShape(e: string) {
    var at := IndexOf(e, '@');
    && (forall k :: 0 <= k < |e| ==> !IsSpace(e[k]))
    && 0 < at < |e|
    && '@' !in e[at + 1..]
    && HasInnerDot(e[at + 1..])
  }

  /** Every string the direct check accepts matches the regular expression. */
  lemma EmailShapeMatches(e: string)
    requires IsEmailShape(e)
    ensures MatchesEmailPattern(e)
  {
    var at := IndexOf(e, '@');
    var d := e[at + 1..];
    var k :| 0 < k < |d| - 1 && d[k] == '.';
    var dot := at + 1 + k;
    assert e[dot] == '.';
    assert EmailPart(e[..at]);
    assert EmailPart(e[at + 1..dot]) by {
      forall j | 0 <= j < dot - at - 1 ensures e[at + 1..dot][j] == d[j] { }
    }
    var last := e[dot + 1..];
    assert EmailPart(last) by {
      forall j | 0 <= j < |last| ensures last[j] == d[k + 1 + j] { }
    }
  }

  /** Under a split that matches the pattern, no character is whitespace
      and only the one at `at` is '@'. */
  lemma PatternSplitCharacters(e: string, at: nat, dot: nat)
    requires 0 < at && at + 1 < dot && dot + 1 < |e| && e[at] == '@' && e[dot] == '.'
    requires EmailPart(e[..at]) && EmailPart(e[at + 1..dot]) && EmailPart(e[dot + 1..])
    ensures forall k :: 0 <= k < |e| ==> !IsSpace(e[k]) && (k != at ==> e[k] != '@')
  {
    forall k | 0 <= k < |e| ensures !IsSpace(e[k]) && (k != at ==> e[k] != '@') {
      if k < at {
        assert e[k] == e[..at][k];
      } else if at < k < dot {
        assert e[k] == e[at + 1..dot][k - at - 1];
      } else if dot < k {
        assert e[k] == e[dot + 1..][k - dot - 1];
      }
    }
  }

  /** Every string the regular expression matches passes the direct check. */
  lemma PatternIsEmailShape(e: string)
    requires MatchesEmailPattern(e)
    ensures IsEmailShape(e)
  {
    var at, dot :|
      && 0 < at && at + 1 < dot && dot + 1 < |e|
      && e[at] == '@' && e[dot] == '.'
      && EmailPart(e[..at]) && EmailPart(e[at + 1..dot]) && EmailPart(e[dot + 1..]);
    PatternSplitCharacters(e, at, dot);
    assert IndexOf(e, '@') == at;
    var d := e[at + 1..];
    assert d[dot - at - 1] == '.';
    assert forall j :: 0 <= j < |d| ==> d[j] == e[at + 1 + j];
  }

  /** The direct check accepts exactly the strings the regular expression matches. */
  lemma EmailShapeIsPattern(e: string)
    ensures IsEmailShape(e) <==> MatchesEmailPattern(e)
  {
    if IsEmailShape(e) {
      EmailShapeMatches(e);
    }
    if MatchesEmailPattern(e) {
      PatternIsEmailShape(e);
    }
  }

  // ---------------------------------------------------------------- contacts

  function NameErrors(name: Field): (r: seq<Message>)
    ensures |r| <= 1 && forall i :: 0 <= i < |r| ==> r[i].ContactField() == 0
    ensures NameRequired in r <==> |Normalized(name)| == 0
    ensures NameTooLong in r <==> |Normalized(name)| > MaxName
    ensures r == [] <==> 0 < |Normalized(name)| <= MaxName
  {
    var t := Normalized(name);
    if |t| == 0 then [NameRequired]
    else if |t| > MaxName then [NameTooLong]
    else []
  }

  function EmailErrors(email: Field): (r: seq<Message>)
    ensures |r| <= 1 && forall i :: 0 <= i < |r| ==> r[i].ContactField() == 1
    ensures EmailRequired in r <==> |Normalized(email)| == 0
    ensures EmailInvalid in r <==> |Normalized(email)| > 0 && !IsEmailShape(Normalized(email))
    ensures r == [] <==> IsEmailShape(Normalized(email))
  {
    var t := Normalized(email);
    if |t| == 0 then [EmailRequired]
    else if !IsEmailShape(t) then [EmailInvalid]
    else []
  }

  function MessageErrors(message: Field): (r: seq<Message>)
    ensures |r| <= 1 && forall i :: 0 <= i < |r| ==> r[i].ContactField() == 2
    ensures MessageRequired in r <==> |Normalized(message)| == 0
    ensures MessageTooLong in r <==> |Normalized(message)| > MaxMessage
    ensures r == [] <==> 0 < |Normalized(message)| <= MaxMessage
  {
    var t := Normalized(message);
    if |t| == 0 then [MessageRequired]
    else if |t| > MaxMessage then [MessageTooLong]
    else []
  }

  /** Joining one list per field, each holding at most one message about
      its own field, lists the messages in field order. */
  lemma FieldOrder(n: seq<Message>, e: seq<Message>, m: seq<Message>)
    requires |n| <= 1 && forall i :: 0 <= i < |n| ==> n[i].ContactField() == 0
    requires |e| <= 1 && forall i :: 0 <= i < |e| ==> e[i].ContactField() == 1
    requires |m| <= 1 && forall i :: 0 <= i < |m| ==> m[i].ContactField() == 2
    ensures forall i :: 0 <= i < |n + e + m| ==> (n + e + m)[i].ContactField() < 3
    ensures forall i, j :: 0 <= i < j < |n + e + m| ==>
      (n + e + m)[i].ContactField() < (n + e + m)[j].ContactField()
  {
    var errors := n + e + m;
    assert forall i :: 0 <= i < |errors| ==>
      errors[i] == if i < |n| then n[i] else if i < |n| + |e| then e[i - |n|] else m[i - |n| - |e|];
  }

  /** The field rules of a contact submission, stated on the trimmed values. */
  predicate ContactFieldsOk(name: string, email: string, message: string) {
    0 < |name| <= MaxName && IsEmailShape(email) && 0 < |message| <= MaxMessage
  }

  /** validateContact: every field is checked, so each violated field is
      reported in the same call, at most once, in the order name, email, message;
      which message each field gets is stated by ContactErrorsReported. */
  function ValidateContact(name: Field, email: Field, message: Field): (v: Verdict<ContactData>)
    ensures v.isValid <==> v.errors == []
    ensures v.isValid <==> ContactFieldsOk(Normalized(name), Normalized(email), Normalized(message))
    ensures v.data == ContactData(Normalized(name), Normalized(email), Normalized(message))
    ensures forall i :: 0 <= i < |v.errors| ==> v.errors[i].ContactField() < 3
    ensures forall i, j :: 0 <= i < j < |v.errors| ==>
              v.errors[i].ContactField() < v.errors[j].ContactField()
  {
    var n, e, m := NameErrors(name), EmailErrors(email), MessageErrors(message);
    var errors := n + e + m;
    FieldOrder(n, e, m);
    Verdict(|errors| == 0, errors,
               ContactData(Normalized(name), Normalized(email), Normalized(message)))
  }

  /** The message each contact rule contributes: a message is reported exactly
      when its rule is broken. */
  lemma ContactErrorsReported(name: Field, email: Field, message: Field)
    ensures var v := ValidateContact(name, email, message);
      && (NameRequired in v.errors <==> |Normalized(name)| == 0)
      && (NameTooLong in v.errors <==> |Normalized(name)| > MaxName)
      && (EmailRequired in v.errors <==> |Normalized(email)| == 0)
      && (EmailInvalid in v.errors <==>
            |Normalized(email)| > 0 && !IsEmailShape(Normalized(email)))
      && (MessageRequired in v.errors <==> |Normalized(message)| == 0)
      && (MessageTooLong in v.errors <==> |Normalized(message)| > MaxMessage)
  {
    var n, e, m := NameErrors(name), EmailErrors(email), MessageErrors(message);
    assert forall x :: x in n + e + m <==> x in n || x in e || x in m;
  }

  /** validateContact's email rule and its verdict, stated on the regular
      expression itself rather than on the direct check. */
  lemma ContactEmailRule(name: Field, email: Field, message: Field)
    ensures var v := ValidateContact(name, email, message);
      && (EmailInvalid in v.errors <==>
            |Normalized(email)| > 0 && !MatchesEmailPattern(Normalized(email)))
      && (v.isValid <==>
            && 0 < |Normalized(name)| <= MaxName
            && MatchesEmailPattern(Normalized(email))
            && 0 < |Normalized(message)| <= MaxMessage)
  {
    ContactErrorsReported(name, email, message);
    EmailShapeIsPattern(Normalized(email));
  }

  // ---------------------------------------------------------------- edit flow

  /** `errors.filter(e => !e.includes("Username"))`, applied by the edit handler. */
  function WithoutUsernameMessages(errors: seq<Message>): (r: seq<Message>)
    ensures forall i :: 0 <= i < |r| ==> !Contains(r[i].Text(), "Username")
    ensures forall m :: m in r ==> m in errors
  {
    if errors == [] then []
    else
      var rest := WithoutUsernameMessages(errors[1..]);
      if Contains(errors[0].Text(), "Username") then rest else [errors[0]] + rest
  }

  /** Both username messages mention "Username". */
  lemma UsernameMessageMentionsUsername(m: Message)
    requires m.IsUsernameMessage()
    ensures Contains(m.Text(), "Username")
  {
    assert m.Text()[0..8] == "Username";
    ContainsAt(m.Text(), "Username", 0);
  }

  // The shayri messages have no capital 'U'.

  lemma NoCapitalUInShayriRequired()
    ensures 'U' !in ShayriRequired.Text()
  {
  }

  lemma NoCapitalUInShayriTooShort()
    ensures 'U' !in ShayriTooShort.Text()
  {
  }

  lemma NoCapitalUInShayriTooLong()
    ensures 'U' !in ShayriTooLong.Text()
  {
  }

  /** No shayri message mentions "Username". */
  lemma ShayriMessageOmitsUsername(m: Message)
    requires m.IsShayriMessage()
    ensures !Contains(m.Text(), "Username")
  {
    match m {
      case ShayriRequired => NoCapitalUInShayriRequired();
      case ShayriTooShort => NoCapitalUInShayriTooShort();
      case ShayriTooLong => NoCapitalUInShayriTooLong();
    }
    ContainsNeedsFirstChar(m.Text(), "Username");
  }

  /** The edit handler's filter keeps a list of shayri messages as it is. */
  lemma {:induction false} FilterKeepsShayriMessages(errors: seq<Message>)
    requires forall i :: 0 <= i < |errors| ==> errors[i].IsShayriMessage()
    ensures WithoutUsernameMessages(errors) == errors
  {
    if errors != [] {
      ShayriMessageOmitsUsername(errors[0]);
      FilterKeepsShayriMessages(errors[1..]);
    }
  }

  /** The edit handler's filter drops the username messages of a
      validatePost result and keeps its shayri messages, in order. */
  lemma FilterLeavesShayriErrors(username: Field, shayri: Field)
    ensures WithoutUsernameMessages(ValidatePost(username, shayri).errors) == ShayriErrors(shayri)
  {
    var u, t := UsernameErrors(username), ShayriErrors(shayri);
    assert ValidatePost(username, shayri).errors == u + t;
    FilterKeepsShayriMessages(t);
    if u != [] {
      UsernameMessageMentionsUsername(u[0]);
      assert (u + t)[1..] == t;
    }
  }

  /** The fixed username the edit handler validates with. */
  const EditUsername := "temp"

  /** The fixed username passes the username rules. */
  lemma EditUsernameIsValid()
    ensures UsernameErrors(Some(EditUsername)) == []
  {
    TrimOfTrimmed(EditUsername);
  }

  /** Editing validates `"temp"` as the username, so only the shayri rules can
      fail: the verdict depends on the shayri alone, the errors are exactly
      the shayri chain's, and the username filter removes nothing. */
  lemma EditValidationIgnoresUsername(shayri: Field)
    ensures var v := ValidatePost(Some(EditUsername), shayri);
      && (v.isValid <==> MinShayri <= |Normalized(shayri)| <= MaxShayri)
      && (forall i :: 0 <= i < |v.errors| ==> v.errors[i].IsShayriMessage())
      && v.errors == ShayriErrors(shayri)
      && WithoutUsernameMessages(v.errors) == v.errors
      && v.data.shayri == Normalized(shayri)
  {
    EditUsernameIsValid();
    FilterKeepsShayriMessages(ShayriErrors(shayri));
  }

  // ---------------------------------------------------------------- examples

  /** The length bounds are inclusive: 50 characters of username and 10 or
      500 characters of shayri are accepted. */
  lemma BoundaryLengthsAccepted(username: Field, shayri: Field)
    requires |Normalized(username)| == MaxUsername
    requires |Normalized(shayri)| == MinShayri || |Normalized(shayri)| == MaxShayri
    ensures ValidatePost(username, shayri).isValid
    ensures ValidatePost(username, shayri).errors == []
  {
  }

  /** An empty username and a five-character shayri: both fields are reported. */
  lemma EmptyUsernameShortShayri()
    ensures ValidatePost(Some(""), Some("short")).errors == [UsernameRequired, ShayriTooShort]
    ensures !ValidatePost(Some(""), Some("short")).isValid
  {
    TrimOfTrimmed("short");
  }

  /** A malformed email is the only complaint when name and message are fine. */
  lemma MalformedEmailOnly()
    ensures ValidateContact(Some("Jo"), Some("not-an-email"), Some("hello")).errors == [EmailInvalid]
  {
    TrimOfTrimmed("Jo");
    TrimOfTrimmed("hello");
    MalformedEmailRejected();
  }

  lemma MalformedEmailRejected()
    ensures EmailErrors(Some("not-an-email")) == [EmailInvalid]
  {
    TrimOfTrimmed("not-an-email");
    NoAtSignNoEmail("not-an-email");
  }

  /** Without an '@' there is no email address. */
  lemma NoAtSignNoEmail(e: string)
    requires '@' !in e
    ensures !IsEmailShape(e)
  {
  }
}
