/** The post collection as the route handlers see it: an ordered list of
    posts, searched with `posts.find(p => id === p.id)`, edited by assigning
    one post's `shayri`, and pruned with `posts.filter(post => post.id !== id)`. */
module PostList {
  import opened Wrappers
  import opened Text
  import opened Validation

  /** One stored quote. */
  datatype Post = Post(id: string, username: string, shayri: string)

  /** Some post in `ps` carries `id`. */
  predicate HasId(ps: seq<Post>, id: string) {
    exists i :: 0 <= i < |ps| && ps[i].id == id
  }

  /** No two posts share an id. */
  predicate UniqueIds(ps: seq<Post>) {
    forall i, j :: 0 <= i < j < |ps| ==> ps[i].id != ps[j].id
  }

  /** A post as the create and update handlers store it: both fields trimmed
      and within the bounds `validatePost` enforces. */
  predicate WellFormed(p: Post) {
    && p.username == Trim(p.username) && 0 < |p.username| <= MaxUsername
    && p.shayri == Trim(p.shayri) && MinShayri <= |p.shayri| <= MaxShayri
  }

  predicate AllWellFormed(ps: seq<Post>) {
    forall i :: 0 <= i < |ps| ==> WellFormed(ps[i])
  }

  // ---------------------------------------------------------------- find

  /** Position of the post `posts.find` returns: the first one whose id is `id`. */
  function FindIndex(ps: seq<Post>, id: string): (r: Option<nat>)
    ensures r.None? <==> !HasId(ps, id)
    ensures r.Some? ==> r.value < |ps| && ps[r.value].id == id
    ensures r.Some? ==> forall k :: 0 <= k < r.value ==> ps[k].id != id
  {
    if |ps| == 0 then None
    else if ps[0].id == id then Some(0)
    else
      match FindIndex(ps[1..], id)
      case None =>
        assert forall i :: 1 <= i < |ps| ==> ps[i] == ps[1..][i - 1];
        None
      case Some(k) => Some(k + 1)
  }

  /** `posts.find((p) => id === p.id)`: the first post with that id, if any. */
  function Find(ps: seq<Post>, id: string): (r: Option<Post>)
    ensures r.None? <==> !HasId(ps, id)
    ensures r.Some? ==> r.value in ps && r.value.id == id
  {
    match FindIndex(ps, id)
    case None => None
    case Some(i) => Some(ps[i])
  }

  /** With unique ids the first match is the only match. */
  lemma FindUnique(ps: seq<Post>, id: string, i: nat)
    requires UniqueIds(ps) && i < |ps| && ps[i].id == id
    ensures FindIndex(ps, id) == Some(i)
    ensures Find(ps, id) == Some(ps[i])
  {
  }

  // ---------------------------------------------------------------- update

  /** `post.shayri = shayri` on the post at index `i`. */
  function SetShayri(ps: seq<Post>, i: nat, shayri: string): (r: seq<Post>)
    requires i < |ps|
    ensures |r| == |ps|
    ensures r[i] == Post(ps[i].id, ps[i].username, shayri)
    ensures forall k :: 0 <= k < |ps| && k != i ==> r[k] == ps[k]
  {
    ps[i := ps[i].(shayri := shayri)]
  }

  /** `find` by id looks only at the ids. */
  lemma {:induction false} FindIndexSameIds(a: seq<Post>, b: seq<Post>, id: string)
    requires |a| == |b| && forall k :: 0 <= k < |a| ==> a[k].id == b[k].id
    ensures FindIndex(a, id) == FindIndex(b, id)
  {
    if |a| > 0 && a[0].id != id {
      assert forall k :: 0 <= k < |a| - 1 ==> a[1..][k] == a[k + 1] && b[1..][k] == b[k + 1];
      FindIndexSameIds(a[1..], b[1..], id);
    }
  }

  /** An edit keeps the ids, and so their uniqueness and which post a lookup finds. */
  lemma SetShayriKeepsIds(ps: seq<Post>, i: nat, shayri: string, id: string)
    requires i < |ps|
    ensures forall k :: 0 <= k < |ps| ==> SetShayri(ps, i, shayri)[k].id == ps[k].id
    ensures UniqueIds(ps) ==> UniqueIds(SetShayri(ps, i, shayri))
    ensures FindIndex(SetShayri(ps, i, shayri), id) == FindIndex(ps, id)
  {
    FindIndexSameIds(SetShayri(ps, i, shayri), ps, id);
  }

  /** Storing a validated, trimmed shayri keeps every post well formed. */
  lemma SetShayriKeepsWellFormed(ps: seq<Post>, i: nat, shayri: string)
    requires i < |ps| && AllWellFormed(ps)
    requires shayri == Trim(shayri) && MinShayri <= |shayri| <= MaxShayri
    ensures AllWellFormed(SetShayri(ps, i, shayri))
  {
    var r := SetShayri(ps, i, shayri);
    assert WellFormed(r[i]);
  }

  // ---------------------------------------------------------------- delete

  /** `posts.filter(post => post.id !== id)`. */
  function Without(ps: seq<Post>, id: string): (r: seq<Post>)
    ensures |r| <= |ps|
  {
    if |ps| == 0 then []
    else if ps[0].id != id then [ps[0]] + Without(ps[1..], id)
    else Without(ps[1..], id)
  }

  /** The survivors are exactly the posts with another id. */
  lemma {:induction false} WithoutMembers(ps: seq<Post>, id: string)
    ensures forall p :: p in Without(ps, id) <==> p in ps && p.id != id
  {
    if |ps| > 0 {
      WithoutMembers(ps[1..], id);
      assert forall p :: p in ps <==> p == ps[0] || p in ps[1..];
    }
  }

  /** The length stays the same exactly when no post has the id, and then
      the list itself is unchanged. */
  lemma {:induction false} WithoutNoMatch(ps: seq<Post>, id: string)
    ensures |Without(ps, id)| == |ps| <==> !HasId(ps, id)
    ensures !HasId(ps, id) ==> Without(ps, id) == ps
  {
    if |ps| > 0 {
      var tail := ps[1..];
      WithoutNoMatch(tail, id);
      if HasId(tail, id) {
        var k :| 0 <= k < |tail| && tail[k].id == id;
        assert ps[k + 1].id == id;
      }
      if HasId(ps, id) && ps[0].id != id {
        var k :| 0 <= k < |ps| && ps[k].id == id;
        assert tail[k - 1].id == id;
      }
      if !HasId(ps, id) {
        assert ps == [ps[0]] + tail;
      }
    }
  }

  /** Filtering distributes over concatenation: survivors keep their order. */
  lemma {:induction false} WithoutConcat(a: seq<Post>, b: seq<Post>, id: string)
    ensures Without(a + b, id) == Without(a, id) + Without(b, id)
  {
    if |a| == 0 {
      assert a + b == b;
    } else {
      assert (a + b)[1..] == a[1..] + b;
      WithoutConcat(a[1..], b, id);
    }
  }

  /** A single post survives exactly when its id differs. */
  lemma WithoutSingle(p: Post, id: string)
    ensures Without([p], id) == if p.id == id then [] else [p]
  {
    assert [p][1..] == [];
  }

  /** With unique ids, no post before or after index `i` shares its id. */
  lemma OnlyMatchAt(ps: seq<Post>, i: nat)
    requires UniqueIds(ps) && i < |ps|
    ensures !HasId(ps[..i], ps[i].id) && !HasId(ps[i + 1..], ps[i].id)
  {
    var before, after := ps[..i], ps[i + 1..];
    forall k | 0 <= k < |before| ensures before[k].id != ps[i].id {
      assert before[k] == ps[k];
    }
    forall k | 0 <= k < |after| ensures after[k].id != ps[i].id {
      assert after[k] == ps[i + 1 + k];
    }
  }

  /** `ps` split around index `i`. */
  lemma SplitAround(ps: seq<Post>, i: nat)
    requires i < |ps|
    ensures ps == ps[..i] + ([ps[i]] + ps[i + 1..])
  {
  }

  /** Deleting the id of a post that is the only one carrying it. */
  lemma WithoutOnlyMatch(before: seq<Post>, p: Post, after: seq<Post>)
    requires !HasId(before, p.id) && !HasId(after, p.id)
    ensures Without(before + ([p] + after), p.id) == before + after
  {
    WithoutNoMatch(before, p.id);
    WithoutNoMatch(after, p.id);
    calc {
      Without(before + ([p] + after), p.id);
      { WithoutConcat(before, [p] + after, p.id); }
      Without(before, p.id) + Without([p] + after, p.id);
      { WithoutConcat([p], after, p.id); WithoutSingle(p, p.id); }
      before + ([] + after);
    }
  }

  /** With unique ids, deleting a present id removes exactly that one post. */
  lemma WithoutUnique(ps: seq<Post>, i: nat)
    requires UniqueIds(ps) && i < |ps|
    ensures Without(ps, ps[i].id) == ps[..i] + ps[i + 1..]
  {
    SplitAround(ps, i);
    OnlyMatchAt(ps, i);
    WithoutOnlyMatch(ps[..i], ps[i], ps[i + 1..]);
  }

  /** Deleting keeps ids unique. */
  lemma {:induction false} WithoutKeepsUnique(ps: seq<Post>, id: string)
    requires UniqueIds(ps)
    ensures UniqueIds(Without(ps, id))
  {
    if |ps| > 0 {
      var tail := ps[1..];
      assert UniqueIds(tail) by {
        forall i, j | 0 <= i < j < |tail| ensures tail[i].id != tail[j].id {
          assert tail[i] == ps[i + 1] && tail[j] == ps[j + 1];
        }
      }
      WithoutKeepsUnique(tail, id);
      WithoutMembers(tail, id);
      var rest := Without(tail, id);
      if ps[0].id != id {
        var r := [ps[0]] + rest;
        forall i, j | 0 <= i < j < |r| ensures r[i].id != r[j].id {
          if i == 0 {
            assert r[j] == rest[j - 1] && rest[j - 1] in tail;
            var k :| 0 <= k < |tail| && tail[k] == rest[j - 1];
            assert tail[k] == ps[k + 1];
          } else {
            assert r[i] == rest[i - 1] && r[j] == rest[j - 1];
          }
        }
      }
    }
  }

  /** Deleting keeps every remaining post well formed. */
  lemma WithoutKeepsWellFormed(ps: seq<Post>, id: string)
    requires AllWellFormed(ps)
    ensures AllWellFormed(Without(ps, id))
  {
    var r := Without(ps, id);
    WithoutMembers(ps, id);
    forall i | 0 <= i < |r| ensures WellFormed(r[i]) {
      assert r[i] in ps;
    }
  }

  /** Filtering twice is filtering once, so a repeated delete finds nothing. */
  lemma WithoutTwice(ps: seq<Post>, id: string)
    ensures !HasId(Without(ps, id), id)
    ensures Without(Without(ps, id), id) == Without(ps, id)
  {
    var r := Without(ps, id);
    WithoutMembers(ps, id);
    assert forall i :: 0 <= i < |r| ==> r[i] in r;
    WithoutNoMatch(r, id);
  }

  // ---------------------------------------------------------------- create

  /** Appending a post with a fresh id keeps ids unique. */
  lemma AppendKeepsUnique(ps: seq<Post>, p: Post)
    requires UniqueIds(ps) && !HasId(ps, p.id)
    ensures UniqueIds(ps + [p])
  {
    var r := ps + [p];
    forall i, j | 0 <= i < j < |r| ensures r[i].id != r[j].id {
      assert r[i] == ps[i];
    }
  }

  /** A post appended with a fresh id is what a lookup by that id finds. */
  lemma AppendIsFound(ps: seq<Post>, p: Post)
    requires !HasId(ps, p.id)
    ensures FindIndex(ps + [p], p.id) == Some(|ps|)
    ensures Find(ps + [p], p.id) == Some(p)
  {
    assert (ps + [p])[|ps|] == p;
  }

  /** Appending a well-formed post keeps every post well formed. */
  lemma AppendKeepsWellFormed(ps: seq<Post>, p: Post)
    requires AllWellFormed(ps) && WellFormed(p)
    ensures AllWellFormed(ps + [p])
  {
    var r := ps + [p];
    forall i | 0 <= i < |r| ensures WellFormed(r[i]) {
      if i < |ps| {
        assert r[i] == ps[i];
      }
    }
  }

  /** The post built from a successful validation is well formed. */
  lemma ValidatedPostIsWellFormed(username: Field, shayri: Field, id: string)
    requires ValidatePost(username, shayri).isValid
    ensures WellFormed(Post(id, ValidatePost(username, shayri).data.username,
                               ValidatePost(username, shayri).data.shayri))
  {
    assert username.Some? && shayri.Some?;
    TrimIdempotent(username.value);
    TrimIdempotent(shayri.value);
  }
}
