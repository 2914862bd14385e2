/**
 The photo gallery's post list (practica7_pwa_Docker/src/App.js): the three state
 updates `handleAddPost`, `handleDeletePost` and `handleToggleLike`, and the guard of the
 form's `handleSubmit`. Each is a pure function from the current list to the next one.
 */
module Gallery {

  /** A post as the app keeps it: `{ id, title, image, liked }`. */
  datatype Post = Post(id: int, title: string, image: string, liked: bool)

  /** `[newPost, ...prevPosts]`; the id comes from `Date.now()` and is passed in. */
  function AddPost(posts: seq<Post>, id: int, title: string, image: string): (r: seq<Post>)
    ensures |r| == |posts| + 1
    ensures r[0] == Post(id, title, image, false)
    ensures r[1..] == posts
  {
    [Post(id, title, image, false)] + posts
  }

  /** The ids that occur in a list. */
  function Ids(posts: seq<Post>): set<int> {
    set i | 0 <= i < |posts| :: posts[i].id
  }

  /** How many posts carry `id`. */
  function CountId(posts: seq<Post>, id: int): nat
    decreases |posts|
  {
    if posts == [] then 0 else (if posts[0].id == id then 1 else 0) + CountId(posts[1..], id)
  }

  /** `posts.filter(post => post.id !== id)`. */
  function DeletePost(posts: seq<Post>, id: int): (r: seq<Post>)
    ensures |r| == |posts| - CountId(posts, id)
    ensures forall i :: 0 <= i < |r| ==> r[i].id != id && r[i] in posts
    ensures forall p :: p in posts && p.id != id ==> p in r
    decreases |posts|
  {
    if posts == [] then []
    else if posts[0].id == id then DeletePost(posts[1..], id)
    else [posts[0]] + DeletePost(posts[1..], id)
  }

  /** `post.id === id ? { ...post, liked: !post.liked } : post`. */
  function Flip(p: Post, id: int): Post {
    if p.id == id then p.(liked := !p.liked) else p
  }

  /** `posts.map(...)` with `Flip`. */
  function ToggleLike(posts: seq<Post>, id: int): (r: seq<Post>)
    ensures |r| == |posts|
    ensures forall i :: 0 <= i < |r| ==>
      r[i].id == posts[i].id && r[i].title == posts[i].title && r[i].image == posts[i].image
    ensures forall i :: 0 <= i < |r| ==> (r[i].liked != posts[i].liked <==> posts[i].id == id)
    decreases |posts|
  {
    if posts == [] then [] else [Flip(posts[0], id)] + ToggleLike(posts[1..], id)
  }

  // ---------------------------------------------------------------------------
  // The form
  // ---------------------------------------------------------------------------

  /** WhiteSpace and LineTerminator code points, the ones `String.prototype.trim` strips. */
  predicate IsJsWhitespace(c: char) {
    || ('\U{9}' <= c <= '\U{D}')
    || c == '\U{20}' || c == '\U{A0}' || c == '\U{1680}'
    || ('\U{2000}' <= c <= '\U{200A}')
    || c == '\U{2028}' || c == '\U{2029}' || c == '\U{202F}' || c == '\U{205F}' || c == '\U{3000}'
    || c == '\U{FEFF}'
  }


  /** Drops the leading whitespace: what is left is a suffix that does not start with any. */
  function TrimStart(s: string): (r: string)
    ensures |r| <= |s| && r == s[|s| - |r|..]
    ensures r == [] || !IsJsWhitespace(r[0])
    ensures forall i :: 0 <= i < |s| - |r| ==> IsJsWhitespace(s[i])
    decreases |s|
  {
    if s == [] || !IsJsWhitespace(s[0]) then s else TrimStart(s[1..])
  }

  /** Drops the trailing whitespace: what is left is a prefix that does not end with any. */
  function TrimEnd(s: string): (r: string)
    ensures |r| <= |s| && r == s[..|r|]
    ensures r == [] || !IsJsWhitespace(r[|r| - 1])
    ensures forall i :: |r| <= i < |s| ==> IsJsWhitespace(s[i])
    decreases |s|
  {
    if s == [] || !IsJsWhitespace(s[|s| - 1]) then s else TrimEnd(s[..|s| - 1])
  }

  /** `s.trim()`: a piece of `s` that neither starts nor ends with whitespace. */
  function Trim(s: string): (r: string)
    ensures |r| <= |s|
    ensures r == [] || (!IsJsWhitespace(r[0]) && !IsJsWhitespace(r[|r| - 1]))
  {
    TrimEnd(TrimStart(s))
  }

  /** A prefix `r` of a suffix `u` of `s` sits in `s` right where `u` starts; `u`'s tail after `r` is `s`'s tail. */
  lemma PrefixOfSuffix(s: string, u: string, r: string)
    requires |u| <= |s| && u == s[|s| - |u|..]
    requires |r| <= |u| && r == u[..|r|]
    requires forall i :: |r| <= i < |u| ==> IsJsWhitespace(u[i])
    ensures r == s[|s| - |u|..|s| - |u| + |r|]
    ensures forall i :: |s| - |u| + |r| <= i < |s| ==> IsJsWhitespace(s[i])
  {
    var a := |s| - |u|;
    forall i | a + |r| <= i < |s| ensures IsJsWhitespace(s[i]) {
      assert s[i] == u[i - a];
    }
  }

  /** `trim()` keeps the title between its leading and its trailing whitespace. */
  lemma TrimIsInfix(s: string)
    ensures exists a, b {:trigger s[a..b]} ::
      && 0 <= a <= b <= |s| && Trim(s) == s[a..b]
      && (forall i :: 0 <= i < a ==> IsJsWhitespace(s[i]))
      && (forall i :: b <= i < |s| ==> IsJsWhitespace(s[i]))
  {
    var u := TrimStart(s);
    var r := TrimEnd(u);
    PrefixOfSuffix(s, u, r);
    var a, b := |s| - |u|, |s| - |u| + |r|;
    assert Trim(s) == s[a..b];
  }

  /** A title is refused exactly when it is whitespace from end to end (the empty title included). */
  lemma TrimEmptyIffBlank(s: string)
    ensures Trim(s) == [] <==> forall i :: 0 <= i < |s| ==> IsJsWhitespace(s[i])
  {
    var u := TrimStart(s);
    if exists k :: 0 <= k < |s| && !IsJsWhitespace(s[k]) {
      var k :| 0 <= k < |s| && !IsJsWhitespace(s[k]);
      assert u[k - (|s| - |u|)] == s[k];
    }
  }

  /** The file input: nothing chosen yet, or a file read as a data URL. */
  datatype ImageFile = NoFile | File(dataUrl: string)

  /** The list after a submit and the message the form shows. */
  datatype FormResult = FormResult(posts: seq<Post>, error: string)

  const MissingInput := "Por favor, añade un título y una imagen."

  /**
   `handleSubmit` followed by `onAddPost`: a blank title or no file sets the error and
   adds nothing; otherwise the post is added with the title as typed (untrimmed) and the
   error is cleared.
   */
  function Submit(posts: seq<Post>, title: string, file: ImageFile, id: int): (r: FormResult)
    ensures r.posts == posts <==> Trim(title) == [] || file.NoFile?
    ensures r.posts == posts ==> r.error == MissingInput
    ensures r.posts != posts ==> r.error == "" && r.posts == AddPost(posts, id, title, file.dataUrl)
  {
    if Trim(title) == [] || file.NoFile? then FormResult(posts, MissingInput)
    else FormResult(AddPost(posts, id, title, file.dataUrl), "")
  }

  // ---------------------------------------------------------------------------
  // Properties
  // ---------------------------------------------------------------------------

  /** Deleting keeps the relative order: it acts on each part of a list separately. */
  lemma {:induction false} DeleteDistributes(a: seq<Post>, b: seq<Post>, id: int)
    ensures DeletePost(a + b, id) == DeletePost(a, id) + DeletePost(b, id)
    decreases |a|
  {
    if a == [] {
      assert a + b == b;
    } else {
      var ab := a + b;
      assert ab[0] == a[0] && ab[1..] == a[1..] + b;
      DeleteDistributes(a[1..], b, id);
      if a[0].id == id {
        assert DeletePost(ab, id) == DeletePost(a[1..] + b, id);
        assert DeletePost(a, id) == DeletePost(a[1..], id);
      } else {
        assert DeletePost(ab, id) == [a[0]] + DeletePost(a[1..] + b, id);
        assert DeletePost(a, id) == [a[0]] + DeletePost(a[1..], id);
      }
    }
  }

  lemma IdsCons(posts: seq<Post>)
    requires posts != []
    ensures Ids(posts) == {posts[0].id} + Ids(posts[1..])
  {
    forall x | x in Ids(posts) ensures x in {posts[0].id} + Ids(posts[1..]) {
      var i :| 0 <= i < |posts| && posts[i].id == x;
      if i > 0 {
        assert posts[1..][i - 1].id == x;
      }
    }
    forall x | x in Ids(posts[1..]) ensures x in Ids(posts) {
      var i :| 0 <= i < |posts[1..]| && posts[1..][i].id == x;
      assert posts[i + 1].id == x;
    }
  }

  /** Deleting an id no post carries changes nothing, and only then. */
  lemma {:induction false} DeleteAbsentIsNoOp(posts: seq<Post>, id: int)
    ensures DeletePost(posts, id) == posts <==> id !in Ids(posts)
    decreases |posts|
  {
    if posts != [] {
      IdsCons(posts);
      DeleteAbsentIsNoOp(posts[1..], id);
      var rest := DeletePost(posts[1..], id);
      if posts[0].id == id {
        assert DeletePost(posts, id) == rest;
        assert |rest| <= |posts[1..]|;
      } else {
        assert DeletePost(posts, id) == [posts[0]] + rest;
        if rest == posts[1..] {
          assert [posts[0]] + rest == posts;
        } else {
          assert ([posts[0]] + rest)[1..] == rest;
        }
      }
    }
  }

  /** Deleting twice is deleting once. */
  lemma DeleteIsIdempotent(posts: seq<Post>, id: int)
    ensures DeletePost(DeletePost(posts, id), id) == DeletePost(posts, id)
  {
    var r := DeletePost(posts, id);
    assert id !in Ids(r);
    DeleteAbsentIsNoOp(r, id);
  }

  /** Deleting the id of a post just added gives back the list before, when no older post had that id. */
  lemma DeleteAfterAddRestores(posts: seq<Post>, id: int, title: string, image: string)
    requires id !in Ids(posts)
    ensures DeletePost(AddPost(posts, id, title, image), id) == posts
  {
    DeleteAbsentIsNoOp(posts, id);
  }

  /** Liking twice is a no-op. */
  lemma {:induction false} ToggleTwiceRestores(posts: seq<Post>, id: int)
    ensures ToggleLike(ToggleLike(posts, id), id) == posts
    decreases |posts|
  {
    if posts != [] {
      ToggleTwiceRestores(posts[1..], id);
    }
  }

  /** Toggling two posts can be done in either order. */
  lemma TogglesCommute(posts: seq<Post>, id1: int, id2: int)
    ensures ToggleLike(ToggleLike(posts, id1), id2) == ToggleLike(ToggleLike(posts, id2), id1)
  {
  }

  /** Toggling an id no post carries changes nothing. */
  lemma ToggleAbsentIsNoOp(posts: seq<Post>, id: int)
    requires id !in Ids(posts)
    ensures ToggleLike(posts, id) == posts
  {
    var r := ToggleLike(posts, id);
    forall i | 0 <= i < |posts| ensures r[i] == posts[i] {
      assert posts[i].id in Ids(posts);
    }
  }

  /** A refused submit leaves the list alone; an accepted one adds exactly one post in front. */
  lemma SubmitAddsAtMostOne(posts: seq<Post>, title: string, file: ImageFile, id: int)
    ensures var r := Submit(posts, title, file, id);
      (|r.posts| == |posts| && r.posts == posts) || (|r.posts| == |posts| + 1 && r.posts[1..] == posts && !r.posts[0].liked)
  {
  }

  /** A title of spaces is refused even with a file chosen. */
  lemma BlankTitleRefused(posts: seq<Post>, file: ImageFile, id: int)
    ensures Submit(posts, "  \t", file, id) == FormResult(posts, MissingInput)
  {
    TrimEmptyIffBlank("  \t");
  }
}
