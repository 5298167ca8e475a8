/** The write side of the posts views over an in-memory store that stands
    in for the database: creating and editing posts, commenting, following
    and unfollowing authors, plus the row deletions whose referential
    actions the models declare. Every handler behind `login_required` sends
    an anonymous caller to the login page before looking at anything else. */
module Views {
  import opened Wrappers
  import opened Seqs
  import opened Models
  import opened Forms
  import opened Responses
  import Feeds

  /** `get_object_or_404(Post, pk=id)`. */
  function FindPost(posts: seq<Post>, id: nat): (r: Option<Post>)
    ensures r.Some? ==> r.value in posts && r.value.id == id
    ensures r.None? <==> id !in PostIds(posts)
  {
    if posts == [] then None
    else if posts[0].id == id then Some(posts[0])
    else
      var r := FindPost(posts[1..], id);
      assert PostIds(posts) == {posts[0].id} + PostIds(posts[1..]) by {
        assert posts == [posts[0]] + posts[1..];
      }
      r
  }

  /** `form.save()` of a `PostForm` bound to the post `id`. */
  function EditPost(posts: seq<Post>, id: nat, data: PostData): (r: seq<Post>)
    ensures |r| == |posts|
  {
    if posts == [] then []
    else
      var p := posts[0];
      var q := if p.id == id then p.(text := data.text, group := data.group,
                                      image := ApplyImage(p.image, data.image))
               else p;
      [q] + EditPost(posts[1..], id, data)
  }

  /** Saving the form writes only `text`, `group` and `image` of the post
      `id`: its `id`, `author` and `pubDate`, and every other post, stay as
      they were. */
  lemma {:induction false} EditPostOnlyTarget(posts: seq<Post>, id: nat, data: PostData)
    ensures var r := EditPost(posts, id, data);
      && (forall i :: 0 <= i < |posts| ==>
            r[i].id == posts[i].id && r[i].author == posts[i].author && r[i].pubDate == posts[i].pubDate)
      && (forall i :: 0 <= i < |posts| && posts[i].id != id ==> r[i] == posts[i])
      && (forall i :: 0 <= i < |posts| && posts[i].id == id ==>
            r[i].text == data.text && r[i].group == data.group
            && r[i].image == ApplyImage(posts[i].image, data.image))
  {
    if posts != [] {
      EditPostOnlyTarget(posts[1..], id, data);
      var r := EditPost(posts, id, data);
      assert forall i :: 1 <= i < |posts| ==> r[i] == EditPost(posts[1..], id, data)[i - 1];
    }
  }

  /** `Follow.objects.get_or_create(user=…, author=…)`: the edge is added
      only when it is not there yet. */
  function Followed(follows: seq<Follow>, edge: Follow): (r: seq<Follow>)
  {
    if edge in follows then follows else follows + [edge]
  }

  /** After following, the edge is present exactly once, the follow table
      is still duplicate-free, and no other edge appeared or vanished. */
  lemma FollowedAddsOneEdge(follows: seq<Follow>, edge: Follow)
    requires UniqueFollows(follows)
    ensures var r := Followed(follows, edge);
      && UniqueFollows(r)
      && multiset(r)[edge] == 1
      && (forall f :: f != edge ==> (f in r <==> f in follows))
  {
    var r := Followed(follows, edge);
    if edge !in follows {
      assert UniqueFollows(r) by {
        forall i, j | 0 <= i < j < |r| ensures r[i] != r[j] {
          if j == |follows| {
            assert r[i] in follows;
          }
        }
      }
    }
    NoDuplicatesCount(r, edge);
  }

  /** Following twice is following once. */
  lemma {:induction false} FollowedIdempotent(follows: seq<Follow>, edge: Follow)
    ensures Followed(Followed(follows, edge), edge) == Followed(follows, edge)
  {
    if edge !in follows {
      assert (follows + [edge])[|follows|] == edge;
    }
  }

  /** `delete()` of the follow row found for (user, author). */
  function Unfollowed(follows: seq<Follow>, edge: Follow): (r: seq<Follow>)
  {
    Remove(follows, edge)
  }

  /** Unfollowing removes exactly that edge: one row fewer, every other edge kept. */
  lemma UnfollowedRemovesOneEdge(follows: seq<Follow>, edge: Follow)
    requires UniqueFollows(follows) && edge in follows
    ensures var r := Unfollowed(follows, edge);
      && UniqueFollows(r)
      && edge !in r
      && |r| == |follows| - 1
      && multiset(r) == multiset(follows) - multiset{edge}
  {
    RemoveOne(follows, edge);
  }

  /** The database. */
  class Store {
    var users: set<User>
    var groups: seq<Group>
    var posts: seq<Post>
    var comments: seq<Comment>
    var follows: seq<Follow>
    var nextGroupId: nat
    var nextPostId: nat
    var nextCommentId: nat

    function Rows(): Tables
      reads this
    {
      Tables(users, groups, posts, comments, follows)
    }

    /** Every constraint holds and every primary key is below the next one to hand out. */
    ghost predicate Valid()
      reads this
    {
      Consistent(Rows()) && KeysBelow(Rows(), nextGroupId, nextPostId, nextCommentId)
    }

    /** An authenticated caller is a user the store knows. */
    predicate KnownCaller(caller: Option<User>)
      reads this
    {
      caller.Some? ==> caller.value in users
    }

    constructor (users: set<User>)
      ensures Valid()
      ensures Rows() == Tables(users, [], [], [], [])
    {
      this.users := users;
      groups, posts, comments, follows := [], [], [], [];
      nextGroupId, nextPostId, nextCommentId := 0, 0, 0;
    }

    /** Inserting a group row; the unique constraint on `slug` rejects a taken slug. */
    method AddGroup(title: string, slug: string, description: string) returns (ok: bool)
      requires Valid()
      modifies this
      ensures Valid()
      ensures ok <==> forall g :: g in old(groups) ==> g.slug != slug
      ensures groups == if ok then old(groups) + [Group(old(nextGroupId), title, slug, description)]
                        else old(groups)
      ensures Rows() == old(Rows()).(groups := groups)
    {
      ok := Feeds.FindGroup(groups, slug).None?;
      if ok {
        var g := Group(nextGroupId, title, slug, description);
        assert forall h :: h in groups ==> h.id != g.id && h.slug != g.slug;
        groups := groups + [g];
        nextGroupId := nextGroupId + 1;
      }
    }

    /** `post_create`: a valid form becomes a new post whose author is the
        caller, whatever was submitted, stamped with the current time. */
    method PostCreate(caller: Option<User>, data: Option<PostData>, now: int) returns (resp: Response<()>)
      requires Valid() && KnownCaller(caller)
      modifies this
      ensures Valid()
      ensures caller.None? ==> resp == LoginRedirect && posts == old(posts)
      ensures caller.Some? && CleanPost(old(groups), data).None? ==>
        resp == ShowForm && posts == old(posts)
      ensures caller.Some? && CleanPost(old(groups), data).Some? ==>
        var d := CleanPost(old(groups), data).value;
        && resp == ToProfile(caller.value)
        && posts == old(posts) + [Post(old(nextPostId), d.text, now, caller.value, d.group,
                                       ApplyImage(None, d.image))]
      ensures Rows() == old(Rows()).(posts := posts)
    {
      if caller.None? {
        return LoginRedirect;
      }
      var form := CleanPost(groups, data);
      if form.None? {
        return ShowForm;
      }
      var d := form.value;
      var p := Post(nextPostId, d.text, now, caller.value, d.group, ApplyImage(None, d.image));
      assert forall q :: q in posts ==> q.id != p.id;
      posts := posts + [p];
      nextPostId := nextPostId + 1;
      resp := ToProfile(caller.value);
    }

    /** `post_edit`: only the post's author may save the form; anyone else
        is sent to the post's page and nothing changes. */
    method PostEdit(caller: Option<User>, postId: nat, data: Option<PostData>) returns (resp: Response<()>)
      requires Valid() && KnownCaller(caller)
      modifies this
      ensures Valid()
      ensures caller.None? ==> resp == LoginRedirect && posts == old(posts)
      ensures caller.Some? && FindPost(old(posts), postId).None? ==>
        resp == NotFound && posts == old(posts)
      ensures caller.Some? && FindPost(old(posts), postId).Some? ==>
        var post := FindPost(old(posts), postId).value;
        var form := CleanPost(old(groups), data);
        && (caller.value != post.author ==> resp == ToPostDetail(postId) && posts == old(posts))
        && (caller.value == post.author && form.None? ==> resp == ShowForm && posts == old(posts))
        && (caller.value == post.author && form.Some? ==>
              resp == ToPostDetail(postId) && posts == EditPost(old(posts), postId, form.value))
      ensures Rows() == old(Rows()).(posts := posts)
    {
      if caller.None? {
        return LoginRedirect;
      }
      var post := FindPost(posts, postId);
      if post.None? {
        return NotFound;
      }
      if caller.value != post.value.author {
        return ToPostDetail(postId);
      }
      var form := CleanPost(groups, data);
      if form.None? {
        return ShowForm;
      }
      EditPostConsistent(Rows(), nextGroupId, nextPostId, nextCommentId, postId, form.value);
      posts := EditPost(posts, postId, form.value);
      resp := ToPostDetail(postId);
    }

    /** `add_comment`: a valid form becomes a comment by the caller on the
        post; valid or not, the caller is sent back to the post's page. */
    method AddComment(caller: Option<User>, postId: nat, data: Option<CommentData>, now: int)
      returns (resp: Response<()>)
      requires Valid() && KnownCaller(caller)
      modifies this
      ensures Valid()
      ensures caller.None? ==> resp == LoginRedirect && comments == old(comments)
      ensures caller.Some? && postId !in PostIds(old(posts)) ==>
        resp == NotFound && comments == old(comments)
      ensures caller.Some? && postId in PostIds(old(posts)) ==>
        && resp == ToPostDetail(postId)
        && comments == match CleanComment(data)
                       case None => old(comments)
                       case Some(text) =>
                         old(comments) + [Comment(old(nextCommentId), postId, caller.value, text, now)]
      ensures Rows() == old(Rows()).(comments := comments)
    {
      if caller.None? {
        return LoginRedirect;
      }
      var post := FindPost(posts, postId);
      if post.None? {
        return NotFound;
      }
      var form := CleanComment(data);
      if form.Some? {
        var c := Comment(nextCommentId, postId, caller.value, form.value, now);
        AddCommentConsistent(Rows(), nextGroupId, nextPostId, nextCommentId, c);
        comments := comments + [c];
        nextCommentId := nextCommentId + 1;
      }
      resp := ToPostDetail(postId);
    }

    /** `profile_follow`: get-or-create the edge from the caller to the
        author, except when the caller is the author. */
    method ProfileFollow(caller: Option<User>, username: User) returns (resp: Response<()>)
      requires Valid() && KnownCaller(caller)
      modifies this
      ensures Valid()
      ensures caller.None? ==> resp == LoginRedirect && follows == old(follows)
      ensures caller.Some? && username !in users ==> resp == NotFound && follows == old(follows)
      ensures caller.Some? && username in users ==>
        && resp == ToProfile(username)
        && follows == if username == caller.value then old(follows)
                      else Followed(old(follows), Follow(caller.value, username))
      ensures Rows() == old(Rows()).(follows := follows)
    {
      if caller.None? {
        return LoginRedirect;
      }
      if username !in users {
        return NotFound;
      }
      if username != caller.value {
        FollowedAddsOneEdge(follows, Follow(caller.value, username));
        follows := Followed(follows, Follow(caller.value, username));
      }
      resp := ToProfile(username);
    }

    /** `profile_unfollow`: delete the caller's edge to the author, or
        answer not-found when there is none. */
    method ProfileUnfollow(caller: Option<User>, username: User) returns (resp: Response<()>)
      requires Valid() && KnownCaller(caller)
      modifies this
      ensures Valid()
      ensures caller.None? ==> resp == LoginRedirect && follows == old(follows)
      ensures caller.Some? && Follow(caller.value, username) !in old(follows) ==>
        resp == NotFound && follows == old(follows)
      ensures caller.Some? && Follow(caller.value, username) in old(follows) ==>
        resp == ToProfile(username) && follows == Unfollowed(old(follows), Follow(caller.value, username))
      ensures Rows() == old(Rows()).(follows := follows)
    {
      if caller.None? {
        return LoginRedirect;
      }
      var edge := Follow(caller.value, username);
      if edge !in follows {
        return NotFound;
      }
      UnfollowedRemovesOneEdge(follows, edge);
      follows := Unfollowed(follows, edge);
      resp := ToProfile(username);
    }

    /** Deleting a group row; its posts stay, ungrouped. */
    method DeleteGroup(gid: nat)
      requires Valid()
      modifies this
      ensures Valid()
      ensures Rows() == Models.DeleteGroup(old(Rows()), gid)
    {
      DeleteGroupConsistent(Rows(), gid);
      var r := Models.DeleteGroup(Rows(), gid);
      groups, posts := r.groups, r.posts;
    }

    /** Deleting a post row and, by cascade, its comments. */
    method DeletePost(id: nat)
      requires Valid()
      modifies this
      ensures Valid()
      ensures Rows() == Models.DeletePost(old(Rows()), id)
    {
      DeletePostConsistent(Rows(), id);
      var r := Models.DeletePost(Rows(), id);
      posts, comments := r.posts, r.comments;
    }

    /** Deleting a user and, by cascade, everything that points at them. */
    method DeleteUser(u: User)
      requires Valid()
      modifies this
      ensures Valid()
      ensures Rows() == Models.DeleteUser(old(Rows()), u)
    {
      DeleteUserConsistent(Rows(), u);
      var r := Models.DeleteUser(Rows(), u);
      users, posts, comments, follows := r.users, r.posts, r.comments, r.follows;
    }
  }

  /** Saving a valid edit form keeps every constraint of the tables. */
  lemma EditPostConsistent(t: Tables, ng: nat, np: nat, nc: nat, id: nat, d: PostData)
    requires Consistent(t) && KeysBelow(t, ng, np, nc)
    requires d.group.None? || d.group.value in GroupIds(t.groups)
    ensures var r := t.(posts := EditPost(t.posts, id, d));
      Consistent(r) && KeysBelow(r, ng, np, nc)
  {
    var r := t.(posts := EditPost(t.posts, id, d));
    EditPostOnlyTarget(t.posts, id, d);
    assert PostIds(r.posts) == PostIds(t.posts) by {
      forall x | x in PostIds(t.posts) ensures x in PostIds(r.posts) {
        var i :| 0 <= i < |t.posts| && t.posts[i].id == x;
        assert r.posts[i] in r.posts;
      }
      forall x | x in PostIds(r.posts) ensures x in PostIds(t.posts) {
        var i :| 0 <= i < |r.posts| && r.posts[i].id == x;
        assert t.posts[i] in t.posts;
      }
    }
    forall p | p in r.posts ensures p.author in r.users
      && (p.group.Some? ==> p.group.value in GroupIds(r.groups)) && p.id < np
    {
      var i :| 0 <= i < |r.posts| && r.posts[i] == p;
      assert t.posts[i] in t.posts;
    }
    assert UniquePostIds(r.posts) by {
      forall i, j | 0 <= i < j < |r.posts| ensures r.posts[i].id != r.posts[j].id {
        assert r.posts[i].id == t.posts[i].id;
      }
    }
  }

  /** Inserting a comment with a fresh id, by a known user, on an existing
      post keeps every constraint of the tables. */
  lemma AddCommentConsistent(t: Tables, ng: nat, np: nat, nc: nat, c: Comment)
    requires Consistent(t) && KeysBelow(t, ng, np, nc)
    requires c.id == nc && c.author in t.users && c.post in PostIds(t.posts)
    ensures var r := t.(comments := t.comments + [c]);
      Consistent(r) && KeysBelow(r, ng, np, nc + 1)
  {
    var cs := t.comments + [c];
    assert UniqueCommentIds(cs) by {
      forall i, j | 0 <= i < j < |cs| ensures cs[i].id != cs[j].id {
        assert cs[i] in t.comments || i == |t.comments|;
        if j == |t.comments| {
          assert cs[i] in t.comments;
        }
      }
    }
  }
}
