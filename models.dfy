/** The records of the posts app (groups, posts, comments, follow edges),
    the table-level constraints, the default ordering of posts, the string
    forms of posts and groups, and the referential actions taken when a
    user, a post or a group row is deleted. */
module Models {
  import opened Wrappers
  import opened Seqs

  /** A user is identified by its username, which the identity service keeps unique. */
  type User = string

  /** An uploaded image, as the reference the blob store hands back. */
  type Image = string

  /** Page length of every feed (the `LIMIT_OF_POSTS` setting). */
  const LIMIT_OF_POSTS: nat := 10

  /** Length of a post's string form (the `CROP_TEXT` setting). */
  const CROP_TEXT: nat := 15

  datatype Group = Group(id: nat, title: string, slug: string, description: string)

  /** `group` is a nullable foreign key to `Group.id`; `pubDate` is stamped once, on insert. */
  datatype Post = Post(id: nat, text: string, pubDate: int, author: User,
                       group: Option<nat>, image: Option<Image>)

  /** `post` is a foreign key to `Post.id`; `created` is stamped once, on insert. */
  datatype Comment = Comment(id: nat, post: nat, author: User, text: string, created: int)

  /** A directed edge: `user` follows `author`. */
  datatype Follow = Follow(user: User, author: User)

  /** The string form of a post: its text cropped to `CROP_TEXT` characters. */
  function PostStr(p: Post): (s: string)
    ensures s <= p.text
    ensures |s| == if |p.text| < CROP_TEXT then |p.text| else CROP_TEXT
  {
    if |p.text| <= CROP_TEXT then p.text else p.text[..CROP_TEXT]
  }

  /** The string form of a group is its title. */
  function GroupStr(g: Group): (s: string)
    ensures s == g.title
  {
    g.title
  }

  // ---------------------------------------------------------------------
  // Default ordering: newest first

  ghost predicate NewestFirst(s: seq<Post>)
  {
    forall i, j :: 0 <= i < j < |s| ==> s[i].pubDate >= s[j].pubDate
  }

  function InsertByDate(p: Post, s: seq<Post>): (r: seq<Post>)
    requires NewestFirst(s)
    ensures NewestFirst(r)
    ensures multiset(r) == multiset(s) + multiset{p}
    decreases |s|
  {
    if s == [] || p.pubDate >= s[0].pubDate then
      PrependNewest(p, s);
      [p] + s
    else
      assert s == [s[0]] + s[1..];
      var rest := InsertByDate(p, s[1..]);
      HeadIsNewest(s, p, rest);
      PrependNewest(s[0], rest);
      [s[0]] + rest
  }

  /** The head of a newest-first listing is no older than anything in its
      tail, nor than an older post added to that tail. */
  lemma HeadIsNewest(s: seq<Post>, p: Post, rest: seq<Post>)
    requires NewestFirst(s) && s != [] && p.pubDate < s[0].pubDate
    requires multiset(rest) == multiset(s[1..]) + multiset{p}
    ensures forall x :: x in rest ==> s[0].pubDate >= x.pubDate
  {
    forall x | x in rest ensures s[0].pubDate >= x.pubDate {
      assert x in multiset(rest);
      if x != p {
        assert x in s[1..];
        var k :| 0 <= k < |s[1..]| && s[1..][k] == x;
        assert s[k + 1] == x;
      }
    }
  }

  /** A post no older than every post of a newest-first listing can head it. */
  lemma PrependNewest(x: Post, s: seq<Post>)
    requires NewestFirst(s)
    requires forall y :: y in s ==> x.pubDate >= y.pubDate
    ensures NewestFirst([x] + s)
  {
    forall i, j | 0 <= i < j < |[x] + s| ensures ([x] + s)[i].pubDate >= ([x] + s)[j].pubDate {
      if i == 0 {
        assert ([x] + s)[j] == s[j - 1];
        assert s[j - 1] in s;
      }
    }
  }

  /** Every listing of posts: all of them, ordered by `pubDate` descending. */
  function Ordered(posts: seq<Post>): (r: seq<Post>)
    ensures NewestFirst(r)
    ensures multiset(r) == multiset(posts)
    ensures forall p :: p in r <==> p in posts
  {
    if posts == [] then []
    else
      assert posts == [posts[0]] + posts[1..];
      var r := InsertByDate(posts[0], Ordered(posts[1..]));
      assert forall p :: p in r <==> p in posts by {
        forall p ensures p in r <==> p in posts {
          assert p in r <==> p in multiset(r);
          assert p in posts <==> p in multiset(posts);
        }
      }
      r
  }

  // ---------------------------------------------------------------------
  // The tables and their constraints

  /** The rows of every table the posts app owns, plus the known users. */
  datatype Tables = Tables(users: set<User>, groups: seq<Group>, posts: seq<Post>,
                           comments: seq<Comment>, follows: seq<Follow>)

  function PostIds(posts: seq<Post>): set<nat>
  {
    set p | p in posts :: p.id
  }

  function GroupIds(groups: seq<Group>): set<nat>
  {
    set g | g in groups :: g.id
  }

  ghost predicate UniquePostIds(posts: seq<Post>)
  {
    forall i, j :: 0 <= i < j < |posts| ==> posts[i].id != posts[j].id
  }

  ghost predicate UniqueCommentIds(comments: seq<Comment>)
  {
    forall i, j :: 0 <= i < j < |comments| ==> comments[i].id != comments[j].id
  }

  ghost predicate UniqueGroupIds(groups: seq<Group>)
  {
    forall i, j :: 0 <= i < j < |groups| ==> groups[i].id != groups[j].id
  }

  /** `Group.slug` is declared unique. */
  ghost predicate UniqueSlugs(groups: seq<Group>)
  {
    forall i, j :: 0 <= i < j < |groups| ==> groups[i].slug != groups[j].slug
  }

  /** The `unique_following` constraint: at most one row per (user, author) pair. */
  ghost predicate UniqueFollows(follows: seq<Follow>)
  {
    NoDuplicates(follows)
  }

  /** Every foreign key points at an existing row. */
  ghost predicate ReferencesResolve(t: Tables)
  {
    && (forall p :: p in t.posts ==> p.author in t.users)
    && (forall p :: p in t.posts && p.group.Some? ==> p.group.value in GroupIds(t.groups))
    && (forall c :: c in t.comments ==> c.author in t.users && c.post in PostIds(t.posts))
    && (forall f :: f in t.follows ==> f.user in t.users && f.author in t.users)
  }

  /** Primary keys, unique constraints and foreign keys all hold. */
  ghost predicate Consistent(t: Tables)
  {
    && UniqueGroupIds(t.groups) && UniqueSlugs(t.groups)
    && UniquePostIds(t.posts) && UniqueCommentIds(t.comments)
    && UniqueFollows(t.follows)
    && ReferencesResolve(t)
  }

  /** Every primary key handed out so far is below the next one to hand out. */
  ghost predicate KeysBelow(t: Tables, nextGroupId: nat, nextPostId: nat, nextCommentId: nat)
  {
    && (forall g :: g in t.groups ==> g.id < nextGroupId)
    && (forall p :: p in t.posts ==> p.id < nextPostId)
    && (forall c :: c in t.comments ==> c.id < nextCommentId)
  }

  /** The `unique_following` constraint: a (user, author) follow row
      occurs at most once in the follow table. */
  lemma AtMostOneFollow(t: Tables, f: Follow)
    requires Consistent(t)
    ensures multiset(t.follows)[f] <= 1
    ensures f in t.follows ==> multiset(t.follows)[f] == 1
  {
    if f in t.follows {
      NoDuplicatesCount(t.follows, f);
    }
  }

  /** A group slug identifies at most one group. */
  lemma SlugIdentifiesGroup(groups: seq<Group>, g1: Group, g2: Group)
    requires UniqueSlugs(groups)
    requires g1 in groups && g2 in groups && g1.slug == g2.slug
    ensures g1 == g2
  {
    var i :| 0 <= i < |groups| && groups[i] == g1;
    var j :| 0 <= j < |groups| && groups[j] == g2;
    assert !(i < j) && !(j < i);
  }

  // ---------------------------------------------------------------------
  // Referential actions on delete

  /** `Post.group` is `SET_NULL`: posts of a deleted group stay, ungrouped. */
  function UngroupPosts(posts: seq<Post>, gid: nat): (r: seq<Post>)
    ensures |r| == |posts|
    ensures forall i :: 0 <= i < |posts| ==>
      r[i] == if posts[i].group == Some(gid) then posts[i].(group := None) else posts[i]
  {
    if posts == [] then []
    else
      var p := posts[0];
      [if p.group == Some(gid) then p.(group := None) else p] + UngroupPosts(posts[1..], gid)
  }

  /** Deleting a group row. */
  function DeleteGroup(t: Tables, gid: nat): (r: Tables)
  {
    t.(groups := Filter(t.groups, (g: Group) => g.id != gid),
       posts := UngroupPosts(t.posts, gid))
  }

  /** Deleting a post row: its comments go with it (`Comment.post` is `CASCADE`). */
  function DeletePost(t: Tables, id: nat): (r: Tables)
  {
    t.(posts := Filter(t.posts, (p: Post) => p.id != id),
       comments := Filter(t.comments, (c: Comment) => c.post != id))
  }

  /** The ids of the posts written by `u`. */
  function PostIdsBy(posts: seq<Post>, u: User): (ids: set<nat>)
    ensures forall id :: id in ids <==> exists p :: p in posts && p.author == u && p.id == id
  {
    set p | p in posts && p.author == u :: p.id
  }

  /** Deleting a user row: `Post.author`, `Comment.author`, `Follow.user` and
      `Follow.author` are all `CASCADE`, and the deleted posts take their
      comments with them. */
  function DeleteUser(t: Tables, u: User): (r: Tables)
  {
    var gone := PostIdsBy(t.posts, u);
    Tables(t.users - {u}, t.groups,
           Filter(t.posts, (p: Post) => p.author != u),
           Filter(t.comments, (c: Comment) => c.author != u && c.post !in gone),
           Filter(t.follows, (f: Follow) => f.user != u && f.author != u))
  }

  /** Deleting a group deletes no post and no other group: every post keeps
      its id, author, text, date and image, only the posts of that group lose
      their group, and every other group row stays. */
  lemma {:induction false} DeleteGroupKeepsPosts(t: Tables, gid: nat)
    ensures var r := DeleteGroup(t, gid);
      && |r.posts| == |t.posts|
      && (forall i :: 0 <= i < |t.posts| ==>
            r.posts[i].(group := t.posts[i].group) == t.posts[i]
            && r.posts[i].group == (if t.posts[i].group == Some(gid) then None else t.posts[i].group))
      && gid !in GroupIds(r.groups)
      && (forall g :: g in r.groups <==> g in t.groups && g.id != gid)
      && r.users == t.users && r.comments == t.comments && r.follows == t.follows
  {
  }

  /** Deleting a group keeps every constraint of the tables. */
  lemma {:induction false} DeleteGroupConsistent(t: Tables, gid: nat)
    requires Consistent(t)
    ensures Consistent(DeleteGroup(t, gid))
  {
    var r := DeleteGroup(t, gid);
    FilterKeepsPairs(t.groups, (g: Group) => g.id != gid, (a: Group, b: Group) => a.id != b.id);
    FilterKeepsPairs(t.groups, (g: Group) => g.id != gid, (a: Group, b: Group) => a.slug != b.slug);
    UngroupKeepsIds(t.posts, gid);
    UngroupResolves(t, gid);
  }

  lemma {:induction false} UngroupKeepsIds(posts: seq<Post>, gid: nat)
    requires UniquePostIds(posts)
    ensures UniquePostIds(UngroupPosts(posts, gid))
    ensures PostIds(UngroupPosts(posts, gid)) == PostIds(posts)
  {
    var r := UngroupPosts(posts, gid);
    forall i, j | 0 <= i < j < |r| ensures r[i].id != r[j].id {
      assert r[i].id == posts[i].id && r[j].id == posts[j].id;
    }
    forall id | id in PostIds(posts) ensures id in PostIds(r) {
      var i :| 0 <= i < |posts| && posts[i].id == id;
      assert r[i] in r;
    }
    forall id | id in PostIds(r) ensures id in PostIds(posts) {
      var i :| 0 <= i < |r| && r[i].id == id;
      assert posts[i] in posts;
    }
  }

  lemma {:induction false} UngroupResolves(t: Tables, gid: nat)
    requires ReferencesResolve(t)
    ensures forall p :: p in DeleteGroup(t, gid).posts ==>
      p.author in t.users && (p.group.Some? ==> p.group.value in GroupIds(DeleteGroup(t, gid).groups))
  {
    var r := DeleteGroup(t, gid);
    forall p | p in r.posts ensures p.author in r.users
      && (p.group.Some? ==> p.group.value in GroupIds(r.groups))
    {
      var i :| 0 <= i < |r.posts| && r.posts[i] == p;
      assert t.posts[i] in t.posts;
      if p.group.Some? {
        var g :| g in t.groups && g.id == p.group.value;
        assert g in r.groups;
      }
    }
  }

  /** Deleting a post deletes exactly the comments on it and nothing else. */
  lemma {:induction false} DeletePostCascades(t: Tables, id: nat)
    ensures var r := DeletePost(t, id);
      && (forall p :: p in r.posts <==> p in t.posts && p.id != id)
      && (forall c :: c in r.comments <==> c in t.comments && c.post != id)
      && r.users == t.users && r.groups == t.groups && r.follows == t.follows
  {
  }

  /** Deleting a post keeps every constraint of the tables. */
  lemma {:induction false} DeletePostConsistent(t: Tables, id: nat)
    requires Consistent(t)
    ensures Consistent(DeletePost(t, id))
  {
    var r := DeletePost(t, id);
    forall c | c in r.comments ensures c.post in PostIds(r.posts) {
      var p :| p in t.posts && p.id == c.post;
      assert p in r.posts;
    }
    FilterKeepsPairs(t.posts, (p: Post) => p.id != id, (a: Post, b: Post) => a.id != b.id);
    FilterKeepsPairs(t.comments, (c: Comment) => c.post != id, (a: Comment, b: Comment) => a.id != b.id);
  }

  /** Deleting a user deletes their posts, their comments, every comment on
      their posts and their follow edges in both directions, and nothing else. */
  lemma {:induction false} DeleteUserCascades(t: Tables, u: User)
    ensures var r := DeleteUser(t, u);
      && r.users == t.users - {u}
      && (forall p :: p in r.posts <==> p in t.posts && p.author != u)
      && (forall c :: c in r.comments <==>
            c in t.comments && c.author != u
            && forall p :: p in t.posts && p.id == c.post ==> p.author != u)
      && (forall f :: f in r.follows <==> f in t.follows && f.user != u && f.author != u)
      && r.groups == t.groups
  {
    var gone := PostIdsBy(t.posts, u);
    forall c | c in t.comments
      ensures c.post !in gone <==> forall p :: p in t.posts && p.id == c.post ==> p.author != u
    {
      if c.post in gone {
        var p :| p in t.posts && p.author == u && p.id == c.post;
      }
    }
  }

  /** Deleting a user keeps every constraint of the tables: no surviving row
      points at the user or at one of their posts. */
  lemma {:induction false} DeleteUserConsistent(t: Tables, u: User)
    requires Consistent(t)
    ensures Consistent(DeleteUser(t, u))
  {
    var gone := PostIdsBy(t.posts, u);
    FilterKeepsPairs(t.posts, (p: Post) => p.author != u, (a: Post, b: Post) => a.id != b.id);
    FilterKeepsPairs(t.comments, (c: Comment) => c.author != u && c.post !in gone,
                     (a: Comment, b: Comment) => a.id != b.id);
    FilterNoDuplicates(t.follows, (f: Follow) => f.user != u && f.author != u);
    DeleteUserResolves(t, u);
  }

  lemma {:induction false} DeleteUserResolves(t: Tables, u: User)
    requires ReferencesResolve(t)
    ensures ReferencesResolve(DeleteUser(t, u))
  {
    var r := DeleteUser(t, u);
    assert forall p :: p in r.posts ==> p.author in r.users;
    assert forall p :: p in r.posts && p.group.Some? ==> p.group.value in GroupIds(r.groups);
    assert forall f :: f in r.follows ==> f.user in r.users && f.author in r.users;
    DeleteUserCommentsResolve(t, u);
  }

  lemma {:induction false} DeleteUserCommentsResolve(t: Tables, u: User)
    requires ReferencesResolve(t)
    ensures var r := DeleteUser(t, u);
      forall c :: c in r.comments ==> c.author in r.users && c.post in PostIds(r.posts)
  {
    var r := DeleteUser(t, u);
    var gone := PostIdsBy(t.posts, u);
    forall c | c in r.comments ensures c.author in r.users && c.post in PostIds(r.posts) {
      assert c in t.comments && c.post !in gone;
      var p :| p in t.posts && p.id == c.post;
      assert p in r.posts;
    }
  }
}
