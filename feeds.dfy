/** The read side of the posts views: the home feed (`index`), a group's
    feed (`group_posts`), an author's profile (`profile`, with its
    `following` flag) and the feed of followed authors (`follow_index`).
    Each is a query over the post table in the default newest-first order,
    cut into pages of `LIMIT_OF_POSTS` by `get_page`. */
module Feeds {
  import opened Wrappers
  import opened Seqs
  import opened Models
  import opened Pagination
  import opened Responses

  datatype GroupPage = GroupPage(group: Group, page: Page<Post>)

  datatype ProfilePage = ProfilePage(author: User, page: Page<Post>, following: bool)

  /** `get_page`: the requested page of a listing, `LIMIT_OF_POSTS` per page. */
  function FeedPage(listing: seq<Post>, number: Option<int>): (r: Page<Post>)
    ensures |r.items| <= LIMIT_OF_POSTS
    ensures forall p :: p in r.items ==> p in listing
    ensures 1 <= r.number <= r.numPages
  {
    GetPage(listing, LIMIT_OF_POSTS, number)
  }

  /** A newest-first listing filtered by any row predicate is still newest first. */
  lemma FilterNewestFirst(s: seq<Post>, keep: Post -> bool)
    requires NewestFirst(s)
    ensures NewestFirst(Filter(s, keep))
  {
    FilterKeepsPairs(s, keep, (a: Post, b: Post) => a.pubDate >= b.pubDate);
  }

  // ---------------------------------------------------------------------
  // index

  /** The home feed: every post, newest first. */
  function Index(posts: seq<Post>, number: Option<int>): (r: Page<Post>)
    ensures forall p :: p in r.items ==> p in posts
  {
    FeedPage(Ordered(posts), number)
  }

  /** A home feed one post longer than a page: the first page, asked for
      without a page number, is full, and page 2 holds the single oldest
      remaining post. */
  lemma IndexOneMoreThanAPage(posts: seq<Post>)
    requires |posts| == LIMIT_OF_POSTS + 1
    ensures Index(posts, None).numPages == 2
    ensures |Index(posts, None).items| == LIMIT_OF_POSTS
    ensures |Index(posts, Some(2)).items| == 1
    ensures Index(posts, Some(2)).items == [Ordered(posts)[LIMIT_OF_POSTS]]
  {
    var listing := Ordered(posts);
    assert |listing| == |posts| by {
      assert |multiset(listing)| == |multiset(posts)|;
    }
    OneMoreThanAPage(listing, LIMIT_OF_POSTS);
  }

  // ---------------------------------------------------------------------
  // group_posts

  /** `get_object_or_404(Group, slug=slug)`. */
  function FindGroup(groups: seq<Group>, slug: string): (r: Option<Group>)
    ensures r.Some? ==> r.value in groups && r.value.slug == slug
    ensures r.None? ==> forall g :: g in groups ==> g.slug != slug
  {
    if groups == [] then None
    else if groups[0].slug == slug then Some(groups[0])
    else FindGroup(groups[1..], slug)
  }

  /** `group.posts.all()`: the posts of one group, newest first. */
  function GroupListing(posts: seq<Post>, gid: nat): (r: seq<Post>)
    ensures NewestFirst(r)
    ensures forall p :: p in r <==> p in posts && p.group == Some(gid)
    ensures forall p :: multiset(r)[p] == if p.group == Some(gid) then multiset(posts)[p] else 0
  {
    var keep := (p: Post) => p.group == Some(gid);
    FilterNewestFirst(Ordered(posts), keep);
    forall p ensures multiset(Filter(Ordered(posts), keep))[p] == if keep(p) then multiset(posts)[p] else 0 {
      FilterCount(Ordered(posts), keep, p);
    }
    Filter(Ordered(posts), keep)
  }

  function GroupPosts(groups: seq<Group>, posts: seq<Post>, slug: string, number: Option<int>)
    : (r: Response<GroupPage>)
    ensures r.NotFound? || r.Rendered?
    ensures r.NotFound? <==> forall g :: g in groups ==> g.slug != slug
    ensures r.Rendered? ==> r.value.group in groups && r.value.group.slug == slug
    ensures r.Rendered? ==> forall p :: p in r.value.page.items ==>
      p in posts && p.group == Some(r.value.group.id)
  {
    match FindGroup(groups, slug)
    case None => NotFound
    case Some(g) => Rendered(GroupPage(g, FeedPage(GroupListing(posts, g.id), number)))
  }

  /** With unique slugs the group feed is the feed of THE group with that slug. */
  lemma GroupPostsOfTheGroup(groups: seq<Group>, posts: seq<Post>, slug: string,
                             number: Option<int>, g: Group)
    requires UniqueSlugs(groups) && g in groups && g.slug == slug
    ensures GroupPosts(groups, posts, slug, number)
         == Rendered(GroupPage(g, FeedPage(GroupListing(posts, g.id), number)))
  {
    var r := GroupPosts(groups, posts, slug, number);
    SlugIdentifiesGroup(groups, r.value.group, g);
  }

  // ---------------------------------------------------------------------
  // profile

  /** `author.posts.all()`: the posts of one author, newest first. */
  function AuthorListing(posts: seq<Post>, author: User): (r: seq<Post>)
    ensures NewestFirst(r)
    ensures forall p :: p in r <==> p in posts && p.author == author
    ensures forall p :: multiset(r)[p] == if p.author == author then multiset(posts)[p] else 0
  {
    var keep := (p: Post) => p.author == author;
    FilterNewestFirst(Ordered(posts), keep);
    forall p ensures multiset(Filter(Ordered(posts), keep))[p] == if keep(p) then multiset(posts)[p] else 0 {
      FilterCount(Ordered(posts), keep, p);
    }
    Filter(Ordered(posts), keep)
  }

  function Profile(users: set<User>, posts: seq<Post>, follows: seq<Follow>,
                   caller: Option<User>, username: User, number: Option<int>)
    : (r: Response<ProfilePage>)
    ensures r.NotFound? || r.Rendered?
    ensures r.NotFound? <==> username !in users
    ensures r.Rendered? ==> r.value.author == username
    ensures r.Rendered? ==> forall p :: p in r.value.page.items ==> p in posts && p.author == username
    ensures r.Rendered? ==>
      (r.value.following <==> caller.Some? && Follow(caller.value, username) in follows)
  {
    if username !in users then NotFound
    else
      var following := caller.Some? && Follow(caller.value, username) in follows;
      Rendered(ProfilePage(username, FeedPage(AuthorListing(posts, username), number), following))
  }

  /** A group feed over a group of `LIMIT_OF_POSTS + 1` posts, among any
      other posts: the first page, asked for without a page number, is
      full, and page 2 holds one post. */
  lemma GroupFeedOneMoreThanAPage(groups: seq<Group>, posts: seq<Post>, g: Group)
    requires UniqueSlugs(groups) && g in groups
    requires |GroupListing(posts, g.id)| == LIMIT_OF_POSTS + 1
    ensures var page1 := GroupPosts(groups, posts, g.slug, None);
      page1.Rendered? && page1.value.page.numPages == 2 && |page1.value.page.items| == LIMIT_OF_POSTS
    ensures var page2 := GroupPosts(groups, posts, g.slug, Some(2));
      page2.Rendered? && |page2.value.page.items| == 1
  {
    GroupPostsOfTheGroup(groups, posts, g.slug, None, g);
    GroupPostsOfTheGroup(groups, posts, g.slug, Some(2), g);
    OneMoreThanAPage(GroupListing(posts, g.id), LIMIT_OF_POSTS);
  }

  /** A profile of an author with `LIMIT_OF_POSTS + 1` posts, among any
      other posts: the first page, asked for without a page number, is
      full, and page 2 holds one post. */
  lemma ProfileOneMoreThanAPage(users: set<User>, posts: seq<Post>, follows: seq<Follow>,
                                caller: Option<User>, author: User)
    requires author in users
    requires |AuthorListing(posts, author)| == LIMIT_OF_POSTS + 1
    ensures var page1 := Profile(users, posts, follows, caller, author, None);
      page1.Rendered? && page1.value.page.numPages == 2 && |page1.value.page.items| == LIMIT_OF_POSTS
    ensures var page2 := Profile(users, posts, follows, caller, author, Some(2));
      page2.Rendered? && |page2.value.page.items| == 1
  {
    OneMoreThanAPage(AuthorListing(posts, author), LIMIT_OF_POSTS);
  }

  // ---------------------------------------------------------------------
  // follow_index

  function Repeat(p: Post, n: nat): (r: seq<Post>)
    ensures |r| == n && forall i :: 0 <= i < n ==> r[i] == p
  {
    if n == 0 then [] else [p] + Repeat(p, n - 1)
  }

  /** `Post.objects.filter(author__following__user=user)` as the join it is:
      a post appears once for every follow row of `user` to its author. */
  function FollowJoin(s: seq<Post>, follows: seq<Follow>, user: User): seq<Post>
  {
    if s == [] then []
    else Repeat(s[0], multiset(follows)[Follow(user, s[0].author)]) + FollowJoin(s[1..], follows, user)
  }

  function FollowIndex(posts: seq<Post>, follows: seq<Follow>, caller: Option<User>, number: Option<int>)
    : (r: Response<Page<Post>>)
    ensures r.LoginRedirect? || r.Rendered?
    ensures r.LoginRedirect? <==> caller.None?
    ensures r.Rendered? ==> forall p :: p in r.value.items ==>
      p in posts && Follow(caller.value, p.author) in follows
  {
    match caller
    case None => LoginRedirect
    case Some(u) =>
      FollowJoinMembers(Ordered(posts), follows, u);
      Rendered(FeedPage(FollowJoin(Ordered(posts), follows, u), number))
  }

  lemma {:induction false} FollowJoinMembers(s: seq<Post>, follows: seq<Follow>, user: User)
    ensures forall p :: p in FollowJoin(s, follows, user) <==> p in s && Follow(user, p.author) in follows
  {
    if s != [] {
      FollowJoinMembers(s[1..], follows, user);
      forall p ensures p in FollowJoin(s, follows, user) <==> p in s && Follow(user, p.author) in follows {
        var rep := Repeat(s[0], multiset(follows)[Follow(user, s[0].author)]);
        assert p in rep <==> p == s[0] && Follow(user, s[0].author) in follows by {
          if p in rep {
            var i :| 0 <= i < |rep| && rep[i] == p;
          }
        }
        assert p in s <==> p == s[0] || p in s[1..] by {
          assert s == [s[0]] + s[1..];
        }
      }
    }
  }

  /** Because a (user, author) follow row is unique, the join lists every
      followed author's post exactly once: it is the plain filter. */
  lemma {:induction false} FollowJoinIsFilter(s: seq<Post>, follows: seq<Follow>, user: User)
    requires UniqueFollows(follows)
    ensures FollowJoin(s, follows, user) == Filter(s, (p: Post) => Follow(user, p.author) in follows)
  {
    if s != [] {
      FollowJoinIsFilter(s[1..], follows, user);
      var e := Follow(user, s[0].author);
      if e in follows {
        NoDuplicatesCount(follows, e);
        assert Repeat(s[0], 1) == [s[0]];
      }
    }
  }

  /** The follow feed holds exactly the posts whose author the caller
      follows, newest first, each once. */
  lemma FollowIndexExact(posts: seq<Post>, follows: seq<Follow>, user: User)
    requires UniqueFollows(follows)
    ensures var listing := FollowJoin(Ordered(posts), follows, user);
      && NewestFirst(listing)
      && (forall p :: p in listing <==> p in posts && Follow(user, p.author) in follows)
      && (forall p :: p in listing ==> multiset(listing)[p] == multiset(posts)[p])
  {
    var keep := (p: Post) => Follow(user, p.author) in follows;
    FollowJoinIsFilter(Ordered(posts), follows, user);
    FilterNewestFirst(Ordered(posts), keep);
    forall p | p in Filter(Ordered(posts), keep)
      ensures multiset(Filter(Ordered(posts), keep))[p] == multiset(posts)[p]
    {
      FilterCount(Ordered(posts), keep, p);
    }
  }

  /** A caller who follows nobody gets an empty follow feed, not an error. */
  lemma {:induction false} NoFollowsEmptyFeed(posts: seq<Post>, follows: seq<Follow>, user: User,
                                              number: Option<int>)
    requires forall f :: f in follows ==> f.user != user
    ensures FollowIndex(posts, follows, Some(user), number)
         == Rendered(Page(1, [], 1))
  {
    FollowJoinEmpty(Ordered(posts), follows, user);
  }

  lemma {:induction false} FollowJoinEmpty(s: seq<Post>, follows: seq<Follow>, user: User)
    requires forall f :: f in follows ==> f.user != user
    ensures FollowJoin(s, follows, user) == []
  {
    if s != [] {
      FollowJoinEmpty(s[1..], follows, user);
      assert Follow(user, s[0].author) !in multiset(follows);
    }
  }
}
