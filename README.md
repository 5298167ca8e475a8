# yatube posts: a verified model of the post, comment and follow domain

This project models the core of the `posts` app of the yatube blogging
site. That core is its records and their table constraints, the read-side
feeds, and the handlers that write posts, comments and follow edges. The
database is an in-memory store: the group, post, comment and follow
tables are Dafny sequences of rows, and the known users are a set of
usernames.

- `wrappers.dfy`: `Option`.
- `responses.dfy`: `Response`, the one answer type of every view: a
  rendered page, the form shown again, a redirect, the login redirect or
  not-found.
- `seqs.dfy`: the sequence helpers the queries use. `Filter` is a
  queryset `filter()`. `Remove` drops every copy of a row,
  which in a duplicate-free table is exactly one row (`RemoveOne`).
- `models.dfy`: the `Group`, `Post`, `Comment` and `Follow` records. It
  also has:
  - the uniqueness constraints and referential integrity of the tables (`Consistent`);
  - the default newest-first ordering of posts (`Ordered`);
  - the string forms `PostStr` and `GroupStr`;
  - the referential actions on delete (`DeleteGroup`, `DeletePost`, `DeleteUser`).
- `pagination.dfy`: `get_page`, a paginator with a fixed page length.
- `forms.dfy`: `PostForm` and `CommentForm`, which validate and clean the
  submitted `text`, `group` and `image`.
- `feeds.dfy`: the read views `index`, `group_posts`, `profile` and
  `follow_index`. They are pure functions of the tables and the caller.
- `views.dfy`: the write views, as methods of the class `Store`. These
  are `post_create`, `post_edit`, `add_comment`, `profile_follow`,
  `profile_unfollow`, plus the row deletions that trigger the `on_delete`
  rules. Each method:
  - keeps the store invariant `Valid()`, meaning every constraint holds;
  - states the new contents of every table it writes and, for a view, its
    response;
  - states that every other table is unchanged.

The caller is an `Option<User>`, where `None` is an anonymous visitor.
Every `login_required` handler sends `None` to the login page before it
reads anything. Users are identified by username. The clock that stamps
`pub_date` and `created` is a parameter `now`. The settings
`LIMIT_OF_POSTS` and `CROP_TEXT` are not part of this model. The model
chooses the values 10 and 15 for them, and no proof depends on those values
beyond their being positive.

`follow_index` is modelled as the join the ORM performs: a post appears
once for every follow row from the caller to its author
(`Feeds.FollowJoin`). `Feeds.FollowJoinIsFilter` proves that, under the
unique `(user, author)` constraint, this join is the plain filter.

## Model

| member | source | states |
|---|---|---|
| Models.PostStr | yatube/posts/models.py:70-71 | A post's string form is a prefix of its text, of length `CROP_TEXT`, or the whole text when that is shorter |
| Models.GroupStr | yatube/posts/models.py:29-30 | A group's string form is its title |
| Models.InsertByDate | yatube/posts/models.py:65-66 | Inserting a post into a newest-first listing keeps it newest first and adds exactly that post |
| Models.Ordered | yatube/posts/models.py:65-66 | The default listing is newest first by `pub_date` and is a permutation of all the posts |
| Models.AtMostOneFollow | yatube/posts/models.py:117-119 | In a consistent store, the `unique_following` constraint holds: a (user, author) follow row occurs at most once, and exactly once when present |
| Models.SlugIdentifiesGroup | yatube/posts/models.py:15-19 | Under the unique-slug constraint, two groups with the same slug are the same group |
| Models.UngroupPosts | yatube/posts/models.py:50-57 | `SET_NULL`: each post of the deleted group loses its group, and every other post is kept as it was, position by position |
| Models.DeleteGroupKeepsPosts | yatube/posts/models.py:50-57 | Deleting a group deletes no post. Every post keeps all its other fields, the group id is gone, every other group is kept, and users, comments and follows are untouched |
| Models.DeleteGroupConsistent | yatube/posts/models.py:50-57 | Deleting a group keeps every table constraint: unique ids and slugs, and references that resolve |
| Models.DeletePostCascades | yatube/posts/models.py:75-80 | Deleting a post removes exactly that post and exactly the comments on it, and nothing else |
| Models.DeletePostConsistent | yatube/posts/models.py:75-80 | Deleting a post keeps every table constraint, so no comment is left dangling |
| Models.DeleteUserCascades | yatube/posts/models.py:43-112 | Deleting a user removes their posts, their comments, every comment on their posts, and their follow edges in both directions. It removes nothing else, and groups are untouched |
| Models.DeleteUserConsistent | yatube/posts/models.py:43-112 | Deleting a user keeps every table constraint, so no surviving row points at the user or at one of their posts |
| Pagination.NumPages | yatube/posts/views.py:11-14 | The page count is at least 1, and it is the least `n` such that `n` pages hold the listing |
| Pagination.PageSlice | yatube/posts/views.py:11-14 | A page holds at most `perPage` items, every page but the last is full, and a non-empty listing has no empty page |
| Pagination.GetPage | yatube/posts/views.py:11-14 | The page served is in range. It is the requested page when that exists, and its items are that page's slice |
| Pagination.PagesThroughIsPrefix | yatube/posts/views.py:11-14 | The first `n` pages laid end to end are exactly the first `n * perPage` items: no gap and no overlap |
| Pagination.AllPagesCoverListing | yatube/posts/views.py:11-14 | All pages together give back the whole listing in order |
| Pagination.OneMoreThanAPage | yatube/posts/tests/test_views.py:175-192 | A listing of `perPage + 1` items has two pages: a full first page, and a second page holding the last item |
| Forms.Strip | yatube/posts/forms.py:8 | The cleaned text is the input with its leading and trailing whitespace removed, and nothing else. It is the slice that starts after the leading spaces, everything after it is whitespace, it neither starts nor ends with whitespace, and it is empty exactly when the input is blank |
| Forms.StripKeepsText | yatube/posts/forms.py:8 | A character that is not whitespace is in the cleaned text exactly when it is in the submitted text |
| Forms.StripIdempotent | yatube/posts/forms.py:8 | Cleaning already cleaned text changes nothing |
| Forms.ApplyImage | yatube/posts/models.py:59-63 | With no file the post keeps its image. The clear box empties it, and an upload replaces it |
| Forms.CleanPost | yatube/posts/forms.py:6-14 | The post form is valid exactly when it is bound, its text is not blank and holds no null character, and its group is empty or an existing group. The cleaned data is the submitted data with its text stripped, so the group and image pass through unchanged |
| Forms.CleanPostIsValid | yatube/posts/forms.py:6-14 | Cleaned post data has non-blank, stripped text, and cleaning it again gives it back unchanged |
| Forms.CleanComment | yatube/posts/forms.py:17-23 | The comment form is valid exactly when it is bound, its text has a non-space character and it holds no null character. The cleaned text is the submitted text, stripped |
| Feeds.FeedPage | yatube/posts/views.py:11-14 | A feed page has at most `LIMIT_OF_POSTS` posts, all from the listing, and an in-range number |
| Feeds.FilterNewestFirst | yatube/posts/models.py:65-66 | Filtering a newest-first listing keeps it newest first |
| Feeds.Index | yatube/posts/views.py:17-24 | The home feed shows only existing posts |
| Feeds.IndexOneMoreThanAPage | yatube/posts/tests/test_views.py:175-192 | With `LIMIT_OF_POSTS + 1` posts, the home feed has two pages: the first page, asked for without a page number, holds `LIMIT_OF_POSTS` posts, and page 2 holds the one oldest |
| Feeds.FindGroup | yatube/posts/views.py:28 | Finds a group with the requested slug, or answers none exactly when no group has that slug |
| Feeds.GroupListing | yatube/posts/views.py:31 | A group's listing is newest first and holds exactly the posts of that group, each as often as in the post table |
| Feeds.GroupPosts | yatube/posts/views.py:27-32 | Not found exactly when no group has the slug. Otherwise the page shows that group, and only posts of that group |
| Feeds.GroupPostsOfTheGroup | yatube/posts/views.py:27-32 | With unique slugs, the group feed is the paged listing of the one group with that slug |
| Feeds.AuthorListing | yatube/posts/views.py:43 | An author's listing is newest first and holds exactly that author's posts, each as often as in the post table |
| Feeds.Profile | yatube/posts/views.py:35-45 | Not found exactly when the username is unknown. Otherwise the page shows only that author's posts, and `following` is true exactly when the caller is authenticated and follows the author |
| Feeds.GroupFeedOneMoreThanAPage | yatube/posts/tests/test_views.py:175-192 | When a group has `LIMIT_OF_POSTS + 1` posts, among any number of other posts, its feed has two pages: the first page, asked for without a page number, holds `LIMIT_OF_POSTS` posts, and page 2 holds one |
| Feeds.ProfileOneMoreThanAPage | yatube/posts/tests/test_views.py:175-192 | When an author has `LIMIT_OF_POSTS + 1` posts, among any number of other posts, their profile has two pages: the first page, asked for without a page number, holds `LIMIT_OF_POSTS` posts, and page 2 holds one |
| Feeds.FollowIndex | yatube/posts/views.py:100-111 | An anonymous caller is sent to log in, and only an anonymous caller is. The feed shows only posts whose author the caller follows |
| Feeds.FollowJoinMembers | yatube/posts/views.py:106-108 | A post is in the join exactly when it is listed and the caller follows its author |
| Feeds.FollowJoinIsFilter | yatube/posts/views.py:106-108 | With unique follow edges, the join equals the filter over followed authors, so each post appears once |
| Feeds.FollowIndexExact | yatube/posts/views.py:106-108 | The follow feed is newest first and holds exactly the posts of followed authors, each as often as in the post table |
| Feeds.NoFollowsEmptyFeed | yatube/posts/views.py:100-111 | A caller who follows nobody gets one empty page |
| Views.FindPost | yatube/posts/views.py:71 | Finds the post with that id, or answers none exactly when no post has that id |
| Views.EditPost | yatube/posts/views.py:84 | Saving the edit form keeps the number of posts |
| Views.EditPostOnlyTarget | yatube/posts/views.py:74-84 | Saving the edit form writes only `text`, `group` and `image` of the target post. Its `id`, `author` and `pub_date`, and every other post, are unchanged |
| Views.FollowedAddsOneEdge | yatube/posts/views.py:117-118 | After get-or-create, the edge is present exactly once and the follow table is still duplicate-free. No other edge appears or vanishes |
| Views.FollowedIdempotent | yatube/posts/views.py:117-118 | Following twice is the same as following once |
| Views.UnfollowedRemovesOneEdge | yatube/posts/views.py:124-128 | Unfollowing removes exactly that edge: one row fewer, no duplicates, and every other edge is kept |
| Views.EditPostConsistent | yatube/posts/views.py:84 | Saving a valid edit form keeps every table constraint |
| Views.AddCommentConsistent | yatube/posts/views.py:93-96 | Inserting a comment with a fresh id, by a known user, on an existing post keeps every table constraint |
| Views.Store.AddGroup | yatube/posts/models.py:15-19 | A group is inserted exactly when its slug is free, with the next id, and no other table changes |
| Views.Store.PostCreate | yatube/posts/views.py:55-66 | An anonymous caller is sent to log in, and an invalid form is shown again; in both cases no post is added. A valid form appends exactly one post with the next id, the cleaned data and the current time, whose author is the caller whatever was submitted. The caller is sent to their profile, and the store stays consistent |
| Views.Store.PostEdit | yatube/posts/views.py:69-85 | Anonymous callers go to log in, and an unknown post is not found. A caller who is not the author is sent to the post and nothing changes. An invalid form is shown again and nothing changes. A valid form from the author saves the edit and goes to the post. No other table changes |
| Views.Store.AddComment | yatube/posts/views.py:88-97 | Anonymous callers go to log in, and an unknown post is not found; in both cases nothing is added. Otherwise the caller is sent to the post. A valid form appends exactly one comment by the caller on that post, with the cleaned text and the current time, and an invalid one adds nothing |
| Views.Store.ProfileFollow | yatube/posts/views.py:114-119 | Anonymous callers go to log in, and an unknown user is not found. Following oneself changes nothing. Otherwise the edge is got-or-created. The caller is sent to the profile, and only the follow table may change |
| Views.Store.ProfileUnfollow | yatube/posts/views.py:122-129 | Anonymous callers go to log in. A missing edge is not found and nothing changes. Otherwise exactly that edge is deleted and the caller is sent to the profile |
| Views.Store.DeleteGroup | yatube/posts/models.py:50-57 | The store after deleting a group is the `SET_NULL` rule applied to its tables, and it stays consistent |
| Views.Store.DeletePost | yatube/posts/models.py:75-80 | The store after deleting a post is the cascade rule applied to its tables, and it stays consistent |
| Views.Store.DeleteUser | yatube/posts/models.py:43-112 | The store after deleting a user is the cascade rules applied to its tables, and it stays consistent |

## Left out

- Rendering, templates, HTTP status codes and URL reversing are not modelled. A view's answer is a tagged `Response`.
- The `cache_page(20)` cache on `index` is not modelled. It depends on wall-clock time, and the model always answers from the current tables.
- Image storage is not modelled: the blob store, the `upload_to` prefix and file validation. An image is an opaque reference.
- The page-number query string is not parsed. A page number that is missing or is not an integer is `None`, which gives page 1. An integer out of range gives the last page, which is Django's `Paginator.get_page` rule; the paginator itself is library code. Orphans are zero and an empty first page is allowed.
- Field metadata is not modelled: labels, verbose names, help texts and `max_length`.
- `post_detail` is not modelled: it only renders one post, whose lookup is `Views.FindPost`, with an unbound comment form.
- The users and about apps, meaning signup, login and password flows, are not part of this model. A known caller is a username in the store's `users` set.
- Concurrency, and the database's own enforcement of constraints, are not modelled. The store checks the unique slug itself when a group is inserted. Follow edges stay unique because get-or-create is used.
- Users are never inserted after the store is created. User creation belongs to the identity service.
- Models.Ordered: posts with the same `pub_date` come in an order the model chooses, because the database leaves that order unspecified. Only newest-first order and being a permutation are proved.
- Feeds.Index: its own contract states only that the feed shows existing posts. Its order and completeness come from `Models.Ordered` and the pagination lemmas.
