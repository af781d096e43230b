# Yatube posts core in Dafny

Yatube is a small Django blog. Users write posts, optionally in a group.
Other users comment on posts and follow authors, and the follow feed shows
the posts of the authors a user follows. This project models the posts app's
core:

- the tables of `yatube/posts/models.py`: User, Group, Post, Comment and
  Follow. The model covers their integrity constraints: primary keys, the
  unique group slug, the unique (user, author) follow pair and the foreign
  keys. It also covers the CASCADE and SET_NULL delete policies,
  newest-first `Meta.ordering` and `__str__`.
- the views of `yatube/posts/views.py`: `index`, `group_posts`, `profile`
  with its `following` flag, `post_detail`, `post_create`, `post_edit`,
  `add_comment`, `follow_index`, `profile_follow` and `profile_unfollow`,
  together with the `login_required` gate.
- `paginate` of `yatube/posts/utils.py`, with ten posts per page and Django's
  `Paginator.get_page` rules.

Files and modules:

| file | module | what it holds |
|---|---|---|
| `querysets.dfy` | `QuerySets` | A table is a sequence of rows. `.filter`, `.get` and `.order_by('-key')` on a table, and the UNIQUE constraint as a predicate. |
| `models.dfy` | `Models` | The rows and the whole database as one value `Db`, the constraints (`Consistent`), `__str__`, and every write as a function from database to database. Each write has a lemma that it keeps `Consistent`. |
| `store.dfy` | `Database` | `class Store`: one mutable field per table. Its methods perform the writes in place and end in exactly the state the `Models` function gives. |
| `pagination.dfy` | `Pagination` | `Paginator.num_pages`, `page()` and `get_page()`, with Python's `int()` on the raw `?page=` text. |
| `views.dfy` | `Views` | Each view as a function. Read-only views return a `Response`. Writing views return an `Outcome` (the response and the new database). Lemmas relate several requests. |
| `handlers.dfy` | `Handlers` | The writing views as methods on a `Store`, step by step as `views.py` writes them. Each one is proved to match its `Views` function. |

The model follows the code wherever the code differs from the project's own
description:

- `profile_unfollow` for an author the user does not follow changes nothing
  and still redirects to the profile. Only an unknown username gives a 404
  (yatube/posts/views.py:141-145).
- `get_page` with a page number below 1 shows the last page, as Django's
  `EmptyPage` handling does. It does not show the nearest page.
- `post_edit` tests `post_id and request.user != post.author`, as written.
  `Views.OnlyAuthorEdits` shows that this guard is never bypassed, because
  every stored post has a positive id.
- `add_comment` on an unknown post id raises an uncaught `Post.DoesNotExist`.
  The model answers `ServerError` and leaves the database alone.

`str(group)` is `Models.GroupStr`, the group's title. `str(post)` and
`str(comment)` are the first 15 characters of the text.

## Model

| member | source | states |
|---|---|---|
| `QuerySets.Filter` | yatube/posts/views.py:142 | `.filter(...)` returns exactly the rows that satisfy the condition and never more rows than the table has |
| `QuerySets.Get` | yatube/posts/views.py:110 | `.get(...)` returns a matching row of the table. It returns None (DoesNotExist) exactly when no row matches |
| `QuerySets.OrderByDesc` | yatube/posts/models.py:42 | `order_by('-key')` returns the same rows (the same multiset), largest key first |
| `QuerySets.FilterKeepsUnique` | yatube/posts/models.py:115-120 | a delete (a filter of the table) never breaks a UNIQUE constraint |
| `QuerySets.AppendKeepsUnique` | yatube/posts/models.py:53-56 | inserting a row whose key is new keeps a UNIQUE constraint |
| `QuerySets.FilterKeepsAll` | yatube/posts/views.py:142 | a filter that every row passes returns the table unchanged |
| `QuerySets.FilterAppend` | yatube/posts/views.py:142 | filtering distributes over appending rows |
| `QuerySets.FilterPartition` | yatube/posts/views.py:142-144 | the rows a filtered delete removes plus the rows it keeps make up the whole table |
| `QuerySets.UniqueKeyAtMostOne` | yatube/posts/models.py:115-120 | under a UNIQUE constraint, at most one row carries a given key |
| `QuerySets.KeyIdentifiesRow` | yatube/posts/models.py:115-120 | under a UNIQUE constraint, two rows with the same key are the same row |
| `Pagination.NumPages` | yatube/posts/utils.py:8 | there is at least one page, the pages hold every item, and no page past the first is empty |
| `Pagination.PageAt` | yatube/posts/utils.py:8-10 | page k holds the items at positions (k-1)*10 up to min(k*10, L), in listing order |
| `Pagination.PageIsWindow` | yatube/posts/utils.py:8-10 | a page's items come from the listing and keep its newest-first order |
| `Pagination.ParseShowInt` | yatube/posts/utils.py:9-10 | `int(str(n)) == n`, so `?page=2` selects page 2 |
| `Pagination.SeparatorIsNotSpace` | yatube/posts/utils.py:9-10 | `?page=%1C2` is not an integer: int() skips only space, tab, LF, VT, FF and CR around an ASCII numeral |
| `Pagination.NoDigitNoNumber` | yatube/posts/utils.py:9-10 | a parameter with no digit at all, such as `last`, is not an integer |
| `Pagination.PageNumber` | yatube/posts/utils.py:10 | the chosen page number always lies between 1 and the number of pages |
| `Pagination.Paginate` | yatube/posts/utils.py:7-10 | at most 10 items. A missing or non-integer parameter gives page 1, an integer outside 1..num_pages gives the last page, any other integer gives that page. The page is `PageAt` of that number |
| `Pagination.FirstPagesArePrefix` | yatube/posts/utils.py:8-10 | pages 1..k read in order are the first min(10k, L) items of the listing |
| `Pagination.PagesRebuildListing` | yatube/posts/utils.py:8-10 | all pages read in order rebuild the listing exactly |
| `Pagination.EmptyListing` | yatube/posts/utils.py:8-10 | an empty listing gives page 1 of 1, with no items and no error |
| `Pagination.ThirteenItems` | yatube/posts/tests/test_views.py:222-244 | with 13 posts, page 1 has 10 and `?page=2` has 3 |
| `Models.PostStr` | yatube/posts/models.py:44-45 | `str(post)` is the first min(15, len) characters of the text |
| `Models.CommentStr` | yatube/posts/models.py:94-95 | `str(comment)` is the first min(15, len) characters of the text |
| `Models.StrOfEachModel` | yatube/posts/tests/test_models.py:31-40 | `str` of a post, a group and a comment: text[:15], the title, text[:15] |
| `Models.AtMostOneEdge` | yatube/posts/models.py:115-120 | in a consistent database at most one Follow row exists per (user, author). There is exactly one iff the user follows the author |
| `Models.AddUser` | yatube/posts/models.py:6 | a new user gets a fresh id. The insert is refused exactly when the username is taken |
| `Models.AddUserKeepsConsistent` | yatube/posts/models.py:6 | registering a user keeps every constraint, including unique usernames |
| `Models.AddGroup` | yatube/posts/models.py:53-56 | a new group is appended with a fresh id. The insert is refused exactly when the slug is taken |
| `Models.AddGroupKeepsConsistent` | yatube/posts/models.py:53-56 | after a group is added, group slugs are still unique and every other constraint holds |
| `Models.DeleteUserRemoves` | yatube/posts/models.py:18-23 | deleting a user removes exactly that user, their posts and every Follow row with them on either side. Other users' posts survive, and no comment by the user remains |
| `Models.DeleteUserKeepsConsistent` | yatube/posts/models.py:98-110 | the user cascade leaves no dangling foreign key |
| `Models.DeleteUserCascade` | yatube/posts/models.py:68-79 | after the cascade no row refers to the user. A comment survives iff its author is not the user and its post survives |
| `Models.DeletePost` | yatube/posts/models.py:68-73 | deleting a post removes exactly that post and exactly its comments |
| `Models.DeletePostKeepsConsistent` | yatube/posts/models.py:68-73 | the post cascade leaves no dangling foreign key |
| `Models.DeleteGroup` | yatube/posts/models.py:24-32 | deleting a group removes it and nulls `group` on exactly the posts that had it. Every post survives with the same id, text, author and date |
| `Models.DeleteGroupKeepsConsistent` | yatube/posts/models.py:24-32 | SET_NULL leaves no dangling foreign key |
| `Models.AddPost` | yatube/posts/views.py:82-84 | saving a post appends one row with a fresh id, the given author, text and group, and `pub_date` set to the current time. Other tables are unchanged |
| `Models.AddPostKeepsConsistent` | yatube/posts/models.py:18-32 | a post by an existing user in an existing group (or none) keeps every constraint |
| `Models.AddComment` | yatube/posts/views.py:113-116 | saving a comment appends one row with a fresh id, the given post, author and text, and `created` set to the current time |
| `Models.AddCommentKeepsConsistent` | yatube/posts/models.py:68-79 | a comment by an existing user on an existing post keeps every constraint |
| `Models.EditPost` | yatube/posts/views.py:98-99 | an edit replaces text and group of the post with that id. Its id, author and date stay, and every other post is unchanged |
| `Models.EditPostKeepsConsistent` | yatube/posts/models.py:24-32 | an edit to an existing group (or none) keeps every constraint |
| `Models.GetOrCreateFollow` | yatube/posts/views.py:135 | after get_or_create the edge exists. The Follow table grows by one row if the edge was absent and not at all if it was present, keeps every old row, and gains no other pair |
| `Models.GetOrCreateFollowKeepsConsistent` | yatube/posts/models.py:115-120 | get_or_create keeps the unique_user_author constraint and the foreign keys |
| `Models.GetOrCreateFollowIdempotent` | yatube/posts/views.py:135 | a second get_or_create for the same pair changes nothing |
| `Models.FollowRelationAfterFollow` | yatube/posts/views.py:135 | the follow relation afterwards is the old one plus the pair (user, author) |
| `Models.DeleteFollows` | yatube/posts/views.py:142-144 | after the filtered delete, no (user, author) edge remains and every other Follow row does |
| `Models.FollowRelationAfterUnfollow` | yatube/posts/views.py:142-144 | the follow relation afterwards is the old one minus the pair (user, author) |
| `Models.DeleteFollowsKeepsConsistent` | yatube/posts/models.py:98-120 | the delete keeps every constraint |
| `Models.DeleteFollowsCount` | yatube/posts/views.py:142-144 | the delete removes exactly one row if the user followed the author and none otherwise |
| `Models.FollowThenUnfollow` | yatube/posts/views.py:135-144 | a get_or_create of a new edge followed by its delete restores the Follow table exactly |
| `Database.Store.constructor` | yatube/posts/models.py:9-120 | a fresh database is empty, satisfies every constraint and hands out ids from 1 |
| `Database.Store.CreateUser` | yatube/posts/models.py:6 | inserts the user unless the username is taken, and keeps the constraints |
| `Database.Store.CreateGroup` | yatube/posts/models.py:53-56 | inserts the group unless the slug is taken, and keeps the constraints |
| `Database.Store.DeleteUser` | yatube/posts/models.py:18-23 | performs the user cascade in place. The tables become `Models.DeleteUser` of the old ones, and the constraints hold |
| `Database.Store.DeletePost` | yatube/posts/models.py:68-73 | performs the post cascade in place. The tables become `Models.DeletePost` of the old ones |
| `Database.Store.DeleteGroup` | yatube/posts/models.py:24-32 | nulls `group` row by row (a loop) and removes the group. The tables become `Models.DeleteGroup` of the old ones |
| `Database.Store.InsertPost` | yatube/posts/views.py:82-84 | appends the post under a fresh id, returns that id and keeps the constraints |
| `Database.Store.InsertComment` | yatube/posts/views.py:113-116 | appends the comment under a fresh id and keeps the constraints |
| `Database.Store.UpdatePost` | yatube/posts/views.py:98-99 | updates text and group of the post row by row (a loop). The tables become `Models.EditPost` of the old ones |
| `Database.Store.GetOrCreateFollow` | yatube/posts/views.py:135 | adds the edge if absent and reports whether it created one. It keeps the constraints |
| `Database.Store.DeleteFollows` | yatube/posts/views.py:142-144 | deletes the pair's Follow rows and keeps the constraints |
| `Views.AllPosts` | yatube/posts/views.py:12 | the index listing holds every post exactly once (as a multiset), newest first |
| `Views.GroupFeed` | yatube/posts/views.py:29 | the group listing holds exactly the posts of that group, each as often as in the table (the same multiset as the filter), newest first |
| `Views.AuthorFeed` | yatube/posts/views.py:44 | the profile listing holds exactly the posts by that author, each as often as in the table (the same multiset as the filter), newest first |
| `Views.PostComments` | yatube/posts/models.py:92 | a post's comments are exactly the comments on that post, each as often as in the table (the same multiset as the filter), newest first |
| `Views.FollowJoin` | yatube/posts/views.py:122-123 | the join of posts with Follow rows yields exactly the posts whose author the user follows |
| `Views.JoinListsEachPostOnce` | yatube/posts/views.py:122-123 | because of unique_user_author, the join equals a plain filter: each followed author's post appears once, in table order |
| `Views.FollowFeed` | yatube/posts/views.py:122-123 | the follow feed holds exactly the posts whose author the user follows, newest first |
| `Views.FollowFeedListsOnce` | yatube/posts/views.py:122-123 | no post appears twice in the follow feed |
| `Views.PageOf` | yatube/posts/views.py:16 | the page a listing view shows is `paginate` of the listing: at most 10 of its posts, in its order |
| `Views.Index` | yatube/posts/views.py:10-17 | index always renders at most 10 stored posts, newest first, chosen by `paginate` |
| `Views.GroupPosts` | yatube/posts/views.py:20-32 | 404 exactly when no group has the slug. Otherwise it renders that group and a page of posts that all belong to it |
| `Views.Profile` | yatube/posts/views.py:35-52 | 404 exactly when no user has the username. Otherwise it renders a page of that author's posts, and `following` is true iff the viewer is logged in and follows the author |
| `Views.PostDetail` | yatube/posts/views.py:55-65 | 404 exactly when no post has the id. Otherwise it renders the post and exactly its comments, with multiplicity, newest first |
| `Views.FollowIndex` | yatube/posts/views.py:120-128 | anonymous users are sent to the login page with `next`. Otherwise it renders a page of posts by authors the viewer follows |
| `Views.PostCreate` | yatube/posts/views.py:68-85 | login gate with the database unchanged. An invalid form or a GET re-renders the form with the database unchanged. A valid form appends one post stamped with the viewer as author and redirects to the viewer's profile |
| `Views.PostEdit` | yatube/posts/views.py:88-105 | login gate. 404 for an unknown id. A non-author is sent to the post with the database unchanged. An invalid form re-renders the edit form. The author's valid form is saved as `Models.EditPost` of that post and redirects to the post. Any change to the database comes from a valid form, keeps the post count, replaces only that post's text and group, and redirects to the post |
| `Views.AddCommentView` | yatube/posts/views.py:108-117 | login gate. An unknown post is a server error. Otherwise it redirects to the post, adding one comment stamped with the viewer as author when the form is valid |
| `Views.ProfileFollow` | yatube/posts/views.py:131-136 | login gate, and 404 for an unknown username. Otherwise it redirects to the profile. A self-follow changes nothing; any other follow adds exactly the pair (viewer, author) to the follow relation and at most one row |
| `Views.ProfileUnfollow` | yatube/posts/views.py:139-145 | login gate, and 404 only for an unknown username. Otherwise it redirects to the profile and removes exactly the pair (viewer, author). When there was no such edge the database is unchanged |
| `Views.FollowTwice` | yatube/posts/views.py:135 | following an author twice leaves exactly one edge. The second request changes nothing |
| `Views.UnfollowCount` | yatube/posts/views.py:142-145 | unfollow removes one Follow row when the edge existed and none otherwise |
| `Views.FollowUnfollowRoundTrip` | yatube/posts/tests/test_views.py:162-186 | follow then unfollow restores the Follow table, and both redirect to the author's profile |
| `Views.FollowFeedTracksFollows` | yatube/posts/tests/test_views.py:188-200 | after following, every post of the author is in the follow feed. After unfollowing, none is |
| `Views.NewestOnFirstPage` | yatube/posts/utils.py:7-10 | in a listing sorted newest first, the strictly newest row is on the page shown without `?page=` |
| `Views.CreatedPostIsListed` | yatube/posts/tests/test_views.py:132-152 | a new post with group g that is newer than every earlier post is on the first page (no `?page=`) of the index, of g's page and of the author's profile. It is on no page of any other group |
| `Views.OnlyAuthorEdits` | yatube/posts/views.py:96-97 | in a consistent database only the post's author can change it through post_edit |
| `Handlers.PostCreate` | yatube/posts/views.py:68-85 | running post_create on the store gives the response and tables of `Views.PostCreate` and keeps the constraints |
| `Handlers.PostEdit` | yatube/posts/views.py:88-105 | running post_edit on the store gives the response and tables of `Views.PostEdit` and keeps the constraints |
| `Handlers.AddComment` | yatube/posts/views.py:108-117 | running add_comment on the store gives the response and tables of `Views.AddCommentView` and keeps the constraints |
| `Handlers.ProfileFollow` | yatube/posts/views.py:131-136 | running profile_follow on the store gives the response and tables of `Views.ProfileFollow` and keeps the constraints |
| `Handlers.ProfileUnfollow` | yatube/posts/views.py:139-145 | running profile_unfollow on the store gives the response and tables of `Views.ProfileUnfollow` and keeps the constraints |

## Left out

- The `cache_page(20)` decorator on `index` is left out. It is a framework cache with wall-clock expiry, and the model computes every response fresh.
- `Post.image`, file uploads and media storage are left out. The post form is reduced to its text and group.
- The internal checks of `PostForm` and `CommentForm` are abstract. A form is `None` when the request is not a POST or the form's own checks fail. Only the group choice is checked against the groups table.
- Authentication, sessions and the user model's other fields are left out. The viewer is an input: anonymous, or a user row. `login_required` is modelled as a redirect to `LoginUrl(next)` that leaves the database unchanged.
- Templates, HTTP status mechanics and URL routing are left out. A response is a redirect to a named route, a rendered screen, a 404 or a server error.
- Clocks are parameters: `pub_date` and `created` are the caller's `now`.
- `select_related` has no observable effect and is not modelled.
- The race safety of `get_or_create` under concurrent requests is not modelled: the program serves requests in parallel, but the model runs them one at a time.
- All tables share one id counter that starts at 1. Ids are fresh and positive, as the database's sequences are, but they are not numbered per table.
- Rows with equal `pub_date` or `created` keep table order. The database leaves the order of such ties unspecified.
- Pagination.ParseInt: covers Python's `int()` on ASCII text only. That is the whitespace it skips there (space, tab, LF, VT, FF and CR, but not chr(28) to chr(31)), an optional sign, and digits with single underscores. Unicode digits and Unicode whitespace are not modelled. Nor is the 4300-digit limit on decimal strings in Python 3.11 and later, and in the 2022 security releases of 3.7 to 3.10: there, more than 4300 digits is a ValueError.
- Pagination.Paginate: because of that limit, `?page=` followed by more than 4300 digits gives page 1 in the program but the last page in the model.
- The `CommentForm` that `post_detail` puts on the page is not modelled. The detail screen carries the post and its comments.
- `yatube/posts/admin.py` and the static-page tests are not modelled. The three on_delete paths (`Store.DeleteUser`, `DeletePost`, `DeleteGroup`) are reached through the admin or the ORM, not through a view.
- Read-only views have no `Store` handler, because they change nothing.
