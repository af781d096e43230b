/** The views of yatube/posts/views.py as functions from a request and the
    database to a response and the database the view leaves behind. The
    read-only views (index, group_posts, profile, post_detail, follow_index)
    return a Response; the views that write (post_create, post_edit,
    add_comment, profile_follow, profile_unfollow) return an Outcome, and
    module Handlers runs them against a Store. HTTP, templates and URL
    routing are reduced to the Url a redirect names and the Screen a render
    fills in. */
module Views {
  import opened QuerySets
  import opened Models
  import opened Pagination

  /** request.user: an anonymous visitor or a logged-in user. */
  datatype Viewer = Anonymous | Authenticated(user: User)

  /** The named routes the views redirect to; LoginUrl carries `?next=`. */
  datatype Url =
    | ProfileUrl(username: string)
    | PostDetailUrl(postId: nat)
    | PostCreateUrl
    | PostEditUrl(postId: nat)
    | AddCommentUrl(postId: nat)
    | FollowIndexUrl
    | ProfileFollowUrl(username: string)
    | ProfileUnfollowUrl(username: string)
    | LoginUrl(next: Url)

  /** The template a view renders, with the context it passes. */
  datatype Screen =
    | IndexScreen(page: Page<Post>)
    | GroupScreen(group: Group, page: Page<Post>)
    | ProfileScreen(author: User, page: Page<Post>, following: bool)
    | PostDetailScreen(post: Post, comments: seq<Comment>)
    | PostFormScreen(isEdit: bool)
    | FollowScreen(page: Page<Post>)

  /** ServerError is the unhandled exception Django turns into HTTP 500. */
  datatype Response = Redirect(to: Url) | Render(screen: Screen) | NotFound | ServerError

  /** A response together with the database the view leaves behind. */
  datatype Outcome = Outcome(response: Response, db: Db)

  /** The cleaned data of a PostForm that passed its own validation; the
      group choice is still checked against the groups table. */
  datatype PostInput = PostInput(text: string, group: Option<nat>)

  // ---------------------------------------------------------------------
  // Listings, in Meta.ordering

  /** `Post.objects.all()`: every post, newest first. */
  function AllPosts(db: Db): (r: seq<Post>)
    ensures multiset(r) == multiset(db.posts)
    ensures forall p :: p in r <==> p in db.posts
    ensures Descending(r, PubDate)
  {
    OrderByDesc(db.posts, PubDate)
  }

  /** `group.posts.all()`: the posts of group gid, newest first. */
  function GroupFeed(db: Db, gid: nat): (r: seq<Post>)
    ensures multiset(r) == multiset(Filter(db.posts, (p: Post) => p.group == Some(gid)))
    ensures forall p :: p in r <==> p in db.posts && p.group == Some(gid)
    ensures Descending(r, PubDate)
  {
    OrderByDesc(Filter(db.posts, (p: Post) => p.group == Some(gid)), PubDate)
  }

  /** `author.posts.all()`: the posts of user uid, newest first. */
  function AuthorFeed(db: Db, uid: nat): (r: seq<Post>)
    ensures multiset(r) == multiset(Filter(db.posts, (p: Post) => p.author == uid))
    ensures forall p :: p in r <==> p in db.posts && p.author == uid
    ensures Descending(r, PubDate)
  {
    OrderByDesc(Filter(db.posts, (p: Post) => p.author == uid), PubDate)
  }

  /** `post.comments.all()`: the comments under post pid, newest first. */
  function PostComments(db: Db, pid: nat): (r: seq<Comment>)
    ensures multiset(r) == multiset(Filter(db.comments, (c: Comment) => c.post == pid))
    ensures forall c :: c in r <==> c in db.comments && c.post == pid
    ensures Descending(r, Created)
  {
    OrderByDesc(Filter(db.comments, (c: Comment) => c.post == pid), Created)
  }

  function Repeat<T>(x: T, n: nat): (r: seq<T>)
    ensures |r| == n
    ensures forall y :: y in r ==> y == x
  {
    if n == 0 then [] else [x] + Repeat(x, n - 1)
  }

  /** The inner join behind `filter(author__following__user=u)`: each post
      is listed once for every Follow row (u, post.author). */
  function FollowJoin(db: Db, posts: seq<Post>, u: nat): (r: seq<Post>)
    ensures forall p :: p in r <==> p in posts && Follows(db, u, p.author)
  {
    if posts == [] then []
    else
      var p := posts[0];
      var edges := Edges(db, u, p.author);
      assert |edges| > 0 <==> Follows(db, u, p.author) by {
        if Follows(db, u, p.author) {
          var f :| f in db.follows && f.user == u && f.author == p.author;
          assert f in edges;
        }
        if |edges| > 0 {
          assert edges[0] in edges;
        }
      }
      assert |edges| > 0 ==> p in Repeat(p, |edges|) by {
        if |edges| > 0 {
          assert Repeat(p, |edges|)[0] in Repeat(p, |edges|);
        }
      }
      assert posts == [p] + posts[1..];
      Repeat(p, |edges|) + FollowJoin(db, posts[1..], u)
  }

  /** Thanks to the (user, author) UNIQUE constraint the join lists every
      post of a followed author exactly once, in table order. */
  lemma {:induction false} JoinListsEachPostOnce(db: Db, posts: seq<Post>, u: nat)
    requires Consistent(db)
    ensures FollowJoin(db, posts, u) == Filter(posts, (p: Post) => Follows(db, u, p.author))
  {
    if posts != [] {
      var p := posts[0];
      JoinListsEachPostOnce(db, posts[1..], u);
      AtMostOneEdge(db, u, p.author);
      if Follows(db, u, p.author) {
        assert Repeat(p, 1) == [p];
      }
    }
  }

  /** follow_index's listing: the posts of the authors u follows, newest first. */
  function FollowFeed(db: Db, u: nat): (r: seq<Post>)
    ensures forall p :: p in r <==> p in db.posts && Follows(db, u, p.author)
    ensures Descending(r, PubDate)
  {
    OrderByDesc(FollowJoin(db, db.posts, u), PubDate)
  }

  /** No post appears twice in follow_index. */
  lemma FollowFeedListsOnce(db: Db, u: nat)
    requires Consistent(db)
    ensures multiset(FollowFeed(db, u)) == multiset(Filter(db.posts, (p: Post) => Follows(db, u, p.author)))
  {
    JoinListsEachPostOnce(db, db.posts, u);
  }

  /** The page a listing view shows: at most POSTS_LIMIT posts of the
      listing, in its order. */
  predicate ShowsPageOf(page: Page<Post>, listing: seq<Post>, raw: Option<string>) {
    && page == Paginate(listing, raw)
    && |page.items| <= POSTS_LIMIT
    && (forall p :: p in page.items ==> p in listing)
    && (Descending(listing, PubDate) ==> Descending(page.items, PubDate))
  }

  function PageOf(listing: seq<Post>, raw: Option<string>): (page: Page<Post>)
    ensures ShowsPageOf(page, listing, raw)
  {
    var page := Paginate(listing, raw);
    PageIsWindow(listing, page.number, PubDate);
    page
  }

  // ---------------------------------------------------------------------
  // Read-only views

  /** index: one page of every post, newest first. */
  function Index(db: Db, raw: Option<string>): (r: Response)
    ensures r.Render? && r.screen.IndexScreen?
    ensures ShowsPageOf(r.screen.page, AllPosts(db), raw)
    ensures forall p :: p in r.screen.page.items ==> p in db.posts
    ensures Descending(r.screen.page.items, PubDate)
  {
    Render(IndexScreen(PageOf(AllPosts(db), raw)))
  }

  /** group_posts: 404 for an unknown slug, otherwise one page of the
      group's posts. */
  function GroupPosts(db: Db, slug: string, raw: Option<string>): (r: Response)
    ensures r.NotFound? <==> forall g :: g in db.groups ==> g.slug != slug
    ensures r.NotFound? || (r.Render? && r.screen.GroupScreen?)
    ensures r.Render? ==> r.screen.group in db.groups && r.screen.group.slug == slug
    ensures r.Render? ==> ShowsPageOf(r.screen.page, GroupFeed(db, r.screen.group.id), raw)
    ensures r.Render? ==> forall p :: p in r.screen.page.items ==> p in db.posts && p.group == Some(r.screen.group.id)
  {
    match FindGroup(db, slug)
    case None => NotFound
    case Some(g) => Render(GroupScreen(g, PageOf(GroupFeed(db, g.id), raw)))
  }

  /** profile: 404 for an unknown username, otherwise one page of the
      author's posts and whether the viewer follows the author. */
  function Profile(db: Db, viewer: Viewer, username: string, raw: Option<string>): (r: Response)
    ensures r.NotFound? <==> forall u :: u in db.users ==> u.username != username
    ensures r.NotFound? || (r.Render? && r.screen.ProfileScreen?)
    ensures r.Render? ==> r.screen.author in db.users && r.screen.author.username == username
    ensures r.Render? ==> ShowsPageOf(r.screen.page, AuthorFeed(db, r.screen.author.id), raw)
    ensures r.Render? ==> forall p :: p in r.screen.page.items ==> p in db.posts && p.author == r.screen.author.id
    ensures r.Render? ==>
              (r.screen.following <==> viewer.Authenticated? && Follows(db, viewer.user.id, r.screen.author.id))
  {
    match FindUser(db, username)
    case None => NotFound
    case Some(a) =>
      var following := viewer.Authenticated? && |Edges(db, viewer.user.id, a.id)| > 0;
      assert following <==> viewer.Authenticated? && Follows(db, viewer.user.id, a.id) by {
        if viewer.Authenticated? {
          var edges := Edges(db, viewer.user.id, a.id);
          if Follows(db, viewer.user.id, a.id) {
            var f :| f in db.follows && f.user == viewer.user.id && f.author == a.id;
            assert f in edges;
          }
          if |edges| > 0 {
            assert edges[0] in edges;
          }
        }
      }
      Render(ProfileScreen(a, PageOf(AuthorFeed(db, a.id), raw), following))
  }

  /** post_detail: 404 for an unknown id, otherwise the post and its
      comments, newest first. */
  function PostDetail(db: Db, postId: nat): (r: Response)
    ensures r.NotFound? <==> forall p :: p in db.posts ==> p.id != postId
    ensures r.NotFound? || (r.Render? && r.screen.PostDetailScreen?)
    ensures r.Render? ==> r.screen.post in db.posts && r.screen.post.id == postId
    ensures r.Render? ==> forall c :: c in r.screen.comments <==> c in db.comments && c.post == postId
    ensures r.Render? ==>
              multiset(r.screen.comments) == multiset(Filter(db.comments, (c: Comment) => c.post == postId))
    ensures r.Render? ==> Descending(r.screen.comments, Created)
  {
    match FindPost(db, postId)
    case None => NotFound
    case Some(p) => Render(PostDetailScreen(p, PostComments(db, postId)))
  }

  /** follow_index (login required): one page of the posts of the authors
      the viewer follows. */
  function FollowIndex(db: Db, viewer: Viewer, raw: Option<string>): (r: Response)
    ensures viewer.Anonymous? ==> r == Redirect(LoginUrl(FollowIndexUrl))
    ensures viewer.Authenticated? ==> r.Render? && r.screen.FollowScreen?
    ensures viewer.Authenticated? ==> ShowsPageOf(r.screen.page, FollowFeed(db, viewer.user.id), raw)
    ensures viewer.Authenticated? ==>
              forall p :: p in r.screen.page.items ==> p in db.posts && Follows(db, viewer.user.id, p.author)
  {
    if viewer.Anonymous? then Redirect(LoginUrl(FollowIndexUrl))
    else Render(FollowScreen(PageOf(FollowFeed(db, viewer.user.id), raw)))
  }

  // ---------------------------------------------------------------------
  // Views that write

  /** PostForm's verdict: its own checks (form) and the group choice, which
      must name an existing group. */
  predicate ValidPostForm(db: Db, form: Option<PostInput>) {
    form.Some? && (form.value.group.Some? ==> form.value.group.value in GroupIds(db))
  }

  /** post_create (login required). form is None when the request is not a
      POST or the form's own checks fail. */
  function PostCreate(db: Db, viewer: Viewer, form: Option<PostInput>, now: int): (o: Outcome)
    ensures viewer.Anonymous? ==> o == Outcome(Redirect(LoginUrl(PostCreateUrl)), db)
    ensures viewer.Authenticated? && !ValidPostForm(db, form) ==> o == Outcome(Render(PostFormScreen(false)), db)
    ensures viewer.Authenticated? && ValidPostForm(db, form) ==>
              && o.response == Redirect(ProfileUrl(viewer.user.username))
              && |o.db.posts| == |db.posts| + 1
              && o.db.posts[..|db.posts|] == db.posts
              && var p := o.db.posts[|db.posts|];
                 p.author == viewer.user.id && p.text == form.value.text
                 && p.group == form.value.group && p.pubDate == now
                 && (Consistent(db) ==> p.id !in PostIds(db))
    ensures o.db.users == db.users && o.db.groups == db.groups
    ensures o.db.comments == db.comments && o.db.follows == db.follows
  {
    if viewer.Anonymous? then Outcome(Redirect(LoginUrl(PostCreateUrl)), db)
    else if !ValidPostForm(db, form) then Outcome(Render(PostFormScreen(false)), db)
    else
      var f := form.value;
      Outcome(Redirect(ProfileUrl(viewer.user.username)), AddPost(db, viewer.user.id, f.text, f.group, now))
  }

  /** post_edit (login required): 404 for an unknown id; a user who is not
      the author is sent to the post; the author's valid form replaces text
      and group. The ownership test is `post_id and user != author`, as
      written. */
  function PostEdit(db: Db, viewer: Viewer, postId: nat, form: Option<PostInput>): (o: Outcome)
    ensures viewer.Anonymous? ==> o == Outcome(Redirect(LoginUrl(PostEditUrl(postId))), db)
    ensures viewer.Authenticated? && (forall p :: p in db.posts ==> p.id != postId) ==> o == Outcome(NotFound, db)
    ensures viewer.Authenticated? && FindPost(db, postId).Some? ==>
              var post := FindPost(db, postId).value;
              && (postId != 0 && viewer.user.id != post.author ==>
                    o == Outcome(Redirect(PostDetailUrl(postId)), db))
              && ((postId == 0 || viewer.user.id == post.author) && !ValidPostForm(db, form) ==>
                    o == Outcome(Render(PostFormScreen(true)), db))
              && ((postId == 0 || viewer.user.id == post.author) && ValidPostForm(db, form) ==>
                    o == Outcome(Redirect(PostDetailUrl(postId)),
                                 EditPost(db, postId, form.value.text, form.value.group)))
    ensures o.db != db ==>
              && viewer.Authenticated? && ValidPostForm(db, form)
              && o.response == Redirect(PostDetailUrl(postId))
              && |o.db.posts| == |db.posts|
              && forall i :: 0 <= i < |db.posts| ==>
                   && o.db.posts[i].id == db.posts[i].id
                   && o.db.posts[i].author == db.posts[i].author
                   && o.db.posts[i].pubDate == db.posts[i].pubDate
                   && (db.posts[i].id == postId ==>
                         o.db.posts[i].text == form.value.text && o.db.posts[i].group == form.value.group)
                   && (db.posts[i].id != postId ==> o.db.posts[i] == db.posts[i])
    ensures o.db.users == db.users && o.db.groups == db.groups
    ensures o.db.comments == db.comments && o.db.follows == db.follows
  {
    if viewer.Anonymous? then Outcome(Redirect(LoginUrl(PostEditUrl(postId))), db)
    else match FindPost(db, postId)
      case None => Outcome(NotFound, db)
      case Some(post) =>
        if postId != 0 && viewer.user.id != post.author then Outcome(Redirect(PostDetailUrl(postId)), db)
        else if ValidPostForm(db, form) then
          Outcome(Redirect(PostDetailUrl(postId)), EditPost(db, postId, form.value.text, form.value.group))
        else Outcome(Render(PostFormScreen(true)), db)
  }

  /** add_comment (login required). An unknown post id raises
      Post.DoesNotExist, which nothing catches; text is None when the
      CommentForm is not valid. */
  function AddCommentView(db: Db, viewer: Viewer, postId: nat, text: Option<string>, now: int): (o: Outcome)
    ensures viewer.Anonymous? ==> o == Outcome(Redirect(LoginUrl(AddCommentUrl(postId))), db)
    ensures viewer.Authenticated? && (forall p :: p in db.posts ==> p.id != postId) ==> o == Outcome(ServerError, db)
    ensures viewer.Authenticated? && FindPost(db, postId).Some? ==>
              && o.response == Redirect(PostDetailUrl(postId))
              && (text.None? ==> o.db == db)
              && (text.Some? ==>
                    && |o.db.comments| == |db.comments| + 1
                    && o.db.comments[..|db.comments|] == db.comments
                    && var c := o.db.comments[|db.comments|];
                       c.post == postId && c.author == viewer.user.id && c.text == text.value && c.created == now)
    ensures o.db.users == db.users && o.db.groups == db.groups
    ensures o.db.posts == db.posts && o.db.follows == db.follows
  {
    if viewer.Anonymous? then Outcome(Redirect(LoginUrl(AddCommentUrl(postId))), db)
    else match FindPost(db, postId)
      case None => Outcome(ServerError, db)
      case Some(post) =>
        var after := if text.Some? then AddComment(db, post.id, viewer.user.id, text.value, now) else db;
        Outcome(Redirect(PostDetailUrl(postId)), after)
  }

  /** profile_follow (login required): 404 for an unknown username;
      otherwise get_or_create the edge unless it would be a self-follow,
      then back to the profile. */
  function ProfileFollow(db: Db, viewer: Viewer, username: string): (o: Outcome)
    ensures viewer.Anonymous? ==> o == Outcome(Redirect(LoginUrl(ProfileFollowUrl(username))), db)
    ensures viewer.Authenticated? && (forall u :: u in db.users ==> u.username != username) ==> o == Outcome(NotFound, db)
    ensures viewer.Authenticated? && FindUser(db, username).Some? ==>
              var me, a := viewer.user.id, FindUser(db, username).value.id;
              && o.response == Redirect(ProfileUrl(username))
              && (a == me ==> o.db == db)
              && (forall x: nat, y: nat :: Follows(o.db, x, y) <==> Follows(db, x, y) || (x == me && y == a && a != me))
              && |o.db.follows| == |db.follows| + (if a == me || Follows(db, me, a) then 0 else 1)
    ensures o.db.users == db.users && o.db.groups == db.groups
    ensures o.db.posts == db.posts && o.db.comments == db.comments
  {
    if viewer.Anonymous? then Outcome(Redirect(LoginUrl(ProfileFollowUrl(username))), db)
    else match FindUser(db, username)
      case None => Outcome(NotFound, db)
      case Some(a) =>
        var me := viewer.user.id;
        FollowRelationAfterFollow(db, me, a.id);
        Outcome(Redirect(ProfileUrl(username)), if me != a.id then GetOrCreateFollow(db, me, a.id) else db)
  }

  /** profile_unfollow (login required): 404 for an unknown username;
      otherwise delete the edge if there is one, then back to the profile. */
  function ProfileUnfollow(db: Db, viewer: Viewer, username: string): (o: Outcome)
    ensures viewer.Anonymous? ==> o == Outcome(Redirect(LoginUrl(ProfileUnfollowUrl(username))), db)
    ensures viewer.Authenticated? && (forall u :: u in db.users ==> u.username != username) ==> o == Outcome(NotFound, db)
    ensures viewer.Authenticated? && FindUser(db, username).Some? ==>
              var me, a := viewer.user.id, FindUser(db, username).value.id;
              && o.response == Redirect(ProfileUrl(username))
              && (!Follows(db, me, a) ==> o.db == db)
              && (forall x: nat, y: nat :: Follows(o.db, x, y) <==> Follows(db, x, y) && !(x == me && y == a))
    ensures o.db.users == db.users && o.db.groups == db.groups
    ensures o.db.posts == db.posts && o.db.comments == db.comments
  {
    if viewer.Anonymous? then Outcome(Redirect(LoginUrl(ProfileUnfollowUrl(username))), db)
    else match FindUser(db, username)
      case None => Outcome(NotFound, db)
      case Some(a) =>
        var me := viewer.user.id;
        FollowRelationAfterUnfollow(db, me, a.id);
        Outcome(Redirect(ProfileUrl(username)), if Follows(db, me, a.id) then DeleteFollows(db, me, a.id) else db)
  }

  // ---------------------------------------------------------------------
  // Properties across views

  /** Following the same author twice leaves exactly one edge: the second
      request changes nothing. */
  lemma FollowTwice(db: Db, viewer: Viewer, username: string)
    requires Consistent(db) && viewer.Authenticated? && viewer.user in db.users
    requires FindUser(db, username).Some? && FindUser(db, username).value.id != viewer.user.id
    ensures var once := ProfileFollow(db, viewer, username);
            && ProfileFollow(once.db, viewer, username) == once
            && |Edges(once.db, viewer.user.id, FindUser(db, username).value.id)| == 1
  {
    var me, a := viewer.user.id, FindUser(db, username).value.id;
    assert me in UserIds(db);
    GetOrCreateFollowKeepsConsistent(db, me, a);
    AtMostOneEdge(GetOrCreateFollow(db, me, a), me, a);
  }

  /** Unfollowing removes exactly one edge when the viewer follows the
      author and none otherwise. */
  lemma UnfollowCount(db: Db, viewer: Viewer, username: string)
    requires Consistent(db) && viewer.Authenticated? && FindUser(db, username).Some?
    ensures var a := FindUser(db, username).value.id;
            |ProfileUnfollow(db, viewer, username).db.follows|
              == |db.follows| - (if Follows(db, viewer.user.id, a) then 1 else 0)
  {
    DeleteFollowsCount(db, viewer.user.id, FindUser(db, username).value.id);
  }

  /** Following an author not followed yet and then unfollowing restores
      the Follow table; both requests land on the author's profile. */
  lemma FollowUnfollowRoundTrip(db: Db, viewer: Viewer, username: string)
    requires viewer.Authenticated? && FindUser(db, username).Some?
    requires !Follows(db, viewer.user.id, FindUser(db, username).value.id)
    ensures var followed := ProfileFollow(db, viewer, username);
            var unfollowed := ProfileUnfollow(followed.db, viewer, username);
            && followed.response == Redirect(ProfileUrl(username))
            && unfollowed.response == Redirect(ProfileUrl(username))
            && unfollowed.db.follows == db.follows
  {
    var me, a := viewer.user.id, FindUser(db, username).value.id;
    var followed := ProfileFollow(db, viewer, username);
    assert FindUser(followed.db, username) == FindUser(db, username);
    if me != a {
      Models.FollowThenUnfollow(db, me, a);
    }
  }

  /** Following an author puts every post of theirs in follow_index;
      unfollowing takes every one of them out. */
  lemma FollowFeedTracksFollows(db: Db, viewer: Viewer, username: string)
    requires viewer.Authenticated? && FindUser(db, username).Some?
    requires FindUser(db, username).value.id != viewer.user.id
    ensures var a := FindUser(db, username).value.id;
            && (forall p :: p in db.posts && p.author == a ==>
                  p in FollowFeed(ProfileFollow(db, viewer, username).db, viewer.user.id))
            && (forall p :: p in db.posts && p.author == a ==>
                  p !in FollowFeed(ProfileUnfollow(db, viewer, username).db, viewer.user.id))
  {
  }

  /** A listing in Meta.ordering whose strictly newest row is p shows p on
      its first page. */
  lemma NewestOnFirstPage(listing: seq<Post>, p: Post)
    requires p in listing && Descending(listing, PubDate)
    requires forall q :: q in listing && q != p ==> q.pubDate < p.pubDate
    ensures p in PageOf(listing, None).items
  {
    var k :| 0 <= k < |listing| && listing[k] == p;
    if k > 0 {
      assert PubDate(listing[0]) >= PubDate(listing[k]);
    }
    var page := PageOf(listing, None);
    assert page == PageAt(listing, 1);
    assert page.items[0] == listing[0];
  }

  /** A post created with group g, newer than every post before it, is on
      the first page of the index, of g's page and of its author's profile,
      and on no page of any other group. */
  lemma CreatedPostIsListed(db: Db, viewer: Viewer, text: string, g: nat, now: int)
    requires viewer.Authenticated? && g in GroupIds(db)
    requires forall q :: q in db.posts ==> q.pubDate < now
    ensures var after := PostCreate(db, viewer, Some(PostInput(text, Some(g))), now).db;
            var p := after.posts[|db.posts|];
            && p in PageOf(AllPosts(after), None).items
            && p in PageOf(GroupFeed(after, g), None).items
            && p in PageOf(AuthorFeed(after, viewer.user.id), None).items
            && forall other, raw :: other != g ==> p !in PageOf(GroupFeed(after, other), raw).items
  {
    var after := PostCreate(db, viewer, Some(PostInput(text, Some(g))), now).db;
    var p := after.posts[|db.posts|];
    assert p in after.posts;
    assert after.posts == db.posts + [p];
    forall q | q in after.posts && q != p ensures q.pubDate < p.pubDate {
      assert q in db.posts;
    }
    NewestOnFirstPage(AllPosts(after), p);
    NewestOnFirstPage(GroupFeed(after, g), p);
    NewestOnFirstPage(AuthorFeed(after, viewer.user.id), p);
  }

  /** Only the author can change a post: post ids are positive, so the
      `post_id and ...` guard never lets another user through. */
  lemma OnlyAuthorEdits(db: Db, viewer: Viewer, postId: nat, form: Option<PostInput>)
    requires Consistent(db)
    ensures PostEdit(db, viewer, postId, form).db != db ==>
              viewer.Authenticated? && exists p :: p in db.posts && p.id == postId && p.author == viewer.user.id
  {
    if viewer.Authenticated? && FindPost(db, postId).Some? {
      var post := FindPost(db, postId).value;
      assert post in db.posts;
    }
  }
}
