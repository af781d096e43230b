/** The posts app's tables (yatube/posts/models.py) as one database value:
    the rows of each model, their __str__, the integrity constraints the
    database keeps (primary keys, UNIQUE, foreign keys), and every write the
    views make, including the on_delete policies CASCADE and SET_NULL.
    Module Database wraps this value in a mutable store. */
module Models {
  import opened QuerySets

  /** Post.__str__ and Comment.__str__ keep this many characters. */
  const STR_LENGTH: nat := 15

  /** A row of the auth user table (get_user_model()); users are created by
      Django's auth subsystem, with unique usernames. */
  datatype User = User(id: nat, username: string)

  datatype Group = Group(id: nat, title: string, slug: string, description: string)

  /** pubDate is set once, from the caller's clock, when the row is created. */
  datatype Post = Post(id: nat, text: string, pubDate: int, author: nat, group: Option<nat>)

  datatype Comment = Comment(id: nat, post: nat, author: nat, text: string, created: int)

  /** user follows author. */
  datatype Follow = Follow(id: nat, user: nat, author: nat)

  /** Every table in storage order, and the next primary key to hand out. */
  datatype Db = Db(users: seq<User>, groups: seq<Group>, posts: seq<Post>,
                   comments: seq<Comment>, follows: seq<Follow>, nextId: nat)

  /** Primary keys start at 1, as the database's sequences do. */
  const EmptyDb: Db := Db([], [], [], [], [], 1)

  // ---------------------------------------------------------------------
  // __str__

  /** `text[:15]`. */
  function Truncated(text: string): string {
    if |text| <= STR_LENGTH then text else text[..STR_LENGTH]
  }

  function PostStr(p: Post): (r: string)
    ensures |r| == if |p.text| < STR_LENGTH then |p.text| else STR_LENGTH
    ensures r == p.text[..|r|]
  {
    Truncated(p.text)
  }

  function GroupStr(g: Group): string { g.title }

  function CommentStr(c: Comment): (r: string)
    ensures |r| == if |c.text| < STR_LENGTH then |c.text| else STR_LENGTH
    ensures r == c.text[..|r|]
  {
    Truncated(c.text)
  }

  /** What `str()` gives for each model. */
  lemma StrOfEachModel(p: Post, g: Group, c: Comment)
    ensures PostStr(p) == p.text[..if |p.text| < STR_LENGTH then |p.text| else STR_LENGTH]
    ensures GroupStr(g) == g.title
    ensures CommentStr(c) == c.text[..if |c.text| < STR_LENGTH then |c.text| else STR_LENGTH]
  {
  }

  // ---------------------------------------------------------------------
  // Keys and integrity constraints

  function UserPk(u: User): nat { u.id }
  function Username(u: User): string { u.username }
  function GroupPk(g: Group): nat { g.id }
  function Slug(g: Group): string { g.slug }
  function PostPk(p: Post): nat { p.id }
  function CommentPk(c: Comment): nat { c.id }
  function FollowPk(f: Follow): nat { f.id }
  function FollowPair(f: Follow): (nat, nat) { (f.user, f.author) }

  /** Meta.ordering keys: Post by pub_date, Comment by created. */
  function PubDate(p: Post): int { p.pubDate }
  function Created(c: Comment): int { c.created }

  function UserIds(db: Db): set<nat> { set u | u in db.users :: u.id }
  function GroupIds(db: Db): set<nat> { set g | g in db.groups :: g.id }
  function PostIds(db: Db): set<nat> { set p | p in db.posts :: p.id }

  predicate UsersOk(db: Db) {
    && UniqueBy(db.users, UserPk)
    && UniqueBy(db.users, Username)
    && forall u :: u in db.users ==> 0 < u.id < db.nextId
  }

  /** Group.slug is unique=True. */
  predicate GroupsOk(db: Db) {
    && UniqueBy(db.groups, GroupPk)
    && UniqueBy(db.groups, Slug)
    && forall g :: g in db.groups ==> 0 < g.id < db.nextId
  }

  /** Post.author and Post.group point at existing rows. */
  predicate PostsOk(db: Db) {
    && UniqueBy(db.posts, PostPk)
    && forall p :: p in db.posts ==>
         && 0 < p.id < db.nextId
         && p.author in UserIds(db)
         && (p.group.Some? ==> p.group.value in GroupIds(db))
  }

  /** Comment.post and Comment.author point at existing rows. */
  predicate CommentsOk(db: Db) {
    && UniqueBy(db.comments, CommentPk)
    && forall c :: c in db.comments ==>
         0 < c.id < db.nextId && c.post in PostIds(db) && c.author in UserIds(db)
  }

  /** Follow.user and Follow.author point at existing users, and the
      UniqueConstraint 'unique_user_author' holds. */
  predicate FollowsOk(db: Db) {
    && UniqueBy(db.follows, FollowPk)
    && UniqueBy(db.follows, FollowPair)
    && forall f :: f in db.follows ==>
         0 < f.id < db.nextId && f.user in UserIds(db) && f.author in UserIds(db)
  }

  /** Every constraint the database keeps. */
  predicate Consistent(db: Db) {
    0 < db.nextId && UsersOk(db) && GroupsOk(db) && PostsOk(db) && CommentsOk(db) && FollowsOk(db)
  }

  // ---------------------------------------------------------------------
  // Lookups

  /** `get_object_or_404(User, username=...)` without the 404. */
  function FindUser(db: Db, username: string): Option<User> {
    Get(db.users, (u: User) => u.username == username)
  }

  /** `get_object_or_404(Group, slug=...)` without the 404. */
  function FindGroup(db: Db, slug: string): Option<Group> {
    Get(db.groups, (g: Group) => g.slug == slug)
  }

  /** `Post.objects.get(pk=...)` without the DoesNotExist. */
  function FindPost(db: Db, id: nat): Option<Post> {
    Get(db.posts, (p: Post) => p.id == id)
  }

  /** A Follow row (user, author) exists. */
  predicate Follows(db: Db, user: nat, author: nat) {
    exists f :: f in db.follows && f.user == user && f.author == author
  }

  /** The (user, author) Follow rows: `Follow.objects.filter(user=..., author=...)`. */
  function Edges(db: Db, user: nat, author: nat): seq<Follow> {
    Filter(db.follows, (f: Follow) => f.user == user && f.author == author)
  }

  /** The UniqueConstraint on (user, author): at most one edge per pair. */
  lemma AtMostOneEdge(db: Db, user: nat, author: nat)
    requires Consistent(db)
    ensures |Edges(db, user, author)| <= 1
    ensures |Edges(db, user, author)| == 1 <==> Follows(db, user, author)
  {
    var e := Edges(db, user, author);
    FilterKeepsUnique(db.follows, (f: Follow) => f.user == user && f.author == author, FollowPair);
    UniqueKeyAtMostOne(e, FollowPair, (user, author));
    if Follows(db, user, author) {
      var f :| f in db.follows && f.user == user && f.author == author;
      assert f in e;
    }
    if |e| == 1 {
      assert e[0] in e;
    }
  }

  // ---------------------------------------------------------------------
  // Rows created outside the posts app: users (auth) and groups (admin)

  /** Registering a user; a taken username violates the auth table's UNIQUE. */
  function AddUser(db: Db, username: string): (r: Option<Db>)
    ensures r.None? <==> exists u :: u in db.users && u.username == username
    ensures r.Some? ==> r.value.users == db.users + [User(db.nextId, username)]
    ensures r.Some? ==> r.value == db.(users := r.value.users, nextId := db.nextId + 1)
  {
    if exists u :: u in db.users && u.username == username then None
    else Some(db.(users := db.users + [User(db.nextId, username)], nextId := db.nextId + 1))
  }

  /** Creating a group; a slug already in use is refused, as Group.slug's
      unique=True makes the database raise an IntegrityError. */
  function AddGroup(db: Db, title: string, slug: string, description: string): (r: Option<Db>)
    ensures r.None? <==> exists g :: g in db.groups && g.slug == slug
    ensures r.Some? ==> |r.value.groups| == |db.groups| + 1 && r.value.groups[..|db.groups|] == db.groups
    ensures r.Some? ==> r.value.groups[|db.groups|] == Group(db.nextId, title, slug, description)
    ensures r.Some? ==> r.value == db.(groups := r.value.groups, nextId := db.nextId + 1)
  {
    if exists g :: g in db.groups && g.slug == slug then None
    else
      var gs := db.groups + [Group(db.nextId, title, slug, description)];
      assert gs[..|db.groups|] == db.groups;
      Some(db.(groups := gs, nextId := db.nextId + 1))
  }

  lemma AddUserKeepsConsistent(db: Db, username: string)
    requires Consistent(db) && AddUser(db, username).Some?
    ensures Consistent(AddUser(db, username).value)
  {
    var r := AddUser(db, username).value;
    var x := User(db.nextId, username);
    AppendKeepsUnique(db.users, x, UserPk);
    AppendKeepsUnique(db.users, x, Username);
    assert UserIds(db) <= UserIds(r);
    forall y | y in r.users ensures 0 < y.id < r.nextId {
      if y != x { assert y in db.users; }
    }
  }

  /** After a successful AddGroup no two groups share a slug, and every
      other constraint still holds. */
  lemma AddGroupKeepsConsistent(db: Db, title: string, slug: string, description: string)
    requires Consistent(db) && AddGroup(db, title, slug, description).Some?
    ensures Consistent(AddGroup(db, title, slug, description).value)
    ensures UniqueBy(AddGroup(db, title, slug, description).value.groups, Slug)
  {
    var r := AddGroup(db, title, slug, description).value;
    var x := Group(db.nextId, title, slug, description);
    assert r.groups == db.groups + [x];
    AppendKeepsUnique(db.groups, x, GroupPk);
    AppendKeepsUnique(db.groups, x, Slug);
    assert GroupIds(db) <= GroupIds(r);
    forall g | g in r.groups ensures 0 < g.id < r.nextId {
      if g != x { assert g in db.groups; }
    }
  }

  // ---------------------------------------------------------------------
  // on_delete policies

  /** Ids of the posts user u wrote. */
  function PostIdsBy(db: Db, u: nat): set<nat> {
    set p | p in db.posts && p.author == u :: p.id
  }

  /** Deleting user u: CASCADE through Post.author, Comment.author,
      Follow.user and Follow.author, and on through Comment.post for the
      comments other users left under u's posts. */
  function DeleteUser(db: Db, u: nat): Db {
    var doomed := PostIdsBy(db, u);
    db.(users := Filter(db.users, (x: User) => x.id != u),
        posts := Filter(db.posts, (p: Post) => p.author != u),
        comments := Filter(db.comments, (c: Comment) => c.author != u && c.post !in doomed),
        follows := Filter(db.follows, (f: Follow) => f.user != u && f.author != u))
  }

  /** What the user cascade removes: the user, their posts, their follow
      rows on either side and (at least) their comments; nothing else
      changes. */
  lemma DeleteUserRemoves(db: Db, u: nat)
    ensures var r := DeleteUser(db, u);
      && (forall x :: x in r.users <==> x in db.users && x.id != u)
      && (forall p :: p in r.posts <==> p in db.posts && p.author != u)
      && (forall c :: c in r.comments ==> c in db.comments && c.author != u)
      && (forall f :: f in r.follows <==> f in db.follows && f.user != u && f.author != u)
      && r.groups == db.groups && r.nextId == db.nextId
  {
  }

  lemma DeleteUserKeepsConsistent(db: Db, u: nat)
    requires Consistent(db)
    ensures Consistent(DeleteUser(db, u))
  {
    var r := DeleteUser(db, u);
    DeleteUserRemoves(db, u);
    var doomed := PostIdsBy(db, u);
    FilterKeepsUnique(db.users, (x: User) => x.id != u, UserPk);
    FilterKeepsUnique(db.users, (x: User) => x.id != u, Username);
    FilterKeepsUnique(db.posts, (p: Post) => p.author != u, PostPk);
    FilterKeepsUnique(db.comments, (c: Comment) => c.author != u && c.post !in doomed, CommentPk);
    FilterKeepsUnique(db.follows, (f: Follow) => f.user != u && f.author != u, FollowPk);
    FilterKeepsUnique(db.follows, (f: Follow) => f.user != u && f.author != u, FollowPair);
    assert PostsOk(r) by {
      forall p | p in r.posts ensures p.author in UserIds(r) {
        var x :| x in db.users && x.id == p.author;
        assert x in r.users;
      }
    }
    assert CommentsOk(r) by {
      forall c | c in r.comments ensures c.post in PostIds(r) && c.author in UserIds(r) {
        var x :| x in db.users && x.id == c.author;
        assert x in r.users;
        var p :| p in db.posts && p.id == c.post;
        assert p.author != u;
        assert p in r.posts;
      }
    }
    assert FollowsOk(r) by {
      forall f | f in r.follows ensures f.user in UserIds(r) && f.author in UserIds(r) {
        var x :| x in db.users && x.id == f.user;
        var y :| y in db.users && y.id == f.author;
        assert x in r.users && y in r.users;
      }
    }
  }

  /** After deleting u no row refers to u, and a comment survives exactly
      when its author and its post both survive. */
  lemma DeleteUserCascade(db: Db, u: nat)
    requires Consistent(db)
    ensures var r := DeleteUser(db, u);
      && u !in UserIds(r)
      && (forall p :: p in r.posts ==> p.author != u)
      && (forall f :: f in r.follows ==> f.user != u && f.author != u)
      && (forall c :: c in r.comments <==> c in db.comments && c.author != u && c.post in PostIds(r))
  {
    var r := DeleteUser(db, u);
    DeleteUserRemoves(db, u);
    forall c ensures c in r.comments <==> c in db.comments && c.author != u && c.post in PostIds(r) {
      if c in db.comments && c.author != u {
        var p :| p in db.posts && p.id == c.post;
        if c.post in PostIdsBy(db, u) {
          var q :| q in db.posts && q.author == u && q.id == c.post;
          KeyIdentifiesRow(db.posts, PostPk, p, q);
          if c.post in PostIds(r) {
            var s :| s in r.posts && s.id == c.post;
            KeyIdentifiesRow(db.posts, PostPk, s, q);
          }
        } else {
          assert p in r.posts;
        }
      }
    }
  }

  /** Deleting post pid: CASCADE through Comment.post. */
  function DeletePost(db: Db, pid: nat): (r: Db)
    ensures forall p :: p in r.posts <==> p in db.posts && p.id != pid
    ensures forall c :: c in r.comments <==> c in db.comments && c.post != pid
    ensures r.users == db.users && r.groups == db.groups && r.follows == db.follows
    ensures r.nextId == db.nextId
  {
    db.(posts := Filter(db.posts, (p: Post) => p.id != pid),
        comments := Filter(db.comments, (c: Comment) => c.post != pid))
  }

  lemma DeletePostKeepsConsistent(db: Db, pid: nat)
    requires Consistent(db)
    ensures Consistent(DeletePost(db, pid))
  {
    var r := DeletePost(db, pid);
    FilterKeepsUnique(db.posts, (p: Post) => p.id != pid, PostPk);
    FilterKeepsUnique(db.comments, (c: Comment) => c.post != pid, CommentPk);
    assert CommentsOk(r) by {
      forall c | c in r.comments ensures c.post in PostIds(r) {
        var p :| p in db.posts && p.id == c.post;
        assert p in r.posts;
      }
    }
  }

  /** on_delete=SET_NULL: p loses its group if that group is gid. */
  function Unlinked(p: Post, gid: nat): Post {
    if p.group == Some(gid) then p.(group := None) else p
  }

  /** Deleting group gid: SET_NULL on Post.group; every post survives. */
  function DeleteGroup(db: Db, gid: nat): (r: Db)
    ensures forall g :: g in r.groups <==> g in db.groups && g.id != gid
    ensures |r.posts| == |db.posts|
    ensures forall i :: 0 <= i < |db.posts| ==>
              && r.posts[i].id == db.posts[i].id
              && r.posts[i].text == db.posts[i].text
              && r.posts[i].author == db.posts[i].author
              && r.posts[i].pubDate == db.posts[i].pubDate
              && r.posts[i].group == (if db.posts[i].group == Some(gid) then None else db.posts[i].group)
    ensures r.users == db.users && r.comments == db.comments && r.follows == db.follows
    ensures r.nextId == db.nextId
  {
    db.(groups := Filter(db.groups, (g: Group) => g.id != gid),
        posts := seq(|db.posts|, i requires 0 <= i < |db.posts| => Unlinked(db.posts[i], gid)))
  }

  lemma DeleteGroupKeepsConsistent(db: Db, gid: nat)
    requires Consistent(db)
    ensures Consistent(DeleteGroup(db, gid))
  {
    var r := DeleteGroup(db, gid);
    FilterKeepsUnique(db.groups, (g: Group) => g.id != gid, GroupPk);
    FilterKeepsUnique(db.groups, (g: Group) => g.id != gid, Slug);
    forall i | 0 <= i < |r.posts| && r.posts[i].group.Some?
      ensures r.posts[i].group.value in GroupIds(r)
    {
      assert db.posts[i] in db.posts;
      var g :| g in db.groups && g.id == r.posts[i].group.value;
      assert g in r.groups;
    }
    PostsRowwise(db, r);
  }

  /** A rewrite of the posts table that keeps every row's id and author, and
      points every group at an existing group, keeps PostsOk and the set of
      post ids. */
  lemma PostsRowwise(db: Db, r: Db)
    requires PostsOk(db) && r.users == db.users && r.nextId == db.nextId
    requires |r.posts| == |db.posts|
    requires forall i :: 0 <= i < |db.posts| ==>
               r.posts[i].id == db.posts[i].id && r.posts[i].author == db.posts[i].author
    requires forall i :: 0 <= i < |r.posts| && r.posts[i].group.Some? ==>
               r.posts[i].group.value in GroupIds(r)
    ensures PostIds(r) == PostIds(db) && PostsOk(r)
  {
    forall id | id in PostIds(db) ensures id in PostIds(r) {
      var i :| 0 <= i < |db.posts| && db.posts[i].id == id;
      assert r.posts[i] in r.posts;
    }
    forall id | id in PostIds(r) ensures id in PostIds(db) {
      var i :| 0 <= i < |r.posts| && r.posts[i].id == id;
      assert db.posts[i] in db.posts;
    }
    forall i, j | 0 <= i < j < |r.posts| ensures PostPk(r.posts[i]) != PostPk(r.posts[j]) {
      assert PostPk(db.posts[i]) != PostPk(db.posts[j]);
    }
    forall p | p in r.posts
      ensures 0 < p.id < r.nextId && p.author in UserIds(r)
    {
      var i :| 0 <= i < |r.posts| && r.posts[i] == p;
      assert db.posts[i] in db.posts;
    }
  }

  // ---------------------------------------------------------------------
  // Writes made by the views

  /** `post.save()` in post_create: a new row with a fresh primary key. */
  function AddPost(db: Db, author: nat, text: string, group: Option<nat>, now: int): (r: Db)
    ensures |r.posts| == |db.posts| + 1 && r.posts[..|db.posts|] == db.posts
    ensures var p := r.posts[|db.posts|];
              p.author == author && p.text == text && p.group == group && p.pubDate == now
    ensures Consistent(db) ==> r.posts[|db.posts|].id !in PostIds(db)
    ensures r.users == db.users && r.groups == db.groups
    ensures r.comments == db.comments && r.follows == db.follows
  {
    var ps := db.posts + [Post(db.nextId, text, now, author, group)];
    assert ps[..|db.posts|] == db.posts;
    db.(posts := ps, nextId := db.nextId + 1)
  }

  lemma AddPostKeepsConsistent(db: Db, author: nat, text: string, group: Option<nat>, now: int)
    requires Consistent(db)
    requires author in UserIds(db)
    requires group.Some? ==> group.value in GroupIds(db)
    ensures Consistent(AddPost(db, author, text, group, now))
  {
    var r := AddPost(db, author, text, group, now);
    var x := Post(db.nextId, text, now, author, group);
    assert r.posts == db.posts + [x];
    AppendKeepsUnique(db.posts, x, PostPk);
    assert PostIds(db) <= PostIds(r);
  }

  /** `comment.save()` in add_comment: a new row with a fresh primary key. */
  function AddComment(db: Db, post: nat, author: nat, text: string, now: int): (r: Db)
    ensures |r.comments| == |db.comments| + 1 && r.comments[..|db.comments|] == db.comments
    ensures var c := r.comments[|db.comments|];
              c.post == post && c.author == author && c.text == text && c.created == now
    ensures Consistent(db) ==> forall c :: c in db.comments ==> c.id != r.comments[|db.comments|].id
    ensures r.users == db.users && r.groups == db.groups
    ensures r.posts == db.posts && r.follows == db.follows
  {
    var cs := db.comments + [Comment(db.nextId, post, author, text, now)];
    assert cs[..|db.comments|] == db.comments;
    db.(comments := cs, nextId := db.nextId + 1)
  }

  lemma AddCommentKeepsConsistent(db: Db, post: nat, author: nat, text: string, now: int)
    requires Consistent(db)
    requires post in PostIds(db) && author in UserIds(db)
    ensures Consistent(AddComment(db, post, author, text, now))
  {
    var r := AddComment(db, post, author, text, now);
    var x := Comment(db.nextId, post, author, text, now);
    assert r.comments == db.comments + [x];
    AppendKeepsUnique(db.comments, x, CommentPk);
  }

  /** `form.save()` in post_edit: text and group of row pid replaced. */
  function Revised(p: Post, pid: nat, text: string, group: Option<nat>): Post {
    if p.id == pid then p.(text := text, group := group) else p
  }

  function EditPost(db: Db, pid: nat, text: string, group: Option<nat>): (r: Db)
    ensures |r.posts| == |db.posts|
    ensures forall i :: 0 <= i < |db.posts| ==>
              && r.posts[i].id == db.posts[i].id
              && r.posts[i].author == db.posts[i].author
              && r.posts[i].pubDate == db.posts[i].pubDate
              && (db.posts[i].id == pid ==> r.posts[i].text == text && r.posts[i].group == group)
              && (db.posts[i].id != pid ==> r.posts[i] == db.posts[i])
    ensures r.users == db.users && r.groups == db.groups
    ensures r.comments == db.comments && r.follows == db.follows && r.nextId == db.nextId
  {
    db.(posts := seq(|db.posts|, i requires 0 <= i < |db.posts| => Revised(db.posts[i], pid, text, group)))
  }

  lemma EditPostKeepsConsistent(db: Db, pid: nat, text: string, group: Option<nat>)
    requires Consistent(db)
    requires group.Some? ==> group.value in GroupIds(db)
    ensures Consistent(EditPost(db, pid, text, group))
  {
    var r := EditPost(db, pid, text, group);
    forall i | 0 <= i < |r.posts| && r.posts[i].group.Some?
      ensures r.posts[i].group.value in GroupIds(r)
    {
      assert db.posts[i] in db.posts;
    }
    PostsRowwise(db, r);
  }

  /** `Follow.objects.get_or_create(user=u, author=a)`: adds the edge unless
      it is already there. */
  function GetOrCreateFollow(db: Db, u: nat, a: nat): (r: Db)
    ensures Follows(r, u, a)
    ensures |r.follows| == |db.follows| + (if Follows(db, u, a) then 0 else 1)
    ensures forall f :: f in db.follows ==> f in r.follows
    ensures forall f :: f in r.follows && f !in db.follows ==> f.user == u && f.author == a
    ensures r.users == db.users && r.groups == db.groups
    ensures r.posts == db.posts && r.comments == db.comments
  {
    if Follows(db, u, a) then db
    else
      var f := Follow(db.nextId, u, a);
      assert f in db.follows + [f];
      db.(follows := db.follows + [f], nextId := db.nextId + 1)
  }

  /** get_or_create keeps the (user, author) UNIQUE constraint. */
  lemma GetOrCreateFollowKeepsConsistent(db: Db, u: nat, a: nat)
    requires Consistent(db) && u in UserIds(db) && a in UserIds(db)
    ensures Consistent(GetOrCreateFollow(db, u, a))
  {
    if !Follows(db, u, a) {
      var f := Follow(db.nextId, u, a);
      AppendKeepsUnique(db.follows, f, FollowPk);
      AppendKeepsUnique(db.follows, f, FollowPair);
    }
  }

  /** A second get_or_create for the same pair changes nothing. */
  lemma {:induction false} GetOrCreateFollowIdempotent(db: Db, u: nat, a: nat)
    ensures GetOrCreateFollow(GetOrCreateFollow(db, u, a), u, a) == GetOrCreateFollow(db, u, a)
  {
  }

  /** get_or_create adds the pair (u, a) to the follow relation and nothing else. */
  lemma FollowRelationAfterFollow(db: Db, u: nat, a: nat)
    ensures forall x: nat, y: nat :: Follows(GetOrCreateFollow(db, u, a), x, y) <==> Follows(db, x, y) || (x == u && y == a)
  {
    var r := GetOrCreateFollow(db, u, a);
    forall x: nat, y: nat ensures Follows(r, x, y) <==> Follows(db, x, y) || (x == u && y == a) {
      if Follows(db, x, y) {
        var f :| f in db.follows && f.user == x && f.author == y;
        assert f in r.follows;
      }
      if Follows(r, x, y) {
        var f :| f in r.follows && f.user == x && f.author == y;
        if f !in db.follows {
          assert x == u && y == a;
        }
      }
    }
  }

  /** `Follow.objects.filter(user=u, author=a).delete()`. */
  function DeleteFollows(db: Db, u: nat, a: nat): (r: Db)
    ensures !Follows(r, u, a)
    ensures forall f :: f in r.follows <==> f in db.follows && (f.user != u || f.author != a)
    ensures r.users == db.users && r.groups == db.groups
    ensures r.posts == db.posts && r.comments == db.comments && r.nextId == db.nextId
  {
    db.(follows := Filter(db.follows, (f: Follow) => f.user != u || f.author != a))
  }

  lemma DeleteFollowsKeepsConsistent(db: Db, u: nat, a: nat)
    requires Consistent(db)
    ensures Consistent(DeleteFollows(db, u, a))
  {
    FilterKeepsUnique(db.follows, (f: Follow) => f.user != u || f.author != a, FollowPk);
    FilterKeepsUnique(db.follows, (f: Follow) => f.user != u || f.author != a, FollowPair);
  }

  /** The delete takes the pair (u, a) out of the follow relation and nothing else. */
  lemma FollowRelationAfterUnfollow(db: Db, u: nat, a: nat)
    ensures forall x: nat, y: nat :: Follows(DeleteFollows(db, u, a), x, y) <==> Follows(db, x, y) && !(x == u && y == a)
  {
    var r := DeleteFollows(db, u, a);
    forall x: nat, y: nat ensures Follows(r, x, y) <==> Follows(db, x, y) && !(x == u && y == a) {
      if Follows(db, x, y) && !(x == u && y == a) {
        var f :| f in db.follows && f.user == x && f.author == y;
        assert f in r.follows;
      }
    }
  }

  /** Deleting the (u, a) edges removes exactly one row when u follows a,
      and none otherwise. */
  lemma {:induction false} DeleteFollowsCount(db: Db, u: nat, a: nat)
    requires Consistent(db)
    ensures |DeleteFollows(db, u, a).follows| == |db.follows| - (if Follows(db, u, a) then 1 else 0)
  {
    FilterPartition(db.follows, (f: Follow) => f.user != u || f.author != a,
                    (f: Follow) => f.user == u && f.author == a);
    AtMostOneEdge(db, u, a);
  }

  /** A follow of an author not followed yet, undone by an unfollow, leaves
      the Follow table as it was. */
  lemma {:induction false} FollowThenUnfollow(db: Db, u: nat, a: nat)
    requires !Follows(db, u, a)
    ensures DeleteFollows(GetOrCreateFollow(db, u, a), u, a).follows == db.follows
  {
    var f := Follow(db.nextId, u, a);
    var keep := (f: Follow) => f.user != u || f.author != a;
    FilterAppend(db.follows, [f], keep);
    FilterKeepsAll(db.follows, keep);
    assert Filter([f], keep) == [];
  }
}
