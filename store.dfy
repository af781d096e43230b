/** The database the posts app writes to: one mutable table per model.
    Every write keeps the integrity constraints (Valid) and leaves exactly
    the tables that the matching Models transition describes; the on_delete
    policies of yatube/posts/models.py are the three Delete methods. */
module Database {
  import opened QuerySets
  import opened Models

  class Store {
    var users: seq<User>
    var groups: seq<Group>
    var posts: seq<Post>
    var comments: seq<Comment>
    var follows: seq<Follow>
    var nextId: nat

    /** The current contents of every table. */
    function Tables(): Db
      reads this
    {
      Db(users, groups, posts, comments, follows, nextId)
    }

    predicate Valid()
      reads this
    {
      Consistent(Tables())
    }

    /** A freshly migrated, empty database. */
    constructor ()
      ensures Valid() && Tables() == EmptyDb
    {
      users, groups, posts, comments, follows := [], [], [], [], [];
      nextId := 1;
    }

    /** `User.objects.create(username=...)`; refused when the name is taken. */
    method CreateUser(username: string) returns (ok: bool)
      requires Valid()
      modifies this
      ensures Valid()
      ensures ok <==> AddUser(old(Tables()), username).Some?
      ensures Tables() == if ok then AddUser(old(Tables()), username).value else old(Tables())
    {
      if exists u :: u in users && u.username == username {
        return false;
      }
      AddUserKeepsConsistent(Tables(), username);
      users := users + [User(nextId, username)];
      nextId := nextId + 1;
      return true;
    }

    /** `Group.objects.create(...)`; refused when the slug is taken. */
    method CreateGroup(title: string, slug: string, description: string) returns (ok: bool)
      requires Valid()
      modifies this
      ensures Valid()
      ensures ok <==> AddGroup(old(Tables()), title, slug, description).Some?
      ensures Tables() == if ok then AddGroup(old(Tables()), title, slug, description).value else old(Tables())
    {
      if exists g :: g in groups && g.slug == slug {
        return false;
      }
      AddGroupKeepsConsistent(Tables(), title, slug, description);
      groups := groups + [Group(nextId, title, slug, description)];
      nextId := nextId + 1;
      return true;
    }

    /** `user.delete()`, with the CASCADE rules of Post.author,
        Comment.author, Comment.post, Follow.user and Follow.author. */
    method DeleteUser(u: nat)
      requires Valid()
      modifies this
      ensures Valid() && Tables() == Models.DeleteUser(old(Tables()), u)
    {
      var before := Tables();
      var doomed := PostIdsBy(before, u);
      users := Filter(users, (x: User) => x.id != u);
      posts := Filter(posts, (p: Post) => p.author != u);
      comments := Filter(comments, (c: Comment) => c.author != u && c.post !in doomed);
      follows := Filter(follows, (f: Follow) => f.user != u && f.author != u);
      assert Tables() == Models.DeleteUser(before, u);
      assert Consistent(Models.DeleteUser(before, u)) by {
        DeleteUserKeepsConsistent(before, u);
      }
    }

    /** `post.delete()`, with the CASCADE rule of Comment.post. */
    method DeletePost(pid: nat)
      requires Valid()
      modifies this
      ensures Valid() && Tables() == Models.DeletePost(old(Tables()), pid)
    {
      var before := Tables();
      posts := Filter(posts, (p: Post) => p.id != pid);
      comments := Filter(comments, (c: Comment) => c.post != pid);
      assert Tables() == Models.DeletePost(before, pid);
      assert Consistent(Models.DeletePost(before, pid)) by {
        DeletePostKeepsConsistent(before, pid);
      }
    }

    /** `group.delete()`, with the SET_NULL rule of Post.group. */
    method DeleteGroup(gid: nat)
      requires Valid()
      modifies this
      ensures Valid() && Tables() == Models.DeleteGroup(old(Tables()), gid)
    {
      var before := Tables();
      var ps := posts;
      var rows := ps;
      var i := 0;
      while i < |rows|
        invariant 0 <= i <= |rows| == |ps|
        invariant forall k :: 0 <= k < i ==> rows[k] == Unlinked(ps[k], gid)
        invariant forall k :: i <= k < |rows| ==> rows[k] == ps[k]
      {
        if rows[i].group == Some(gid) {
          rows := rows[i := rows[i].(group := None)];
        }
        i := i + 1;
      }
      groups := Filter(groups, (g: Group) => g.id != gid);
      posts := rows;
      assert Tables() == Models.DeleteGroup(before, gid);
      assert Consistent(Models.DeleteGroup(before, gid)) by {
        DeleteGroupKeepsConsistent(before, gid);
      }
    }

    /** `post.save()` of a new post; returns its primary key. */
    method InsertPost(author: nat, text: string, group: Option<nat>, now: int) returns (id: nat)
      requires Valid()
      requires author in UserIds(Tables())
      requires group.Some? ==> group.value in GroupIds(Tables())
      modifies this
      ensures Valid() && Tables() == AddPost(old(Tables()), author, text, group, now)
      ensures id == old(nextId) && id !in PostIds(old(Tables()))
    {
      AddPostKeepsConsistent(Tables(), author, text, group, now);
      id := nextId;
      posts := posts + [Post(id, text, now, author, group)];
      nextId := nextId + 1;
    }

    /** `comment.save()` of a new comment; returns its primary key. */
    method InsertComment(post: nat, author: nat, text: string, now: int) returns (id: nat)
      requires Valid()
      requires post in PostIds(Tables()) && author in UserIds(Tables())
      modifies this
      ensures Valid() && Tables() == AddComment(old(Tables()), post, author, text, now)
      ensures id == old(nextId)
    {
      AddCommentKeepsConsistent(Tables(), post, author, text, now);
      id := nextId;
      comments := comments + [Comment(id, post, author, text, now)];
      nextId := nextId + 1;
    }

    /** `form.save()` on an existing post: new text and group. */
    method UpdatePost(pid: nat, text: string, group: Option<nat>)
      requires Valid()
      requires group.Some? ==> group.value in GroupIds(Tables())
      modifies this
      ensures Valid() && Tables() == EditPost(old(Tables()), pid, text, group)
    {
      var before := Tables();
      var ps := posts;
      var rows := ps;
      var i := 0;
      while i < |rows|
        invariant 0 <= i <= |rows| == |ps|
        invariant forall k :: 0 <= k < i ==> rows[k] == Revised(ps[k], pid, text, group)
        invariant forall k :: i <= k < |rows| ==> rows[k] == ps[k]
      {
        if rows[i].id == pid {
          rows := rows[i := rows[i].(text := text, group := group)];
        }
        i := i + 1;
      }
      posts := rows;
      assert Tables() == EditPost(before, pid, text, group);
      assert Consistent(EditPost(before, pid, text, group)) by {
        EditPostKeepsConsistent(before, pid, text, group);
      }
    }

    /** `Follow.objects.get_or_create(user=u, author=a)`. */
    method GetOrCreateFollow(u: nat, a: nat) returns (created: bool)
      requires Valid()
      requires u in UserIds(Tables()) && a in UserIds(Tables())
      modifies this
      ensures Valid() && Tables() == Models.GetOrCreateFollow(old(Tables()), u, a)
      ensures created <==> !Follows(old(Tables()), u, a)
    {
      GetOrCreateFollowKeepsConsistent(Tables(), u, a);
      if exists f :: f in follows && f.user == u && f.author == a {
        return false;
      }
      follows := follows + [Follow(nextId, u, a)];
      nextId := nextId + 1;
      return true;
    }

    /** `Follow.objects.filter(user=u, author=a).delete()`. */
    method DeleteFollows(u: nat, a: nat)
      requires Valid()
      modifies this
      ensures Valid() && Tables() == Models.DeleteFollows(old(Tables()), u, a)
    {
      var before := Tables();
      follows := Filter(follows, (f: Follow) => f.user != u || f.author != a);
      assert Tables() == Models.DeleteFollows(before, u, a);
      assert Consistent(Models.DeleteFollows(before, u, a)) by {
        DeleteFollowsKeepsConsistent(before, u, a);
      }
    }
  }
}
