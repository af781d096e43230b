/** The views of yatube/posts/views.py that write, run against the mutable
    Store step by step as the view functions are written: the login gate,
    the lookups, the checks, then the write. Each handler leaves exactly the
    response and the tables that the matching function of module Views
    describes, and keeps every integrity constraint. */
module Handlers {
  import opened QuerySets
  import opened Models
  import opened Views
  import opened Database

  /** request.user, when logged in, is a row of the users table. */
  predicate KnownViewer(db: Db, viewer: Viewer) {
    viewer.Authenticated? ==> viewer.user in db.users
  }

  method PostCreate(store: Store, viewer: Viewer, form: Option<PostInput>, now: int) returns (r: Response)
    requires store.Valid() && KnownViewer(store.Tables(), viewer)
    modifies store
    ensures store.Valid()
    ensures Outcome(r, store.Tables()) == Views.PostCreate(old(store.Tables()), viewer, form, now)
  {
    if viewer.Anonymous? {
      return Redirect(LoginUrl(PostCreateUrl));
    }
    if !ValidPostForm(store.Tables(), form) {
      return Render(PostFormScreen(false));
    }
    assert viewer.user.id in UserIds(store.Tables());
    var id := store.InsertPost(viewer.user.id, form.value.text, form.value.group, now);
    return Redirect(ProfileUrl(viewer.user.username));
  }

  method PostEdit(store: Store, viewer: Viewer, postId: nat, form: Option<PostInput>) returns (r: Response)
    requires store.Valid()
    modifies store
    ensures store.Valid()
    ensures Outcome(r, store.Tables()) == Views.PostEdit(old(store.Tables()), viewer, postId, form)
  {
    if viewer.Anonymous? {
      return Redirect(LoginUrl(PostEditUrl(postId)));
    }
    var post := FindPost(store.Tables(), postId);
    if post.None? {
      return NotFound;
    }
    if postId != 0 && viewer.user.id != post.value.author {
      return Redirect(PostDetailUrl(postId));
    }
    if ValidPostForm(store.Tables(), form) {
      store.UpdatePost(postId, form.value.text, form.value.group);
      return Redirect(PostDetailUrl(postId));
    }
    return Render(PostFormScreen(true));
  }

  method AddComment(store: Store, viewer: Viewer, postId: nat, text: Option<string>, now: int) returns (r: Response)
    requires store.Valid() && KnownViewer(store.Tables(), viewer)
    modifies store
    ensures store.Valid()
    ensures Outcome(r, store.Tables()) == AddCommentView(old(store.Tables()), viewer, postId, text, now)
  {
    if viewer.Anonymous? {
      return Redirect(LoginUrl(AddCommentUrl(postId)));
    }
    var post := FindPost(store.Tables(), postId);
    if post.None? {
      return ServerError;
    }
    if text.Some? {
      assert viewer.user.id in UserIds(store.Tables());
      assert post.value.id in PostIds(store.Tables());
      var id := store.InsertComment(post.value.id, viewer.user.id, text.value, now);
    }
    return Redirect(PostDetailUrl(postId));
  }

  method ProfileFollow(store: Store, viewer: Viewer, username: string) returns (r: Response)
    requires store.Valid() && KnownViewer(store.Tables(), viewer)
    modifies store
    ensures store.Valid()
    ensures Outcome(r, store.Tables()) == Views.ProfileFollow(old(store.Tables()), viewer, username)
  {
    if viewer.Anonymous? {
      return Redirect(LoginUrl(ProfileFollowUrl(username)));
    }
    var following := FindUser(store.Tables(), username);
    if following.None? {
      return NotFound;
    }
    if viewer.user.id != following.value.id {
      assert viewer.user.id in UserIds(store.Tables());
      assert following.value.id in UserIds(store.Tables());
      var created := store.GetOrCreateFollow(viewer.user.id, following.value.id);
    }
    return Redirect(ProfileUrl(username));
  }

  method ProfileUnfollow(store: Store, viewer: Viewer, username: string) returns (r: Response)
    requires store.Valid()
    modifies store
    ensures store.Valid()
    ensures Outcome(r, store.Tables()) == Views.ProfileUnfollow(old(store.Tables()), viewer, username)
  {
    if viewer.Anonymous? {
      return Redirect(LoginUrl(ProfileUnfollowUrl(username)));
    }
    var author := FindUser(store.Tables(), username);
    if author.None? {
      return NotFound;
    }
    if Follows(store.Tables(), viewer.user.id, author.value.id) {
      store.DeleteFollows(viewer.user.id, author.value.id);
    }
    return Redirect(ProfileUrl(username));
  }
}
