/** The tables as mutable state, and the views and `on_delete` rules that
    change them. Each method stands for one request (or one deletion) and
    states the whole new state; form validity, authentication and the
    request method are inputs. */
module Database {
  import opened Wrappers
  import opened Models
  import opened FollowGraph
  import Seqs

  /** How a request ended. `Done` is the redirect after the action;
      `FormShown` re-renders the form; `NotAuthor` is `post_edit`'s
      redirect for someone else's post; the rest are errors. */
  datatype Status =
    | Done
    | LoginRedirect
    | NotFound
    | FormShown
    | NotAuthor
    | MultipleObjectsReturned
    | IntegrityError

  /** A bound form carries request data; only a bound form can be valid. */
  datatype PostForm = PostForm(bound: bool, valid: bool, text: string, group: Option<GroupId>)
  {
    predicate IsValid() { bound && valid }
  }

  datatype CommentForm = CommentForm(bound: bool, valid: bool, text: string)
  {
    predicate IsValid() { bound && valid }
  }

  /** The five tables with the clock and the id counters, as one value. */
  datatype Tables = Tables(
    users: seq<User>, groups: seq<Group>, posts: seq<Post>, comments: seq<Comment>, follows: seq<Follow>,
    clock: nat, nextUserId: nat, nextGroupId: nat, nextPostId: nat, nextCommentId: nat)
  {
    /** What the tables keep between requests: users and groups keyed,
        every id below its counter and every date below the clock, posts in
        creation order, and every foreign key pointing at an existing row. */
    ghost predicate Valid()
    {
      && UsersKeyed(users) && UsersBelow(users, nextUserId)
      && GroupsKeyed(groups) && GroupsBelow(groups, nextGroupId)
      && Chronological(posts) && PostsBelow(posts, nextPostId, clock)
      && CommentsBelow(comments, nextCommentId, clock)
      && PostKeysResolve(posts, users, groups)
      && CommentKeysResolve(comments, users, posts)
      && FollowKeysResolve(follows, users)
    }
  }

  /** A user with a free username keeps the tables valid. */
  lemma AddUserKeepsValid(t: Tables, username: string)
    requires t.Valid() && FindUser(t.users, username).None?
    ensures t.(users := t.users + [User(t.nextUserId, username)], nextUserId := t.nextUserId + 1).Valid()
  {
    var u := User(t.nextUserId, username);
    var us := t.users + [u];
    forall v | v in us ensures v in t.users || v == u {
    }
    assert UserIds(t.users) <= UserIds(us);
  }

  /** A group with a free slug keeps the tables valid. */
  lemma AddGroupKeepsValid(t: Tables, title: string, slug: string, description: string)
    requires t.Valid() && forall g :: g in t.groups ==> g.slug != slug
    ensures t.(groups := t.groups + [Group(t.nextGroupId, title, slug, description)],
               nextGroupId := t.nextGroupId + 1).Valid()
  {
    var g := Group(t.nextGroupId, title, slug, description);
    var gs := t.groups + [g];
    forall h | h in gs ensures h in t.groups || h == g {
    }
    assert GroupIds(t.groups) <= GroupIds(gs);
  }

  /** A post by an existing user, in an existing group or none, with the
      next id and the current date, keeps the tables valid. */
  lemma AddPostKeepsValid(t: Tables, text: string, author: UserId, group: Option<GroupId>)
    requires t.Valid() && author in UserIds(t.users)
    requires group.Some? ==> group.value in GroupIds(t.groups)
    ensures t.(posts := t.posts + [Post(t.nextPostId, text, t.clock, author, group)],
               nextPostId := t.nextPostId + 1, clock := t.clock + 1).Valid()
  {
    var p := Post(t.nextPostId, text, t.clock, author, group);
    var ps := t.posts + [p];
    ChronologicalSnoc(t.posts, p);
    forall q | q in ps ensures q in t.posts || q == p {
    }
    assert PostIds(t.posts) <= PostIds(ps);
  }

  /** Rewriting the text and group of one post in place keeps the tables
      valid. */
  lemma EditPostKeepsValid(t: Tables, i: nat, text: string, group: Option<GroupId>)
    requires t.Valid() && i < |t.posts|
    requires group.Some? ==> group.value in GroupIds(t.groups)
    ensures t.(posts := t.posts[i := t.posts[i].(text := text, group := group)]).Valid()
  {
    var q := t.posts[i].(text := text, group := group);
    assert t.posts[i] in t.posts;
    ReplacePost(t.posts, i, q);
  }

  /** A comment by an existing user on an existing post, with the next id
      and the current date, keeps the tables valid. */
  lemma AddCommentKeepsValid(t: Tables, text: string, author: UserId, id: PostId)
    requires t.Valid() && author in UserIds(t.users) && id in PostIds(t.posts)
    ensures t.(comments := t.comments + [Comment(t.nextCommentId, text, t.clock, author, Some(id))],
               nextCommentId := t.nextCommentId + 1, clock := t.clock + 1).Valid()
  {
    var c := Comment(t.nextCommentId, text, t.clock, author, Some(id));
    forall d | d in t.comments + [c] ensures d in t.comments || d == c {
    }
  }

  /** A Follow table whose rows join existing users keeps the tables valid. */
  lemma ReplaceFollowsKeepsValid(t: Tables, fs: seq<Follow>)
    requires t.Valid() && FollowKeysResolve(fs, t.users)
    ensures t.(follows := fs).Valid()
  {
  }

  /** The user cascade keeps the tables valid. */
  lemma DeleteUserKeepsValid(t: Tables, id: UserId)
    requires t.Valid()
    ensures t.(users := Seqs.Filter(t.users, OtherUser(id)),
               posts := Seqs.Filter(t.posts, NotAuthoredBy(id)),
               comments := Seqs.Filter(t.comments, KeepOnUserDelete(id, PostIds(PostsBy(t.posts, id)))),
               follows := Seqs.Filter(t.follows, NotInvolving(id))).Valid()
  {
    FilterChronological(t.posts, NotAuthoredBy(id));
    DeleteUserKeepsKeys(t.users, t.groups, t.posts, t.comments, t.follows, id);
  }

  /** Deleting a group and clearing it from its posts keeps the tables
      valid. */
  lemma DeleteGroupKeepsValid(t: Tables, id: GroupId)
    requires t.Valid()
    ensures t.(groups := Seqs.Filter(t.groups, OtherGroup(id)), posts := ClearGroup(t.posts, id)).Valid()
  {
    ClearGroupKeepsKeys(t.posts, t.users, t.groups, id, t.nextPostId, t.clock);
  }

  /** Deleting a post and the comments on it keeps the tables valid. */
  lemma DeletePostKeepsValid(t: Tables, id: PostId)
    requires t.Valid()
    ensures t.(posts := Seqs.Filter(t.posts, OtherPost(id)),
               comments := Seqs.Filter(t.comments, KeepOnPostDelete(id))).Valid()
  {
    var ps := Seqs.Filter(t.posts, OtherPost(id));
    FilterChronological(t.posts, OtherPost(id));
    forall c | c in Seqs.Filter(t.comments, KeepOnPostDelete(id))
      ensures c.post.Some? ==> c.post.value in PostIds(ps)
    {
      if c.post.Some? {
        var p :| p in t.posts && p.id == c.post.value;
        assert p in ps;
      }
    }
  }

  class Store {
    var users: seq<User>
    var groups: seq<Group>
    var posts: seq<Post>
    var comments: seq<Comment>
    var follows: seq<Follow>
    /** The next timestamp; every creation takes one. */
    var clock: nat
    var nextUserId: nat
    var nextGroupId: nat
    var nextPostId: nat
    var nextCommentId: nat

    /** The tables as one value. */
    function State(): Tables
      reads this
    {
      Tables(users, groups, posts, comments, follows, clock, nextUserId, nextGroupId, nextPostId, nextCommentId)
    }

    ghost predicate Valid()
      reads this
    {
      State().Valid()
    }

    /** A signed-in viewer is an existing user. */
    ghost predicate ViewerExists(viewer: Option<UserId>)
      reads this
    {
      viewer.Some? ==> viewer.value in UserIds(users)
    }

    constructor ()
      ensures Valid()
      ensures users == [] && groups == [] && posts == [] && comments == [] && follows == []
    {
      users, groups, posts, comments, follows := [], [], [], [], [];
      clock, nextUserId, nextGroupId, nextPostId, nextCommentId := 0, 0, 0, 0, 0;
    }

    /** A new user row (the authentication framework's `User.objects.create`);
        usernames are unique, so a taken one is refused. */
    method CreateUser(username: string) returns (status: Status)
      requires Valid()
      modifies this
      ensures Valid()
      ensures status == (if FindUser(old(users), username).Some? then IntegrityError else Done)
      ensures status == Done ==>
        users == old(users) + [User(old(nextUserId), username)] && nextUserId == old(nextUserId) + 1
      ensures status != Done ==> users == old(users) && nextUserId == old(nextUserId)
      ensures groups == old(groups) && posts == old(posts) && comments == old(comments) && follows == old(follows)
      ensures clock == old(clock) && nextGroupId == old(nextGroupId)
      ensures nextPostId == old(nextPostId) && nextCommentId == old(nextCommentId)
    {
      if FindUser(users, username).Some? {
        return IntegrityError;
      }
      users := users + [User(nextUserId, username)];
      nextUserId := nextUserId + 1;
      AddUserKeepsValid(old(State()), username);
      assert State() == old(State()).(users := users, nextUserId := nextUserId);
      status := Done;
    }

    /** A new group row; the slug is unique, so a taken one is refused. */
    method CreateGroup(title: string, slug: string, description: string) returns (status: Status)
      requires Valid()
      modifies this
      ensures Valid()
      ensures status == (if exists g :: g in old(groups) && g.slug == slug then IntegrityError else Done)
      ensures status == Done ==>
        groups == old(groups) + [Group(old(nextGroupId), title, slug, description)]
        && nextGroupId == old(nextGroupId) + 1
      ensures status != Done ==> groups == old(groups) && nextGroupId == old(nextGroupId)
      ensures users == old(users) && posts == old(posts) && comments == old(comments) && follows == old(follows)
      ensures clock == old(clock) && nextUserId == old(nextUserId)
      ensures nextPostId == old(nextPostId) && nextCommentId == old(nextCommentId)
    {
      if exists g :: g in groups && g.slug == slug {
        return IntegrityError;
      }
      groups := groups + [Group(nextGroupId, title, slug, description)];
      nextGroupId := nextGroupId + 1;
      AddGroupKeepsValid(old(State()), title, slug, description);
      assert State() == old(State()).(groups := groups, nextGroupId := nextGroupId);
      status := Done;
    }

    /** `post_create`: a valid POST adds one post, by the signed-in user,
        published now; anything else shows the form and changes nothing. */
    method PostCreate(viewer: Option<UserId>, isPost: bool, form: PostForm) returns (status: Status)
      requires Valid() && ViewerExists(viewer)
      requires form.IsValid() && form.group.Some? ==> form.group.value in GroupIds(groups)
      modifies this
      ensures Valid()
      ensures status == (if viewer.None? then LoginRedirect
                         else if !isPost || !form.IsValid() then FormShown
                         else Done)
      ensures status == Done ==>
        && posts == old(posts) + [Post(old(nextPostId), form.text, old(clock), viewer.value, form.group)]
        && nextPostId == old(nextPostId) + 1 && clock == old(clock) + 1
        && users == old(users) && groups == old(groups) && comments == old(comments) && follows == old(follows)
        && nextUserId == old(nextUserId) && nextGroupId == old(nextGroupId) && nextCommentId == old(nextCommentId)
      ensures status != Done ==> unchanged(this)
    {
      if viewer.None? {
        return LoginRedirect;
      }
      if !isPost || !form.IsValid() {
        return FormShown;
      }
      posts := posts + [Post(nextPostId, form.text, clock, viewer.value, form.group)];
      nextPostId := nextPostId + 1;
      clock := clock + 1;
      AddPostKeepsValid(old(State()), form.text, viewer.value, form.group);
      assert State() == old(State()).(posts := posts, nextPostId := nextPostId, clock := clock);
      status := Done;
    }

    /** `post_edit`: only the author may edit; a valid bound form then
        replaces the text and group of that one post, and keeps its id,
        date, author and place in the table. */
    method PostEdit(viewer: Option<UserId>, id: PostId, form: PostForm) returns (status: Status)
      requires Valid() && ViewerExists(viewer)
      requires form.IsValid() && form.group.Some? ==> form.group.value in GroupIds(groups)
      modifies this
      ensures Valid()
      ensures viewer.None? ==> status == LoginRedirect
      ensures viewer.Some? && id !in PostIds(old(posts)) ==> status == NotFound
      ensures viewer.Some? && id in PostIds(old(posts)) ==>
        var old_post := old(posts)[FindPost(old(posts), id).value];
        status == (if viewer.value != old_post.author then NotAuthor
                   else if !form.IsValid() then FormShown
                   else Done)
      ensures status == Done ==>
        var i := FindPost(old(posts), id).value;
        && posts == old(posts)[i := old(posts)[i].(text := form.text, group := form.group)]
        && |posts| == |old(posts)|
        && users == old(users) && groups == old(groups) && comments == old(comments) && follows == old(follows)
        && clock == old(clock) && nextUserId == old(nextUserId) && nextGroupId == old(nextGroupId)
        && nextPostId == old(nextPostId) && nextCommentId == old(nextCommentId)
      ensures status != Done ==> unchanged(this)
    {
      if viewer.None? {
        return LoginRedirect;
      }
      var found := FindPost(posts, id);
      if found.None? {
        return NotFound;
      }
      var i := found.value;
      if viewer.value != posts[i].author {
        return NotAuthor;
      }
      if !form.IsValid() {
        return FormShown;
      }
      posts := posts[i := posts[i].(text := form.text, group := form.group)];
      EditPostKeepsValid(old(State()), i, form.text, form.group);
      assert State() == old(State()).(posts := posts);
      status := Done;
    }

    /** `add_comment`: on an existing post, a valid form adds one comment
        by the signed-in user on that post; an invalid one adds nothing.
        The post is looked up before the form is looked at. */
    method AddComment(viewer: Option<UserId>, id: PostId, form: CommentForm) returns (status: Status)
      requires Valid() && ViewerExists(viewer)
      modifies this
      ensures Valid()
      ensures status == (if viewer.None? then LoginRedirect
                         else if id !in PostIds(old(posts)) then NotFound
                         else Done)
      ensures status == Done && form.IsValid() ==>
        && comments == old(comments) + [Comment(old(nextCommentId), form.text, old(clock), viewer.value, Some(id))]
        && nextCommentId == old(nextCommentId) + 1 && clock == old(clock) + 1
        && users == old(users) && groups == old(groups) && posts == old(posts) && follows == old(follows)
        && nextUserId == old(nextUserId) && nextGroupId == old(nextGroupId) && nextPostId == old(nextPostId)
      ensures status != Done || !form.IsValid() ==> unchanged(this)
    {
      if viewer.None? {
        return LoginRedirect;
      }
      if FindPost(posts, id).None? {
        return NotFound;
      }
      if form.IsValid() {
        comments := comments + [Comment(nextCommentId, form.text, clock, viewer.value, Some(id))];
        nextCommentId := nextCommentId + 1;
        clock := clock + 1;
        AddCommentKeepsValid(old(State()), form.text, viewer.value, id);
        assert State() == old(State()).(comments := comments, nextCommentId := nextCommentId, clock := clock);
      }
      status := Done;
    }

    /** `profile_follow`: subscribe the signed-in user to the named author
        through `get_or_create`, unless they are the same user. */
    method ProfileFollow(viewer: Option<UserId>, username: string) returns (status: Status)
      requires Valid() && ViewerExists(viewer)
      modifies this`follows
      ensures Valid()
      ensures viewer.None? ==> status == LoginRedirect
      ensures viewer.Some? && FindUser(users, username).None? ==> status == NotFound
      ensures viewer.Some? && FindUser(users, username).Some? ==>
        var user, author := viewer.value, FindUser(users, username).value.id;
        if user == author then status == Done && follows == old(follows)
        else match GetOrCreate(old(follows), user, author)
          case Success(fs) => status == Done && follows == fs
          case Failure(_) => status == Status.MultipleObjectsReturned && follows == old(follows)
      ensures viewer.Some? && FindUser(users, username).Some? && viewer.value != FindUser(users, username).value.id ==>
        IsFollowing(follows, viewer.value, FindUser(users, username).value.id)
      ensures status != Done ==> follows == old(follows)
    {
      if viewer.None? {
        return LoginRedirect;
      }
      var found := FindUser(users, username);
      if found.None? {
        return NotFound;
      }
      var user, author := viewer.value, found.value.id;
      if user == author {
        return Done;
      }
      match GetOrCreate(follows, user, author)
      case Success(fs) =>
        GetOrCreateKeepsKeys(follows, users, user, author);
        follows := fs;
        ReplaceFollowsKeepsValid(old(State()), fs);
        assert State() == old(State()).(follows := follows);
        status := Done;
      case Failure(_) =>
        status := Status.MultipleObjectsReturned;
    }

    /** `profile_unfollow`: delete every row from the signed-in user to the
        named author, whoever they are. */
    method ProfileUnfollow(viewer: Option<UserId>, username: string) returns (status: Status)
      requires Valid() && ViewerExists(viewer)
      modifies this`follows
      ensures Valid()
      ensures status == (if viewer.None? then LoginRedirect
                         else if FindUser(users, username).None? then NotFound
                         else Done)
      ensures status == Done ==>
        follows == RemoveEdges(old(follows), viewer.value, FindUser(users, username).value.id)
      ensures status != Done ==> follows == old(follows)
    {
      if viewer.None? {
        return LoginRedirect;
      }
      var found := FindUser(users, username);
      if found.None? {
        return NotFound;
      }
      RemoveEdgesKeepsKeys(follows, users, viewer.value, found.value.id);
      follows := RemoveEdges(follows, viewer.value, found.value.id);
      ReplaceFollowsKeepsValid(old(State()), follows);
      assert State() == old(State()).(follows := follows);
      status := Done;
    }

    /** Deleting user `id`. `on_delete=CASCADE` on `Post.author`,
        `Comment.author`, `Follow.user` and `Follow.author` removes the
        user's posts, comments and Follow rows in either direction; the
        cascade from `Comment.post` then also removes the comments others
        wrote on the deleted posts. Groups and every other row stay. */
    method DeleteUser(id: UserId)
      requires Valid()
      modifies this`users, this`posts, this`comments, this`follows
      ensures Valid()
      ensures users == Seqs.Filter(old(users), OtherUser(id))
      ensures posts == Seqs.Filter(old(posts), NotAuthoredBy(id))
      ensures comments == Seqs.Filter(old(comments), KeepOnUserDelete(id, PostIds(PostsBy(old(posts), id))))
      ensures follows == Seqs.Filter(old(follows), NotInvolving(id))
    {
      var gone := PostIds(PostsBy(posts, id));
      users := Seqs.Filter(users, OtherUser(id));
      posts := Seqs.Filter(posts, NotAuthoredBy(id));
      comments := Seqs.Filter(comments, KeepOnUserDelete(id, gone));
      follows := Seqs.Filter(follows, NotInvolving(id));
      DeleteUserKeepsValid(old(State()), id);
      assert State() == old(State()).(users := users, posts := posts, comments := comments, follows := follows);
    }

    /** Deleting group `id`. `on_delete=SET_NULL` on `Post.group` keeps
        every post, in place, with the group cleared where it was `id`. */
    method DeleteGroup(id: GroupId)
      requires Valid()
      modifies this`groups, this`posts
      ensures Valid()
      ensures groups == Seqs.Filter(old(groups), OtherGroup(id))
      ensures posts == ClearGroup(old(posts), id)
    {
      groups := Seqs.Filter(groups, OtherGroup(id));
      posts := ClearGroup(posts, id);
      DeleteGroupKeepsValid(old(State()), id);
      assert State() == old(State()).(groups := groups, posts := posts);
    }

    /** Deleting post `id`. `on_delete=CASCADE` on `Comment.post` removes
        exactly the comments on that post; comments with no post stay. */
    method DeletePost(id: PostId)
      requires Valid()
      modifies this`posts, this`comments
      ensures Valid()
      ensures posts == Seqs.Filter(old(posts), OtherPost(id))
      ensures comments == Seqs.Filter(old(comments), KeepOnPostDelete(id))
    {
      posts := Seqs.Filter(posts, OtherPost(id));
      comments := Seqs.Filter(comments, KeepOnPostDelete(id));
      DeletePostKeepsValid(old(State()), id);
      assert State() == old(State()).(posts := posts, comments := comments);
    }
  }
}
