/** The views that only read the tables: `profile` and `follow_index`.
    The tables are passed in as values; the requesting user is `viewer`,
    `None` for an anonymous request; the page number is one the listing
    has. */
module Views {
  import opened Wrappers
  import opened Models
  import opened Pagination
  import opened FollowGraph

  datatype ViewError = NotFound | LoginRedirect

  /** What `profile` hands to its template. */
  datatype ProfilePage = ProfilePage(author: User, page: seq<Post>, postsCount: nat, following: bool)

  /** The named author's posts, newest first; nothing when there is no
      such user. */
  function ProfileListing(us: seq<User>, ps: seq<Post>, username: string): seq<Post>
  {
    match FindUser(us, username)
    case None => []
    case Some(author) => NewestFirst(PostsBy(ps, author.id))
  }

  /** `profile(request, username)`: the author is looked up before any
      pagination, so an unknown name is not found whatever the page. */
  function Profile(us: seq<User>, ps: seq<Post>, fs: seq<Follow>, viewer: Option<UserId>,
                   username: string, number: nat): (r: Result<ProfilePage, ViewError>)
    requires FindUser(us, username).Some? ==> PageInRange(|ProfileListing(us, ps, username)|, number)
    ensures r.Failure? <==> (forall u :: u in us ==> u.username != username)
    ensures r.Failure? ==> r.error == NotFound
    ensures r.Success? ==> FindUser(us, username) == Some(r.value.author)
    ensures r.Success? ==> r.value.author in us && r.value.author.username == username
    ensures r.Success? ==> r.value.postsCount == |PostsBy(ps, r.value.author.id)|
    ensures r.Success? ==> |r.value.page| <= LimitPostsOnThePage
    ensures r.Success? ==> var n := |ProfileListing(us, ps, username)|;
      |r.value.page| == if number < NumPages(n) then LimitPostsOnThePage else n - PageStart(number)
    ensures r.Success? ==> forall i :: 0 <= i < |r.value.page| ==>
      PageStart(number) + i < |ProfileListing(us, ps, username)|
      && r.value.page[i] == ProfileListing(us, ps, username)[PageStart(number) + i]
    ensures r.Success? ==> forall p :: p in r.value.page ==> p in ps && p.author == r.value.author.id
    ensures r.Success? && Chronological(ps) ==> NewestFirstOrdered(r.value.page)
    ensures r.Success? ==>
      (r.value.following <==> viewer.Some? && IsFollowing(fs, viewer.value, r.value.author.id))
  {
    match FindUser(us, username)
    case None => Failure(NotFound)
    case Some(author) =>
      var page := Paginate(NewestFirst(PostsBy(ps, author.id)), number);
      AuthorPage(ps, author.id, number);
      var following := viewer.Some? && IsFollowing(fs, viewer.value, author.id);
      Success(ProfilePage(author, page, |PostsBy(ps, author.id)|, following))
  }

  /** With usernames unique, every post of a user is on some page of that
      user's profile. */
  lemma ProfilePostOnSomePage(us: seq<User>, ps: seq<Post>, fs: seq<Follow>, viewer: Option<UserId>,
                              u: User, p: Post)
    requires UsersKeyed(us) && u in us
    requires p in ps && p.author == u.id
    ensures exists number :: PageInRange(|ProfileListing(us, ps, u.username)|, number)
                          && p in Profile(us, ps, fs, viewer, u.username, number).value.page
  {
    var listing := NewestFirst(PostsBy(ps, u.id));
    assert FindUser(us, u.username) == Some(u);
    assert p in multiset(listing);
    RowOnSomePage(listing, p);
    var number :| PageInRange(|listing|, number) && p in Paginate(listing, number);
    assert Profile(us, ps, fs, viewer, u.username, number).value.page == Paginate(listing, number);
  }

  /** A page of an author's listing holds only that author's posts, newest
      first. */
  lemma AuthorPage(ps: seq<Post>, author: UserId, number: nat)
    requires PageInRange(|NewestFirst(PostsBy(ps, author))|, number)
    ensures forall p :: p in Paginate(NewestFirst(PostsBy(ps, author)), number) ==> p in ps && p.author == author
    ensures Chronological(ps) ==> NewestFirstOrdered(Paginate(NewestFirst(PostsBy(ps, author)), number))
  {
    var mine := PostsBy(ps, author);
    var listing := NewestFirst(mine);
    PageRows(listing, number);
    forall p | p in listing ensures p in mine {
      assert p in multiset(listing);
    }
  }

  /** Every row of `follow_index`'s listing, newest first. */
  function Feed(ps: seq<Post>, fs: seq<Follow>, user: UserId): seq<Post>
  {
    FeedRows(NewestFirst(ps), fs, user)
  }

  /** With the table in creation order, the feed is newest first. */
  lemma FeedNewestFirst(ps: seq<Post>, fs: seq<Follow>, user: UserId)
    ensures Chronological(ps) ==> DateDescending(Feed(ps, fs, user))
  {
    if Chronological(ps) {
      FeedRowsKeepOrder(NewestFirst(ps), fs, user);
    }
  }

  /** `follow_index(request)`: a page of the feed of the signed-in user. */
  function FollowIndex(ps: seq<Post>, fs: seq<Follow>, viewer: Option<UserId>, number: nat): (r: Result<seq<Post>, ViewError>)
    requires viewer.Some? ==> PageInRange(|Feed(ps, fs, viewer.value)|, number)
    ensures r.Failure? <==> viewer.None?
    ensures r.Failure? ==> r.error == LoginRedirect
    ensures r.Success? ==> |r.value| <= LimitPostsOnThePage
    ensures r.Success? ==> var n := |Feed(ps, fs, viewer.value)|;
      |r.value| == if number < NumPages(n) then LimitPostsOnThePage else n - PageStart(number)
    ensures r.Success? ==> forall i :: 0 <= i < |r.value| ==>
      PageStart(number) + i < |Feed(ps, fs, viewer.value)|
      && r.value[i] == Feed(ps, fs, viewer.value)[PageStart(number) + i]
    ensures r.Success? ==> forall p :: p in r.value ==> p in ps && IsFollowing(fs, viewer.value, p.author)
    ensures r.Success? && Chronological(ps) ==> DateDescending(r.value)
  {
    match viewer
    case None => Failure(LoginRedirect)
    case Some(user) =>
      var listing := Feed(ps, fs, user);
      var page := Paginate(listing, number);
      PageRows(listing, number);
      forall p | p in page ensures p in ps && IsFollowing(fs, user, p.author) {
        FeedMembers(NewestFirst(ps), fs, user, p);
        assert p in multiset(NewestFirst(ps));
      }
      FeedNewestFirst(ps, fs, user);
      Success(page)
  }

  /** The feed lists exactly the posts whose author the user follows: a
      followed author's posts are in it, an unfollowed author's are not. */
  lemma FeedExactly(ps: seq<Post>, fs: seq<Follow>, user: UserId, p: Post)
    ensures p in Feed(ps, fs, user) <==> p in ps && IsFollowing(fs, user, p.author)
  {
    FeedMembers(NewestFirst(ps), fs, user, p);
    assert p in NewestFirst(ps) <==> p in multiset(NewestFirst(ps));
  }

  /** Every post of the feed is on one of its pages. */
  lemma FeedPostOnSomePage(ps: seq<Post>, fs: seq<Follow>, user: UserId, p: Post)
    requires p in ps && IsFollowing(fs, user, p.author)
    ensures exists number :: PageInRange(|Feed(ps, fs, user)|, number)
                          && p in FollowIndex(ps, fs, Some(user), number).value
  {
    FeedExactly(ps, fs, user, p);
    var listing := Feed(ps, fs, user);
    var i :| 0 <= i < |listing| && listing[i] == p;
    RowOnPage(listing, i);
    var number := i / LimitPostsOnThePage + 1;
    assert Paginate(listing, number)[i % LimitPostsOnThePage] == p;
  }
}
