/** The four tables of the posts application and the rules attached to
    their rows: the `__str__` truncation and the integrity of the foreign
    keys that the `on_delete` rules keep. Users come from the
    authentication framework and are reduced to an id and a username. */
module Models {
  import opened Wrappers
  import Seqs

  type UserId = nat
  type GroupId = nat
  type PostId = nat
  type CommentId = nat

  /** Length to which `str(post)` and `str(comment)` cut their text. */
  const ReductionText: nat := 15

  datatype User = User(id: UserId, username: string)

  datatype Group = Group(id: GroupId, title: string, slug: string, description: string)

  /** `pubDate` is the store's clock value when the post was created. */
  datatype Post = Post(id: PostId, text: string, pubDate: nat, author: UserId, group: Option<GroupId>)

  datatype Comment = Comment(id: CommentId, text: string, created: nat, author: UserId, post: Option<PostId>)

  /** A subscription edge from `user` (the follower) to `author`. */
  datatype Follow = Follow(user: UserId, author: UserId)

  function Min(a: nat, b: nat): nat { if a <= b then a else b }

  /** Python's `text[:REDUCTION_TEXT]`: the longest prefix of at most
      fifteen characters. */
  function Truncate(text: string): (r: string)
    ensures |r| == Min(|text|, ReductionText)
    ensures r <= text
  {
    if |text| <= ReductionText then text else text[..ReductionText]
  }

  /** `str(group)`. */
  function GroupStr(g: Group): (r: string)
    ensures r == g.title
  {
    g.title
  }

  /** `str(post)`. */
  function PostStr(p: Post): (r: string)
    ensures |r| == Min(|p.text|, ReductionText) && r <= p.text
    ensures |p.text| <= ReductionText ==> r == p.text
  {
    Truncate(p.text)
  }

  /** `str(comment)`. */
  function CommentStr(c: Comment): (r: string)
    ensures |r| == Min(|c.text|, ReductionText) && r <= c.text
    ensures |c.text| <= ReductionText ==> r == c.text
  {
    Truncate(c.text)
  }

  /** A text is its own truncation exactly when it is at most fifteen
      characters long, and truncating twice is truncating once. */
  lemma TruncateFixpoint(text: string)
    ensures Truncate(text) == text <==> |text| <= ReductionText
    ensures Truncate(Truncate(text)) == Truncate(text)
  {
  }

  /** A thirteen-character post text prints in full. */
  lemma ShortPostPrintsWhole(p: Post)
    requires p.text == "Тестовый пост"
    ensures PostStr(p) == "Тестовый пост"
  {
  }

  /** Two texts that agree on their first fifteen characters print the same. */
  lemma TruncateDependsOnPrefix(a: string, b: string)
    requires |a| >= ReductionText && |b| >= ReductionText
    requires a[..ReductionText] == b[..ReductionText]
    ensures Truncate(a) == Truncate(b)
  {
  }

  // ---- identifiers and foreign keys -------------------------------------

  function UserIds(us: seq<User>): (ids: set<UserId>)
    ensures forall u :: u in us ==> u.id in ids
  {
    set u | u in us :: u.id
  }

  function GroupIds(gs: seq<Group>): (ids: set<GroupId>)
    ensures forall g :: g in gs ==> g.id in ids
  {
    set g | g in gs :: g.id
  }

  function PostIds(ps: seq<Post>): (ids: set<PostId>)
    ensures forall p :: p in ps ==> p.id in ids
  {
    set p | p in ps :: p.id
  }

  /** Users are keyed by id and by username: two rows that share either
      are the same user. */
  ghost predicate UsersKeyed(us: seq<User>)
  {
    forall u, v :: u in us && v in us && (u.id == v.id || u.username == v.username) ==> u == v
  }

  /** Groups are keyed by id and by slug (`SlugField(unique=True)`). */
  ghost predicate GroupsKeyed(gs: seq<Group>)
  {
    forall g, h :: g in gs && h in gs && (g.id == h.id || g.slug == h.slug) ==> g == h
  }

  // ---- lookups (`get_object_or_404`) ------------------------------------

  /** The user called `username`, if there is one. */
  function FindUser(us: seq<User>, username: string): (r: Option<User>)
    ensures r.Some? ==> r.value in us && r.value.username == username
    ensures r.None? ==> forall u :: u in us ==> u.username != username
  {
    if us == [] then None
    else if us[0].username == username then Some(us[0])
    else FindUser(us[1..], username)
  }

  /** The position of the post with primary key `id`, if there is one. */
  function FindPost(ps: seq<Post>, id: PostId): (r: Option<nat>)
    ensures r.Some? ==> r.value < |ps| && ps[r.value].id == id
    ensures r.None? <==> id !in PostIds(ps)
  {
    if ps == [] then None
    else if ps[0].id == id then Some(0)
    else match FindPost(ps[1..], id)
      case None => None
      case Some(i) => Some(i + 1)
  }

  /** Posts are stored in creation order: ids and publication dates both
      strictly increase along the table. */
  ghost predicate Chronological(ps: seq<Post>)
  {
    forall i, j :: 0 <= i < j < |ps| ==> ps[i].id < ps[j].id && ps[i].pubDate < ps[j].pubDate
  }

  /** Every post has an author, and its group, when set, exists. */
  ghost predicate PostKeysResolve(ps: seq<Post>, us: seq<User>, gs: seq<Group>)
  {
    forall p :: p in ps ==>
      p.author in UserIds(us) && (p.group.Some? ==> p.group.value in GroupIds(gs))
  }

  /** Every comment has an author, and its post, when set, exists. */
  ghost predicate CommentKeysResolve(cs: seq<Comment>, us: seq<User>, ps: seq<Post>)
  {
    forall c :: c in cs ==>
      c.author in UserIds(us) && (c.post.Some? ==> c.post.value in PostIds(ps))
  }

  /** Both ends of every Follow edge exist. */
  ghost predicate FollowKeysResolve(fs: seq<Follow>, us: seq<User>)
  {
    forall f :: f in fs ==> f.user in UserIds(us) && f.author in UserIds(us)
  }

  /** Every user id is below the next one to be given out. */
  ghost predicate UsersBelow(us: seq<User>, nextId: nat)
  {
    forall u :: u in us ==> u.id < nextId
  }

  /** Every group id is below the next one to be given out. */
  ghost predicate GroupsBelow(gs: seq<Group>, nextId: nat)
  {
    forall g :: g in gs ==> g.id < nextId
  }

  /** Every post id is below the next one, every date below the clock. */
  ghost predicate PostsBelow(ps: seq<Post>, nextId: nat, clock: nat)
  {
    forall p :: p in ps ==> p.id < nextId && p.pubDate < clock
  }

  /** Every comment id is below the next one, every date below the clock. */
  ghost predicate CommentsBelow(cs: seq<Comment>, nextId: nat, clock: nat)
  {
    forall c :: c in cs ==> c.id < nextId && c.created < clock
  }

  /** A post created before every row of `ps`. */
  ghost predicate Precedes(p: Post, ps: seq<Post>)
  {
    forall q :: q in ps ==> p.id < q.id && p.pubDate < q.pubDate
  }

  lemma HeadPrecedesTail(ps: seq<Post>)
    requires Chronological(ps) && ps != []
    ensures Precedes(ps[0], ps[1..]) && Chronological(ps[1..])
  {
  }

  lemma ChronologicalCons(p: Post, rest: seq<Post>)
    requires Precedes(p, rest) && Chronological(rest)
    ensures Chronological([p] + rest)
  {
  }

  /** Appending a post newer than every row keeps the table chronological. */
  lemma ChronologicalSnoc(ps: seq<Post>, p: Post)
    requires Chronological(ps)
    requires forall q :: q in ps ==> q.id < p.id && q.pubDate < p.pubDate
    ensures Chronological(ps + [p])
  {
  }

  /** Rewriting one post in place, with its id and date kept, keeps the
      table's keys and its order. */
  lemma ReplacePost(ps: seq<Post>, i: nat, q: Post)
    requires i < |ps| && q.id == ps[i].id && q.pubDate == ps[i].pubDate
    ensures PostIds(ps[i := q]) == PostIds(ps)
    ensures Chronological(ps) ==> Chronological(ps[i := q])
    ensures forall p :: p in ps[i := q] ==> p == q || p in ps
  {
    var r := ps[i := q];
    forall p | p in ps ensures p.id in PostIds(r) {
      var k :| 0 <= k < |ps| && ps[k] == p;
      assert r[k] in r;
    }
    forall p | p in r ensures p == q || p in ps {
      var k :| 0 <= k < |r| && r[k] == p;
      if k != i {
        assert ps[k] == p;
      }
    }
  }

  /** Keeping only some rows of a chronological table keeps it chronological. */
  lemma {:induction false} FilterChronological(ps: seq<Post>, f: Post -> bool)
    ensures Chronological(ps) ==> Chronological(Seqs.Filter(ps, f))
  {
    if ps != [] && Chronological(ps) {
      HeadPrecedesTail(ps);
      FilterChronological(ps[1..], f);
      var rest := Seqs.Filter(ps[1..], f);
      if f(ps[0]) {
        forall q | q in rest ensures ps[0].id < q.id && ps[0].pubDate < q.pubDate {
          assert q in ps[1..];
        }
        ChronologicalCons(ps[0], rest);
        assert Seqs.Filter(ps, f) == [ps[0]] + rest;
      } else {
        assert Seqs.Filter(ps, f) == rest;
      }
    }
  }

  // ---- default ordering --------------------------------------------------

  /** Strictly newest first by publication date. */
  ghost predicate NewestFirstOrdered(ps: seq<Post>)
  {
    forall i, j :: 0 <= i < j < |ps| ==> ps[i].pubDate > ps[j].pubDate
  }

  /** Newest first, rows of equal date allowed side by side. */
  ghost predicate DateDescending(ps: seq<Post>)
  {
    forall i, j :: 0 <= i < j < |ps| ==> ps[i].pubDate >= ps[j].pubDate
  }

  /** `Post.Meta.ordering = ['-pub_date']`. The table is kept in creation
      order, so the default listing is the table read backwards: the same
      rows, newest first. */
  function NewestFirst(ps: seq<Post>): (r: seq<Post>)
    ensures multiset(r) == multiset(ps)
    ensures Chronological(ps) ==> NewestFirstOrdered(r)
  {
    Seqs.ReversePermutes(ps);
    Seqs.Reverse(ps)
  }

  /** The posts of one author (`Post.objects.filter(author=author)`).
      The rows are kept in table order only so that `NewestFirst` can then
      give the `-pub_date` order; the query itself promises none. */
  function PostsBy(ps: seq<Post>, author: UserId): (r: seq<Post>)
    ensures forall p :: p in r <==> p in ps && p.author == author
    ensures Chronological(ps) ==> Chronological(r)
  {
    FilterChronological(ps, (p: Post) => p.author == author);
    Seqs.Filter(ps, (p: Post) => p.author == author)
  }

  // ---- on_delete rules ---------------------------------------------------

  /** Keeps every row but user `id`. */
  function OtherUser(id: UserId): User -> bool
  {
    (u: User) => u.id != id
  }

  /** Keeps every row but group `id`. */
  function OtherGroup(id: GroupId): Group -> bool
  {
    (g: Group) => g.id != id
  }

  /** Keeps every row but post `id`. */
  function OtherPost(id: PostId): Post -> bool
  {
    (p: Post) => p.id != id
  }

  /** Keeps a post when user `id` is deleted: not one of theirs. */
  function NotAuthoredBy(id: UserId): Post -> bool
  {
    (p: Post) => p.author != id
  }

  /** Keeps a Follow row when user `id` is deleted: neither end is theirs. */
  function NotInvolving(id: UserId): Follow -> bool
  {
    (f: Follow) => f.user != id && f.author != id
  }

  /** Keeps a comment when a user is deleted: not the user's own, and not
      on one of the posts (`gone`) deleted with the user. */
  function KeepOnUserDelete(id: UserId, gone: set<PostId>): Comment -> bool
  {
    (c: Comment) => c.author != id && !(c.post.Some? && c.post.value in gone)
  }

  function KeepOnPostDelete(id: PostId): Comment -> bool
  {
    (c: Comment) => c.post != Some(id)
  }

  /** `on_delete=SET_NULL` on `Post.group`: the posts of group `id` lose
      their group and are otherwise kept as they were. */
  function ClearGroup(ps: seq<Post>, id: GroupId): (r: seq<Post>)
    ensures |r| == |ps|
    ensures forall i :: 0 <= i < |ps| ==> r[i].id == ps[i].id && r[i].pubDate == ps[i].pubDate
    ensures forall i :: 0 <= i < |ps| ==> r[i] == if ps[i].group == Some(id) then ps[i].(group := None) else ps[i]
    ensures forall p :: p in r ==> p.group != Some(id)
  {
    seq(|ps|, i requires 0 <= i < |ps| => if ps[i].group == Some(id) then ps[i].(group := None) else ps[i])
  }

  /** The user cascade leaves no row pointing at a deleted row. */
  lemma DeleteUserKeepsKeys(us: seq<User>, gs: seq<Group>, ps: seq<Post>, cs: seq<Comment>, fs: seq<Follow>, id: UserId)
    requires PostKeysResolve(ps, us, gs) && CommentKeysResolve(cs, us, ps) && FollowKeysResolve(fs, us)
    ensures var us', ps' := Seqs.Filter(us, OtherUser(id)), Seqs.Filter(ps, NotAuthoredBy(id));
      && PostKeysResolve(ps', us', gs)
      && CommentKeysResolve(Seqs.Filter(cs, KeepOnUserDelete(id, PostIds(PostsBy(ps, id)))), us', ps')
      && FollowKeysResolve(Seqs.Filter(fs, NotInvolving(id)), us')
  {
    var us', ps' := Seqs.Filter(us, OtherUser(id)), Seqs.Filter(ps, NotAuthoredBy(id));
    var gone := PostIds(PostsBy(ps, id));
    forall p | p in ps' ensures p.author in UserIds(us') {
      var u :| u in us && u.id == p.author;
      assert u in us';
    }
    forall c | c in Seqs.Filter(cs, KeepOnUserDelete(id, gone))
      ensures c.author in UserIds(us') && (c.post.Some? ==> c.post.value in PostIds(ps'))
    {
      var u :| u in us && u.id == c.author;
      assert u in us';
      if c.post.Some? {
        var p :| p in ps && p.id == c.post.value;
        assert p !in PostsBy(ps, id);
        assert p in ps';
      }
    }
    forall f | f in Seqs.Filter(fs, NotInvolving(id))
      ensures f.user in UserIds(us') && f.author in UserIds(us')
    {
      var u :| u in us && u.id == f.user;
      var v :| v in us && v.id == f.author;
      assert u in us' && v in us';
    }
  }

  /** SET_NULL keeps the post ids, the order and the bounds, and leaves no
      post pointing at the deleted group. */
  lemma ClearGroupKeepsKeys(ps: seq<Post>, us: seq<User>, gs: seq<Group>, id: GroupId, nextId: nat, clock: nat)
    requires PostKeysResolve(ps, us, gs) && PostsBelow(ps, nextId, clock)
    ensures PostKeysResolve(ClearGroup(ps, id), us, Seqs.Filter(gs, OtherGroup(id)))
    ensures PostsBelow(ClearGroup(ps, id), nextId, clock)
    ensures PostIds(ClearGroup(ps, id)) == PostIds(ps)
    ensures Chronological(ps) ==> Chronological(ClearGroup(ps, id))
  {
    var r := ClearGroup(ps, id);
    var gs' := Seqs.Filter(gs, OtherGroup(id));
    forall p | p in r
      ensures p.author in UserIds(us) && (p.group.Some? ==> p.group.value in GroupIds(gs'))
      ensures p.id < nextId && p.pubDate < clock
    {
      var i :| 0 <= i < |r| && r[i] == p;
      assert ps[i] in ps;
      if p.group.Some? {
        var g :| g in gs && g.id == p.group.value;
        assert g in gs';
      }
    }
    forall q | q in ps ensures q.id in PostIds(r) {
      var i :| 0 <= i < |ps| && ps[i] == q;
      assert r[i] in r;
    }
  }
}
