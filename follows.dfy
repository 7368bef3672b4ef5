/** The Follow table and the queries `profile_follow`, `profile_unfollow`
    and `follow_index` run against it. The table has no uniqueness
    constraint, so it is a sequence in which a (user, author) row may occur
    more than once. */
module FollowGraph {
  import opened Wrappers
  import opened Models
  import Seqs

  datatype FollowError = MultipleObjectsReturned

  /** How many (user, author) rows the table holds. */
  function EdgeCount(fs: seq<Follow>, user: UserId, author: UserId): (n: nat)
    ensures n <= |fs|
    ensures n > 0 <==> Follow(user, author) in fs
  {
    multiset(fs)[Follow(user, author)]
  }

  /** `Follow.objects.filter(user=user, author=author).exists()`. */
  predicate IsFollowing(fs: seq<Follow>, user: UserId, author: UserId)
    ensures IsFollowing(fs, user, author) <==>
      exists i :: 0 <= i < |fs| && fs[i].user == user && fs[i].author == author
  {
    Follow(user, author) in fs
  }

  /** No (user, author) row occurs twice. */
  ghost predicate EdgesUnique(fs: seq<Follow>)
  {
    forall e :: e in fs ==> multiset(fs)[e] == 1
  }

  /** `Follow.objects.get_or_create(user=user, author=author)`: the lookup
      `get` fails when more than one row matches; otherwise a missing row is
      appended and an existing one is left alone. */
  function GetOrCreate(fs: seq<Follow>, user: UserId, author: UserId): (r: Result<seq<Follow>, FollowError>)
    ensures r.Failure? <==> EdgeCount(fs, user, author) >= 2
    ensures r.Success? ==> EdgeCount(r.value, user, author) == 1 && IsFollowing(r.value, user, author)
    ensures r.Success? ==> fs <= r.value && |r.value| <= |fs| + 1
    ensures r.Success? ==> (|r.value| == |fs| + 1 <==> !IsFollowing(fs, user, author))
    ensures r.Success? ==> forall e :: e != Follow(user, author) ==> multiset(r.value)[e] == multiset(fs)[e]
  {
    var n := EdgeCount(fs, user, author);
    if n == 0 then Success(fs + [Follow(user, author)])
    else if n == 1 then Success(fs)
    else Failure(MultipleObjectsReturned)
  }

  /** `get_or_create` between existing users keeps every row's ends
      existing. */
  lemma GetOrCreateKeepsKeys(fs: seq<Follow>, us: seq<User>, user: UserId, author: UserId)
    requires FollowKeysResolve(fs, us) && user in UserIds(us) && author in UserIds(us)
    ensures GetOrCreate(fs, user, author).Success? ==> FollowKeysResolve(GetOrCreate(fs, user, author).value, us)
  {
    var e := Follow(user, author);
    if EdgeCount(fs, user, author) == 0 {
      forall f | f in fs + [e] ensures f in fs || f == e {
      }
    }
  }

  /** Once `get_or_create` has succeeded, repeating it changes nothing. */
  lemma GetOrCreateIdempotent(fs: seq<Follow>, user: UserId, author: UserId)
    requires GetOrCreate(fs, user, author).Success?
    ensures GetOrCreate(GetOrCreate(fs, user, author).value, user, author)
         == GetOrCreate(fs, user, author)
  {
  }

  /** `get_or_create` never introduces a duplicate row. */
  lemma GetOrCreateKeepsEdgesUnique(fs: seq<Follow>, user: UserId, author: UserId)
    requires EdgesUnique(fs)
    ensures GetOrCreate(fs, user, author).Success?
    ensures EdgesUnique(GetOrCreate(fs, user, author).value)
  {
  }

  /** Whether a row is not a (user, author) row. */
  function Unrelated(user: UserId, author: UserId): Follow -> bool
  {
    (e: Follow) => e != Follow(user, author)
  }

  /** `Follow.objects.filter(user=user, author=author).delete()`: every
      (user, author) row goes, every other row stays, in order. */
  function RemoveEdges(fs: seq<Follow>, user: UserId, author: UserId): (r: seq<Follow>)
    ensures !IsFollowing(r, user, author)
    ensures forall e :: e != Follow(user, author) ==> multiset(r)[e] == multiset(fs)[e]
    ensures |r| == |fs| - EdgeCount(fs, user, author)
  {
    var r := Seqs.Filter(fs, Unrelated(user, author));
    forall e ensures multiset(r)[e] == if e != Follow(user, author) then multiset(fs)[e] else 0 {
      Seqs.FilterCount(fs, Unrelated(user, author), e);
    }
    assert multiset(r) == multiset(fs)[Follow(user, author) := 0];
    r
  }

  /** Deleting rows keeps every remaining row's ends existing. */
  lemma RemoveEdgesKeepsKeys(fs: seq<Follow>, us: seq<User>, user: UserId, author: UserId)
    requires FollowKeysResolve(fs, us)
    ensures FollowKeysResolve(RemoveEdges(fs, user, author), us)
  {
    var r := RemoveEdges(fs, user, author);
    forall f | f in r ensures f in fs {
      assert multiset(r)[f] > 0;
    }
  }

  /** Unfollowing twice is unfollowing once. */
  lemma RemoveEdgesIdempotent(fs: seq<Follow>, user: UserId, author: UserId)
    ensures RemoveEdges(RemoveEdges(fs, user, author), user, author) == RemoveEdges(fs, user, author)
  {
    Seqs.FilterAll(RemoveEdges(fs, user, author), Unrelated(user, author));
  }

  /** Unfollowing removes no duplicate it did not find. */
  lemma RemoveEdgesKeepsEdgesUnique(fs: seq<Follow>, user: UserId, author: UserId)
    requires EdgesUnique(fs)
    ensures EdgesUnique(RemoveEdges(fs, user, author))
  {
  }

  /** Following and then unfollowing leaves the table as unfollowing alone
      would; from a table with no (user, author) row it restores the table
      and therefore its row count. */
  lemma {:induction false} FollowThenUnfollow(fs: seq<Follow>, user: UserId, author: UserId)
    requires GetOrCreate(fs, user, author).Success?
    ensures RemoveEdges(GetOrCreate(fs, user, author).value, user, author) == RemoveEdges(fs, user, author)
    ensures !IsFollowing(fs, user, author) ==>
      RemoveEdges(GetOrCreate(fs, user, author).value, user, author) == fs
  {
    var e := Follow(user, author);
    if e !in fs {
      Seqs.FilterAppend(fs, [e], Unrelated(user, author));
      assert Seqs.Filter([e], Unrelated(user, author)) == [];
      Seqs.FilterAll(fs, Unrelated(user, author));
    }
  }

  // ---- the follow feed ---------------------------------------------------

  /** Rows of `Post.objects.filter(author__following__user=user)` over the
      posts `ps`, in their order. The filter is a join with the Follow
      table, so a post appears once for every (user, post author) row. */
  function FeedRows(ps: seq<Post>, fs: seq<Follow>, user: UserId): seq<Post>
  {
    if ps == [] then []
    else Seqs.Repeat(ps[0], EdgeCount(fs, user, ps[0].author)) + FeedRows(ps[1..], fs, user)
  }

  /** A post occurs in the feed as often as it occurs in `ps` times the
      number of Follow rows from `user` to its author. */
  lemma FeedCount(ps: seq<Post>, fs: seq<Follow>, user: UserId, p: Post)
    ensures multiset(FeedRows(ps, fs, user))[p] == multiset(ps)[p] * EdgeCount(fs, user, p.author)
  {
    FeedCountSum(ps, fs, user, p);
    SumIsProduct(multiset(ps)[p], EdgeCount(fs, user, p.author));
  }

  /** `n` copies of `c` added up. */
  function Sum(n: nat, c: nat): nat
  {
    if n == 0 then 0 else Sum(n - 1, c) + c
  }

  lemma {:induction false} SumIsProduct(n: nat, c: nat)
    ensures Sum(n, c) == n * c
  {
    if n > 0 {
      SumIsProduct(n - 1, c);
      assert n * c == (n - 1) * c + c;
    }
  }

  /** `FeedCount` with the product written as a sum, so that every step of
      the induction is linear. */
  lemma {:induction false} FeedCountSum(ps: seq<Post>, fs: seq<Follow>, user: UserId, p: Post)
    ensures multiset(FeedRows(ps, fs, user))[p] == Sum(multiset(ps)[p], EdgeCount(fs, user, p.author))
  {
    if ps != [] {
      FeedCountSum(ps[1..], fs, user, p);
      FeedRowsStep(ps, fs, user, p);
      CountHead(ps, p);
    }
  }

  /** The join splits into the first post's rows and the rest's. */
  lemma FeedRowsStep(ps: seq<Post>, fs: seq<Follow>, user: UserId, p: Post)
    requires ps != []
    ensures multiset(FeedRows(ps, fs, user))[p]
         == (if p == ps[0] then EdgeCount(fs, user, p.author) else 0) + multiset(FeedRows(ps[1..], fs, user))[p]
  {
    var head := Seqs.Repeat(ps[0], EdgeCount(fs, user, ps[0].author));
    assert FeedRows(ps, fs, user) == head + FeedRows(ps[1..], fs, user);
  }

  /** The count of `p` in `ps` splits into its head and its tail. */
  lemma CountHead<T>(ps: seq<T>, p: T)
    requires ps != []
    ensures multiset(ps)[p] == (if p == ps[0] then 1 else 0) + multiset(ps[1..])[p]
  {
    assert ps == [ps[0]] + ps[1..];
  }

  /** The feed holds exactly the posts of the authors `user` follows. */
  lemma FeedMembers(ps: seq<Post>, fs: seq<Follow>, user: UserId, p: Post)
    ensures p in FeedRows(ps, fs, user) <==> p in ps && IsFollowing(fs, user, p.author)
  {
    var m := multiset(ps)[p];
    var c := EdgeCount(fs, user, p.author);
    FeedCount(ps, fs, user, p);
    assert (m > 0 && c > 0) <==> m * c > 0;
  }

  /** The join keeps the order of `ps`: fed a newest-first listing, the
      feed is newest first too. */
  lemma {:induction false} FeedRowsKeepOrder(ps: seq<Post>, fs: seq<Follow>, user: UserId)
    requires DateDescending(ps)
    ensures DateDescending(FeedRows(ps, fs, user))
  {
    if ps != [] {
      var head := Seqs.Repeat(ps[0], EdgeCount(fs, user, ps[0].author));
      var rest := FeedRows(ps[1..], fs, user);
      assert DateDescending(ps[1..]) by {
        forall i, j | 0 <= i < j < |ps[1..]| ensures ps[1..][i].pubDate >= ps[1..][j].pubDate {
          assert ps[1..][i] == ps[i + 1] && ps[1..][j] == ps[j + 1];
        }
      }
      FeedRowsKeepOrder(ps[1..], fs, user);
      forall q | q in rest ensures q.pubDate <= ps[0].pubDate {
        FeedMembers(ps[1..], fs, user, q);
        var k :| 0 <= k < |ps[1..]| && ps[1..][k] == q;
        assert ps[k + 1] == q;
      }
      var r := head + rest;
      forall i, j | 0 <= i < j < |r| ensures r[i].pubDate >= r[j].pubDate {
        if j < |head| {
          Seqs.RepeatAt(ps[0], |head|, i);
          Seqs.RepeatAt(ps[0], |head|, j);
          assert r[i] == ps[0] && r[j] == ps[0];
        } else if i < |head| {
          Seqs.RepeatAt(ps[0], |head|, i);
          assert r[i] == ps[0] && r[j] == rest[j - |head|];
          assert rest[j - |head|] in rest;
        } else {
          assert r[i] == rest[i - |head|] && r[j] == rest[j - |head|];
        }
      }
    }
  }

  /** The posts whose author `user` follows, each once. */
  function FollowedPosts(ps: seq<Post>, fs: seq<Follow>, user: UserId): seq<Post>
  {
    Seqs.Filter(ps, (p: Post) => IsFollowing(fs, user, p.author))
  }

  /** Without duplicate Follow rows the join lists each followed post once. */
  lemma {:induction false} FeedWithoutDuplicates(ps: seq<Post>, fs: seq<Follow>, user: UserId)
    requires EdgesUnique(fs)
    ensures FeedRows(ps, fs, user) == FollowedPosts(ps, fs, user)
  {
    if ps != [] {
      FeedWithoutDuplicates(ps[1..], fs, user);
      var n := EdgeCount(fs, user, ps[0].author);
      if IsFollowing(fs, user, ps[0].author) {
        assert n == 1;
        assert Seqs.Repeat(ps[0], n) == [ps[0]];
      } else {
        assert Seqs.Repeat(ps[0], n) == [];
      }
    }
  }

  /** After `profile_unfollow`, none of the author's posts is in the
      user's feed, while the feeds of other users, and the user's rows for
      other authors, hold the same posts as before. */
  lemma UnfollowedAuthorLeavesFeed(ps: seq<Post>, fs: seq<Follow>, user: UserId, author: UserId,
                                   viewer: UserId, p: Post)
    ensures viewer == user && p.author == author ==> p !in FeedRows(ps, RemoveEdges(fs, user, author), viewer)
    ensures viewer != user || p.author != author ==>
      (p in FeedRows(ps, RemoveEdges(fs, user, author), viewer) <==> p in FeedRows(ps, fs, viewer))
  {
    var r := RemoveEdges(fs, user, author);
    FeedMembers(ps, r, viewer, p);
    FeedMembers(ps, fs, viewer, p);
    var e := Follow(viewer, p.author);
    if e != Follow(user, author) {
      assert e in r <==> multiset(r)[e] > 0;
      assert e in fs <==> multiset(fs)[e] > 0;
    }
  }

  /** After a successful `profile_follow`, every post of the author is in
      the feed. */
  lemma FollowedAuthorJoinsFeed(ps: seq<Post>, fs: seq<Follow>, user: UserId, author: UserId, p: Post)
    requires GetOrCreate(fs, user, author).Success?
    requires p in ps && p.author == author
    ensures p in FeedRows(ps, GetOrCreate(fs, user, author).value, user)
  {
  }
}
