# Yatube posts: a Dafny model

Yatube is a small blogging site. Authors write posts, and a post may belong to a group. Readers comment on posts and follow authors to get a personal feed. This project models the logic of the `posts` application as an in-memory store with five tables: users, groups, posts, comments and follows. It covers:

- the `__str__` truncation of posts and comments;
- the default newest-first ordering;
- the `on_delete` rules that keep foreign keys resolvable;
- pagination;
- the follow graph and the follow feed;
- the views that change the tables (create and edit a post, add a comment, follow and unfollow).

Modules:

- `Wrappers`: `Option` and `Result`.
- `Seqs`: `Filter`, `Repeat` and `Reverse` over sequences, with their lemmas. `Filter` keeps the rows it selects in table order. A queryset has no such order of its own: the model uses `Filter` as an order-keeping stand-in, and every listing's order comes from `NewestFirst` (`Meta.ordering = ['-pub_date']`).
- `Models`: the rows, `REDUCTION_TEXT`, the three `__str__` methods, the lookups behind `get_object_or_404`, the integrity predicates, the default ordering and the `on_delete` rules.
- `Pagination`: `LIMIT_POSTS_ON_THE_PAGE` and `paginate`.
- `FollowGraph`: `get_or_create` and `delete` on the Follow table, and the join behind `follow_index`.
- `Views`: `profile` and `follow_index` as pure functions of the tables.
- `Database`: the value `Tables` (the five tables, the clock and the id counters) with its invariant `Valid()`, and one lemma per kind of change showing that the change keeps it. Class `Store` holds the same fields. Its methods are the views that write, the three deletions, and `CreateUser` and `CreateGroup`, which stand for the framework's own inserts of a user row and a group row. Each method keeps `Valid()` and states the whole new state.

Modelling choices:

- Users are `User(id, username)`: the authentication framework's user model is reduced to its key and its username.
- `pub_date` and `created` take the store's `clock`, which goes up by one at every post or comment creation; creating a user or a group leaves it alone. Ids come from per-table counters. So the post table stays in creation order (`Chronological`), and "ordered by `-pub_date`" is the table read backwards (`NewestFirst`).
- The Follow table is a sequence. Models.py gives it no uniqueness constraint, so a (user, author) row may occur more than once.
- `get_or_create` does a `get` first, and `get` raises `MultipleObjectsReturned` when two rows match. The model returns that error and leaves the table unchanged.
- `follow_index` filters across the Follow relation (`author__following__user`) without `distinct()`. The join therefore lists a post once for each matching Follow row. `FeedRows` models that. `FeedWithoutDuplicates` shows that with unique rows it is the plain filter. `GetOrCreateKeepsEdgesUnique` and `RemoveEdgesKeepsEdgesUnique` show that the views never create a duplicate row.
- Deleting a user also deletes other users' comments on that user's posts. This follows from the chain `Post.author` CASCADE, then `Comment.post` CASCADE.
- Inputs of each request: the signed-in user (`viewer`, `None` when anonymous), whether it is a POST, and the form (`bound`, `valid`, its fields). A form is valid only when it is bound (`request.POST or None` gives an unbound form). Form validation itself is abstract. Its one assumed consequence: a valid `PostForm` names an existing group or none.

## Model

| member | source | states |
|---|---|---|
| `Models.Truncate` | yatube/posts/models.py:5 | the result has min(\|text\|, 15) characters and is a prefix of the text |
| `Models.GroupStr` | yatube/posts/models.py:17-18 | `str(group)` is the group's title |
| `Models.PostStr` | yatube/posts/models.py:57-58 | `str(post)` is exactly the first min(\|text\|, 15) characters of the text, and the whole text when it is no longer |
| `Models.CommentStr` | yatube/posts/models.py:90-91 | `str(comment)` is exactly the first min(\|text\|, 15) characters of the comment's text |
| `Models.TruncateFixpoint` | yatube/posts/models.py:57-58 | a text is its own truncation exactly when it has at most 15 characters; truncation is idempotent |
| `Models.TruncateDependsOnPrefix` | yatube/posts/models.py:57-58 | texts that agree on their first 15 characters print the same |
| `Models.ShortPostPrintsWhole` | yatube/posts/tests/test_models.py:24-28 | the 13-character test text prints whole |
| `Models.FindUser` | yatube/posts/views.py:41 | the lookup finds a user of that name when one exists, and reports not-found only when none does |
| `Models.FindPost` | yatube/posts/views.py:91 | the lookup by primary key gives a position holding that id, and reports not-found exactly when no post has it |
| `Models.NewestFirst` | yatube/posts/models.py:52-53 | the default listing has the same rows, with multiplicity, and a table in creation order comes out strictly newest first |
| `Models.PostsBy` | yatube/posts/views.py:42 | an author's posts are exactly the table's posts by that author, still in creation order |
| `Models.FilterChronological` | yatube/posts/models.py:52-53 | any subset of the post table, kept in table order, stays in creation order |
| `Models.ChronologicalSnoc` | yatube/posts/models.py:26-29 | appending a post dated after every row keeps the table in creation order |
| `Models.ReplacePost` | yatube/posts/views.py:107 | saving a post in place with its id and date unchanged keeps the set of post ids and the order |
| `Models.ClearGroup` | yatube/posts/models.py:36-41 | SET_NULL keeps every post (same count, ids, dates, place), clears the group where it was the deleted one, changes nothing else |
| `Models.DeleteUserKeepsKeys` | yatube/posts/models.py:30-98 | after the user cascade, every remaining post, comment and Follow row still points at existing rows |
| `Models.ClearGroupKeepsKeys` | yatube/posts/models.py:36-41 | SET_NULL keeps the post ids, the creation order and the id and date bounds, and no post then names the deleted group |
| `Pagination.NumPages` | yatube/posts/views.py:14-17 | a listing has at least one page, and just enough pages of 10 to hold every row |
| `Pagination.Paginate` | yatube/posts/views.py:11-17 | a page holds at most 10 rows; every page but the last is full; the last holds the remainder; page rows are the listing's rows from (number−1)·10 on |
| `Pagination.PageRows` | yatube/posts/views.py:14-17 | a page holds only rows of its listing |
| `Pagination.PagesCoverListing` | yatube/posts/views.py:14-17 | the pages read one after the other give back the whole listing |
| `Pagination.RowOnPage` | yatube/posts/views.py:14-17 | row i of the listing is row i mod 10 of page i div 10 + 1 |
| `Pagination.RowOnSomePage` | yatube/posts/views.py:14-17 | every row of a listing is on some in-range page |
| `Pagination.TwoPages` | yatube/posts/tests/test_views.py:182-195 | with 10 < N ≤ 20 rows, page 1 has 10 and page 2 has N − 10 |
| `Pagination.ThirteenPosts` | yatube/posts/tests/test_views.py:182-195 | 13 posts give pages of 10 and 3 |
| `FollowGraph.IsFollowing` | yatube/posts/views.py:46-49 | `filter(user).filter(author).exists()` holds exactly when some row of the table has that user and that author |
| `FollowGraph.GetOrCreate` | yatube/posts/views.py:138 | fails exactly when two or more rows match; on success exactly one (user, author) row exists, earlier rows are a prefix, a row is appended exactly when none existed, other rows' counts unchanged |
| `FollowGraph.EdgeCount` | yatube/posts/models.py:94-98 | the number of (user, author) rows is at most the table's size, and positive exactly when such a row exists |
| `FollowGraph.GetOrCreateIdempotent` | yatube/posts/views.py:138 | following again after a successful follow changes nothing |
| `FollowGraph.GetOrCreateKeepsEdgesUnique` | yatube/posts/views.py:138 | on a table without duplicate rows `get_or_create` succeeds and creates no duplicate |
| `FollowGraph.GetOrCreateKeepsKeys` | yatube/posts/views.py:138 | `get_or_create` between existing users leaves every Follow row joining existing users |
| `FollowGraph.RemoveEdges` | yatube/posts/views.py:146 | no (user, author) row remains, every other row keeps its count, and the table shrinks by the number removed |
| `FollowGraph.RemoveEdgesIdempotent` | yatube/posts/views.py:146 | unfollowing twice is unfollowing once |
| `FollowGraph.RemoveEdgesKeepsEdgesUnique` | yatube/posts/views.py:146 | deleting rows creates no duplicate |
| `FollowGraph.RemoveEdgesKeepsKeys` | yatube/posts/views.py:146 | deleting Follow rows leaves every remaining row joining existing users |
| `FollowGraph.FollowThenUnfollow` | yatube/posts/tests/test_views.py:227-245 | follow then unfollow equals unfollow alone; from a table with no such row it restores the table, and so its row count |
| `FollowGraph.FeedRows` | yatube/posts/views.py:125 | the join `author__following__user` without `distinct()`: each post once per Follow row from the user to its author, in listing order; `FeedCount`, `FeedMembers` and `FeedRowsKeepOrder` state this |
| `FollowGraph.FeedCount` | yatube/posts/views.py:125 | the join lists a post as often as it occurs times the number of Follow rows from the user to its author |
| `FollowGraph.FeedCountSum` | yatube/posts/views.py:125 | the join lists a post once per occurrence in the listing for each Follow row from the user to its author (the count as a repeated sum) |
| `FollowGraph.FeedMembers` | yatube/posts/views.py:125 | a post is in the join exactly when it is in the listing and the user follows its author |
| `FollowGraph.FeedRowsKeepOrder` | yatube/posts/views.py:125 | the join keeps a newest-first listing newest first |
| `FollowGraph.FeedWithoutDuplicates` | yatube/posts/views.py:125 | without duplicate Follow rows the join is the plain filter of followed authors' posts |
| `FollowGraph.UnfollowedAuthorLeavesFeed` | yatube/posts/tests/test_views.py:263-281 | after unfollowing, none of the author's posts is in the user's feed; every other user's feed, and the user's feed for other authors, hold the same posts as before |
| `FollowGraph.FollowedAuthorJoinsFeed` | yatube/posts/tests/test_views.py:247-261 | after a successful follow, every post of the author is in the feed |
| `Views.Profile` | yatube/posts/views.py:40-58 | not found exactly when no user has the name, whatever the page number; otherwise: the author is the user of that name; `posts_count` is the number of the author's posts; the page holds the author's newest-first listing from row (number−1)·10 on, 10 rows on every page but the last and the remainder on the last; those are the author's posts, newest first; `following` holds exactly when the viewer is signed in and follows the author |
| `Views.ProfileListing` | yatube/posts/views.py:41-42 | the named author's posts ordered by `-pub_date`; `AuthorPage` and `ProfilePostOnSomePage` state what its pages hold |
| `Views.ProfilePostOnSomePage` | yatube/posts/views.py:40-43 | with unique usernames, every post of a user is on some in-range page of that user's profile |
| `Views.AuthorPage` | yatube/posts/views.py:42-43 | a page of an author's listing holds only that author's posts from the table, and is newest first when the table is in creation order |
| `Views.FollowIndex` | yatube/posts/views.py:123-130 | anonymous requests get the login redirect; otherwise the page holds the feed's rows from (number−1)·10 on, 10 rows on every page but the last and the remainder on the last (the feed lists a post once per matching Follow row, as `FeedCount` states); each is a post of an author the viewer follows, newest first |
| `Views.Feed` | yatube/posts/views.py:125 | `follow_index`'s listing, the join over the default newest-first order; `FeedExactly` and `FeedNewestFirst` state its content and order |
| `Views.FeedExactly` | yatube/posts/views.py:125 | the feed holds exactly the posts whose author the user follows |
| `Views.FeedNewestFirst` | yatube/posts/views.py:125 | the feed is newest first |
| `Views.FeedPostOnSomePage` | yatube/posts/views.py:125-126 | every post of a followed author is on some page of `follow_index` |
| `Database.AddUserKeepsValid` | yatube/posts/models.py:4 | a user with an unused username and the next id keeps every table invariant |
| `Database.AddGroupKeepsValid` | yatube/posts/models.py:8-11 | a group with an unused slug and the next id keeps every table invariant |
| `Database.AddPostKeepsValid` | yatube/posts/views.py:83-85 | a new post by an existing user, in an existing group or none, with the next id and the current date, keeps the table in creation order and every key resolvable |
| `Database.EditPostKeepsValid` | yatube/posts/views.py:107 | rewriting one post's text and group in place keeps every table invariant |
| `Database.AddCommentKeepsValid` | yatube/posts/views.py:116-119 | a new comment by an existing user on an existing post keeps every table invariant |
| `Database.DeleteUserKeepsValid` | yatube/posts/models.py:30-98 | the user cascade over posts, comments and Follow rows keeps every table invariant |
| `Database.DeleteGroupKeepsValid` | yatube/posts/models.py:36-41 | deleting a group and clearing it from its posts keeps every table invariant |
| `Database.DeletePostKeepsValid` | yatube/posts/models.py:76-81 | deleting a post and the comments on it keeps every table invariant |
| `Database.Store.CreateUser` | yatube/posts/models.py:4 | a new user gets a fresh id; a taken username is refused; nothing else changes |
| `Database.Store.CreateGroup` | yatube/posts/models.py:8-11 | a new group gets a fresh id; a taken slug is refused; nothing else changes |
| `Database.Store.PostCreate` | yatube/posts/views.py:75-86 | anonymous: login redirect; not a POST or invalid form: form shown, nothing changes; otherwise exactly one post is appended, by the viewer, with the form's text and group, a fresh id and the current date; integrity kept |
| `Database.Store.PostEdit` | yatube/posts/views.py:89-108 | missing post: not found; non-author: redirect, nothing changes; invalid or unbound form: form shown, nothing changes; otherwise only that post's text and group change, in place, and the post count stays |
| `Database.Store.AddComment` | yatube/posts/views.py:111-120 | missing post: not found; a valid form appends exactly one comment, by the viewer, on that post; an invalid form changes nothing |
| `Database.Store.ProfileFollow` | yatube/posts/views.py:133-139 | missing author: not found; following oneself changes nothing; otherwise the table becomes `get_or_create`'s result, or stays as it was when that fails; afterwards the viewer follows the author |
| `Database.Store.ProfileUnfollow` | yatube/posts/views.py:142-147 | missing author: not found; otherwise every (viewer, author) row is deleted and nothing else changes |
| `Database.Store.DeleteUser` | yatube/posts/models.py:30-35 | removes the user, their posts, their comments, the comments on their posts and every Follow row with them at either end; every other row stays, in order |
| `Database.Store.DeleteGroup` | yatube/posts/models.py:36-41 | removes the group and clears it from its posts; the posts stay |
| `Database.Store.DeletePost` | yatube/posts/models.py:76-81 | removes the post and exactly the comments on it; comments without a post stay |

## Left out

- Rendering, HTTP responses, redirect targets and URL reversing. A request's outcome is a `Status` value.
- The `login_required` redirect mechanism. An anonymous request to a protected view gives `LoginRedirect` and changes nothing.
- Form validation and the fields of `PostForm` and `CommentForm`. forms.py is not part of this model. Validity is an input.
- Django's `get_page` policy for a missing, non-integer or out-of-range page number. The read views require a page number the listing has.
- Image upload and storage (`Post.image`). It is file I/O, so posts carry no image.
- The time-based cache of the home page. Its implementation is not among the modelled files.
- The views `index`, `group_list` and `post_detail`. They are not part of the modelled core. `index` and `group_list` apply the same `NewestFirst` and `Paginate` to other filters; `post_detail` shows one post, its comments and its author's post count, without pagination.
- ORM query mechanics (`select_related`, joins, SQL). Queries are filters and lookups over the in-memory tables.
- Concurrency. Two simultaneous follow requests could both create a row. The model runs requests one at a time, but its Follow table still admits duplicate rows.
- `Post.pub_date` and `Comment.created` are not wall-clock times. They are a counter that increases at every post or comment creation.
- `Models.NewestFirst`: this is the table reversed, and is newest first only for a table kept in creation order. `Store.Valid()` maintains that order.
