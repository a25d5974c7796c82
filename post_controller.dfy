/** The post endpoints: creating a post, the feed, the like toggle, adding a comment
    and the owner-only delete. Article, Liker and Commentaire rows are kept in table
    order; the authenticated caller is the parameter `me` and the clock the parameter
    `now`. Every exception these methods catch, a failed validation included, becomes
    a 500 answer. */
module PostController {
  import opened Common
  import opened AmitieModel
  import opened Sorting

  /** An Article row (`id_uti` is the author). */
  datatype Post = Post(id: int, author: int, description: string, image: Option<string>, date: int)

  /** A Liker row: user `user` likes article `post`. */
  datatype Like = Like(user: int, post: int)

  /** A Commentaire row. */
  datatype Comment = Comment(id: int, post: int, author: int, texte: string, date: int)

  /** One item of the feed or of a creation answer (the author's profile columns are
      not modelled). */
  datatype PostView = PostView(post: Post, likesCount: nat, commentsCount: nat, isLiked: bool, isOwner: bool)

  /** The answer of toggleLike. */
  datatype LikeOutcome = LikeOutcome(liked: bool, likesCount: nat)

  /** The answer of addComment. */
  datatype CommentOutcome = CommentOutcome(comment: Comment, commentsCount: nat)

  /** The image part of a createPost request: none, stored by the file store under a
      path, or an upload the store could not save. */
  datatype Upload = NoImage | Stored(path: string) | UploadFailed

  // ---------------------------------------------------------------------------
  // Validation

  /** Laravel's `required|string|max:n` on a string field: filled, and at most n
      characters. */
  predicate RequiredMax(v: Option<string>, n: nat) {
    Filled(v) && |v.value| <= n
  }

  /** Blank and empty fields fail, present and short enough ones pass. */
  lemma RequiredMaxCases(v: Option<string>, n: nat)
    ensures RequiredMax(None, n) == false
    ensures !RequiredMax(Some(""), n)
    ensures !RequiredMax(Some(" \t"), n)
    ensures v.Some? && |v.value| > n ==> !RequiredMax(v, n)
    ensures v.Some? && 0 < |v.value| <= n && !PhpSpace(v.value[0]) ==> RequiredMax(v, n)
  {
    assert !PhpSpace(" \t"[0]) == false && !PhpSpace(" \t"[1]) == false;
  }

  // ---------------------------------------------------------------------------
  // Queries on the three tables

  /** Article::findOrFail(id): the first article with that id. */
  function FindPost(posts: seq<Post>, id: int): (r: Option<Post>)
    ensures r.Some? ==> r.value in posts && r.value.id == id
    ensures r.None? ==> forall p | p in posts :: p.id != id
  {
    if posts == [] then None
    else if posts[0].id == id then Some(posts[0])
    else FindPost(posts[1..], id)
  }

  function PostIds(posts: seq<Post>): set<int> {
    set p | p in posts :: p.id
  }

  /** No two articles are the same row or share an id. */
  predicate UniqueIds(posts: seq<Post>) {
    && NoDup(posts)
    && forall x, y | x in posts && y in posts && x.id == y.id :: x == y
  }

  /** An article whose id is above every stored one keeps the ids unique and adds
      its id to the set. */
  lemma AppendFreshPost(posts: seq<Post>, post: Post)
    requires UniqueIds(posts) && forall p | p in posts :: p.id < post.id
    ensures UniqueIds(posts + [post])
    ensures PostIds(posts + [post]) == PostIds(posts) + {post.id}
  {
    assert post !in posts;
    NoDupAppend(posts, post);
  }

  function LikeOn(p: int): Like -> bool {
    (l: Like) => l.post == p
  }

  function LikeOff(p: int): Like -> bool {
    (l: Like) => l.post != p
  }

  function CommentOn(p: int): Comment -> bool {
    (c: Comment) => c.post == p
  }

  function CommentOff(p: int): Comment -> bool {
    (c: Comment) => c.post != p
  }

  function PostOff(p: int): Post -> bool {
    (x: Post) => x.id != p
  }

  /** $post->likes(): the likes of article p, in table order. */
  function LikesOn(likes: seq<Like>, p: int): seq<Like> {
    Filter(likes, LikeOn(p))
  }

  /** $post->commentaires(): the comments of article p, in table order. */
  function CommentsOn(comments: seq<Comment>, p: int): seq<Comment> {
    Filter(comments, CommentOn(p))
  }

  // ---------------------------------------------------------------------------
  // The like toggle

  /** The Liker table after toggleLike(p) by u: the like is deleted when present,
      created otherwise. */
  function Toggled(likes: seq<Like>, u: int, p: int): seq<Like> {
    if Like(u, p) in likes then RemoveFirst(likes, Like(u, p)) else likes + [Like(u, p)]
  }

  /** Toggling a like of article p leaves the likes of every other article as they
      were, in order. */
  lemma ToggleKeepsOtherPosts(likes: seq<Like>, u: int, p: int, q: int)
    requires q != p
    ensures LikesOn(Toggled(likes, u, p), q) == LikesOn(likes, q)
  {
    if Like(u, p) in likes {
      FilterRemoveFirst(likes, Like(u, p), LikeOn(q));
    } else {
      FilterAppend(likes, Like(u, p), LikeOn(q));
    }
  }

  /** With at most one like per user and article, toggling flips exactly that like:
      it is present afterwards iff it was absent, every other like is kept, and the
      at-most-one property survives. */
  lemma ToggleFlips(likes: seq<Like>, u: int, p: int)
    requires NoDup(likes)
    ensures Like(u, p) in Toggled(likes, u, p) <==> Like(u, p) !in likes
    ensures forall l | l != Like(u, p) :: l in Toggled(likes, u, p) <==> l in likes
    ensures NoDup(Toggled(likes, u, p))
  {
    var x := Like(u, p);
    var r := Toggled(likes, u, p);
    NoDupByMultiset(likes);
    NoDupByMultiset(r);
    if x in likes {
      assert multiset(likes)[x] == 1;
      assert multiset(r)[x] == 0;
    } else {
      assert multiset(r) == multiset(likes) + multiset{x};
    }
    forall l | l != x ensures l in r <==> l in likes {
      assert multiset(r)[l] == multiset(likes)[l];
      assert l in r <==> l in multiset(r);
      assert l in likes <==> l in multiset(likes);
    }
  }

  /** Toggling twice gives back the original likes: the same rows exactly when the
      like was absent, the same multiset of rows (the re-created like moves to the
      end) when it was present. */
  lemma ToggleTwice(likes: seq<Like>, u: int, p: int)
    requires NoDup(likes)
    ensures multiset(Toggled(Toggled(likes, u, p), u, p)) == multiset(likes)
    ensures Like(u, p) !in likes ==> Toggled(Toggled(likes, u, p), u, p) == likes
  {
    var x := Like(u, p);
    ToggleFlips(likes, u, p);
    if x !in likes {
      RemoveFirstAppended(likes, x);
    }
  }

  /** The reported likes_count moves by one: down when the like was removed, up when
      it was created. */
  lemma ToggleCount(likes: seq<Like>, u: int, p: int)
    ensures |LikesOn(Toggled(likes, u, p), p)| ==
      if Like(u, p) in likes then |LikesOn(likes, p)| - 1 else |LikesOn(likes, p)| + 1
  {
    if Like(u, p) in likes {
      FilterRemoveFirst(likes, Like(u, p), LikeOn(p));
    } else {
      FilterAppend(likes, Like(u, p), LikeOn(p));
    }
  }

  // ---------------------------------------------------------------------------
  // Feed

  function DateOf(p: Post): int {
    p.date
  }

  function AuthoredBy(authors: seq<int>): Post -> bool {
    (x: Post) => x.author in authors
  }

  /** whereIn('id_uti', authors): the articles written by one of authors. */
  function PostsBy(posts: seq<Post>, authors: seq<int>): seq<Post> {
    Filter(posts, AuthoredBy(authors))
  }

  /** The map callback of getFeedPosts applied to one article. */
  function View(likes: seq<Like>, comments: seq<Comment>, me: int, p: Post): PostView {
    PostView(p, |LikesOn(likes, p.id)|, |CommentsOn(comments, p.id)|, Like(me, p.id) in likes, p.author == me)
  }

  function Views(likes: seq<Like>, comments: seq<Comment>, me: int, ps: seq<Post>): (r: seq<PostView>)
    ensures |r| == |ps|
    ensures forall k | 0 <= k < |ps| :: r[k] == View(likes, comments, me, ps[k])
  {
    if ps == [] then [] else [View(likes, comments, me, ps[0])] + Views(likes, comments, me, ps[1..])
  }

  /** The articles of the caller and of the given friends, newest first. */
  function FeedOrder(posts: seq<Post>, me: int, friendIds: seq<int>): seq<Post> {
    SortDesc(PostsBy(posts, [me] + friendIds), DateOf)
  }

  /** getFeedPosts given the caller's friend ids: one item per selected article, in
      feed order; is_owner holds exactly on the caller's articles, is_liked exactly
      where the caller's like exists, and the counters are the article's like and
      comment counts. */
  function Feed(posts: seq<Post>, likes: seq<Like>, comments: seq<Comment>, me: int, friendIds: seq<int>): (r: seq<PostView>)
    ensures |r| == |FeedOrder(posts, me, friendIds)|
    ensures forall k | 0 <= k < |r| ::
      && r[k].post == FeedOrder(posts, me, friendIds)[k]
      && (r[k].isOwner <==> r[k].post.author == me)
      && (r[k].isLiked <==> Like(me, r[k].post.id) in likes)
      && r[k].likesCount == |LikesOn(likes, r[k].post.id)|
      && r[k].commentsCount == |CommentsOn(comments, r[k].post.id)|
  {
    Views(likes, comments, me, FeedOrder(posts, me, friendIds))
  }

  /** Built from the caller's accepted friendships, the feed selects exactly the
      articles whose author is the caller or an accepted friend, newest first, and
      each of them once when the table holds no duplicate row. */
  lemma FeedSelects(t: seq<Edge>, posts: seq<Post>, me: int)
    ensures forall p :: p in FeedOrder(posts, me, FriendIds(t, me))
                        <==> p in posts && (p.author == me || Friends(t, me, p.author))
    ensures SortedDesc(FeedOrder(posts, me, FriendIds(t, me)), DateOf)
    ensures NoDup(posts) ==> NoDup(FeedOrder(posts, me, FriendIds(t, me)))
  {
    var selected := PostsBy(posts, [me] + FriendIds(t, me));
    var sorted := FeedOrder(posts, me, FriendIds(t, me));
    forall p ensures p in sorted <==> p in posts && (p.author == me || Friends(t, me, p.author)) {
      FriendIdsMembership(t, me, p.author);
      assert p in sorted <==> p in multiset(sorted);
      assert p in selected <==> p in multiset(selected);
    }
    if NoDup(posts) {
      NoDupByMultiset(selected);
      NoDupByMultiset(sorted);
    }
  }

  /** getFriendIds: the other endpoint of every accepted row touching u, collected in
      a loop; when the query throws, the empty list. */
  method GetFriendIds(edges: seq<Edge>, u: int, queryOk: bool) returns (friendIds: seq<int>)
    ensures friendIds == if queryOk then FriendIds(edges, u) else []
  {
    if !queryOk {
      return [];
    }
    var friendships := FriendsOfUser(edges, u);
    friendIds := [];
    var i := 0;
    while i < |friendships|
      invariant 0 <= i <= |friendships|
      invariant |friendIds| == i
      invariant forall k | 0 <= k < i :: friendIds[k] == Other(friendships[k], u)
    {
      var friendship := friendships[i];
      if friendship.id1 == u {
        friendIds := friendIds + [friendship.id2];
      } else {
        friendIds := friendIds + [friendship.id1];
      }
      i := i + 1;
    }
  }

  // ---------------------------------------------------------------------------
  // Deleting an article

  /** Deleting article p keeps the likes of every other article, in order, and
      leaves none on p. */
  lemma DeleteKeepsOtherLikes(likes: seq<Like>, p: int, q: int)
    ensures LikesOn(Filter(likes, LikeOff(p)), q) == if q == p then [] else LikesOn(likes, q)
  {
    if q == p {
      FilterNone(Filter(likes, LikeOff(p)), LikeOn(q));
    } else {
      FilterOfFilter(likes, LikeOff(p), LikeOn(q));
    }
  }

  /** Deleting article p keeps the comments of every other article, in order, and
      leaves none on p. */
  lemma DeleteKeepsOtherComments(comments: seq<Comment>, p: int, q: int)
    ensures CommentsOn(Filter(comments, CommentOff(p)), q) == if q == p then [] else CommentsOn(comments, q)
  {
    if q == p {
      FilterNone(Filter(comments, CommentOff(p)), CommentOn(q));
    } else {
      FilterOfFilter(comments, CommentOff(p), CommentOn(q));
    }
  }

  /** With unique ids, deleting a stored article removes exactly that row and keeps
      the ids unique. */
  lemma DeleteRemovesOnePost(posts: seq<Post>, p: Post)
    requires UniqueIds(posts) && p in posts
    ensures |Filter(posts, PostOff(p.id))| == |posts| - 1
    ensures UniqueIds(Filter(posts, PostOff(p.id)))
    ensures p !in Filter(posts, PostOff(p.id))
  {
    FilterDropsOne(posts, p, PostOff(p.id));
  }

  /** Article ids are unique and below the counter, comment ids are below theirs,
      and every like and comment refers to an existing article (the foreign keys). */
  ghost predicate TablesValid(posts: seq<Post>, likes: seq<Like>, comments: seq<Comment>, nextPostId: int, nextCommentId: int) {
    && UniqueIds(posts)
    && (forall p | p in posts :: p.id < nextPostId)
    && (forall c | c in comments :: c.id < nextCommentId)
    && (forall l | l in likes :: l.post in PostIds(posts))
    && (forall c | c in comments :: c.post in PostIds(posts))
  }

  /** A new article under the counter's id keeps the tables valid and is seen with no
      like and no comment, not liked and owned by its author. */
  lemma CreateKeepsValid(posts: seq<Post>, likes: seq<Like>, comments: seq<Comment>, nextPostId: int, nextCommentId: int, post: Post)
    requires TablesValid(posts, likes, comments, nextPostId, nextCommentId) && post.id == nextPostId
    ensures TablesValid(posts + [post], likes, comments, nextPostId + 1, nextCommentId)
    ensures View(likes, comments, post.author, post) == PostView(post, 0, 0, false, true)
  {
    assert post.id !in PostIds(posts);
    FilterNone(likes, LikeOn(post.id));
    FilterNone(comments, CommentOn(post.id));
    AppendFreshPost(posts, post);
  }

  /** A new comment under the counter's id on an existing article keeps the tables
      valid and adds one to that article's comment count. */
  lemma CommentKeepsValid(posts: seq<Post>, likes: seq<Like>, comments: seq<Comment>, nextPostId: int, nextCommentId: int, c: Comment)
    requires TablesValid(posts, likes, comments, nextPostId, nextCommentId)
    requires c.id == nextCommentId && c.post in PostIds(posts)
    ensures TablesValid(posts, likes, comments + [c], nextPostId, nextCommentId + 1)
    ensures |CommentsOn(comments + [c], c.post)| == |CommentsOn(comments, c.post)| + 1
  {
    FilterAppend(comments, c, CommentOn(c.post));
  }

  /** Removing an article together with its likes and comments keeps the tables valid. */
  lemma DeleteKeepsValid(posts: seq<Post>, likes: seq<Like>, comments: seq<Comment>, nextPostId: int, nextCommentId: int, p: Post)
    requires TablesValid(posts, likes, comments, nextPostId, nextCommentId) && p in posts
    ensures TablesValid(Filter(posts, PostOff(p.id)), Filter(likes, LikeOff(p.id)), Filter(comments, CommentOff(p.id)),
                        nextPostId, nextCommentId)
    ensures |Filter(posts, PostOff(p.id))| == |posts| - 1
  {
    DeleteRemovesOnePost(posts, p);
    var posts', likes', comments' := Filter(posts, PostOff(p.id)), Filter(likes, LikeOff(p.id)), Filter(comments, CommentOff(p.id));
    forall l | l in likes' ensures l.post in PostIds(posts') {
      var q :| q in posts && q.id == l.post;
      assert q in posts';
    }
    forall c | c in comments' ensures c.post in PostIds(posts') {
      var q :| q in posts && q.id == c.post;
      assert q in posts';
    }
  }

  /** Toggling a like on an existing article keeps the tables valid. */
  lemma ToggleKeepsValid(posts: seq<Post>, likes: seq<Like>, comments: seq<Comment>, nextPostId: int, nextCommentId: int, u: int, p: int)
    requires TablesValid(posts, likes, comments, nextPostId, nextCommentId) && p in PostIds(posts)
    ensures TablesValid(posts, Toggled(likes, u, p), comments, nextPostId, nextCommentId)
  {
  }

  /** The Article, Liker and Commentaire tables together. */
  class PostStore {
    var posts: seq<Post>
    var likes: seq<Like>
    var comments: seq<Comment>
    /** The next auto-increment values of Article.id and Commentaire.id. */
    var nextPostId: int
    var nextCommentId: int

    ghost predicate Valid()
      reads this
    {
      TablesValid(posts, likes, comments, nextPostId, nextCommentId)
    }

    constructor ()
      ensures Valid() && posts == [] && likes == [] && comments == []
    {
      posts, likes, comments := [], [], [];
      nextPostId, nextCommentId := 1, 1;
    }

    /** createPost: a missing or blank description, one over 1000 characters, or a
        failed image upload answers 500 and stores nothing; otherwise a new article
        with the next id, the caller as author and `now` as date, reported with no
        likes, no comments, not liked and owned. */
    method CreatePost(me: int, description: Option<string>, upload: Upload, now: int) returns (r: Result<PostView>)
      requires Valid()
      modifies this
      ensures Valid()
      ensures !RequiredMax(description, 1000) || upload == UploadFailed ==>
        r == Fail(ServerError) && posts == old(posts) && nextPostId == old(nextPostId)
      ensures RequiredMax(description, 1000) && upload != UploadFailed ==>
        && posts == old(posts) + [Post(old(nextPostId), me, description.value,
                                       if upload.Stored? then Some(upload.path) else None, now)]
        && nextPostId == old(nextPostId) + 1
        && r == Ok(PostView(posts[|posts| - 1], 0, 0, false, true))
        && r.value == View(likes, comments, me, r.value.post)
      ensures likes == old(likes) && comments == old(comments) && nextCommentId == old(nextCommentId)
    {
      if !RequiredMax(description, 1000) || upload == UploadFailed {
        return Fail(ServerError);
      }
      var imagePath := if upload.Stored? then Some(upload.path) else None;
      var post := Post(nextPostId, me, description.value, imagePath, now);
      CreateKeepsValid(posts, likes, comments, nextPostId, nextCommentId, post);
      posts := posts + [post];
      nextPostId := nextPostId + 1;
      r := Ok(PostView(post, 0, 0, false, true));
    }

    /** getFeedPosts: the feed of the caller, their friend ids read by getFriendIds. */
    method GetFeedPosts(edges: seq<Edge>, me: int, friendQueryOk: bool) returns (feed: seq<PostView>)
      ensures feed == Feed(posts, likes, comments, me, if friendQueryOk then FriendIds(edges, me) else [])
    {
      var friendIds := GetFriendIds(edges, me, friendQueryOk);
      feed := Feed(posts, likes, comments, me, friendIds);
    }

    /** toggleLike: a missing article answers 500; otherwise the caller's like on it is
        deleted when present and created when absent, and the answer reports which and
        the article's like count afterwards. */
    method ToggleLike(me: int, postId: int) returns (r: Result<LikeOutcome>)
      requires Valid()
      modifies this
      ensures Valid()
      ensures FindPost(old(posts), postId).None? ==> r == Fail(ServerError) && likes == old(likes)
      ensures FindPost(old(posts), postId).Some? ==>
        && likes == Toggled(old(likes), me, postId)
        && r == Ok(LikeOutcome(Like(me, postId) !in old(likes), |LikesOn(likes, postId)|))
      ensures NoDup(old(likes)) ==> NoDup(likes)
      ensures posts == old(posts) && comments == old(comments)
      ensures nextPostId == old(nextPostId) && nextCommentId == old(nextCommentId)
    {
      var post := FindPost(posts, postId);
      if post.None? {
        return Fail(ServerError);
      }
      ToggleKeepsValid(posts, likes, comments, nextPostId, nextCommentId, me, postId);
      var liked: bool;
      if Like(me, postId) in likes {
        likes := RemoveFirst(likes, Like(me, postId));
        liked := false;
      } else {
        likes := likes + [Like(me, postId)];
        liked := true;
      }
      if NoDup(old(likes)) {
        ToggleFlips(old(likes), me, postId);
      }
      r := Ok(LikeOutcome(liked, |LikesOn(likes, postId)|));
    }

    /** addComment: a missing or blank text, one over 500 characters, or a missing
        article answers 500 and stores nothing; otherwise a new comment with the next
        id, and the article's comment count afterwards, one more than before. */
    method AddComment(me: int, postId: int, texte: Option<string>, now: int) returns (r: Result<CommentOutcome>)
      requires Valid()
      modifies this
      ensures Valid()
      ensures !RequiredMax(texte, 500) || FindPost(old(posts), postId).None? ==>
        r == Fail(ServerError) && comments == old(comments) && nextCommentId == old(nextCommentId)
      ensures RequiredMax(texte, 500) && FindPost(old(posts), postId).Some? ==>
        && comments == old(comments) + [Comment(old(nextCommentId), postId, me, texte.value, now)]
        && nextCommentId == old(nextCommentId) + 1
        && r == Ok(CommentOutcome(comments[|comments| - 1], |CommentsOn(comments, postId)|))
        && r.value.commentsCount == |CommentsOn(old(comments), postId)| + 1
      ensures posts == old(posts) && likes == old(likes) && nextPostId == old(nextPostId)
    {
      if !RequiredMax(texte, 500) {
        return Fail(ServerError);
      }
      var post := FindPost(posts, postId);
      if post.None? {
        return Fail(ServerError);
      }
      var comment := Comment(nextCommentId, postId, me, texte.value, now);
      CommentKeepsValid(posts, likes, comments, nextPostId, nextCommentId, comment);
      comments := comments + [comment];
      nextCommentId := nextCommentId + 1;
      r := Ok(CommentOutcome(comment, |CommentsOn(comments, postId)|));
    }

    /** deletePost: a missing article answers 500 and someone else's 403, both leaving
        everything as it was; the owner's delete removes the article and all of its
        likes and comments, and nothing else. */
    method DeletePost(me: int, postId: int) returns (r: Result<()>)
      requires Valid()
      modifies this
      ensures Valid()
      ensures FindPost(old(posts), postId).None? ==>
        r == Fail(ServerError) && posts == old(posts) && likes == old(likes) && comments == old(comments)
      ensures FindPost(old(posts), postId).Some? && FindPost(old(posts), postId).value.author != me ==>
        r == Fail(Forbidden) && posts == old(posts) && likes == old(likes) && comments == old(comments)
      ensures FindPost(old(posts), postId).Some? && FindPost(old(posts), postId).value.author == me ==>
        && r == Ok(())
        && posts == Filter(old(posts), PostOff(postId))
        && likes == Filter(old(likes), LikeOff(postId))
        && comments == Filter(old(comments), CommentOff(postId))
        && |posts| == |old(posts)| - 1
      ensures nextPostId == old(nextPostId) && nextCommentId == old(nextCommentId)
    {
      var post := FindPost(posts, postId);
      if post.None? {
        return Fail(ServerError);
      }
      if post.value.author != me {
        return Fail(Forbidden);
      }
      DeleteKeepsValid(posts, likes, comments, nextPostId, nextCommentId, post.value);
      likes := Filter(likes, LikeOff(postId));
      comments := Filter(comments, CommentOff(postId));
      posts := Filter(posts, PostOff(postId));
      r := Ok(());
    }
  }
}
