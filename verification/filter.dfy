/** The keep/delete filter (`filter_posts`): every post whose creation date
    is known is classified, on its own, as kept (with the reasons that
    protect it) or to be deleted; a post without a usable date is skipped. */
module Filter {
  import opened Common

  const SecondsPerDay: nat := 86400

  /** A fetched post, reduced to what the filter and the deleter look at.
      `createdAt` is seconds since the epoch, `None` when the record's date
      string does not parse; the counts are `None` when the server omits
      them; `hasImages` is the result of inspecting the embed. */
  datatype Post = Post(
    uri: string,
    createdAt: Option<int>,
    likeCount: Option<nat>,
    repostCount: Option<nat>,
    hasImages: bool)

  /** The operator's thresholds. A likes or reposts threshold of 0 turns
      that criterion off. */
  datatype Criteria = Criteria(
    daysThreshold: nat,
    minLikes: nat,
    minReposts: nat,
    keepImages: bool)

  /** Why a post is kept; `Likes` and `Reposts` carry the post's count, as
      the logged reason text does. */
  datatype Reason = Recent | Likes(count: nat) | Reposts(count: nat) | HasImages

  /** A post selected for deletion, with the figures shown in the preview. */
  datatype DeleteItem = DeleteItem(post: Post, ageDays: int, likes: nat, reposts: nat)

  /** A kept post, with the non-empty list of reasons that protect it. */
  datatype KeepItem = KeepItem(post: Post, ageDays: int, likes: nat, reposts: nat, reasons: seq<Reason>)

  datatype Verdict = Keep(kept: KeepItem) | Delete(doomed: DeleteItem)

  /** The filter's two outputs, in the order `filter_posts` returns them. */
  datatype Partition = Partition(toDelete: seq<DeleteItem>, toKeep: seq<KeepItem>)

  /** Whole days elapsed from `createdAt` to `now`, rounded down as
      `timedelta.days` rounds: a post from the future has a negative age. */
  function AgeDays(now: int, createdAt: int): (d: int)
    ensures d * SecondsPerDay <= now - createdAt < (d + 1) * SecondsPerDay
    ensures createdAt <= now <==> d >= 0
  {
    (now - createdAt) / SecondsPerDay
  }

  function LikesOf(p: Post): nat {
    p.likeCount.GetOr(0)
  }

  function RepostsOf(p: Post): nat {
    p.repostCount.GetOr(0)
  }

  // The four independent keep conditions.

  predicate IsRecent(ageDays: int, c: Criteria) {
    ageDays <= c.daysThreshold
  }

  predicate LikedEnough(likes: nat, c: Criteria) {
    c.minLikes > 0 && likes >= c.minLikes
  }

  predicate RepostedEnough(reposts: nat, c: Criteria) {
    c.minReposts > 0 && reposts >= c.minReposts
  }

  predicate ImageProtected(hasImages: bool, c: Criteria) {
    c.keepImages && hasImages
  }

  /** Position of each reason in the list the filter builds. */
  function Rank(r: Reason): nat {
    match r
    case Recent => 0
    case Likes(_) => 1
    case Reposts(_) => 2
    case HasImages => 3
  }

  /** Reasons listed in strictly increasing rank. */
  predicate Ascending(rs: seq<Reason>) {
    forall i :: 0 <= i < |rs| - 1 ==> Rank(rs[i]) < Rank(rs[i + 1])
  }

  /** Appends `r` when `cond` holds, as each `keep_reasons.append` does. */
  function AddIf(acc: seq<Reason>, cond: bool, r: Reason): (out: seq<Reason>)
    requires Ascending(acc) && forall x <- acc :: Rank(x) < Rank(r)
    ensures Ascending(out)
    ensures forall x :: x in out <==> x in acc || (cond && x == r)
    ensures |out| == |acc| + (if cond then 1 else 0)
    ensures forall x <- out :: Rank(x) <= Rank(r)
  {
    if cond then acc + [r] else acc
  }

  /** The reasons that keep a post: one per keep condition that holds,
      in the order recent, likes, reposts, images. */
  function KeepReasons(ageDays: int, likes: nat, reposts: nat, hasImages: bool, c: Criteria): (rs: seq<Reason>)
    ensures Recent in rs <==> IsRecent(ageDays, c)
    ensures Likes(likes) in rs <==> LikedEnough(likes, c)
    ensures Reposts(reposts) in rs <==> RepostedEnough(reposts, c)
    ensures HasImages in rs <==> ImageProtected(hasImages, c)
    ensures forall r <- rs :: (r.Likes? ==> r == Likes(likes)) && (r.Reposts? ==> r == Reposts(reposts))
    ensures Ascending(rs)
    ensures |rs| == 0 <==>
      !IsRecent(ageDays, c) && !LikedEnough(likes, c) && !RepostedEnough(reposts, c) && !ImageProtected(hasImages, c)
    ensures c.minLikes == 0 ==> forall r <- rs :: !r.Likes?
    ensures c.minReposts == 0 ==> forall r <- rs :: !r.Reposts?
    ensures !c.keepImages ==> HasImages !in rs
  {
    var rs := AddIf([], IsRecent(ageDays, c), Recent);
    var rs := AddIf(rs, LikedEnough(likes, c), Likes(likes));
    var rs := AddIf(rs, RepostedEnough(reposts, c), Reposts(reposts));
    AddIf(rs, ImageProtected(hasImages, c), HasImages)
  }

  /** The filter's decision for one post, taken against the fixed time
      `now`. */
  function Classify(p: Post, c: Criteria, now: int): (v: Option<Verdict>)
    ensures v.None? <==> p.createdAt.None?
    ensures v.Some? ==>
      var age := AgeDays(now, p.createdAt.value);
      (v.value.Delete? <==>
        !IsRecent(age, c) && !LikedEnough(LikesOf(p), c)
        && !RepostedEnough(RepostsOf(p), c) && !ImageProtected(p.hasImages, c))
    ensures v.Some? && v.value.Keep? ==>
      v.value.kept.post == p && |v.value.kept.reasons| > 0
      && v.value.kept.ageDays == AgeDays(now, p.createdAt.value)
      && v.value.kept.likes == LikesOf(p) && v.value.kept.reposts == RepostsOf(p)
      && v.value.kept.reasons == KeepReasons(AgeDays(now, p.createdAt.value), LikesOf(p), RepostsOf(p), p.hasImages, c)
    ensures v.Some? && v.value.Delete? ==>
      v.value.doomed == DeleteItem(p, AgeDays(now, p.createdAt.value), LikesOf(p), RepostsOf(p))
  {
    match p.createdAt
    case None => None
    case Some(t) =>
      var age := AgeDays(now, t);
      var reasons := KeepReasons(age, LikesOf(p), RepostsOf(p), p.hasImages, c);
      if |reasons| > 0 then Some(Keep(KeepItem(p, age, LikesOf(p), RepostsOf(p), reasons)))
      else Some(Delete(DeleteItem(p, age, LikesOf(p), RepostsOf(p))))
  }

  /** Number of posts whose creation date is known. */
  function CountDated(posts: seq<Post>): nat {
    if |posts| == 0 then 0
    else CountDated(posts[..|posts| - 1]) + (if posts[|posts| - 1].createdAt.Some? then 1 else 0)
  }

  /** The verdict for one post as its contribution to the two lists. */
  function Contribution(p: Post, c: Criteria, now: int): (s: Partition)
    ensures |s.toDelete| + |s.toKeep| == (if p.createdAt.Some? then 1 else 0)
    ensures forall d <- s.toDelete :: d.post == p && Classify(p, c, now) == Some(Delete(d))
    ensures forall k <- s.toKeep :: k.post == p && Classify(p, c, now) == Some(Keep(k))
  {
    match Classify(p, c, now)
    case None => Partition([], [])
    case Some(Keep(k)) => Partition([], [k])
    case Some(Delete(d)) => Partition([d], [])
  }

  function Join(x: Partition, y: Partition): Partition {
    Partition(x.toDelete + y.toDelete, x.toKeep + y.toKeep)
  }

  /** `filter_posts`: each post in turn is classified and appended to the
      list its verdict names; undated posts are skipped. */
  function FilterPosts(posts: seq<Post>, c: Criteria, now: int): (s: Partition)
    ensures |s.toDelete| + |s.toKeep| == CountDated(posts)
    ensures forall d <- s.toDelete :: d.post in posts && Classify(d.post, c, now) == Some(Delete(d))
    ensures forall k <- s.toKeep :: k.post in posts && Classify(k.post, c, now) == Some(Keep(k))
  {
    if |posts| == 0 then Partition([], [])
    else
      var front := posts[..|posts| - 1];
      var p := posts[|posts| - 1];
      var rest := FilterPosts(front, c, now);
      var last := Contribution(p, c, now);
      assert forall q <- front :: q in posts;
      assert forall d <- rest.toDelete + last.toDelete :: d in rest.toDelete || d in last.toDelete;
      assert forall k <- rest.toKeep + last.toKeep :: k in rest.toKeep || k in last.toKeep;
      Join(rest, last)
  }

  /** What the filter promises of its two lists beyond membership: nothing
      undated appears, every kept post has a reason, and no post is both
      kept and deleted. */
  lemma FilterOutputsWellFormed(posts: seq<Post>, c: Criteria, now: int)
    ensures var s := FilterPosts(posts, c, now);
      && (forall d <- s.toDelete :: d.post.createdAt.Some?)
      && (forall k <- s.toKeep :: k.post.createdAt.Some? && |k.reasons| > 0)
      && (forall d <- s.toDelete, k <- s.toKeep :: d.post != k.post)
  {
  }

  lemma JoinAssociative(x: Partition, y: Partition, z: Partition)
    ensures Join(Join(x, y), z) == Join(x, Join(y, z))
  {
    assert (x.toDelete + y.toDelete) + z.toDelete == x.toDelete + (y.toDelete + z.toDelete);
    assert (x.toKeep + y.toKeep) + z.toKeep == x.toKeep + (y.toKeep + z.toKeep);
  }

  /** The filter treats posts independently and keeps their order: filtering
      a concatenation concatenates the results. */
  lemma {:induction false} FilterAppend(a: seq<Post>, b: seq<Post>, c: Criteria, now: int)
    ensures FilterPosts(a + b, c, now) == Join(FilterPosts(a, c, now), FilterPosts(b, c, now))
    decreases |b|
  {
    if |b| == 0 {
      assert a + b == a;
      var s := FilterPosts(a, c, now);
      assert s.toDelete + [] == s.toDelete && s.toKeep + [] == s.toKeep;
    } else {
      var b' := b[..|b| - 1];
      var x := b[|b| - 1];
      assert (a + b)[..|a + b| - 1] == a + b';
      assert (a + b)[|a + b| - 1] == x;
      assert FilterPosts(a + b, c, now) == Join(FilterPosts(a + b', c, now), Contribution(x, c, now));
      assert FilterPosts(b, c, now) == Join(FilterPosts(b', c, now), Contribution(x, c, now));
      FilterAppend(a, b', c, now);
      JoinAssociative(FilterPosts(a, c, now), FilterPosts(b', c, now), Contribution(x, c, now));
    }
  }

  /** Filtering one post yields exactly that post's verdict. */
  lemma FilterSingle(p: Post, c: Criteria, now: int)
    ensures FilterPosts([p], c, now) == Contribution(p, c, now)
  {
    assert [p][..0] == [];
    var s := Contribution(p, c, now);
    assert [] + s.toDelete == s.toDelete && [] + s.toKeep == s.toKeep;
  }

  /** Completeness: every dated post of the input reaches the list its
      verdict names. */
  lemma FilterComplete(posts: seq<Post>, c: Criteria, now: int, i: int)
    requires 0 <= i < |posts| && posts[i].createdAt.Some?
    ensures var s := FilterPosts(posts, c, now);
      match Classify(posts[i], c, now)
      case Some(Keep(k)) => k in s.toKeep
      case Some(Delete(d)) => d in s.toDelete
      case None => false
  {
    var before, after := posts[..i], posts[i + 1..];
    assert posts == (before + [posts[i]]) + after;
    FilterAppend(before + [posts[i]], after, c, now);
    FilterAppend(before, [posts[i]], c, now);
    FilterSingle(posts[i], c, now);
  }

  /** A post lands in the delete list exactly when none of the four keep
      conditions holds for it, and in the keep list exactly when one does. */
  lemma DeletedIffNoKeepCondition(posts: seq<Post>, c: Criteria, now: int, p: Post)
    requires p in posts && p.createdAt.Some?
    ensures var s := FilterPosts(posts, c, now);
      var age := AgeDays(now, p.createdAt.value);
      var deleteIt := !IsRecent(age, c) && !LikedEnough(LikesOf(p), c)
        && !RepostedEnough(RepostsOf(p), c) && !ImageProtected(p.hasImages, c);
      && ((exists d <- s.toDelete :: d.post == p) <==> deleteIt)
      && ((exists k <- s.toKeep :: k.post == p) <==> !deleteIt)
  {
    var i :| 0 <= i < |posts| && posts[i] == p;
    FilterComplete(posts, c, now, i);
  }

  /** A post without a usable date is left out of both lists without
      disturbing the verdicts on the others. */
  lemma UndatedSkipped(a: seq<Post>, p: Post, b: seq<Post>, c: Criteria, now: int)
    requires p.createdAt.None?
    ensures FilterPosts(a + [p] + b, c, now) == FilterPosts(a + b, c, now)
  {
    FilterAppend(a + [p], b, c, now);
    FilterAppend(a, [p], c, now);
    FilterSingle(p, c, now);
    FilterAppend(a, b, c, now);
    var s := FilterPosts(a, c, now);
    assert s.toDelete + [] == s.toDelete && s.toKeep + [] == s.toKeep;
  }

  // A worked example: a 30-day threshold, 5 likes, reposts off, images
  // kept, and three posts.

  const ExampleCriteria := Criteria(30, 5, 0, true)

  /** A 5-day-old post with 10 likes is kept both as recent and as liked. */
  lemma ExampleRecentLiked(p: Post, now: int)
    requires p.createdAt == Some(now - 5 * SecondsPerDay)
    requires LikesOf(p) == 10 && RepostsOf(p) == 0 && !p.hasImages
    ensures Contribution(p, ExampleCriteria, now) == Partition([], [KeepItem(p, 5, 10, 0, [Recent, Likes(10)])])
  {
    var r := KeepReasons(5, 10, 0, false, ExampleCriteria);
    assert AgeDays(now, now - 5 * SecondsPerDay) == 5;
    assert |r| == 2 && Recent in r && Likes(10) in r;
    assert Rank(r[0]) < Rank(r[1]);
    assert r == [Recent, Likes(10)];
  }

  /** A 40-day-old post without likes is kept only for its image. */
  lemma ExampleOldWithImage(p: Post, now: int)
    requires p.createdAt == Some(now - 40 * SecondsPerDay)
    requires LikesOf(p) == 0 && RepostsOf(p) == 0 && p.hasImages
    ensures Contribution(p, ExampleCriteria, now) == Partition([], [KeepItem(p, 40, 0, 0, [HasImages])])
  {
    var r := KeepReasons(40, 0, 0, true, ExampleCriteria);
    assert AgeDays(now, now - 40 * SecondsPerDay) == 40;
    assert |r| == 1 && HasImages in r;
    assert r[0] == HasImages;
    assert r == [HasImages];
  }

  /** A 40-day-old post without likes or an image is deleted. */
  lemma ExampleOldBare(p: Post, now: int)
    requires p.createdAt == Some(now - 40 * SecondsPerDay)
    requires LikesOf(p) == 0 && RepostsOf(p) == 0 && !p.hasImages
    ensures Contribution(p, ExampleCriteria, now) == Partition([DeleteItem(p, 40, 0, 0)], [])
  {
    assert AgeDays(now, now - 40 * SecondsPerDay) == 40;
  }

  /** Filtering one more post appends that post's verdict. */
  lemma FilterSnoc(posts: seq<Post>, p: Post, c: Criteria, now: int)
    ensures FilterPosts(posts + [p], c, now) == Join(FilterPosts(posts, c, now), Contribution(p, c, now))
  {
    assert (posts + [p])[..|posts|] == posts;
  }

  lemma FilterThree(p1: Post, p2: Post, p3: Post, c: Criteria, now: int)
    ensures FilterPosts([p1, p2, p3], c, now) ==
      Join(Join(Contribution(p1, c, now), Contribution(p2, c, now)), Contribution(p3, c, now))
  {
    FilterSingle(p1, c, now);
    FilterSnoc([p1], p2, c, now);
    assert [p1] + [p2] == [p1, p2];
    assert FilterPosts([p1, p2], c, now) == Join(Contribution(p1, c, now), Contribution(p2, c, now));
    FilterSnoc([p1, p2], p3, c, now);
    assert [p1, p2] + [p3] == [p1, p2, p3];
  }

  /** The three posts together: the first two are kept in input order, the
      third is deleted. */
  lemma ThreePostExample(p1: Post, p2: Post, p3: Post, now: int)
    requires p1.createdAt == Some(now - 5 * SecondsPerDay)
    requires LikesOf(p1) == 10 && RepostsOf(p1) == 0 && !p1.hasImages
    requires p2.createdAt == Some(now - 40 * SecondsPerDay)
    requires LikesOf(p2) == 0 && RepostsOf(p2) == 0 && p2.hasImages
    requires p3.createdAt == Some(now - 40 * SecondsPerDay)
    requires LikesOf(p3) == 0 && RepostsOf(p3) == 0 && !p3.hasImages
    ensures FilterPosts([p1, p2, p3], ExampleCriteria, now) ==
      Partition([DeleteItem(p3, 40, 0, 0)],
                [KeepItem(p1, 5, 10, 0, [Recent, Likes(10)]), KeepItem(p2, 40, 0, 0, [HasImages])])
  {
    var c := ExampleCriteria;
    ExampleRecentLiked(p1, now);
    ExampleOldWithImage(p2, now);
    ExampleOldBare(p3, now);
    FilterThree(p1, p2, p3, c, now);
  }
}
