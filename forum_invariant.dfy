/**
 * The bookkeeping rules the forum, topic and post handlers keep between them:
 * the denormalised counters `forum.topics`, `forum.posts` and `topic.replies`,
 * and the `lastPost*` fields of every live topic. Stated over the three
 * collections as values, with one lemma per kind of update the handlers make:
 * either it preserves the rules, or it breaks them and the lemma says how.
 */
module ForumInvariant {
  import opened Common
  import opened ForumModel
  import opened TopicModel
  import opened PostModel

  /** The live topics of forum `f` (`Topic.find({ forumId, isDeleted: false })`). */
  function LiveTopicIds(T: map<Id, Topic>, f: Id): set<Id> {
    set t | t in T && T[t].forumId == f && !T[t].isDeleted
  }

  /** The live posts of topic `t` (`Post.find({ topicId, isDeleted: false })`). */
  function LivePostIds(P: map<Id, Post>, t: Id): set<Id> {
    set p | p in P && P[p].topicId == t && !P[p].isDeleted
  }

  /** The live posts whose topic belongs to forum `f`. */
  function ForumLivePostIds(T: map<Id, Topic>, P: map<Id, Post>, f: Id): set<Id> {
    set p | p in P && !P[p].isDeleted && P[p].topicId in T && T[P[p].topicId].forumId == f
  }

  /** Every topic names an existing forum. */
  ghost predicate TopicRefsOk(F: map<Id, Forum>, T: map<Id, Topic>) {
    forall t :: t in T ==> T[t].forumId in F
  }

  /** A live post sits under an existing, live topic. */
  ghost predicate LiveRefsOk(T: map<Id, Topic>, P: map<Id, Post>) {
    forall p :: p in P && !P[p].isDeleted ==> P[p].topicId in T && !T[P[p].topicId].isDeleted
  }

  /** `forum.topics` counts the forum's live topics. */
  ghost predicate TopicCountsOk(F: map<Id, Forum>, T: map<Id, Topic>) {
    forall f :: f in F ==> F[f].topics == |LiveTopicIds(T, f)|
  }

  /**
   * `forum.posts` counts one opening post per live topic plus every live post
   * under the forum; with RepliesOk this is the sum of `replies + 1` over the
   * live topics (ForumPostsAreSumOfReplies).
   */
  ghost predicate PostCountsOk(F: map<Id, Forum>, T: map<Id, Topic>, P: map<Id, Post>) {
    forall f :: f in F ==> F[f].posts == |LiveTopicIds(T, f)| + |ForumLivePostIds(T, P, f)|
  }

  /** `topic.replies` counts the live posts of every live topic. */
  ghost predicate RepliesOk(T: map<Id, Topic>, P: map<Id, Post>) {
    forall t :: t in T && !T[t].isDeleted ==> T[t].replies == |LivePostIds(P, t)|
  }

  ghost predicate Counted(F: map<Id, Forum>, T: map<Id, Topic>, P: map<Id, Post>) {
    TopicRefsOk(F, T) && LiveRefsOk(T, P) && TopicCountsOk(F, T) && PostCountsOk(F, T, P) && RepliesOk(T, P)
  }

  /** `p` is a live post of topic `t` that no live post of `t` postdates. */
  predicate IsLatestLive(P: map<Id, Post>, t: Id, p: Id) {
    p in LivePostIds(P, t) && forall q :: q in LivePostIds(P, t) ==> P[q].createdAt <= P[p].createdAt
  }

  /**
   * The `lastPost*` fields of `topic` (whose id is `t`) name its latest live
   * post, stamped no earlier than that post's creation, or fall back to the
   * topic's own creation time and author. createPost stamps `lastPostAt`
   * with a clock reading taken after the post was built, deletePost with
   * the post's own `createdAt`.
   */
  ghost predicate PointsAtLatest(topic: Topic, t: Id, P: map<Id, Post>) {
    if LivePostIds(P, t) == {} then
      topic.lastPostId == None && topic.lastPostAt == topic.createdAt
      && topic.lastPostUserId == Some(topic.userId)
    else
      && topic.lastPostId.Some? && IsLatestLive(P, t, topic.lastPostId.value)
      && topic.lastPostAt >= P[topic.lastPostId.value].createdAt
      && topic.lastPostUserId == Some(P[topic.lastPostId.value].userId)
  }

  ghost predicate LastPostsOk(T: map<Id, Topic>, P: map<Id, Post>) {
    forall t :: t in T && !T[t].isDeleted ==> PointsAtLatest(T[t], t, P)
  }

  /** Every rule the forum handlers are meant to keep. */
  ghost predicate Consistent(F: map<Id, Forum>, T: map<Id, Topic>, P: map<Id, Post>) {
    Counted(F, T, P) && LastPostsOk(T, P)
  }

  /** No post was created after `now`: the clock never runs backwards. */
  ghost predicate ClockNotBefore(P: map<Id, Post>, now: Time) {
    forall p :: p in P ==> P[p].createdAt <= now
  }

  /** `deleteTopic`'s `Post.updateMany({ topicId }, { isDeleted: true })`. */
  function CascadeDelete(P: map<Id, Post>, t: Id): (P': map<Id, Post>)
    ensures P'.Keys == P.Keys
    ensures forall p :: p in P ==> P'[p] == if P[p].topicId == t then P[p].(isDeleted := true) else P[p]
    ensures LivePostIds(P', t) == {}
  {
    map p | p in P :: if P[p].topicId == t then P[p].(isDeleted := true) else P[p]
  }

  // ---------------------------------------------------------------------------
  // How the id sets change under a single update

  lemma CardRemoveOne(A: set<Id>, x: Id)
    requires x in A
    ensures |A - {x}| == |A| - 1
  {
    assert A == (A - {x}) + {x};
  }

  lemma CardAddOne(A: set<Id>, x: Id)
    requires x !in A
    ensures |A + {x}| == |A| + 1
  {
  }

  lemma CardDiff(A: set<Id>, B: set<Id>)
    requires B <= A
    ensures |A - B| == |A| - |B|
  {
    assert A == (A - B) + B;
  }

  lemma CardUnionDisjoint(A: set<Id>, B: set<Id>)
    requires A * B == {}
    ensures |A + B| == |A| + |B|
  {
    assert |A * B| == 0;
  }

  lemma LiveTopicsAfter(T: map<Id, Topic>, n: Id, nt: Topic, g: Id)
    ensures LiveTopicIds(T[n := nt], g)
         == (LiveTopicIds(T, g) - {n}) + (if nt.forumId == g && !nt.isDeleted then {n} else {})
  {
  }

  lemma LivePostsAfter(P: map<Id, Post>, n: Id, np: Post, t: Id)
    ensures LivePostIds(P[n := np], t)
         == (LivePostIds(P, t) - {n}) + (if np.topicId == t && !np.isDeleted then {n} else {})
  {
  }

  lemma ForumPostsAfterPost(T: map<Id, Topic>, P: map<Id, Post>, n: Id, np: Post, f: Id)
    ensures ForumLivePostIds(T, P[n := np], f)
         == (ForumLivePostIds(T, P, f) - {n})
          + (if !np.isDeleted && np.topicId in T && T[np.topicId].forumId == f then {n} else {})
  {
  }

  /** Changing a topic in fields other than `forumId` leaves the forum's live posts. */
  lemma ForumPostsAfterTopicEdit(T: map<Id, Topic>, P: map<Id, Post>, t: Id, nt: Topic, f: Id)
    requires t in T && nt.forumId == T[t].forumId
    ensures ForumLivePostIds(T[t := nt], P, f) == ForumLivePostIds(T, P, f)
  {
  }

  /** A topic no live post names adds no live post to any forum. */
  lemma ForumPostsAfterNewTopic(T: map<Id, Topic>, P: map<Id, Post>, n: Id, nt: Topic, f: Id)
    requires LiveRefsOk(T, P) && n !in T
    ensures ForumLivePostIds(T[n := nt], P, f) == ForumLivePostIds(T, P, f)
  {
  }

  /** The live posts of topic `t` are live posts of its forum. */
  lemma TopicPostsInForum(T: map<Id, Topic>, P: map<Id, Post>, t: Id)
    requires t in T
    ensures LivePostIds(P, t) <= ForumLivePostIds(T, P, T[t].forumId)
  {
  }

  /** Two post stores that agree on the live posts of `t`, their times and authors. */
  ghost predicate SameLiveThread(P: map<Id, Post>, P': map<Id, Post>, t: Id) {
    && LivePostIds(P', t) == LivePostIds(P, t)
    && forall p :: p in LivePostIds(P, t) ==> P'[p].createdAt == P[p].createdAt && P'[p].userId == P[p].userId
  }

  lemma PointsAtLatestFrame(topic: Topic, t: Id, P: map<Id, Post>, P': map<Id, Post>)
    requires SameLiveThread(P, P', t) && PointsAtLatest(topic, t, P)
    ensures PointsAtLatest(topic, t, P')
  {
  }

  /** A single post update that does not touch thread `u` leaves it as it was. */
  lemma OtherThreadUnchanged(P: map<Id, Post>, n: Id, np: Post, u: Id)
    requires n in P ==> P[n].topicId != u || P[n].isDeleted
    requires np.topicId != u || np.isDeleted
    ensures SameLiveThread(P, P[n := np], u)
  {
    LivePostsAfter(P, n, np, u);
  }

  // ---------------------------------------------------------------------------
  // The latest live post

  /** A latest live post exists as soon as the topic has any live post. */
  lemma LatestExists(P: map<Id, Post>, t: Id)
    requires LivePostIds(P, t) != {}
    ensures exists p :: IsLatestLive(P, t, p)
  {
    var m := MaxCreated(P, LivePostIds(P, t));
    assert IsLatestLive(P, t, m);
  }

  lemma {:induction false} MaxCreated(P: map<Id, Post>, S: set<Id>) returns (m: Id)
    requires S != {} && S <= P.Keys
    ensures m in S && forall q :: q in S ==> P[q].createdAt <= P[m].createdAt
    decreases S
  {
    var x :| x in S;
    if S == {x} {
      m := x;
    } else {
      var m' := MaxCreated(P, S - {x});
      m := if P[x].createdAt <= P[m'].createdAt then m' else x;
    }
  }

  // ---------------------------------------------------------------------------
  // Updates that keep the rules. Each kind of update is a step predicate
  // relating the collections before and after; one lemma per group of rules
  // shows the step keeps them, and the `...KeepsConsistent` lemma combines.

  /** createForum: a new forum starts with both counters at zero. */
  lemma NewForumKeepsConsistent(F: map<Id, Forum>, T: map<Id, Topic>, P: map<Id, Post>, n: Id, nf: Forum)
    requires Consistent(F, T, P)
    requires n !in F && nf.topics == 0 && nf.posts == 0
    ensures Consistent(F[n := nf], T, P)
  {
    assert LiveTopicIds(T, n) == {};
    assert ForumLivePostIds(T, P, n) == {};
  }

  /** updateForum, addModerator, removeModerator: the counters are left alone. */
  lemma ForumEditKeepsConsistent(F: map<Id, Forum>, T: map<Id, Topic>, P: map<Id, Post>, f: Id, nf: Forum)
    requires Consistent(F, T, P)
    requires f in F && nf.topics == F[f].topics && nf.posts == F[f].posts
    ensures Consistent(F[f := nf], T, P)
  {
  }

  /**
   * getTopicById, updateTopic, togglePin, toggleLock: topic `t` changes only
   * in fields no rule reads.
   */
  ghost predicate TopicEditStep(T: map<Id, Topic>, t: Id, nt: Topic) {
    t in T && nt == T[t].(title := nt.title, content := nt.content, tags := nt.tags, views := nt.views,
                          isPinned := nt.isPinned, isLocked := nt.isLocked, updatedAt := nt.updatedAt)
  }

  lemma TopicEditKeepsRefs(F: map<Id, Forum>, T: map<Id, Topic>, P: map<Id, Post>, t: Id, nt: Topic)
    requires TopicRefsOk(F, T) && LiveRefsOk(T, P) && TopicEditStep(T, t, nt)
    ensures TopicRefsOk(F, T[t := nt]) && LiveRefsOk(T[t := nt], P)
  {
  }

  lemma TopicEditKeepsCounts(F: map<Id, Forum>, T: map<Id, Topic>, P: map<Id, Post>, t: Id, nt: Topic)
    requires TopicCountsOk(F, T) && PostCountsOk(F, T, P) && TopicEditStep(T, t, nt)
    ensures TopicCountsOk(F, T[t := nt]) && PostCountsOk(F, T[t := nt], P)
  {
    var T' := T[t := nt];
    forall g | g in F
      ensures F[g].topics == |LiveTopicIds(T', g)|
      ensures F[g].posts == |LiveTopicIds(T', g)| + |ForumLivePostIds(T', P, g)|
    {
      LiveTopicsAfter(T, t, nt, g);
      ForumPostsAfterTopicEdit(T, P, t, nt, g);
      assert LiveTopicIds(T', g) == LiveTopicIds(T, g);
    }
  }

  lemma TopicEditKeepsThreads(T: map<Id, Topic>, P: map<Id, Post>, t: Id, nt: Topic)
    requires RepliesOk(T, P) && LastPostsOk(T, P) && TopicEditStep(T, t, nt)
    ensures RepliesOk(T[t := nt], P) && LastPostsOk(T[t := nt], P)
  {
  }

  lemma TopicEditKeepsConsistent(F: map<Id, Forum>, T: map<Id, Topic>, P: map<Id, Post>, t: Id, nt: Topic)
    requires Consistent(F, T, P) && TopicEditStep(T, t, nt)
    ensures Consistent(F, T[t := nt], P)
  {
    TopicEditKeepsRefs(F, T, P, t, nt);
    TopicEditKeepsCounts(F, T, P, t, nt);
    TopicEditKeepsThreads(T, P, t, nt);
  }

  /** What a topic edit does to the rules: nothing. */
  lemma TopicEditEffect(F: map<Id, Forum>, T: map<Id, Topic>, P: map<Id, Post>, t: Id, nt: Topic)
    requires TopicEditStep(T, t, nt)
    ensures Consistent(F, T, P) ==> Consistent(F, T[t := nt], P)
  {
    if Consistent(F, T, P) {
      TopicEditKeepsConsistent(F, T, P, t, nt);
    }
  }

  /**
   * updatePost, toggleLikePost, reportPost, a dismissed report: post `p`
   * changes only in fields no rule reads.
   */
  ghost predicate PostEditStep(P: map<Id, Post>, p: Id, np: Post) {
    p in P && np == P[p].(content := np.content, likes := np.likes, isEdited := np.isEdited,
                          editedAt := np.editedAt, reports := np.reports, updatedAt := np.updatedAt)
  }

  lemma PostEditKeepsCounts(F: map<Id, Forum>, T: map<Id, Topic>, P: map<Id, Post>, p: Id, np: Post)
    requires PostCountsOk(F, T, P) && PostEditStep(P, p, np)
    ensures PostCountsOk(F, T, P[p := np])
  {
    forall g | g in F ensures F[g].posts == |LiveTopicIds(T, g)| + |ForumLivePostIds(T, P[p := np], g)| {
      ForumPostsAfterPost(T, P, p, np, g);
      assert ForumLivePostIds(T, P[p := np], g) == ForumLivePostIds(T, P, g);
    }
  }

  lemma PostEditKeepsThreads(T: map<Id, Topic>, P: map<Id, Post>, p: Id, np: Post)
    requires RepliesOk(T, P) && LastPostsOk(T, P) && PostEditStep(P, p, np)
    ensures RepliesOk(T, P[p := np]) && LastPostsOk(T, P[p := np])
  {
    var P' := P[p := np];
    forall u | u in T && !T[u].isDeleted
      ensures T[u].replies == |LivePostIds(P', u)|
      ensures PointsAtLatest(T[u], u, P')
    {
      LivePostsAfter(P, p, np, u);
      assert LivePostIds(P', u) == LivePostIds(P, u);
      PointsAtLatestFrame(T[u], u, P, P');
    }
  }

  lemma PostEditKeepsConsistent(F: map<Id, Forum>, T: map<Id, Topic>, P: map<Id, Post>, p: Id, np: Post)
    requires Consistent(F, T, P) && PostEditStep(P, p, np)
    ensures Consistent(F, T, P[p := np])
  {
    assert LiveRefsOk(T, P[p := np]);
    PostEditKeepsCounts(F, T, P, p, np);
    PostEditKeepsThreads(T, P, p, np);
  }

  /** What a post edit does to the rules: nothing. */
  lemma PostEditEffect(F: map<Id, Forum>, T: map<Id, Topic>, P: map<Id, Post>, p: Id, np: Post)
    requires PostEditStep(P, p, np)
    ensures Consistent(F, T, P) ==> Consistent(F, T, P[p := np])
  {
    if Consistent(F, T, P) {
      PostEditKeepsConsistent(F, T, P, p, np);
    }
  }

  /**
   * createTopic: topic `n` is new and live in an existing forum, with no
   * replies and its last-post fields pointing back at itself; its forum's
   * `topics` and `posts` both grow by one.
   */
  ghost predicate CreateTopicStep(F: map<Id, Forum>, T: map<Id, Topic>, n: Id, nt: Topic, nf: Forum) {
    && n !in T && nt.forumId in F && !nt.isDeleted && nt.replies == 0
    && nt.lastPostId == None && nt.lastPostAt == nt.createdAt && nt.lastPostUserId == Some(nt.userId)
    && nf.topics == F[nt.forumId].topics + 1 && nf.posts == F[nt.forumId].posts + 1
  }

  lemma CreateTopicKeepsRefs(F: map<Id, Forum>, T: map<Id, Topic>, P: map<Id, Post>, n: Id, nt: Topic, nf: Forum)
    requires TopicRefsOk(F, T) && LiveRefsOk(T, P) && CreateTopicStep(F, T, n, nt, nf)
    ensures TopicRefsOk(F[nt.forumId := nf], T[n := nt]) && LiveRefsOk(T[n := nt], P)
  {
  }

  lemma NewTopicSizes(T: map<Id, Topic>, P: map<Id, Post>, n: Id, nt: Topic, g: Id)
    requires LiveRefsOk(T, P) && n !in T && !nt.isDeleted
    ensures |LiveTopicIds(T[n := nt], g)| == |LiveTopicIds(T, g)| + (if nt.forumId == g then 1 else 0)
    ensures ForumLivePostIds(T[n := nt], P, g) == ForumLivePostIds(T, P, g)
  {
    LiveTopicsAfter(T, n, nt, g);
    ForumPostsAfterNewTopic(T, P, n, nt, g);
    if nt.forumId == g {
      assert n !in LiveTopicIds(T, g);
      CardAddOne(LiveTopicIds(T, g), n);
    } else {
      assert LiveTopicIds(T[n := nt], g) == LiveTopicIds(T, g);
    }
  }

  lemma CreateTopicKeepsCounts(F: map<Id, Forum>, T: map<Id, Topic>, P: map<Id, Post>, n: Id, nt: Topic, nf: Forum)
    requires TopicCountsOk(F, T) && PostCountsOk(F, T, P) && LiveRefsOk(T, P) && CreateTopicStep(F, T, n, nt, nf)
    ensures TopicCountsOk(F[nt.forumId := nf], T[n := nt]) && PostCountsOk(F[nt.forumId := nf], T[n := nt], P)
  {
    var F', T' := F[nt.forumId := nf], T[n := nt];
    forall g | g in F'
      ensures F'[g].topics == |LiveTopicIds(T', g)|
      ensures F'[g].posts == |LiveTopicIds(T', g)| + |ForumLivePostIds(T', P, g)|
    {
      NewTopicSizes(T, P, n, nt, g);
    }
  }

  lemma CreateTopicKeepsThreads(F: map<Id, Forum>, T: map<Id, Topic>, P: map<Id, Post>, n: Id, nt: Topic, nf: Forum)
    requires RepliesOk(T, P) && LastPostsOk(T, P) && LiveRefsOk(T, P) && CreateTopicStep(F, T, n, nt, nf)
    ensures RepliesOk(T[n := nt], P) && LastPostsOk(T[n := nt], P)
  {
    assert LivePostIds(P, n) == {};
  }

  lemma CreateTopicKeepsConsistent(F: map<Id, Forum>, T: map<Id, Topic>, P: map<Id, Post>, n: Id, nt: Topic, nf: Forum)
    requires Consistent(F, T, P) && CreateTopicStep(F, T, n, nt, nf)
    ensures Consistent(F[nt.forumId := nf], T[n := nt], P)
  {
    CreateTopicKeepsRefs(F, T, P, n, nt, nf);
    CreateTopicKeepsCounts(F, T, P, n, nt, nf);
    CreateTopicKeepsThreads(F, T, P, n, nt, nf);
  }

  /** What createTopic does to the rules: nothing. */
  lemma CreateTopicEffect(F: map<Id, Forum>, T: map<Id, Topic>, P: map<Id, Post>, n: Id, nt: Topic, nf: Forum)
    requires CreateTopicStep(F, T, n, nt, nf)
    ensures Consistent(F, T, P) ==> Consistent(F[nt.forumId := nf], T[n := nt], P)
  {
    if Consistent(F, T, P) {
      CreateTopicKeepsConsistent(F, T, P, n, nt, nf);
    }
  }

  /**
   * createPost: post `n` is new and live in the live topic `np.topicId`,
   * which gains a reply and points at the new post, stamped no earlier than
   * the post's creation; the topic's forum gains a post.
   */
  ghost predicate CreatePostStep(F: map<Id, Forum>, T: map<Id, Topic>, P: map<Id, Post>,
                                 n: Id, np: Post, nt: Topic, nf: Forum) {
    && n !in P && np.topicId in T && !T[np.topicId].isDeleted && !np.isDeleted
    && nt == T[np.topicId].(replies := nt.replies, lastPostId := nt.lastPostId,
                            lastPostAt := nt.lastPostAt, lastPostUserId := nt.lastPostUserId)
    && nt.replies == T[np.topicId].replies + 1
    && nt.lastPostId == Some(n) && nt.lastPostAt >= np.createdAt && nt.lastPostUserId == Some(np.userId)
    && nt.forumId in F
    && nf == F[nt.forumId].(posts := nf.posts, lastActivity := nf.lastActivity)
    && nf.posts == F[nt.forumId].posts + 1
  }

  lemma CreatePostKeepsRefs(F: map<Id, Forum>, T: map<Id, Topic>, P: map<Id, Post>, n: Id, np: Post, nt: Topic, nf: Forum)
    requires TopicRefsOk(F, T) && LiveRefsOk(T, P) && CreatePostStep(F, T, P, n, np, nt, nf)
    ensures TopicRefsOk(F[nt.forumId := nf], T[np.topicId := nt]) && LiveRefsOk(T[np.topicId := nt], P[n := np])
  {
  }

  /**
   * Replacing post `n` by `np` and topic `t` by a copy `nt` in the same forum
   * and deletion state: a forum's live topics stay, and its live posts change
   * at most by `n`.
   */
  lemma PostStepSizes(T: map<Id, Topic>, P: map<Id, Post>, t: Id, nt: Topic, n: Id, np: Post, g: Id)
    requires t in T && nt.forumId == T[t].forumId && nt.isDeleted == T[t].isDeleted
    ensures LiveTopicIds(T[t := nt], g) == LiveTopicIds(T, g)
    ensures ForumLivePostIds(T[t := nt], P[n := np], g)
         == (ForumLivePostIds(T, P, g) - {n})
          + (if !np.isDeleted && np.topicId in T && T[np.topicId].forumId == g then {n} else {})
  {
    LiveTopicsAfter(T, t, nt, g);
    ForumPostsAfterTopicEdit(T, P[n := np], t, nt, g);
    ForumPostsAfterPost(T, P, n, np, g);
  }

  lemma AddPostSizes(T: map<Id, Topic>, P: map<Id, Post>, t: Id, nt: Topic, n: Id, np: Post, g: Id)
    requires t in T && nt.forumId == T[t].forumId && nt.isDeleted == T[t].isDeleted
    requires n !in P && !np.isDeleted && np.topicId == t
    ensures |LiveTopicIds(T[t := nt], g)| == |LiveTopicIds(T, g)|
    ensures |ForumLivePostIds(T[t := nt], P[n := np], g)|
         == |ForumLivePostIds(T, P, g)| + (if T[t].forumId == g then 1 else 0)
  {
    PostStepSizes(T, P, t, nt, n, np, g);
    assert n !in ForumLivePostIds(T, P, g);
    if T[t].forumId == g {
      CardAddOne(ForumLivePostIds(T, P, g), n);
    } else {
      assert ForumLivePostIds(T, P, g) - {n} == ForumLivePostIds(T, P, g);
    }
  }

  lemma CreatePostKeepsCounts(F: map<Id, Forum>, T: map<Id, Topic>, P: map<Id, Post>, n: Id, np: Post, nt: Topic, nf: Forum)
    requires TopicCountsOk(F, T) && PostCountsOk(F, T, P) && CreatePostStep(F, T, P, n, np, nt, nf)
    ensures TopicCountsOk(F[nt.forumId := nf], T[np.topicId := nt])
    ensures PostCountsOk(F[nt.forumId := nf], T[np.topicId := nt], P[n := np])
  {
    var F', T', P' := F[nt.forumId := nf], T[np.topicId := nt], P[n := np];
    forall g | g in F'
      ensures F'[g].topics == |LiveTopicIds(T', g)|
      ensures F'[g].posts == |LiveTopicIds(T', g)| + |ForumLivePostIds(T', P', g)|
    {
      AddPostSizes(T, P, np.topicId, nt, n, np, g);
    }
  }

  lemma CreatePostKeepsThreads(F: map<Id, Forum>, T: map<Id, Topic>, P: map<Id, Post>, n: Id, np: Post, nt: Topic, nf: Forum)
    requires RepliesOk(T, P) && LastPostsOk(T, P) && ClockNotBefore(P, np.createdAt)
    requires CreatePostStep(F, T, P, n, np, nt, nf)
    ensures RepliesOk(T[np.topicId := nt], P[n := np]) && LastPostsOk(T[np.topicId := nt], P[n := np])
  {
    var t := np.topicId;
    var T', P' := T[t := nt], P[n := np];
    forall u | u in T' && !T'[u].isDeleted
      ensures T'[u].replies == |LivePostIds(P', u)|
      ensures PointsAtLatest(T'[u], u, P')
    {
      if u == t {
        CreatePostOwnThread(T, P, n, np, nt);
      } else {
        OtherThreadUnchanged(P, n, np, u);
        PointsAtLatestFrame(T[u], u, P, P');
      }
    }
  }

  /** The topic of the new post gains one reply, and the new post is its latest. */
  lemma CreatePostOwnThread(T: map<Id, Topic>, P: map<Id, Post>, n: Id, np: Post, nt: Topic)
    requires n !in P && np.topicId in T && !np.isDeleted
    requires T[np.topicId].replies == |LivePostIds(P, np.topicId)| && ClockNotBefore(P, np.createdAt)
    requires nt.replies == T[np.topicId].replies + 1
    requires nt.lastPostId == Some(n) && nt.lastPostAt >= np.createdAt && nt.lastPostUserId == Some(np.userId)
    ensures nt.replies == |LivePostIds(P[n := np], np.topicId)|
    ensures PointsAtLatest(nt, np.topicId, P[n := np])
  {
    var t, P' := np.topicId, P[n := np];
    LivePostsAfter(P, n, np, t);
    assert n !in LivePostIds(P, t);
    CardAddOne(LivePostIds(P, t), n);
    assert n in LivePostIds(P', t);
    assert IsLatestLive(P', t, n);
  }

  /** The new post must be at least as recent as every stored post. */
  lemma CreatePostKeepsConsistent(F: map<Id, Forum>, T: map<Id, Topic>, P: map<Id, Post>,
                                  n: Id, np: Post, nt: Topic, nf: Forum)
    requires Consistent(F, T, P) && ClockNotBefore(P, np.createdAt)
    requires CreatePostStep(F, T, P, n, np, nt, nf)
    ensures Consistent(F[nt.forumId := nf], T[np.topicId := nt], P[n := np])
  {
    CreatePostKeepsRefs(F, T, P, n, np, nt, nf);
    CreatePostKeepsCounts(F, T, P, n, np, nt, nf);
    CreatePostKeepsThreads(F, T, P, n, np, nt, nf);
  }

  /** A `lastPostAt` stamped before its post was created breaks the rule: the clock must not run backwards. */
  lemma StampBeforePostBreaksRule(topic: Topic, t: Id, P: map<Id, Post>, n: Id)
    requires topic.lastPostId == Some(n) && n in LivePostIds(P, t)
    requires topic.lastPostAt < P[n].createdAt
    ensures !PointsAtLatest(topic, t, P)
  {
  }

  /** What createPost does to the rules, for a clock that does not run backwards. */
  lemma CreatePostEffect(F: map<Id, Forum>, T: map<Id, Topic>, P: map<Id, Post>,
                         n: Id, np: Post, nt: Topic, nf: Forum)
    requires CreatePostStep(F, T, P, n, np, nt, nf)
    ensures Consistent(F, T, P) && ClockNotBefore(P, np.createdAt) ==>
      Consistent(F[nt.forumId := nf], T[np.topicId := nt], P[n := np])
  {
    if Consistent(F, T, P) && ClockNotBefore(P, np.createdAt) {
      CreatePostKeepsConsistent(F, T, P, n, np, nt, nf);
    }
  }

  /** Under the rules, no topic names a missing forum, so the handlers' forum lookups succeed. */
  lemma TopicHasForum(F: map<Id, Forum>, T: map<Id, Topic>, P: map<Id, Post>, t: Id)
    ensures Consistent(F, T, P) && t in T ==> T[t].forumId in F
  {
  }

  /**
   * deletePost and handlePostReport's `delete_post` on post `q`: the post
   * becomes deleted, its topic loses a reply and its forum a post. When `q`
   * was not the topic's last post the `lastPost*` fields stay; otherwise `nt` carries
   * the re-resolved `lastPost*` fields, which the callers constrain further.
   */
  ghost predicate DeletePostStep(F: map<Id, Forum>, T: map<Id, Topic>, P: map<Id, Post>,
                                 q: Id, np: Post, nt: Topic, nf: Forum) {
    && q in P && P[q].topicId in T
    && np == P[q].(isDeleted := true, reports := np.reports)
    && nt == T[np.topicId].(replies := nt.replies, lastPostId := nt.lastPostId,
                            lastPostAt := nt.lastPostAt, lastPostUserId := nt.lastPostUserId)
    && nt.replies == T[np.topicId].replies - 1
    && (T[np.topicId].lastPostId != Some(q) ==> nt == T[np.topicId].(replies := nt.replies))
    && nt.forumId in F
    && nf == F[nt.forumId].(posts := nf.posts)
    && nf.posts == F[nt.forumId].posts - 1
  }

  /**
   * The delete of a live post as deletePost does it: when `q` was the last
   * post, the new `lastPost*` fields name a latest live post of what remains, or falls
   * back to the topic.
   */
  ghost predicate DeleteLivePostStep(F: map<Id, Forum>, T: map<Id, Topic>, P: map<Id, Post>,
                                     q: Id, np: Post, nt: Topic, nf: Forum) {
    && DeletePostStep(F, T, P, q, np, nt, nf) && !P[q].isDeleted
    && (T[np.topicId].lastPostId == Some(q) ==> PointsAtLatest(nt, np.topicId, P[q := np]))
  }

  lemma DeleteLivePostKeepsRefs(F: map<Id, Forum>, T: map<Id, Topic>, P: map<Id, Post>, q: Id, np: Post, nt: Topic, nf: Forum)
    requires TopicRefsOk(F, T) && LiveRefsOk(T, P) && DeleteLivePostStep(F, T, P, q, np, nt, nf)
    ensures TopicRefsOk(F[nt.forumId := nf], T[np.topicId := nt]) && LiveRefsOk(T[np.topicId := nt], P[q := np])
  {
  }

  lemma RemovePostSizes(T: map<Id, Topic>, P: map<Id, Post>, t: Id, nt: Topic, q: Id, np: Post, g: Id)
    requires t in T && nt.forumId == T[t].forumId && nt.isDeleted == T[t].isDeleted
    requires q in P && !P[q].isDeleted && P[q].topicId == t && np.isDeleted
    ensures |LiveTopicIds(T[t := nt], g)| == |LiveTopicIds(T, g)|
    ensures |ForumLivePostIds(T[t := nt], P[q := np], g)|
         == |ForumLivePostIds(T, P, g)| - (if T[t].forumId == g then 1 else 0)
  {
    PostStepSizes(T, P, t, nt, q, np, g);
    if T[t].forumId == g {
      assert q in ForumLivePostIds(T, P, g);
      CardRemoveOne(ForumLivePostIds(T, P, g), q);
    } else {
      assert q !in ForumLivePostIds(T, P, g);
      assert ForumLivePostIds(T, P, g) - {q} == ForumLivePostIds(T, P, g);
    }
  }

  lemma DeleteLivePostKeepsCounts(F: map<Id, Forum>, T: map<Id, Topic>, P: map<Id, Post>, q: Id, np: Post, nt: Topic, nf: Forum)
    requires TopicCountsOk(F, T) && PostCountsOk(F, T, P) && DeleteLivePostStep(F, T, P, q, np, nt, nf)
    ensures TopicCountsOk(F[nt.forumId := nf], T[np.topicId := nt])
    ensures PostCountsOk(F[nt.forumId := nf], T[np.topicId := nt], P[q := np])
  {
    var F', T', P' := F[nt.forumId := nf], T[np.topicId := nt], P[q := np];
    forall g | g in F'
      ensures F'[g].topics == |LiveTopicIds(T', g)|
      ensures F'[g].posts == |LiveTopicIds(T', g)| + |ForumLivePostIds(T', P', g)|
    {
      RemovePostSizes(T, P, np.topicId, nt, q, np, g);
    }
  }

  lemma DeleteLivePostKeepsThreads(F: map<Id, Forum>, T: map<Id, Topic>, P: map<Id, Post>, q: Id, np: Post, nt: Topic, nf: Forum)
    requires RepliesOk(T, P) && LastPostsOk(T, P) && LiveRefsOk(T, P) && DeleteLivePostStep(F, T, P, q, np, nt, nf)
    ensures RepliesOk(T[np.topicId := nt], P[q := np]) && LastPostsOk(T[np.topicId := nt], P[q := np])
  {
    var t := np.topicId;
    var T', P' := T[t := nt], P[q := np];
    assert !T[t].isDeleted;
    forall u | u in T' && !T'[u].isDeleted
      ensures T'[u].replies == |LivePostIds(P', u)|
      ensures PointsAtLatest(T'[u], u, P')
    {
      LivePostsAfter(P, q, np, u);
      if u == t {
        assert q in LivePostIds(P, u);
        CardRemoveOne(LivePostIds(P, u), q);
        if T[t].lastPostId != Some(q) {
          assert PointsAtLatest(T[t], t, P);
          var last := T[t].lastPostId.value;
          assert last in LivePostIds(P', t);
          assert IsLatestLive(P', t, last);
        }
      } else {
        OtherThreadUnchanged(P, q, np, u);
        PointsAtLatestFrame(T[u], u, P, P');
      }
    }
  }

  lemma DeleteLivePostKeepsConsistent(F: map<Id, Forum>, T: map<Id, Topic>, P: map<Id, Post>,
                                      q: Id, np: Post, nt: Topic, nf: Forum)
    requires Consistent(F, T, P) && DeleteLivePostStep(F, T, P, q, np, nt, nf)
    ensures Consistent(F[nt.forumId := nf], T[np.topicId := nt], P[q := np])
  {
    DeleteLivePostKeepsRefs(F, T, P, q, np, nt, nf);
    DeleteLivePostKeepsCounts(F, T, P, q, np, nt, nf);
    DeleteLivePostKeepsThreads(F, T, P, q, np, nt, nf);
  }

  /** Under the rules, a live post's topic is live and has a last post. */
  lemma LivePostHasLastPost(F: map<Id, Forum>, T: map<Id, Topic>, P: map<Id, Post>, q: Id)
    ensures Consistent(F, T, P) && q in P && !P[q].isDeleted ==>
      P[q].topicId in T && !T[P[q].topicId].isDeleted && T[P[q].topicId].lastPostId.Some?
  {
    if Consistent(F, T, P) && q in P && !P[q].isDeleted {
      assert q in LivePostIds(P, P[q].topicId);
    }
  }

  /**
   * What deletePost does to the rules: deleting a live post keeps them, and
   * deleting a post that is already deleted breaks the posts counter.
   */
  lemma DeletePostEffect(F: map<Id, Forum>, T: map<Id, Topic>, P: map<Id, Post>,
                         q: Id, np: Post, nt: Topic, nf: Forum)
    requires DeletePostStep(F, T, P, q, np, nt, nf)
    requires T[np.topicId].lastPostId == Some(q) ==> PointsAtLatest(nt, np.topicId, P[q := np])
    ensures Consistent(F, T, P) && !P[q].isDeleted ==>
      Consistent(F[nt.forumId := nf], T[np.topicId := nt], P[q := np])
    ensures Counted(F, T, P) && P[q].isDeleted ==>
      !PostCountsOk(F[nt.forumId := nf], T[np.topicId := nt], P[q := np])
  {
    if Consistent(F, T, P) && !P[q].isDeleted {
      DeleteLivePostKeepsConsistent(F, T, P, q, np, nt, nf);
    }
    if Counted(F, T, P) && P[q].isDeleted {
      RepeatedPostDeleteBreaksCounters(F, T, P, q, np, nt, nf);
    }
  }

  /**
   * What handlePostReport's `delete_post` does to the rules, with its lookup
   * run against the posts before the delete: deleting a live post that is
   * not the topic's last post keeps them; deleting the last post, when no
   * other post ties with it, leaves the `lastPost*` fields on the deleted post.
   */
  lemma ReportDeleteEffect(F: map<Id, Forum>, T: map<Id, Topic>, P: map<Id, Post>,
                           q: Id, np: Post, nt: Topic, nf: Forum)
    requires DeletePostStep(F, T, P, q, np, nt, nf)
    requires T[np.topicId].lastPostId == Some(q) ==> PointsAtLatest(nt, np.topicId, P)
    ensures Consistent(F, T, P) && !P[q].isDeleted && T[np.topicId].lastPostId != Some(q) ==>
      Consistent(F[nt.forumId := nf], T[np.topicId := nt], P[q := np])
    ensures Consistent(F, T, P) && !P[q].isDeleted && T[np.topicId].lastPostId == Some(q) &&
            (forall p :: p in LivePostIds(P, np.topicId) && p != q ==> P[p].createdAt < P[q].createdAt) ==>
      !LastPostsOk(T[np.topicId := nt], P[q := np])
  {
    var t := np.topicId;
    if Consistent(F, T, P) && !P[q].isDeleted && T[t].lastPostId != Some(q) {
      DeleteLivePostKeepsConsistent(F, T, P, q, np, nt, nf);
    }
    if Consistent(F, T, P) && !P[q].isDeleted && T[t].lastPostId == Some(q) &&
       (forall p :: p in LivePostIds(P, t) && p != q ==> P[p].createdAt < P[q].createdAt) {
      assert q in LivePostIds(P, t);
      assert !T[t].isDeleted;
      StaleLookupKeepsDeletedLastPost(T, P, q, nt.lastPostId.value, np, nt);
    }
  }

  /**
   * deleteTopic of the live topic `t`: the topic and all its posts leave the
   * live sets; `forum.topics` drops by one and `forum.posts` by `replies + 1`.
   */
  ghost predicate DeleteTopicStep(F: map<Id, Forum>, T: map<Id, Topic>, t: Id, nf: Forum) {
    && t in T && T[t].forumId in F
    && nf == F[T[t].forumId].(topics := nf.topics, posts := nf.posts)
    && nf.topics == F[T[t].forumId].topics - 1
    && nf.posts == F[T[t].forumId].posts - (T[t].replies + 1)
  }

  ghost predicate DeleteLiveTopicStep(F: map<Id, Forum>, T: map<Id, Topic>, t: Id, nf: Forum) {
    DeleteTopicStep(F, T, t, nf) && !T[t].isDeleted
  }

  lemma DeleteLiveTopicKeepsRefs(F: map<Id, Forum>, T: map<Id, Topic>, P: map<Id, Post>, t: Id, nf: Forum)
    requires TopicRefsOk(F, T) && LiveRefsOk(T, P) && DeleteLiveTopicStep(F, T, t, nf)
    ensures TopicRefsOk(F[T[t].forumId := nf], T[t := T[t].(isDeleted := true)])
    ensures LiveRefsOk(T[t := T[t].(isDeleted := true)], CascadeDelete(P, t))
  {
  }

  /** The cascade takes exactly the topic's live posts out of every forum's live posts. */
  lemma CascadeForumPosts(T: map<Id, Topic>, P: map<Id, Post>, t: Id, g: Id)
    requires t in T
    ensures ForumLivePostIds(T, CascadeDelete(P, t), g) == ForumLivePostIds(T, P, g) - LivePostIds(P, t)
  {
  }

  lemma DeleteTopicSizes(T: map<Id, Topic>, P: map<Id, Post>, t: Id, g: Id)
    requires t in T && !T[t].isDeleted
    ensures |LiveTopicIds(T[t := T[t].(isDeleted := true)], g)|
         == |LiveTopicIds(T, g)| - (if T[t].forumId == g then 1 else 0)
    ensures |ForumLivePostIds(T[t := T[t].(isDeleted := true)], CascadeDelete(P, t), g)|
         == |ForumLivePostIds(T, P, g)| - (if T[t].forumId == g then |LivePostIds(P, t)| else 0)
  {
    var T', P' := T[t := T[t].(isDeleted := true)], CascadeDelete(P, t);
    LiveTopicsAfter(T, t, T'[t], g);
    ForumPostsAfterTopicEdit(T, P', t, T'[t], g);
    CascadeForumPosts(T, P, t, g);
    if T[t].forumId == g {
      CardRemoveOne(LiveTopicIds(T, g), t);
      TopicPostsInForum(T, P, t);
      CardDiff(ForumLivePostIds(T, P, g), LivePostIds(P, t));
    } else {
      assert LiveTopicIds(T', g) == LiveTopicIds(T, g);
      assert ForumLivePostIds(T, P, g) * LivePostIds(P, t) == {};
    }
  }

  lemma DeleteLiveTopicKeepsCounts(F: map<Id, Forum>, T: map<Id, Topic>, P: map<Id, Post>, t: Id, nf: Forum)
    requires TopicCountsOk(F, T) && PostCountsOk(F, T, P) && RepliesOk(T, P) && DeleteLiveTopicStep(F, T, t, nf)
    ensures TopicCountsOk(F[T[t].forumId := nf], T[t := T[t].(isDeleted := true)])
    ensures PostCountsOk(F[T[t].forumId := nf], T[t := T[t].(isDeleted := true)], CascadeDelete(P, t))
  {
    var F', T', P' := F[T[t].forumId := nf], T[t := T[t].(isDeleted := true)], CascadeDelete(P, t);
    forall g | g in F'
      ensures F'[g].topics == |LiveTopicIds(T', g)|
      ensures F'[g].posts == |LiveTopicIds(T', g)| + |ForumLivePostIds(T', P', g)|
    {
      DeleteTopicSizes(T, P, t, g);
    }
  }

  lemma DeleteLiveTopicKeepsThreads(F: map<Id, Forum>, T: map<Id, Topic>, P: map<Id, Post>, t: Id, nf: Forum)
    requires RepliesOk(T, P) && LastPostsOk(T, P) && DeleteLiveTopicStep(F, T, t, nf)
    ensures RepliesOk(T[t := T[t].(isDeleted := true)], CascadeDelete(P, t))
    ensures LastPostsOk(T[t := T[t].(isDeleted := true)], CascadeDelete(P, t))
  {
    var T', P' := T[t := T[t].(isDeleted := true)], CascadeDelete(P, t);
    forall u | u in T' && !T'[u].isDeleted
      ensures T'[u].replies == |LivePostIds(P', u)|
      ensures PointsAtLatest(T'[u], u, P')
    {
      assert LivePostIds(P', u) == LivePostIds(P, u);
      PointsAtLatestFrame(T[u], u, P, P');
    }
  }

  lemma DeleteLiveTopicKeepsConsistent(F: map<Id, Forum>, T: map<Id, Topic>, P: map<Id, Post>, t: Id, nf: Forum)
    requires Consistent(F, T, P) && DeleteLiveTopicStep(F, T, t, nf)
    ensures Consistent(F[T[t].forumId := nf], T[t := T[t].(isDeleted := true)], CascadeDelete(P, t))
  {
    DeleteLiveTopicKeepsRefs(F, T, P, t, nf);
    DeleteLiveTopicKeepsCounts(F, T, P, t, nf);
    DeleteLiveTopicKeepsThreads(F, T, P, t, nf);
  }

  // ---------------------------------------------------------------------------
  // Updates that break the rules

  /**
   * deletePost and handlePostReport look the post up without an `isDeleted`
   * filter. Deleting a post that is already deleted subtracts from
   * `forum.posts` a second time, so the counters no longer agree with the
   * live posts.
   */
  lemma RepeatedPostDeleteBreaksCounters(F: map<Id, Forum>, T: map<Id, Topic>, P: map<Id, Post>,
                                         q: Id, np: Post, nt: Topic, nf: Forum)
    requires PostCountsOk(F, T, P) && TopicRefsOk(F, T)
    requires q in P && P[q].isDeleted && np.isDeleted && np.topicId == P[q].topicId
    requires np.topicId in T && nt.forumId == T[np.topicId].forumId && nt.isDeleted == T[np.topicId].isDeleted
    requires nf.posts == F[nt.forumId].posts - 1
    ensures !PostCountsOk(F[nt.forumId := nf], T[np.topicId := nt], P[q := np])
  {
    var t, f := np.topicId, nt.forumId;
    var F', T', P' := F[f := nf], T[t := nt], P[q := np];
    PostStepSizes(T, P, t, nt, q, np, f);
    var X := ForumLivePostIds(T, P, f);
    assert q !in X;
    assert X - {q} == X;
    assert F[f].posts == |LiveTopicIds(T, f)| + |X|;
    assert F'[f].posts != |LiveTopicIds(T', f)| + |ForumLivePostIds(T', P', f)|;
  }

  /**
   * deleteTopic has no guard against a topic that is already deleted: a
   * second delete subtracts from `forum.topics` again.
   */
  lemma RepeatedTopicDeleteBreaksCounters(F: map<Id, Forum>, T: map<Id, Topic>, P: map<Id, Post>,
                                          t: Id, nf: Forum)
    requires TopicCountsOk(F, T) && TopicRefsOk(F, T)
    requires t in T && T[t].isDeleted
    requires nf.topics == F[T[t].forumId].topics - 1
    ensures !TopicCountsOk(F[T[t].forumId := nf], T[t := T[t].(isDeleted := true)])
  {
    var f := T[t].forumId;
    var T' := T[t := T[t].(isDeleted := true)];
    LiveTopicsAfter(T, t, T'[t], f);
    assert LiveTopicIds(T, f) - {t} == LiveTopicIds(T, f);
    assert F[f].topics == |LiveTopicIds(T, f)|;
    assert F[f := nf][f].topics != |LiveTopicIds(T', f)|;
  }

  /**
   * What deleteTopic does to the rules: deleting a live topic keeps them,
   * and deleting one that is already deleted breaks the topics counter.
   */
  lemma DeleteTopicEffect(F: map<Id, Forum>, T: map<Id, Topic>, P: map<Id, Post>, t: Id, nf: Forum)
    requires DeleteTopicStep(F, T, t, nf)
    ensures Consistent(F, T, P) && !T[t].isDeleted ==>
      Consistent(F[T[t].forumId := nf], T[t := T[t].(isDeleted := true)], CascadeDelete(P, t))
    ensures Counted(F, T, P) && T[t].isDeleted ==>
      !TopicCountsOk(F[T[t].forumId := nf], T[t := T[t].(isDeleted := true)])
  {
    if Consistent(F, T, P) && !T[t].isDeleted {
      DeleteLiveTopicKeepsConsistent(F, T, P, t, nf);
    }
    if Counted(F, T, P) && T[t].isDeleted {
      RepeatedTopicDeleteBreaksCounters(F, T, P, t, nf);
    }
  }

  /**
   * handlePostReport with `delete_post` resolves the last post before the
   * reported post is saved as deleted. When the reported post is the latest
   * live post of its topic and no other post ties with it, the lookup can
   * only return the reported post itself, and the topic is left pointing at
   * a deleted post.
   */
  lemma StaleLookupKeepsDeletedLastPost(T: map<Id, Topic>, P: map<Id, Post>,
                                        q: Id, found: Id, np: Post, nt: Topic)
    requires q in P && P[q].topicId in T
    requires q in LivePostIds(P, P[q].topicId)
    requires forall p :: p in LivePostIds(P, P[q].topicId) && p != q ==> P[p].createdAt < P[q].createdAt
    requires IsLatestLive(P, P[q].topicId, found)
    requires np == P[q].(isDeleted := true, reports := np.reports)
    requires nt.lastPostId == Some(found) && !nt.isDeleted
    ensures found == q
    ensures !LastPostsOk(T[P[q].topicId := nt], P[q := np])
  {
    var t := P[q].topicId;
    var P' := P[q := np];
    LivePostsAfter(P, q, np, t);
    assert q !in LivePostIds(P', t);
    assert !PointsAtLatest(nt, t, P');
    assert t in T[t := nt] && !T[t := nt][t].isDeleted && !PointsAtLatest(T[t := nt][t], t, P');
  }

  // ---------------------------------------------------------------------------
  // The sum form of the posts counter

  ghost function Pick(s: set<Id>): Id
    requires s != {}
  {
    var x :| x in s; x
  }

  /** The sum of `replies + 1` over the topics in `S`. */
  ghost function SumRepliesPlusOne(T: map<Id, Topic>, S: set<Id>): int
    requires S <= T.Keys
    decreases S
  {
    if S == {} then 0 else T[Pick(S)].replies + 1 + SumRepliesPlusOne(T, S - {Pick(S)})
  }

  /** The live posts whose topic lies in `S`. */
  ghost function PostsUnder(P: map<Id, Post>, S: set<Id>): set<Id> {
    set p | p in P && !P[p].isDeleted && P[p].topicId in S
  }

  /**
   * Under the rules, `forum.posts` is the sum of `replies + 1` over the
   * forum's live topics, as the comment on deleteTopic's decrement says.
   */
  lemma ForumPostsAreSumOfReplies(F: map<Id, Forum>, T: map<Id, Topic>, P: map<Id, Post>, f: Id)
    requires Counted(F, T, P) && f in F
    ensures F[f].posts == SumRepliesPlusOne(T, LiveTopicIds(T, f))
  {
    var S := LiveTopicIds(T, f);
    SumOverLiveTopics(T, P, S);
    assert PostsUnder(P, S) == ForumLivePostIds(T, P, f);
  }

  lemma {:induction false} SumOverLiveTopics(T: map<Id, Topic>, P: map<Id, Post>, S: set<Id>)
    requires S <= T.Keys
    requires forall t :: t in S ==> T[t].replies == |LivePostIds(P, t)|
    ensures SumRepliesPlusOne(T, S) == |S| + |PostsUnder(P, S)|
    decreases S
  {
    if S != {} {
      var t := Pick(S);
      var S' := S - {t};
      SumOverLiveTopics(T, P, S');
      assert PostsUnder(P, S) == LivePostIds(P, t) + PostsUnder(P, S');
      CardUnionDisjoint(LivePostIds(P, t), PostsUnder(P, S'));
      CardRemoveOne(S, t);
    }
  }
}
