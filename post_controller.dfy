/**
 * The post handlers (postController.js): listing a topic's posts, creating,
 * editing and soft-deleting posts with the counter and last-post upkeep,
 * likes, reports, and the moderators' handling of a report.
 */
module PostController {
  import opened Common
  import opened PostModel
  import opened TopicModel
  import opened ForumModel
  import opened ForumInvariant
  import opened ModerationAuth
  import opened Database

  // ---------------------------------------------------------------------------
  // Specification functions

  /**
   * The lookups and the permission test that updatePost, deletePost and
   * handlePostReport run before they change anything: the post by id (with
   * no `isDeleted` filter), its topic and its forum (a missing one is read
   * through null and crashes), then the author-or-moderator test, or the
   * moderator test alone when `authorMay` is false.
   */
  function PostGate(P: map<Id, Post>, T: map<Id, Topic>, F: map<Id, Forum>,
                    actor: Actor, id: Id, authorMay: bool): (g: Outcome)
    ensures id !in P ==> g == Fail(NotFound)
    ensures id in P && (P[id].topicId !in T || T[P[id].topicId].forumId !in F) ==> g == Fail(ServerError)
    ensures g == Pass <==>
      && id in P && P[id].topicId in T && T[P[id].topicId].forumId in F
      && ((authorMay && P[id].userId == actor.id) || CanModerate(F[T[P[id].topicId].forumId], actor))
    ensures g == Pass || g == Fail(NotFound) || g == Fail(ServerError) || g == Fail(Forbidden)
  {
    if id !in P then Fail(NotFound)
    else if P[id].topicId !in T || T[P[id].topicId].forumId !in F then Fail(ServerError)
    else
      var forum := F[T[P[id].topicId].forumId];
      if authorMay && AuthorOrModerator(P[id].userId, forum, actor) then Pass
      else if CanModerate(forum, actor) then Pass
      else Fail(Forbidden)
  }

  /** The moderator-only gate is never more permissive than the author-or-moderator gate. */
  lemma ReportGateStricter(P: map<Id, Post>, T: map<Id, Topic>, F: map<Id, Forum>, actor: Actor, id: Id)
    ensures PostGate(P, T, F, actor, id, false) == Pass ==> PostGate(P, T, F, actor, id, true) == Pass
    ensures PostGate(P, T, F, actor, id, true) != Pass ==> PostGate(P, T, F, actor, id, false) != Pass
  {
  }

  /** `likes.indexOf(u) === -1 ? likes.push(u) : likes.splice(index, 1)` */
  function ToggleLike(likes: seq<Id>, u: Id): (r: seq<Id>)
    ensures u !in likes ==> r == likes + [u]
    ensures u in likes ==> |r| == |likes| - 1 && multiset(r) == multiset(likes) - multiset{u}
    ensures u in likes ==> exists i :: 0 <= i < |likes| && likes[i] == u && u !in likes[..i] && r == likes[..i] + likes[i + 1..]
  {
    if IndexOf(likes, u) == -1 then likes + [u] else RemoveFirst(likes, u)
  }

  /** A list without repeated likers stays so. */
  lemma ToggleLikeKeepsNoDup(likes: seq<Id>, u: Id)
    requires NoDup(likes)
    ensures NoDup(ToggleLike(likes, u))
  {
    if u in likes {
      var i :| 0 <= i < |likes| && likes[i] == u && u !in likes[..i] && ToggleLike(likes, u) == likes[..i] + likes[i + 1..];
      SpliceNoDup(likes, i);
    }
  }

  /** Without repeated likers, a toggle really flips whether `u` likes the post. */
  lemma ToggleLikeFlips(likes: seq<Id>, u: Id)
    requires NoDup(likes)
    ensures u in ToggleLike(likes, u) <==> u !in likes
  {
    if u in likes {
      NoDupCountAtMostOne(likes, u);
      assert multiset(ToggleLike(likes, u))[u] == 0;
    }
  }

  /** Liking and then unliking gives back exactly the original list. */
  lemma {:induction false} ToggleLikeTwiceFromAbsent(likes: seq<Id>, u: Id)
    requires u !in likes
    ensures ToggleLike(ToggleLike(likes, u), u) == likes
  {
    var once := likes + [u];
    assert IndexOf(once, u) == |likes| by {
      assert once[|likes|] == u && once[..|likes|] == likes;
    }
    assert once[..|likes|] + once[|likes| + 1..] == likes;
  }

  /**
   * Unliking and then liking again gives back the same likers, but the user
   * moves to the end of the list.
   */
  lemma ToggleLikeTwiceFromPresent(likes: seq<Id>, u: Id)
    requires NoDup(likes) && u in likes
    ensures multiset(ToggleLike(ToggleLike(likes, u), u)) == multiset(likes)
    ensures ToggleLike(ToggleLike(likes, u), u) == RemoveFirst(likes, u) + [u]
  {
    ToggleLikeFlips(likes, u);
  }

  /** The list itself need not come back: `[1, 2]` becomes `[2, 1]` when user 1 toggles twice. */
  lemma ToggleLikeTwiceReorders()
    ensures ToggleLike(ToggleLike([1, 2], 1), 1) == [2, 1]
  {
    assert IndexOf([1, 2], 1) == 0;
    assert ToggleLike([1, 2], 1) == [2];
    assert IndexOf([2], 1) == -1;
  }

  /** `reports.find(r => r.userId === u)` finds something. */
  predicate HasReported(reports: seq<Report>, u: Id) {
    exists k :: 0 <= k < |reports| && reports[k].userId == u
  }

  /** Every user appears at most once among the reporters. */
  predicate OneReportPerUser(reports: seq<Report>) {
    forall i, j :: 0 <= i < j < |reports| ==> reports[i].userId != reports[j].userId
  }

  /** reportPost appends only for a user who has not reported yet, so one report per user is kept. */
  lemma ReportKeepsOnePerUser(reports: seq<Report>, r: Report)
    requires OneReportPerUser(reports) && !HasReported(reports, r.userId)
    ensures OneReportPerUser(reports + [r])
  {
    forall i, j | 0 <= i < j < |reports + [r]| ensures (reports + [r])[i].userId != (reports + [r])[j].userId {
      if j == |reports| {
        assert (reports + [r])[i] == reports[i];
      }
    }
  }

  /** `reports.findIndex(r => r._id === rid)`. */
  function ReportIndex(reports: seq<Report>, rid: Id): (i: int)
    ensures -1 <= i < |reports|
    ensures i == -1 <==> forall k :: 0 <= k < |reports| ==> reports[k].id != rid
    ensures 0 <= i ==> reports[i].id == rid && forall k :: 0 <= k < i ==> reports[k].id != rid
  {
    if |reports| == 0 then -1
    else if reports[0].id == rid then 0
    else
      var k := ReportIndex(reports[1..], rid);
      if k == -1 then -1 else k + 1
  }

  /** "dismiss" and "delete_post" are the only actions handlePostReport accepts. */
  predicate ValidReportAction(action: string) {
    action == "dismiss" || action == "delete_post"
  }

  // ---------------------------------------------------------------------------
  // Helpers shared by the delete paths

  /** `Post.findOne({ topicId: t, isDeleted: false }).sort({ createdAt: -1 })`; ties go either way. */
  method LatestLivePost(P: map<Id, Post>, t: Id) returns (r: Option<Id>)
    ensures r == None <==> LivePostIds(P, t) == {}
    ensures r.Some? ==> IsLatestLive(P, t, r.value)
  {
    if LivePostIds(P, t) == {} {
      return None;
    }
    LatestExists(P, t);
    var p :| p in LivePostIds(P, t) && IsLatestLive(P, t, p);
    return Some(p);
  }

  /**
   * The `lastPost*` update after a delete: the latest live post of `t` in `P` (the
   * posts as the lookup sees them), or the topic's own creation time and
   * author when none is left.
   */
  method Repoint(topic: Topic, t: Id, P: map<Id, Post>) returns (nt: Topic)
    ensures nt == topic.(lastPostId := nt.lastPostId, lastPostAt := nt.lastPostAt, lastPostUserId := nt.lastPostUserId)
    ensures PointsAtLatest(nt, t, P)
  {
    var last := LatestLivePost(P, t);
    match last
    case None =>
      nt := topic.(lastPostId := None, lastPostAt := topic.createdAt, lastPostUserId := Some(topic.userId));
    case Some(p) =>
      nt := topic.(lastPostId := Some(p), lastPostAt := P[p].createdAt, lastPostUserId := Some(P[p].userId));
  }

  // ---------------------------------------------------------------------------
  // Handlers

  /** getPostsByTopic, without pagination: the live posts of a live topic. */
  method GetPostsByTopic(db: Db, topicId: Id) returns (r: Result<set<Id>>)
    ensures r.Failure? <==> topicId !in db.topics || db.topics[topicId].isDeleted
    ensures r.Failure? ==> r.error == NotFound
    ensures r.Success? ==> forall p :: p in r.value <==>
      p in db.posts && db.posts[p].topicId == topicId && !db.posts[p].isDeleted
    ensures r.Success? && RepliesOk(db.topics, db.posts) ==> |r.value| == db.topics[topicId].replies
  {
    if topicId !in db.topics || db.topics[topicId].isDeleted {
      return Failure(NotFound);
    }
    return Success(LivePostIds(db.posts, topicId));
  }

  /**
   * createPost: a live, unlocked topic and, for a reply, a live parent post
   * anywhere; then the post is stored, the topic gains a reply and points at
   * it, and the forum gains a post. The clock is read three times: `now` when
   * the post is built (its `createdAt` default), `topicNow` for the topic's
   * `lastPostAt` after the post is saved, and `forumNow` for the forum's
   * `lastActivity` after the topic is saved.
   */
  method CreatePost(db: Db, actor: Actor, topicId: Id, content: string, parentPostId: Option<Id>,
                    newId: Id, now: Time, topicNow: Time, forumNow: Time) returns (r: Result<Id>)
    requires newId !in db.posts
    modifies db`posts, db`topics, db`forums
    ensures topicId !in old(db.topics) || old(db.topics[topicId]).isDeleted ==> r == Failure(NotFound) && unchanged(db)
    ensures topicId in old(db.topics) && !old(db.topics[topicId]).isDeleted && old(db.topics[topicId]).isLocked ==>
      r == Failure(Forbidden) && unchanged(db)
    ensures topicId in old(db.topics) && !old(db.topics[topicId]).isDeleted && !old(db.topics[topicId]).isLocked &&
            parentPostId.Some? && (parentPostId.value !in old(db.posts) || old(db.posts[parentPostId.value]).isDeleted) ==>
      r == Failure(NotFound) && unchanged(db)
    ensures r.Success? || r == Failure(ServerError) ==>
      && var topic := old(db.topics[topicId]);
      && db.posts == old(db.posts)[newId := NewPost(topicId, actor.id, content, parentPostId, now)]
      && db.topics == old(db.topics)[topicId := topic.(replies := topic.replies + 1, lastPostId := Some(newId),
                                                         lastPostAt := topicNow, lastPostUserId := Some(actor.id))]
    ensures r.Success? ==>
      && r.value == newId
      && var f := old(db.topics[topicId]).forumId;
      && f in old(db.forums)
      && db.forums == old(db.forums)[f := old(db.forums[f]).(posts := old(db.forums[f]).posts + 1, lastActivity := forumNow)]
    ensures r == Failure(ServerError) ==>
      old(db.topics[topicId]).forumId !in old(db.forums) && unchanged(db`forums)
    ensures topicId in old(db.topics) && !old(db.topics[topicId]).isDeleted && !old(db.topics[topicId]).isLocked &&
            (parentPostId.Some? ==> parentPostId.value in old(db.posts) && !old(db.posts[parentPostId.value]).isDeleted) ==>
      && (r.Success? <==> old(db.topics[topicId]).forumId in old(db.forums))
      && (r.Success? || r == Failure(ServerError))
    ensures old(Consistent(db.forums, db.topics, db.posts)) ==>
      (r.Success? <==> topicId in old(db.topics) && !old(db.topics[topicId]).isDeleted && !old(db.topics[topicId]).isLocked &&
                       (parentPostId.Some? ==> parentPostId.value in old(db.posts) && !old(db.posts[parentPostId.value]).isDeleted))
    ensures old(Consistent(db.forums, db.topics, db.posts)) && old(ClockNotBefore(db.posts, now)) && now <= topicNow ==>
      Consistent(db.forums, db.topics, db.posts)
  {
    ghost var F0, T0, P0 := db.forums, db.topics, db.posts;
    if topicId !in db.topics || db.topics[topicId].isDeleted {
      return Failure(NotFound);
    }
    var topic := db.topics[topicId];
    if topic.isLocked {
      return Failure(Forbidden);
    }
    if parentPostId.Some? && (parentPostId.value !in db.posts || db.posts[parentPostId.value].isDeleted) {
      return Failure(NotFound);
    }
    var post := NewPost(topicId, actor.id, content, parentPostId, now);
    db.posts := db.posts[newId := post];
    topic := topic.(replies := topic.replies + 1, lastPostId := Some(newId), lastPostAt := topicNow,
                    lastPostUserId := Some(actor.id));
    db.topics := db.topics[topicId := topic];
    if topic.forumId !in db.forums {
      // `forum.posts += 1` on the null that `Forum.findById` returned
      TopicHasForum(F0, T0, P0, topicId);
      return Failure(ServerError);
    }
    var forum := db.forums[topic.forumId];
    forum := forum.(posts := forum.posts + 1, lastActivity := forumNow);
    db.forums := db.forums[topic.forumId := forum];
    if now <= topicNow {
      CreatePostEffect(F0, T0, P0, newId, post, topic, forum);
    }
    return Success(newId);
  }

  /**
   * updatePost: the author, a moderator or an administrator replaces the
   * content and the post is marked edited. The post is found even when it
   * is deleted.
   */
  method UpdatePost(db: Db, actor: Actor, id: Id, content: string, now: Time) returns (o: Outcome)
    modifies db`posts
    ensures var g := PostGate(old(db.posts), old(db.topics), old(db.forums), actor, id, true);
      && (g != Pass ==> o == g && unchanged(db))
      && (g == Pass ==> o == Pass && db.posts == old(db.posts)[id := old(db.posts[id]).(
            content := content, isEdited := true, editedAt := Some(now), updatedAt := now)])
    ensures old(Consistent(db.forums, db.topics, db.posts)) ==> Consistent(db.forums, db.topics, db.posts)
  {
    o := PostGate(db.posts, db.topics, db.forums, actor, id, true);
    if o != Pass {
      return;
    }
    ghost var P0 := db.posts;
    var post := db.posts[id].(content := content, isEdited := true, editedAt := Some(now), updatedAt := now);
    db.posts := db.posts[id := post];
    PostEditEffect(db.forums, db.topics, P0, id, post);
  }

  /**
   * deletePost: the author, a moderator or an administrator soft-deletes the
   * post; its topic loses a reply (and is re-pointed when this was its last
   * post) and its forum loses a post. A topic with no last post crashes on
   * `topic.lastPostId.toString()` after the post has been saved.
   */
  method DeletePost(db: Db, actor: Actor, id: Id) returns (o: Outcome)
    modifies db`posts, db`topics, db`forums
    ensures var g := PostGate(old(db.posts), old(db.topics), old(db.forums), actor, id, true);
      && (g != Pass ==> o == g && unchanged(db))
      && (g == Pass ==>
            var post := old(db.posts[id]);
            var t := post.topicId;
            var topic := old(db.topics[t]);
            var f := topic.forumId;
            && db.posts == old(db.posts)[id := post.(isDeleted := true)]
            && (topic.lastPostId == None ==>
                  o == Fail(ServerError) && db.topics == old(db.topics) && db.forums == old(db.forums))
            && (topic.lastPostId != None ==>
                  && o == Pass
                  && db.forums == old(db.forums)[f := old(db.forums[f]).(posts := old(db.forums[f]).posts - 1)]
                  && t in db.topics && db.topics == old(db.topics)[t := db.topics[t]]
                  && (topic.lastPostId != Some(id) ==> db.topics[t] == topic.(replies := topic.replies - 1))
                  && (topic.lastPostId == Some(id) ==>
                        && db.topics[t] == topic.(replies := topic.replies - 1, lastPostId := db.topics[t].lastPostId,
                                                  lastPostAt := db.topics[t].lastPostAt,
                                                  lastPostUserId := db.topics[t].lastPostUserId)
                        && PointsAtLatest(db.topics[t], t, db.posts))))
    ensures old(Consistent(db.forums, db.topics, db.posts)) && id in old(db.posts) && !old(db.posts[id]).isDeleted ==>
      Consistent(db.forums, db.topics, db.posts)
    ensures old(Counted(db.forums, db.topics, db.posts)) && id in old(db.posts) && old(db.posts[id]).isDeleted && o == Pass ==>
      !PostCountsOk(db.forums, db.topics, db.posts)
  {
    ghost var F0, T0, P0 := db.forums, db.topics, db.posts;
    o := PostGate(db.posts, db.topics, db.forums, actor, id, true);
    if o != Pass {
      return;
    }
    var post := db.posts[id];
    var t := post.topicId;
    var topic := db.topics[t];
    var f := topic.forumId;
    var forum := db.forums[f];
    var np := post.(isDeleted := true);
    db.posts := db.posts[id := np];
    topic := topic.(replies := topic.replies - 1);
    if topic.lastPostId.None? {
      // `topic.lastPostId.toString()` on null
      LivePostHasLastPost(F0, T0, P0, id);
      return Fail(ServerError);
    }
    if topic.lastPostId == Some(id) {
      topic := Repoint(topic, t, db.posts);
    }
    db.topics := db.topics[t := topic];
    var nf := forum.(posts := forum.posts - 1);
    db.forums := db.forums[f := nf];
    DeletePostEffect(F0, T0, P0, id, np, topic, nf);
  }

  /** toggleLikePost: a live post; the actor's like is added or removed, and the new count returned. */
  method ToggleLikePost(db: Db, actor: Actor, id: Id) returns (r: Result<int>)
    modifies db`posts
    ensures id !in old(db.posts) || old(db.posts[id]).isDeleted ==> r == Failure(NotFound) && unchanged(db)
    ensures id in old(db.posts) && !old(db.posts[id]).isDeleted ==>
      && db.posts == old(db.posts)[id := old(db.posts[id]).(likes := ToggleLike(old(db.posts[id]).likes, actor.id))]
      && r == Success(|db.posts[id].likes|)
    ensures old(Consistent(db.forums, db.topics, db.posts)) ==> Consistent(db.forums, db.topics, db.posts)
  {
    if id !in db.posts || db.posts[id].isDeleted {
      return Failure(NotFound);
    }
    ghost var P0 := db.posts;
    var post := db.posts[id];
    post := post.(likes := ToggleLike(post.likes, actor.id));
    db.posts := db.posts[id := post];
    PostEditEffect(db.forums, db.topics, P0, id, post);
    return Success(|post.likes|);
  }

  /**
   * reportPost: a reason is required, the post must be live, and a user who
   * has reported it before (whatever became of that report) may not report
   * it again; otherwise one pending report is appended.
   */
  method ReportPost(db: Db, actor: Actor, id: Id, reason: Option<string>, reportId: Id, now: Time)
    returns (o: Outcome)
    modifies db`posts
    ensures !Truthy(reason) ==> o == Fail(BadRequest) && unchanged(db)
    ensures Truthy(reason) && (id !in old(db.posts) || old(db.posts[id]).isDeleted) ==> o == Fail(NotFound) && unchanged(db)
    ensures Truthy(reason) && id in old(db.posts) && !old(db.posts[id]).isDeleted && HasReported(old(db.posts[id]).reports, actor.id) ==>
      o == Fail(BadRequest) && unchanged(db)
    ensures o == Pass <==> Truthy(reason) && id in old(db.posts) && !old(db.posts[id]).isDeleted &&
                           !HasReported(old(db.posts[id]).reports, actor.id)
    ensures o == Pass ==>
      db.posts == old(db.posts)[id := old(db.posts[id]).(
                    reports := old(db.posts[id]).reports + [NewReport(reportId, actor.id, reason.value, now)])]
    ensures id in old(db.posts) && OneReportPerUser(old(db.posts[id]).reports) ==> OneReportPerUser(db.posts[id].reports)
    ensures old(Consistent(db.forums, db.topics, db.posts)) ==> Consistent(db.forums, db.topics, db.posts)
  {
    if !Truthy(reason) {
      return Fail(BadRequest);
    }
    if id !in db.posts || db.posts[id].isDeleted {
      return Fail(NotFound);
    }
    var post := db.posts[id];
    if HasReported(post.reports, actor.id) {
      return Fail(BadRequest);
    }
    ghost var P0 := db.posts;
    var report := NewReport(reportId, actor.id, reason.value, now);
    if OneReportPerUser(post.reports) {
      ReportKeepsOnePerUser(post.reports, report);
    }
    post := post.(reports := post.reports + [report]);
    db.posts := db.posts[id := post];
    PostEditEffect(db.forums, db.topics, P0, id, post);
    return Pass;
  }

  /**
   * handlePostReport's `delete_post` branch, applied to `post`, the stored
   * post with its report already marked: soft-delete it, take a reply off
   * its topic and a post off its forum. The last-post lookup runs against the
   * posts as they were before this delete, because the post is saved last.
   */
  method DeleteReportedPost(db: Db, id: Id, post: Post) returns (o: Outcome)
    requires id in db.posts && post == db.posts[id].(reports := post.reports)
    requires post.topicId in db.topics && db.topics[post.topicId].forumId in db.forums
    modifies db`posts, db`topics, db`forums
    ensures var t := post.topicId;
      var topic := old(db.topics[t]);
      var f := topic.forumId;
      && (topic.lastPostId == None ==> o == Fail(ServerError) && unchanged(db))
      && (topic.lastPostId != None ==>
            && o == Pass
            && db.posts == old(db.posts)[id := post.(isDeleted := true)]
            && db.forums == old(db.forums)[f := old(db.forums[f]).(posts := old(db.forums[f]).posts - 1)]
            && t in db.topics && db.topics == old(db.topics)[t := db.topics[t]]
            && (topic.lastPostId != Some(id) ==> db.topics[t] == topic.(replies := topic.replies - 1))
            && (topic.lastPostId == Some(id) ==>
                  && db.topics[t] == topic.(replies := topic.replies - 1, lastPostId := db.topics[t].lastPostId,
                                            lastPostAt := db.topics[t].lastPostAt,
                                            lastPostUserId := db.topics[t].lastPostUserId)
                  && PointsAtLatest(db.topics[t], t, old(db.posts))))
    ensures old(Consistent(db.forums, db.topics, db.posts)) && !post.isDeleted &&
            old(db.topics[post.topicId]).lastPostId != Some(id) ==>
      Consistent(db.forums, db.topics, db.posts)
    ensures old(Consistent(db.forums, db.topics, db.posts)) && !post.isDeleted &&
            old(db.topics[post.topicId]).lastPostId == Some(id) &&
            (forall p :: p in LivePostIds(old(db.posts), post.topicId) && p != id ==>
                           old(db.posts[p]).createdAt < post.createdAt) ==>
      !LastPostsOk(db.topics, db.posts)
  {
    ghost var F0, T0, P0 := db.forums, db.topics, db.posts;
    var t := post.topicId;
    var topic := db.topics[t];
    var f := topic.forumId;
    var forum := db.forums[f];
    var deleted := post.(isDeleted := true);
    topic := topic.(replies := topic.replies - 1);
    if topic.lastPostId.None? {
      // `topic.lastPostId.toString()` on null, before any save
      LivePostHasLastPost(F0, T0, P0, id);
      return Fail(ServerError);
    }
    if topic.lastPostId == Some(id) {
      topic := Repoint(topic, t, db.posts);
    }
    db.topics := db.topics[t := topic];
    var nf := forum.(posts := forum.posts - 1);
    db.forums := db.forums[f := nf];
    db.posts := db.posts[id := deleted];
    ReportDeleteEffect(F0, T0, P0, id, deleted, topic, nf);
    return Pass;
  }

  /**
   * handlePostReport: a valid action, then the post (deleted or not), the
   * moderator test with no author exception, then the report by its id.
   * Either action marks the report `reviewed`; `delete_post` also
   * soft-deletes the post with the counter upkeep of deletePost, except that
   * the last-post lookup runs against the posts as they were before the
   * delete. A topic with no last post crashes before anything is saved.
   */
  method HandlePostReport(db: Db, actor: Actor, id: Id, reportId: Id, action: string) returns (o: Outcome)
    modifies db`posts, db`topics, db`forums
    ensures !ValidReportAction(action) ==> o == Fail(BadRequest) && unchanged(db)
    ensures var g := PostGate(old(db.posts), old(db.topics), old(db.forums), actor, id, false);
      ValidReportAction(action) && g != Pass ==> o == g && unchanged(db)
    ensures var g := PostGate(old(db.posts), old(db.topics), old(db.forums), actor, id, false);
      ValidReportAction(action) && g == Pass ==>
        var post := old(db.posts[id]);
        var i := ReportIndex(post.reports, reportId);
        var marked := post.(reports := if i == -1 then post.reports else post.reports[i := post.reports[i].(status := Reviewed)]);
        var t := post.topicId;
        var topic := old(db.topics[t]);
        var f := topic.forumId;
        && (i == -1 ==> o == Fail(NotFound) && unchanged(db))
        && (i != -1 && action == "dismiss" ==>
              o == Pass && db.posts == old(db.posts)[id := marked] && unchanged(db`topics, db`forums))
        && (i != -1 && action == "delete_post" && topic.lastPostId == None ==>
              o == Fail(ServerError) && unchanged(db))
        && (i != -1 && action == "delete_post" && topic.lastPostId != None ==>
              && o == Pass
              && db.posts == old(db.posts)[id := marked.(isDeleted := true)]
              && db.forums == old(db.forums)[f := old(db.forums[f]).(posts := old(db.forums[f]).posts - 1)]
              && t in db.topics && db.topics == old(db.topics)[t := db.topics[t]]
              && (topic.lastPostId != Some(id) ==> db.topics[t] == topic.(replies := topic.replies - 1))
              && (topic.lastPostId == Some(id) ==>
                    && db.topics[t] == topic.(replies := topic.replies - 1, lastPostId := db.topics[t].lastPostId,
                                              lastPostAt := db.topics[t].lastPostAt,
                                              lastPostUserId := db.topics[t].lastPostUserId)
                    && PointsAtLatest(db.topics[t], t, old(db.posts))))
    ensures old(Consistent(db.forums, db.topics, db.posts)) && action != "delete_post" ==>
      Consistent(db.forums, db.topics, db.posts)
    ensures old(Consistent(db.forums, db.topics, db.posts)) && id in old(db.posts) && !old(db.posts[id]).isDeleted &&
            old(db.posts[id]).topicId in old(db.topics) &&
            old(db.topics[db.posts[id].topicId]).lastPostId != Some(id) ==>
      Consistent(db.forums, db.topics, db.posts)
    ensures old(Consistent(db.forums, db.topics, db.posts)) && action == "delete_post" && o == Pass &&
            id in old(db.posts) && !old(db.posts[id]).isDeleted && old(db.posts[id]).topicId in old(db.topics) &&
            old(db.topics[db.posts[id].topicId]).lastPostId == Some(id) &&
            (forall p :: p in LivePostIds(old(db.posts), old(db.posts[id]).topicId) && p != id ==>
                           old(db.posts[p]).createdAt < old(db.posts[id]).createdAt) ==>
      !LastPostsOk(db.topics, db.posts)
  {
    ghost var F0, T0, P0 := db.forums, db.topics, db.posts;
    if !ValidReportAction(action) {
      return Fail(BadRequest);
    }
    o := PostGate(db.posts, db.topics, db.forums, actor, id, false);
    if o != Pass {
      return;
    }
    var post := db.posts[id];
    var t := post.topicId;
    var topic := db.topics[t];
    var f := topic.forumId;
    var forum := db.forums[f];
    var i := ReportIndex(post.reports, reportId);
    if i == -1 {
      return Fail(NotFound);
    }
    post := post.(reports := post.reports[i := post.reports[i].(status := Reviewed)]);
    if action == "delete_post" {
      o := DeleteReportedPost(db, id, post);
    } else {
      db.posts := db.posts[id := post];
      PostEditEffect(F0, T0, P0, id, post);
    }
  }
}
