/**
 * The topic handlers (topicController.js): listing a forum's topics in one
 * of four orders, reading a topic (which counts a view), creating, editing
 * and soft-deleting topics with the forum counter upkeep, and the
 * moderators' pin and lock switches.
 */
module TopicController {
  import opened Common
  import opened TopicModel
  import opened ForumModel
  import opened PostModel
  import opened ForumInvariant
  import opened ModerationAuth
  import opened Database

  // ---------------------------------------------------------------------------
  // Listing order

  /**
   * The `sort` query parameter: the four orders the handler knows, and
   * Unordered for any other value, for which it passes an empty sort.
   */
  datatype SortMode = Latest | Newest | Popular | MostReplies | Unordered

  /** `sort = 'latest'` as the default of a missing parameter, then the if-chain on its value. */
  function ParseSort(sort: Option<string>): (m: SortMode)
    ensures sort == None ==> m == Latest
    ensures sort.Some? ==>
      && (m == Latest <==> sort.value == "latest")
      && (m == Newest <==> sort.value == "newest")
      && (m == Popular <==> sort.value == "popular")
      && (m == MostReplies <==> sort.value == "most_replies")
  {
    match sort
    case None => Latest
    case Some(s) =>
      if s == "latest" then Latest
      else if s == "newest" then Newest
      else if s == "popular" then Popular
      else if s == "most_replies" then MostReplies
      else Unordered
  }

  /** A parameter that is present but none of the four names imposes no order, even the empty string. */
  lemma UnknownSortIsUnordered(s: string)
    ensures ParseSort(Some(s)) == Unordered <==> s !in {"latest", "newest", "popular", "most_replies"}
    ensures ParseSort(Some("")) == Unordered
  {
  }

  /** The field each order sorts on, descending, after `isPinned`. */
  function SortKey(topic: Topic, m: SortMode): int
    requires m != Unordered
  {
    match m
    case Latest => topic.lastPostAt
    case Newest => topic.createdAt
    case Popular => topic.views
    case MostReplies => topic.replies
  }

  /**
   * `a` may be listed before `b`: pinned topics first, then the larger key
   * (`{ isPinned: -1, <key>: -1 }`); an empty sort allows either.
   */
  predicate MayPrecede(a: Topic, b: Topic, m: SortMode) {
    m == Unordered || (a.isPinned && !b.isPinned) || (a.isPinned == b.isPinned && SortKey(a, m) >= SortKey(b, m))
  }

  /** Every pair of topics in the listing `s` respects order `m`. */
  predicate SortedFor(T: map<Id, Topic>, s: seq<Id>, m: SortMode)
    requires forall i :: 0 <= i < |s| ==> s[i] in T
  {
    forall i, j :: 0 <= i < j < |s| ==> MayPrecede(T[s[i]], T[s[j]], m)
  }

  /** Any two topics can be ordered, so every set of topics has a listing in every order. */
  lemma MayPrecedeTotal(a: Topic, b: Topic, m: SortMode)
    ensures MayPrecede(a, b, m) || MayPrecede(b, a, m)
  {
  }

  /** The order is transitive, as a sort order must be. */
  lemma MayPrecedeTransitive(a: Topic, b: Topic, c: Topic, m: SortMode)
    requires MayPrecede(a, b, m) && MayPrecede(b, c, m)
    ensures MayPrecede(a, c, m)
  {
  }

  /** In each of the four named orders, no unpinned topic comes before a pinned one. */
  lemma PinnedFirst(T: map<Id, Topic>, s: seq<Id>, m: SortMode, i: int, j: int)
    requires forall k :: 0 <= k < |s| ==> s[k] in T
    requires m != Unordered && SortedFor(T, s, m)
    requires 0 <= i < j < |s| && T[s[j]].isPinned
    ensures T[s[i]].isPinned
  {
    assert MayPrecede(T[s[i]], T[s[j]], m);
  }

  /** Among topics of equal pin state, the key never increases along the listing. */
  lemma KeyDescending(T: map<Id, Topic>, s: seq<Id>, m: SortMode, i: int, j: int)
    requires forall k :: 0 <= k < |s| ==> s[k] in T
    requires m != Unordered && SortedFor(T, s, m)
    requires 0 <= i < j < |s| && T[s[i]].isPinned == T[s[j]].isPinned
    ensures SortKey(T[s[i]], m) >= SortKey(T[s[j]], m)
  {
    assert MayPrecede(T[s[i]], T[s[j]], m);
  }

  /** Every order of the live topics is acceptable when the sort parameter is unknown. */
  lemma UnorderedAcceptsAll(T: map<Id, Topic>, s: seq<Id>)
    requires forall k :: 0 <= k < |s| ==> s[k] in T
    ensures SortedFor(T, s, Unordered)
  {
  }

  // ---------------------------------------------------------------------------
  // The permission gate

  /**
   * The lookups and the permission test of updateTopic, deleteTopic,
   * togglePinTopic and toggleLockTopic: the topic by id (with no
   * `isDeleted` filter), its forum (a missing one is read through null and
   * crashes), then author-or-moderator, or moderator alone when `authorMay`
   * is false.
   */
  function TopicGate(T: map<Id, Topic>, F: map<Id, Forum>, actor: Actor, id: Id, authorMay: bool): (g: Outcome)
    ensures id !in T ==> g == Fail(NotFound)
    ensures id in T && T[id].forumId !in F ==> g == Fail(ServerError)
    ensures g == Pass <==>
      && id in T && T[id].forumId in F
      && ((authorMay && T[id].userId == actor.id) || CanModerate(F[T[id].forumId], actor))
    ensures g == Pass || g == Fail(NotFound) || g == Fail(ServerError) || g == Fail(Forbidden)
  {
    if id !in T then Fail(NotFound)
    else if T[id].forumId !in F then Fail(ServerError)
    else
      var forum := F[T[id].forumId];
      if authorMay && AuthorOrModerator(T[id].userId, forum, actor) then Pass
      else if CanModerate(forum, actor) then Pass
      else Fail(Forbidden)
  }

  /** Whoever may pin or lock a topic may also edit and delete it. */
  lemma ModeratorGateStricter(T: map<Id, Topic>, F: map<Id, Forum>, actor: Actor, id: Id)
    ensures TopicGate(T, F, actor, id, false) == Pass ==> TopicGate(T, F, actor, id, true) == Pass
    ensures TopicGate(T, F, actor, id, true) == Fail(Forbidden) ==> TopicGate(T, F, actor, id, false) == Fail(Forbidden)
  {
  }

  /** The edit that updateTopic applies: truthy strings and any tags array replace the stored values. */
  function EditTopic(topic: Topic, title: Option<string>, content: Option<string>,
                     tags: Option<seq<string>>, now: Time): (r: Topic)
    ensures r.title == (if Truthy(title) then title.value else topic.title)
    ensures r.content == (if Truthy(content) then content.value else topic.content)
    ensures r.tags == (if tags.Some? then tags.value else topic.tags)
    ensures r == topic.(title := r.title, content := r.content, tags := r.tags, updatedAt := now)
  {
    var t1 := if Truthy(title) then topic.(title := title.value) else topic;
    var t2 := if Truthy(content) then t1.(content := content.value) else t1;
    var t3 := if tags.Some? then t2.(tags := tags.value) else t2;
    t3.(updatedAt := now)
  }

  /** Editing with the same arguments twice is the same as editing once. */
  lemma EditTopicIdempotent(topic: Topic, title: Option<string>, content: Option<string>,
                            tags: Option<seq<string>>, now: Time)
    ensures EditTopic(EditTopic(topic, title, content, tags, now), title, content, tags, now)
         == EditTopic(topic, title, content, tags, now)
  {
  }

  /** An empty title or content leaves the stored one in place. */
  lemma EditTopicKeepsOnEmpty(topic: Topic, tags: Option<seq<string>>, now: Time)
    ensures EditTopic(topic, Some(""), Some(""), tags, now).title == topic.title
    ensures EditTopic(topic, Some(""), Some(""), tags, now).content == topic.content
  {
  }

  // ---------------------------------------------------------------------------
  // Handlers

  /**
   * getTopicsByForum: the live topics of an existing, active forum, to be
   * listed in the order `sort` selects; the total agrees with the forum's
   * `topics` counter while the counters are kept.
   */
  method GetTopicsByForum(db: Db, forumId: Id, sort: Option<string>) returns (r: Result<(set<Id>, SortMode)>)
    ensures r.Success? <==> forumId in db.forums && db.forums[forumId].isActive
    ensures r.Failure? ==> r.error == NotFound
    ensures r.Success? ==>
      && r.value.1 == ParseSort(sort)
      && (forall t :: t in r.value.0 <==> t in db.topics && db.topics[t].forumId == forumId && !db.topics[t].isDeleted)
    ensures r.Success? && TopicCountsOk(db.forums, db.topics) ==> |r.value.0| == db.forums[forumId].topics
  {
    if forumId !in db.forums || !db.forums[forumId].isActive {
      return Failure(NotFound);
    }
    return Success((LiveTopicIds(db.topics, forumId), ParseSort(sort)));
  }

  /** getTopicById: a live topic, returned with one more view, which is saved. */
  method GetTopicById(db: Db, id: Id) returns (r: Result<Topic>)
    modifies db`topics
    ensures id !in old(db.topics) || old(db.topics[id]).isDeleted ==> r == Failure(NotFound) && unchanged(db)
    ensures id in old(db.topics) && !old(db.topics[id]).isDeleted ==>
      && r == Success(old(db.topics[id]).(views := old(db.topics[id]).views + 1))
      && db.topics == old(db.topics)[id := r.value]
    ensures old(Consistent(db.forums, db.topics, db.posts)) ==> Consistent(db.forums, db.topics, db.posts)
  {
    if id !in db.topics || db.topics[id].isDeleted {
      return Failure(NotFound);
    }
    var topic := db.topics[id].(views := db.topics[id].views + 1);
    TopicEditEffect(db.forums, db.topics, db.posts, id, topic);
    db.topics := db.topics[id := topic];
    return Success(topic);
  }

  /**
   * createTopic: an existing, active forum gains a new topic by the requester
   * (`tags || []`), and its `topics` and `posts` counters both grow by one.
   */
  method CreateTopic(db: Db, actor: Actor, forumId: Id, title: string, content: string,
                     tags: Option<seq<string>>, newId: Id, now: Time) returns (r: Result<Id>)
    requires newId !in db.topics
    modifies db`topics, db`forums
    ensures forumId !in old(db.forums) || !old(db.forums[forumId]).isActive ==>
      r == Failure(NotFound) && unchanged(db)
    ensures forumId in old(db.forums) && old(db.forums[forumId]).isActive ==>
      && r == Success(newId)
      && db.topics == old(db.topics)[newId := NewTopic(title, forumId, actor.id, content,
                                                       if tags.Some? then tags.value else [], Some(actor.id), now)]
      && var forum := old(db.forums[forumId]);
      && db.forums == old(db.forums)[forumId := forum.(topics := forum.topics + 1, posts := forum.posts + 1,
                                                       lastActivity := now)]
    ensures old(Consistent(db.forums, db.topics, db.posts)) ==> Consistent(db.forums, db.topics, db.posts)
  {
    if forumId !in db.forums || !db.forums[forumId].isActive {
      return Failure(NotFound);
    }
    var forum := db.forums[forumId];
    var topic := NewTopic(title, forumId, actor.id, content, if tags.Some? then tags.value else [], Some(actor.id), now);
    var nf := forum.(topics := forum.topics + 1, posts := forum.posts + 1, lastActivity := now);
    CreateTopicEffect(db.forums, db.topics, db.posts, newId, topic, nf);
    db.topics := db.topics[newId := topic];
    db.forums := db.forums[forumId := nf];
    return Success(newId);
  }

  /**
   * updateTopic: the author, a moderator or an administrator edits title,
   * content and tags. The topic is found even when it is deleted.
   */
  method UpdateTopic(db: Db, actor: Actor, id: Id, title: Option<string>, content: Option<string>,
                     tags: Option<seq<string>>, now: Time) returns (o: Outcome)
    modifies db`topics
    ensures var g := TopicGate(old(db.topics), db.forums, actor, id, true);
      && (g != Pass ==> o == g && unchanged(db))
      && (g == Pass ==> o == Pass && db.topics == old(db.topics)[id := EditTopic(old(db.topics[id]), title, content, tags, now)])
    ensures old(Consistent(db.forums, db.topics, db.posts)) ==> Consistent(db.forums, db.topics, db.posts)
  {
    o := TopicGate(db.topics, db.forums, actor, id, true);
    if o != Pass {
      return;
    }
    var topic := EditTopic(db.topics[id], title, content, tags, now);
    TopicEditEffect(db.forums, db.topics, db.posts, id, topic);
    db.topics := db.topics[id := topic];
  }

  /**
   * deleteTopic: the author, a moderator or an administrator soft-deletes
   * the topic, takes one topic and `replies + 1` posts off its forum, and
   * marks every post of the topic deleted. Nothing stops a second delete of
   * a deleted topic, which takes the counters down again.
   */
  method DeleteTopic(db: Db, actor: Actor, id: Id) returns (o: Outcome)
    modifies db`topics, db`forums, db`posts
    ensures var g := TopicGate(old(db.topics), old(db.forums), actor, id, true);
      && (g != Pass ==> o == g && unchanged(db))
      && (g == Pass ==>
            && o == Pass
            && var topic := old(db.topics[id]);
            && var forum := old(db.forums[topic.forumId]);
            && db.topics == old(db.topics)[id := topic.(isDeleted := true)]
            && db.forums == old(db.forums)[topic.forumId := forum.(topics := forum.topics - 1,
                                                                   posts := forum.posts - (topic.replies + 1))]
            && db.posts == CascadeDelete(old(db.posts), id))
    ensures old(Consistent(db.forums, db.topics, db.posts)) && id in old(db.topics) && !old(db.topics[id]).isDeleted ==>
      Consistent(db.forums, db.topics, db.posts)
    ensures old(Counted(db.forums, db.topics, db.posts)) && o == Pass && old(db.topics[id]).isDeleted ==>
      !TopicCountsOk(db.forums, db.topics)
  {
    o := TopicGate(db.topics, db.forums, actor, id, true);
    if o != Pass {
      return;
    }
    var topic := db.topics[id];
    var forum := db.forums[topic.forumId];
    var nf := forum.(topics := forum.topics - 1, posts := forum.posts - (topic.replies + 1));
    DeleteTopicEffect(db.forums, db.topics, db.posts, id, nf);
    db.topics := db.topics[id := topic.(isDeleted := true)];
    db.forums := db.forums[topic.forumId := nf];
    db.posts := CascadeDelete(db.posts, id);
  }

  /** togglePinTopic: a moderator or an administrator flips `isPinned`; the flag is the answer. */
  method TogglePin(db: Db, actor: Actor, id: Id) returns (r: Result<bool>)
    modifies db`topics
    ensures var g := TopicGate(old(db.topics), db.forums, actor, id, false);
      && (g != Pass ==> r == Failure(g.error) && unchanged(db))
      && (g == Pass ==> r == Success(!old(db.topics[id]).isPinned)
                        && db.topics == old(db.topics)[id := old(db.topics[id]).(isPinned := r.value)])
    ensures old(Consistent(db.forums, db.topics, db.posts)) ==> Consistent(db.forums, db.topics, db.posts)
  {
    var g := TopicGate(db.topics, db.forums, actor, id, false);
    if g != Pass {
      return Failure(g.error);
    }
    var topic := db.topics[id].(isPinned := !db.topics[id].isPinned);
    TopicEditEffect(db.forums, db.topics, db.posts, id, topic);
    db.topics := db.topics[id := topic];
    return Success(topic.isPinned);
  }

  /** toggleLockTopic: a moderator or an administrator flips `isLocked`; the flag is the answer. */
  method ToggleLock(db: Db, actor: Actor, id: Id) returns (r: Result<bool>)
    modifies db`topics
    ensures var g := TopicGate(old(db.topics), db.forums, actor, id, false);
      && (g != Pass ==> r == Failure(g.error) && unchanged(db))
      && (g == Pass ==> r == Success(!old(db.topics[id]).isLocked)
                        && db.topics == old(db.topics)[id := old(db.topics[id]).(isLocked := r.value)])
    ensures old(Consistent(db.forums, db.topics, db.posts)) ==> Consistent(db.forums, db.topics, db.posts)
  {
    var g := TopicGate(db.topics, db.forums, actor, id, false);
    if g != Pass {
      return Failure(g.error);
    }
    var topic := db.topics[id].(isLocked := !db.topics[id].isLocked);
    TopicEditEffect(db.forums, db.topics, db.posts, id, topic);
    db.topics := db.topics[id := topic];
    return Success(topic.isLocked);
  }

  /**
   * The gate of a toggle depends only on the topic's forum and author, which
   * no toggle changes: a moderator who toggles twice gets the topic back.
   */
  lemma ToggleGateStable(T: map<Id, Topic>, F: map<Id, Forum>, actor: Actor, id: Id, nt: Topic)
    requires id in T && nt.forumId == T[id].forumId && nt.userId == T[id].userId
    ensures TopicGate(T[id := nt], F, actor, id, false) == TopicGate(T, F, actor, id, false)
  {
  }
}
