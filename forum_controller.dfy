/**
 * The forum handlers (forumController.js): the active-only getters and their
 * orders, creating a forum under the role and school rules, and the forum
 * edits open to the forum's school admins and the platform admins (update,
 * add and remove a moderator).
 */
module ForumController {
  import opened Common
  import opened ForumModel
  import opened SchoolModel
  import opened TopicModel
  import opened PostModel
  import opened ForumInvariant
  import opened Database

  // ---------------------------------------------------------------------------
  // Orders of the getters

  /** getAllForums lists `{ isGeneral: -1, name: 1 }`: general forums first, then by name. */
  predicate ForumMayPrecede(a: Forum, b: Forum) {
    (a.isGeneral && !b.isGeneral) || (a.isGeneral == b.isGeneral && LexLe(a.name, b.name))
  }

  /** A listing `s` of forums of `F` in getAllForums order. */
  predicate ForumsSorted(F: map<Id, Forum>, s: seq<Id>)
    requires forall i :: 0 <= i < |s| ==> s[i] in F
  {
    forall i, j :: 0 <= i < j < |s| ==> ForumMayPrecede(F[s[i]], F[s[j]])
  }

  /** A listing `s` of forums of `F` in getForumsBySchool order, by name alone. */
  predicate ForumsByName(F: map<Id, Forum>, s: seq<Id>)
    requires forall i :: 0 <= i < |s| ==> s[i] in F
  {
    forall i, j :: 0 <= i < j < |s| ==> LexLe(F[s[i]].name, F[s[j]].name)
  }

  /** The getAllForums order can order any two forums and is transitive. */
  lemma ForumOrderIsTotalPreorder(a: Forum, b: Forum, c: Forum)
    ensures ForumMayPrecede(a, b) || ForumMayPrecede(b, a)
    ensures ForumMayPrecede(a, b) && ForumMayPrecede(b, c) ==> ForumMayPrecede(a, c)
  {
    LexLeTotal(a.name, b.name);
    if ForumMayPrecede(a, b) && ForumMayPrecede(b, c) && a.isGeneral == c.isGeneral {
      LexLeTransitive(a.name, b.name, c.name);
    }
  }

  /** In a getAllForums listing no school forum comes before a general one. */
  lemma GeneralForumsFirst(F: map<Id, Forum>, s: seq<Id>, i: int, j: int)
    requires forall k :: 0 <= k < |s| ==> s[k] in F
    requires ForumsSorted(F, s) && 0 <= i < j < |s| && F[s[j]].isGeneral
    ensures F[s[i]].isGeneral
  {
    assert ForumMayPrecede(F[s[i]], F[s[j]]);
  }

  // ---------------------------------------------------------------------------
  // Getters

  /** getAllForums: the active forums. */
  function ActiveForums(F: map<Id, Forum>): (r: set<Id>)
    ensures forall f :: f in r <==> f in F && F[f].isActive
  {
    set f | f in F && F[f].isActive
  }

  /** getForumsBySchool: an unknown school is 404 (an inactive one is not); then its active forums. */
  function ForumsBySchool(S: map<Id, School>, F: map<Id, Forum>, schoolId: Id): (r: Result<set<Id>>)
    ensures r.Failure? <==> schoolId !in S
    ensures r.Failure? ==> r.error == NotFound
    ensures r.Success? ==> forall f :: f in r.value <==> f in F && F[f].schoolId == Some(schoolId) && F[f].isActive
  {
    if schoolId !in S then Failure(NotFound)
    else Success(set f | f in F && F[f].schoolId == Some(schoolId) && F[f].isActive)
  }

  /** getForumById: a forum that exists and is active, else 404. */
  function ForumById(F: map<Id, Forum>, id: Id): (r: Result<Forum>)
    ensures r.Success? <==> id in F && F[id].isActive
    ensures r.Success? ==> r.value == F[id]
    ensures r.Failure? ==> r.error == NotFound
  {
    if id in F && F[id].isActive then Success(F[id]) else Failure(NotFound)
  }

  /** getGeneralForum: some active general forum (`findOne`, any match), else 404. */
  method GetGeneralForum(db: Db) returns (r: Result<Id>)
    ensures r.Failure? <==> forall f :: f in db.forums ==> !(db.forums[f].isGeneral && db.forums[f].isActive)
    ensures r.Failure? ==> r.error == NotFound
    ensures r.Success? ==> r.value in db.forums && db.forums[r.value].isGeneral && db.forums[r.value].isActive
  {
    var general := set f | f in db.forums && db.forums[f].isGeneral && db.forums[f].isActive;
    if general == {} {
      assert forall f :: f in db.forums && db.forums[f].isGeneral && db.forums[f].isActive ==> f in general;
      return Failure(NotFound);
    }
    var f :| f in general;
    return Success(f);
  }

  // ---------------------------------------------------------------------------
  // Authorisation

  /**
   * createForum's guards in order: an administrative role; for a school
   * forum, an existing school that lists a school admin among its
   * `adminUsers`; for a general forum without a school, a platform admin.
   */
  function CreateForumGate(S: map<Id, School>, actor: Actor, schoolId: Option<Id>, isGeneral: bool): (g: Outcome)
    ensures !IsAdminRole(actor.role) ==> g == Fail(Forbidden)
    ensures IsAdminRole(actor.role) && schoolId.Some? && schoolId.value !in S ==> g == Fail(NotFound)
    ensures g == Pass <==>
      && IsAdminRole(actor.role)
      && (schoolId.Some? ==> schoolId.value in S && (actor.role == SchoolAdmin ==> actor.id in S[schoolId.value].adminUsers))
      && (schoolId.None? && isGeneral ==> IsPlatformAdmin(actor.role))
    ensures g == Pass || g == Fail(Forbidden) || g == Fail(NotFound)
  {
    if !IsAdminRole(actor.role) then Fail(Forbidden)
    else if schoolId.Some? then
      if schoolId.value !in S then Fail(NotFound)
      else if actor.role == SchoolAdmin && actor.id !in S[schoolId.value].adminUsers then Fail(Forbidden)
      else Pass
    else if isGeneral && !IsPlatformAdmin(actor.role) then Fail(Forbidden)
    else Pass
  }

  /** A school forum is open to any admin role, whatever `isGeneral` says, so long as its school lists a school admin. */
  lemma SchoolForumIgnoresGeneralFlag(S: map<Id, School>, actor: Actor, s: Id)
    ensures CreateForumGate(S, actor, Some(s), true) == CreateForumGate(S, actor, Some(s), false)
  {
  }

  /**
   * The scope rule of updateForum, addModerator and removeModerator: a school
   * admin only on a forum of a school that lists them (never on a forum
   * without a school), anyone else only as a platform admin. The school is
   * read through null when it is missing.
   */
  function ForumScope(S: map<Id, School>, forum: Forum, actor: Actor): (g: Outcome)
    ensures actor.role == SchoolAdmin && forum.schoolId.Some? && forum.schoolId.value !in S ==> g == Fail(ServerError)
    ensures g == Pass <==>
      if actor.role == SchoolAdmin then
        forum.schoolId.Some? && forum.schoolId.value in S && actor.id in S[forum.schoolId.value].adminUsers
      else IsPlatformAdmin(actor.role)
    ensures g == Pass || g == Fail(Forbidden) || g == Fail(ServerError)
  {
    if actor.role == SchoolAdmin then
      if forum.schoolId.Some? then
        if forum.schoolId.value !in S then Fail(ServerError)
        else if actor.id in S[forum.schoolId.value].adminUsers then Pass
        else Fail(Forbidden)
      else Fail(Forbidden)
    else if !IsPlatformAdmin(actor.role) then Fail(Forbidden)
    else Pass
  }

  /** No school admin may edit a forum without a school, the general forum included. */
  lemma SchoolAdminNeverOnSchoollessForum(S: map<Id, School>, forum: Forum, actor: Actor)
    requires actor.role == SchoolAdmin && forum.schoolId.None?
    ensures ForumScope(S, forum, actor) == Fail(Forbidden)
  {
  }

  // ---------------------------------------------------------------------------
  // Moderators

  /** Every forum keeps a moderator, as removeModerator's guard against emptying the list intends. */
  ghost predicate ModeratorsNonEmpty(F: map<Id, Forum>) {
    forall f :: f in F ==> |F[f].moderators| > 0
  }

  /** updateForum's field edits: truthy strings, any moderators array, and `isActive` whenever given. */
  function EditForum(forum: Forum, name: Option<string>, description: Option<string>,
                     moderators: Option<seq<Id>>, isActive: Option<bool>, now: Time): (r: Forum)
    ensures r.name == (if Truthy(name) then name.value else forum.name)
    ensures r.description == (if Truthy(description) then description.value else forum.description)
    ensures r.moderators == (if moderators.Some? then moderators.value else forum.moderators)
    ensures r.isActive == (if isActive.Some? then isActive.value else forum.isActive)
    ensures r == forum.(name := r.name, description := r.description, moderators := r.moderators,
                        isActive := r.isActive, updatedAt := now)
  {
    var f1 := if Truthy(name) then forum.(name := name.value) else forum;
    var f2 := if Truthy(description) then f1.(description := description.value) else f1;
    var f3 := if moderators.Some? then f2.(moderators := moderators.value) else f2;
    var f4 := if isActive.Some? then f3.(isActive := isActive.value) else f3;
    f4.(updatedAt := now)
  }

  /**
   * `[]` is truthy, so updateForum stores an empty moderators array: the
   * last-moderator rule that removeModerator keeps does not hold here.
   */
  lemma UpdateForumCanEmptyModerators(F: map<Id, Forum>, f: Id, now: Time)
    requires f in F
    ensures !ModeratorsNonEmpty(F[f := EditForum(F[f], None, None, Some([]), None, now)])
  {
    var F' := F[f := EditForum(F[f], None, None, Some([]), None, now)];
    assert f in F' && |F'[f].moderators| == 0;
  }

  /** addModerator: the forum gains `u` at the end of its moderators, once. */
  lemma AddModeratorKeepsRules(F: map<Id, Forum>, f: Id, u: Id)
    requires f in F && u !in F[f].moderators
    ensures ModeratorsNonEmpty(F) ==> ModeratorsNonEmpty(F[f := F[f].(moderators := F[f].moderators + [u])])
    ensures NoDup(F[f].moderators) ==> NoDup(F[f].moderators + [u])
  {
    var m := F[f].moderators;
    if NoDup(m) {
      forall i, j | 0 <= i < j < |m + [u]| ensures (m + [u])[i] != (m + [u])[j] {
        if j == |m| {
          assert (m + [u])[i] == m[i];
        }
      }
    }
  }

  /**
   * removeModerator refuses exactly when filtering would leave no moderator,
   * that is when every entry is the user being removed; what it stores is
   * never empty and no longer holds the user.
   */
  lemma RemoveModeratorGuard(m: seq<Id>, u: Id)
    ensures RemoveAll(m, u) == [] <==> forall y :: y in m ==> y == u
    ensures u !in RemoveAll(m, u)
    ensures NoDup(m) ==> NoDup(RemoveAll(m, u))
  {
    RemoveAllEmpty(m, u);
    assert multiset(RemoveAll(m, u))[u] == 0;
    if NoDup(m) {
      RemoveAllNoDup(m, u);
    }
  }

  // ---------------------------------------------------------------------------
  // Handlers

  /**
   * createForum: after the guards, a new forum with the given name and
   * description, `schoolId || null`, `isGeneral || false`, and
   * `moderators || [creator]`, so a given empty array is kept.
   */
  method CreateForum(db: Db, actor: Actor, name: string, description: string, schoolId: Option<Id>,
                     isGeneral: bool, moderators: Option<seq<Id>>, newId: Id, now: Time) returns (r: Result<Id>)
    requires newId !in db.forums
    modifies db`forums
    ensures var g := CreateForumGate(db.schools, actor, schoolId, isGeneral);
      && (g != Pass ==> r == Failure(g.error) && unchanged(db))
      && (g == Pass ==>
            && r == Success(newId)
            && db.forums == old(db.forums)[newId := NewForum(name, description, schoolId, isGeneral,
                                                             if moderators.Some? then moderators.value else [actor.id], now)])
    ensures old(Consistent(db.forums, db.topics, db.posts)) ==> Consistent(db.forums, db.topics, db.posts)
    ensures old(ModeratorsNonEmpty(db.forums)) && moderators != Some([]) ==> ModeratorsNonEmpty(db.forums)
  {
    var g := CreateForumGate(db.schools, actor, schoolId, isGeneral);
    if g != Pass {
      return Failure(g.error);
    }
    var forum := NewForum(name, description, schoolId, isGeneral,
                          if moderators.Some? then moderators.value else [actor.id], now);
    if Consistent(db.forums, db.topics, db.posts) {
      NewForumKeepsConsistent(db.forums, db.topics, db.posts, newId, forum);
    }
    db.forums := db.forums[newId := forum];
    return Success(newId);
  }

  /** updateForum: 404 for an unknown forum, then the scope rule, then the field edits. */
  method UpdateForum(db: Db, actor: Actor, id: Id, name: Option<string>, description: Option<string>,
                     moderators: Option<seq<Id>>, isActive: Option<bool>, now: Time) returns (o: Outcome)
    modifies db`forums
    ensures id !in old(db.forums) ==> o == Fail(NotFound) && unchanged(db)
    ensures id in old(db.forums) ==>
      var g := ForumScope(db.schools, old(db.forums[id]), actor);
      && (g != Pass ==> o == g && unchanged(db))
      && (g == Pass ==>
            && o == Pass
            && db.forums == old(db.forums)[id := EditForum(old(db.forums[id]), name, description, moderators, isActive, now)])
    ensures old(Consistent(db.forums, db.topics, db.posts)) ==> Consistent(db.forums, db.topics, db.posts)
  {
    if id !in db.forums {
      return Fail(NotFound);
    }
    o := ForumScope(db.schools, db.forums[id], actor);
    if o != Pass {
      return;
    }
    var forum := EditForum(db.forums[id], name, description, moderators, isActive, now);
    if Consistent(db.forums, db.topics, db.posts) {
      ForumEditKeepsConsistent(db.forums, db.topics, db.posts, id, forum);
    }
    db.forums := db.forums[id := forum];
  }

  /** addModerator: 404 forum, scope, 404 user, 400 already a moderator, then append. */
  method AddModerator(db: Db, actor: Actor, forumId: Id, userId: Id) returns (o: Outcome)
    modifies db`forums
    ensures forumId !in old(db.forums) ==> o == Fail(NotFound) && unchanged(db)
    ensures forumId in old(db.forums) ==>
      var forum := old(db.forums[forumId]);
      var g := ForumScope(db.schools, forum, actor);
      && (g != Pass ==> o == g && unchanged(db))
      && (g == Pass && userId !in db.users ==> o == Fail(NotFound) && unchanged(db))
      && (g == Pass && userId in db.users && userId in forum.moderators ==> o == Fail(BadRequest) && unchanged(db))
      && (g == Pass && userId in db.users && userId !in forum.moderators ==>
            o == Pass && db.forums == old(db.forums)[forumId := forum.(moderators := forum.moderators + [userId])])
    ensures old(Consistent(db.forums, db.topics, db.posts)) ==> Consistent(db.forums, db.topics, db.posts)
    ensures old(ModeratorsNonEmpty(db.forums)) ==> ModeratorsNonEmpty(db.forums)
  {
    if forumId !in db.forums {
      return Fail(NotFound);
    }
    var forum := db.forums[forumId];
    o := ForumScope(db.schools, forum, actor);
    if o != Pass {
      return;
    }
    if userId !in db.users {
      return Fail(NotFound);
    }
    if userId in forum.moderators {
      return Fail(BadRequest);
    }
    forum := forum.(moderators := forum.moderators + [userId]);
    if Consistent(db.forums, db.topics, db.posts) {
      ForumEditKeepsConsistent(db.forums, db.topics, db.posts, forumId, forum);
    }
    AddModeratorKeepsRules(db.forums, forumId, userId);
    db.forums := db.forums[forumId := forum];
  }

  /**
   * removeModerator: 404 forum, scope, 400 not a moderator, then every
   * occurrence of the user is filtered out; a list left empty is 400 and is
   * not saved.
   */
  method RemoveModerator(db: Db, actor: Actor, forumId: Id, userId: Id) returns (o: Outcome)
    modifies db`forums
    ensures forumId !in old(db.forums) ==> o == Fail(NotFound) && unchanged(db)
    ensures forumId in old(db.forums) ==>
      var forum := old(db.forums[forumId]);
      var g := ForumScope(db.schools, forum, actor);
      && (g != Pass ==> o == g && unchanged(db))
      && (g == Pass && userId !in forum.moderators ==> o == Fail(BadRequest) && unchanged(db))
      && (g == Pass && userId in forum.moderators && (forall y :: y in forum.moderators ==> y == userId) ==>
            o == Fail(BadRequest) && unchanged(db))
      && (g == Pass && userId in forum.moderators && !(forall y :: y in forum.moderators ==> y == userId) ==>
            o == Pass && db.forums == old(db.forums)[forumId := forum.(moderators := RemoveAll(forum.moderators, userId))])
    ensures o == Pass ==> forumId in db.forums && |db.forums[forumId].moderators| > 0
                          && userId !in db.forums[forumId].moderators
    ensures old(Consistent(db.forums, db.topics, db.posts)) ==> Consistent(db.forums, db.topics, db.posts)
    ensures old(ModeratorsNonEmpty(db.forums)) ==> ModeratorsNonEmpty(db.forums)
  {
    if forumId !in db.forums {
      return Fail(NotFound);
    }
    var forum := db.forums[forumId];
    o := ForumScope(db.schools, forum, actor);
    if o != Pass {
      return;
    }
    if userId !in forum.moderators {
      return Fail(BadRequest);
    }
    var rest := RemoveAll(forum.moderators, userId);
    RemoveModeratorGuard(forum.moderators, userId);
    if |rest| == 0 {
      return Fail(BadRequest);
    }
    forum := forum.(moderators := rest);
    if Consistent(db.forums, db.topics, db.posts) {
      ForumEditKeepsConsistent(db.forums, db.topics, db.posts, forumId, forum);
    }
    db.forums := db.forums[forumId := forum];
  }
}
