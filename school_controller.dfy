/**
 * The school handlers (schoolController.js): the active-only getters, the
 * platform admins creating and deactivating schools under the unique-name
 * rule, the field copy of updateSchool, and the admin set of a school with
 * its promotion, self-removal and last-admin rules.
 */
module SchoolController {
  import opened Common
  import opened SchoolModel
  import opened Database

  // ---------------------------------------------------------------------------
  // Getters

  /** getAllSchools: the active schools (listed by name, SchoolsByName). */
  function ActiveSchools(S: map<Id, School>): (r: set<Id>)
    ensures forall id :: id in r <==> id in S && S[id].isActive
  {
    set id | id in S && S[id].isActive
  }

  /** getSchoolsByRegion: the active schools of one region. */
  function SchoolsByRegion(S: map<Id, School>, region: Region): (r: set<Id>)
    ensures forall id :: id in r <==> id in S && S[id].isActive && S[id].location.region == region
    ensures r <= ActiveSchools(S)
  {
    set id | id in S && S[id].isActive && S[id].location.region == region
  }

  /** getSchoolById: a deactivated school answers 404 like a missing one. */
  function SchoolById(S: map<Id, School>, id: Id): (r: Result<School>)
    ensures r.Success? <==> id in ActiveSchools(S)
    ensures r.Success? ==> r.value == S[id]
    ensures r.Failure? ==> r.error == NotFound
  {
    if id in S && S[id].isActive then Success(S[id]) else Failure(NotFound)
  }

  /** A listing `s` of schools of `S` in `{ name: 1 }` order. */
  predicate SchoolsByName(S: map<Id, School>, s: seq<Id>)
    requires forall i :: 0 <= i < |s| ==> s[i] in S
  {
    forall i, j :: 0 <= i < j < |s| ==> LexLe(S[s[i]].name, S[s[j]].name)
  }

  /** With unique names the name order is strict, so a sorted listing is fixed by its set of schools. */
  lemma SortedListingStrict(S: map<Id, School>, s: seq<Id>, i: int, j: int)
    requires UniqueNames(S) && NoDup(s)
    requires forall k :: 0 <= k < |s| ==> s[k] in S
    requires SchoolsByName(S, s) && 0 <= i < j < |s|
    ensures !LexLe(S[s[j]].name, S[s[i]].name)
  {
    if LexLe(S[s[j]].name, S[s[i]].name) {
      LexLeAntisymmetric(S[s[i]].name, S[s[j]].name);
    }
  }

  // ---------------------------------------------------------------------------
  // Who may manage a school

  /**
   * The rule of updateSchool, addSchoolAdmin and removeSchoolAdmin: a school
   * admin must be listed by the school; anyone else must be a platform admin.
   */
  function ScopeGate(s: School, actor: Actor): (g: Outcome)
    ensures g == Pass <==>
      (if actor.role == SchoolAdmin then actor.id in s.adminUsers else IsPlatformAdmin(actor.role))
    ensures g == Pass || g == Fail(Forbidden)
  {
    if actor.role == SchoolAdmin then
      if actor.id in s.adminUsers then Pass else Fail(Forbidden)
    else if IsPlatformAdmin(actor.role) then Pass
    else Fail(Forbidden)
  }

  /** Being listed as an admin does not help an account whose role is not school admin. */
  lemma ListedAloneIsNotEnough(s: School, actor: Actor)
    requires actor.id in s.adminUsers && !IsAdminRole(actor.role)
    ensures ScopeGate(s, actor) == Fail(Forbidden)
  {
  }

  // ---------------------------------------------------------------------------
  // The directory's names

  /** Renaming one school to its own name or to a name no school carries keeps names unique. */
  lemma RenameKeepsUnique(S: map<Id, School>, id: Id, s: School)
    requires UniqueNames(S) && id in S
    requires s.name == S[id].name || !NameTaken(S, s.name)
    ensures UniqueNames(S[id := s])
  {
    var S' := S[id := s];
    forall a, b | a in S' && b in S' && a != b
      ensures S'[a].name != S'[b].name
    {
      if a == id && s.name != S[id].name {
        assert S[b].name != s.name;
      } else if b == id && s.name != S[id].name {
        assert S[a].name != s.name;
      }
    }
  }

  /** A deactivated school keeps its name, so no new school may take it. */
  lemma DeactivatedNameStaysTaken(S: map<Id, School>, id: Id)
    requires id in S
    ensures NameTaken(S[id := S[id].(isActive := false)], S[id].name)
    ensures id !in ActiveSchools(S[id := S[id].(isActive := false)])
  {
    assert S[id := S[id].(isActive := false)][id].name == S[id].name;
  }

  // ---------------------------------------------------------------------------
  // Creating and deactivating

  /** The fields of a createSchool request body that the school keeps. */
  datatype SchoolRequest = SchoolRequest(
    name: string,
    shortName: string,
    schoolType: SchoolType,
    gender: Gender,
    location: SchoolLocation,
    foundedYear: Option<int>,
    website: Option<string>,
    email: Option<string>,
    phoneNumber: Option<string>,
    address: Option<string>,
    description: Option<string>,
    adminUsers: Option<seq<Id>>)

  /** The school createSchool stores: the creator is its only admin unless a list (even empty) is given. */
  function SchoolFromRequest(q: SchoolRequest, actor: Actor, now: Time): (s: School)
    ensures s.name == q.name && s.isActive && s.alumniCount == 0
    ensures s.adminUsers == (if q.adminUsers.Some? then q.adminUsers.value else [actor.id])
    ensures q.adminUsers.None? ==> actor.id in s.adminUsers
  {
    NewSchool(q.name, q.shortName, q.schoolType, q.gender, q.location, q.foundedYear, q.description,
              q.website, q.email, q.phoneNumber, q.address,
              if q.adminUsers.Some? then q.adminUsers.value else [actor.id], now)
  }

  /**
   * createSchool: platform admins only (403), a name any school already
   * carries, active or not, is refused (400), and a save with an empty name
   * fails the schema's `required` rule (500).
   */
  method CreateSchool(db: Db, actor: Actor, q: SchoolRequest, newId: Id, now: Time) returns (r: Result<Id>)
    requires newId !in db.schools
    modifies db`schools
    ensures !IsPlatformAdmin(actor.role) ==> r == Failure(Forbidden) && unchanged(db)
    ensures IsPlatformAdmin(actor.role) && NameTaken(old(db.schools), q.name) ==> r == Failure(BadRequest) && unchanged(db)
    ensures IsPlatformAdmin(actor.role) && !NameTaken(old(db.schools), q.name) && q.name == "" ==>
      r == Failure(ServerError) && unchanged(db)
    ensures IsPlatformAdmin(actor.role) && !NameTaken(old(db.schools), q.name) && q.name != "" ==>
      r == Success(newId) && db.schools == old(db.schools)[newId := SchoolFromRequest(q, actor, now)]
    ensures old(UniqueNames(db.schools)) ==> UniqueNames(db.schools)
  {
    if !IsPlatformAdmin(actor.role) {
      return Failure(Forbidden);
    }
    if NameTaken(db.schools, q.name) {
      return Failure(BadRequest);
    }
    if q.name == "" {
      return Failure(ServerError);
    }
    db.schools := db.schools[newId := SchoolFromRequest(q, actor, now)];
    return Success(newId);
  }

  /** deleteSchool: platform admins only, checked before the lookup; the school is only deactivated. */
  method DeleteSchool(db: Db, actor: Actor, id: Id) returns (o: Outcome)
    modifies db`schools
    ensures !IsPlatformAdmin(actor.role) ==> o == Fail(Forbidden) && unchanged(db)
    ensures IsPlatformAdmin(actor.role) && id !in old(db.schools) ==> o == Fail(NotFound) && unchanged(db)
    ensures IsPlatformAdmin(actor.role) && id in old(db.schools) ==>
      o == Pass && db.schools == old(db.schools)[id := old(db.schools[id]).(isActive := false)]
    ensures old(UniqueNames(db.schools)) ==> UniqueNames(db.schools)
  {
    if !IsPlatformAdmin(actor.role) {
      return Fail(Forbidden);
    }
    if id !in db.schools {
      return Fail(NotFound);
    }
    if UniqueNames(db.schools) {
      RenameKeepsUnique(db.schools, id, db.schools[id].(isActive := false));
    }
    db.schools := db.schools[id := db.schools[id].(isActive := false)];
    return Pass;
  }

  // ---------------------------------------------------------------------------
  // Editing: the `Object.keys(updateData)` copy

  /** One key of an updateSchool request body with its value. */
  datatype SchoolField =
    | SetName(name: string)
    | SetShortName(shortName: string)
    | SetSchoolType(schoolType: SchoolType)
    | SetGender(gender: Gender)
    | SetLocation(location: SchoolLocation)
    | SetFoundedYear(foundedYear: Option<int>)
    | SetLogo(logo: Option<string>)
    | SetBanner(banner: Option<string>)
    | SetDescription(description: Option<string>)
    | SetWebsite(website: Option<string>)
    | SetEmail(email: Option<string>)
    | SetPhoneNumber(phoneNumber: Option<string>)
    | SetAddress(address: Option<string>)
    | SetAdminUsers(adminUsers: seq<Id>)
    | SetAlumniCount(alumniCount: int)
    | SetActive(isActive: bool)
    | SetUpdatedAt(updatedAt: Time)
    | SetDocId(docId: Id)
    | SetCreatedAt(createdAt: Time)

  /** Every key but `_id` and `createdAt` lands in the school as given. */
  function ApplyField(s: School, f: SchoolField): (r: School)
    ensures r.createdAt == s.createdAt
    ensures f.SetDocId? || f.SetCreatedAt? ==> r == s
  {
    match f
    case SetName(v) => s.(name := v)
    case SetShortName(v) => s.(shortName := v)
    case SetSchoolType(v) => s.(schoolType := v)
    case SetGender(v) => s.(gender := v)
    case SetLocation(v) => s.(location := v)
    case SetFoundedYear(v) => s.(foundedYear := v)
    case SetLogo(v) => s.(logo := v)
    case SetBanner(v) => s.(banner := v)
    case SetDescription(v) => s.(description := v)
    case SetWebsite(v) => s.(website := v)
    case SetEmail(v) => s.(email := v)
    case SetPhoneNumber(v) => s.(phoneNumber := v)
    case SetAddress(v) => s.(address := v)
    case SetAdminUsers(v) => s.(adminUsers := v)
    case SetAlumniCount(v) => s.(alumniCount := v)
    case SetActive(v) => s.(isActive := v)
    case SetUpdatedAt(v) => s.(updatedAt := v)
    case SetDocId(_) => s
    case SetCreatedAt(_) => s
  }

  /** The copy of every key in order, the later of two equal keys winning. */
  function ApplyFields(s: School, fs: seq<SchoolField>): School
  {
    if |fs| == 0 then s else ApplyField(ApplyFields(s, fs[..|fs| - 1]), fs[|fs| - 1])
  }

  /** The last name key of the body, if any (`updateData.name`). */
  function NameKey(fs: seq<SchoolField>): (r: Option<string>)
    ensures r.None? <==> forall i :: 0 <= i < |fs| ==> !fs[i].SetName?
  {
    if |fs| == 0 then None
    else if fs[|fs| - 1].SetName? then Some(fs[|fs| - 1].name)
    else NameKey(fs[..|fs| - 1])
  }

  /** The copy leaves `createdAt` alone and gives the school the body's name, or keeps its own. */
  lemma {:induction false} ApplyFieldsName(s: School, fs: seq<SchoolField>)
    ensures ApplyFields(s, fs).name == (if NameKey(fs).Some? then NameKey(fs).value else s.name)
    ensures ApplyFields(s, fs).createdAt == s.createdAt
  {
    if |fs| > 0 {
      ApplyFieldsName(s, fs[..|fs| - 1]);
    }
  }

  /**
   * The copy writes `adminUsers` and `isActive` too: an update can empty the
   * admin list the remove handler protects, or reactivate a deleted school.
   */
  lemma UpdateCanClearAdmins(s: School)
    ensures ApplyFields(s, [SetAdminUsers([])]).adminUsers == []
    ensures ApplyFields(s, [SetActive(true)]).isActive
  {
    assert [SetAdminUsers([])][..0] == [];
    assert [SetActive(true)][..0] == [];
  }

  /** updateSchool's name check: a truthy name other than the current one must be free. */
  function RenameGate(S: map<Id, School>, s: School, fs: seq<SchoolField>): (g: Outcome)
    ensures g == Pass || g == Fail(BadRequest)
    ensures g == Fail(BadRequest) <==>
      NameKey(fs).Some? && NameKey(fs).value != "" && NameKey(fs).value != s.name && NameTaken(S, NameKey(fs).value)
  {
    match NameKey(fs)
    case Some(n) => if n != "" && n != s.name && NameTaken(S, n) then Fail(BadRequest) else Pass
    case None => Pass
  }

  /** The copy loop of updateSchool: every key in order. */
  method CopyFields(s: School, fs: seq<SchoolField>) returns (r: School)
    ensures r == ApplyFields(s, fs)
  {
    r := s;
    var i := 0;
    while i < |fs|
      invariant 0 <= i <= |fs|
      invariant r == ApplyFields(s, fs[..i])
    {
      assert fs[..i + 1][..i] == fs[..i];
      r := ApplyField(r, fs[i]);
      i := i + 1;
    }
    assert fs[..|fs|] == fs;
  }

  /**
   * updateSchool: 404, the scope rule, the name check, then the copy and the
   * `updatedAt` stamp; a save that leaves the name empty fails the schema's
   * `required` rule (500).
   */
  method UpdateSchool(db: Db, actor: Actor, id: Id, fields: seq<SchoolField>, now: Time) returns (o: Outcome)
    modifies db`schools
    ensures id !in old(db.schools) ==> o == Fail(NotFound) && unchanged(db)
    ensures id in old(db.schools) ==>
      var s := old(db.schools[id]);
      var g := ScopeGate(s, actor);
      var h := RenameGate(old(db.schools), s, fields);
      var s' := ApplyFields(s, fields).(updatedAt := now);
      && (g != Pass ==> o == g && unchanged(db))
      && (g == Pass && h != Pass ==> o == h && unchanged(db))
      && (g == Pass && h == Pass && s'.name == "" ==> o == Fail(ServerError) && unchanged(db))
      && (g == Pass && h == Pass && s'.name != "" ==> o == Pass && db.schools == old(db.schools)[id := s'])
    ensures o == Pass ==> db.schools[id].createdAt == old(db.schools[id]).createdAt
    ensures old(UniqueNames(db.schools)) ==> UniqueNames(db.schools)
  {
    if id !in db.schools {
      return Fail(NotFound);
    }
    var s := db.schools[id];
    o := ScopeGate(s, actor);
    if o != Pass {
      return;
    }
    o := RenameGate(db.schools, s, fields);
    if o != Pass {
      return;
    }
    var s' := CopyFields(s, fields);
    s' := s'.(updatedAt := now);
    ApplyFieldsName(s, fields);
    if s'.name == "" {
      return Fail(ServerError);
    }
    if UniqueNames(db.schools) {
      RenameKeepsUnique(db.schools, id, s');
    }
    db.schools := db.schools[id := s'];
  }

  // ---------------------------------------------------------------------------
  // The admin set

  /** addSchoolAdmin's promotion: an alumnus or plain user becomes a school admin, other roles stay. */
  function Promoted(r: Role): (r': Role)
    ensures r == Alumni || r == User ==> r' == SchoolAdmin
    ensures r != Alumni && r != User ==> r' == r
    ensures IsAdminRole(r') || r' == Guest
  {
    if r == Alumni || r == User then SchoolAdmin else r
  }

  /**
   * addSchoolAdmin: 404 for the school, the scope rule, 404 for the user,
   * 400 for a user already listed; then the id is appended and the user's
   * role promoted.
   */
  method AddSchoolAdmin(db: Db, actor: Actor, schoolId: Id, userId: Id) returns (o: Outcome)
    modifies db`schools, db`users
    ensures schoolId !in old(db.schools) ==> o == Fail(NotFound) && unchanged(db)
    ensures schoolId in old(db.schools) ==>
      var s := old(db.schools[schoolId]);
      var g := ScopeGate(s, actor);
      && (g != Pass ==> o == g && unchanged(db))
      && (g == Pass && userId !in old(db.users) ==> o == Fail(NotFound) && unchanged(db))
      && (g == Pass && userId in old(db.users) && userId in s.adminUsers ==> o == Fail(BadRequest) && unchanged(db))
      && (g == Pass && userId in old(db.users) && userId !in s.adminUsers ==>
            && o == Pass
            && db.schools == old(db.schools)[schoolId := s.(adminUsers := s.adminUsers + [userId])]
            && db.users == old(db.users)[userId := old(db.users[userId]).(role := Promoted(old(db.users[userId]).role))])
    ensures o == Pass ==> NoDup(old(db.schools[schoolId]).adminUsers) ==> NoDup(db.schools[schoolId].adminUsers)
    ensures o == Pass ==> IsAdminRole(db.users[userId].role) || db.users[userId].role == Guest
    ensures db.schools.Keys == old(db.schools.Keys)
  {
    if schoolId !in db.schools {
      return Fail(NotFound);
    }
    var s := db.schools[schoolId];
    o := ScopeGate(s, actor);
    if o != Pass {
      return;
    }
    if userId !in db.users {
      return Fail(NotFound);
    }
    if userId in s.adminUsers {
      return Fail(BadRequest);
    }
    AppendKeepsNoDup(s.adminUsers, userId);
    db.schools := db.schools[schoolId := s.(adminUsers := s.adminUsers + [userId])];
    var u := db.users[userId];
    db.users := db.users[userId := u.(role := Promoted(u.role))];
  }

  lemma AppendKeepsNoDup(s: seq<Id>, x: Id)
    requires x !in s
    ensures NoDup(s) ==> NoDup(s + [x])
  {
    if NoDup(s) {
      forall i, j | 0 <= i < j < |s + [x]| ensures (s + [x])[i] != (s + [x])[j] {
        if j == |s| {
          assert (s + [x])[i] == s[i];
        }
      }
    }
  }

  /**
   * removeSchoolAdmin's checks: 404 for the school; a school admin must be
   * listed (403) and may not remove themselves (400); anyone else must be a
   * platform admin (403); the target must be listed (400); and a removal
   * that would empty the list is refused (400).
   */
  function RemoveAdminGate(s: School, actor: Actor, userId: Id): (g: Outcome)
    ensures g == Pass <==>
      && ScopeGate(s, actor) == Pass
      && !(actor.role == SchoolAdmin && userId == actor.id)
      && userId in s.adminUsers
      && RemoveAll(s.adminUsers, userId) != []
    ensures g == Pass || g == Fail(Forbidden) || g == Fail(BadRequest)
  {
    if actor.role == SchoolAdmin && actor.id !in s.adminUsers then Fail(Forbidden)
    else if actor.role == SchoolAdmin && userId == actor.id then Fail(BadRequest)
    else if actor.role != SchoolAdmin && !IsPlatformAdmin(actor.role) then Fail(Forbidden)
    else if userId !in s.adminUsers then Fail(BadRequest)
    else if RemoveAll(s.adminUsers, userId) == [] then Fail(BadRequest)
    else Pass
  }

  /** The last-admin rule refuses exactly when the target is the only id on the list, however often listed. */
  lemma LastAdminRule(s: School, actor: Actor, userId: Id)
    requires ScopeGate(s, actor) == Pass && !(actor.role == SchoolAdmin && userId == actor.id)
    requires userId in s.adminUsers
    ensures RemoveAdminGate(s, actor, userId) == Fail(BadRequest) <==> forall y :: y in s.adminUsers ==> y == userId
  {
    RemoveAllEmpty(s.adminUsers, userId);
  }

  /**
   * removeSchoolAdmin: the checks, then every occurrence of the id is
   * dropped. The user keeps their role.
   */
  method RemoveSchoolAdmin(db: Db, actor: Actor, schoolId: Id, userId: Id) returns (o: Outcome)
    modifies db`schools
    ensures schoolId !in old(db.schools) ==> o == Fail(NotFound) && unchanged(db)
    ensures schoolId in old(db.schools) ==>
      var s := old(db.schools[schoolId]);
      var g := RemoveAdminGate(s, actor, userId);
      && (g != Pass ==> o == g && unchanged(db))
      && (g == Pass ==> o == Pass && db.schools == old(db.schools)[schoolId := s.(adminUsers := RemoveAll(s.adminUsers, userId))])
    ensures o == Pass ==>
      && db.schools[schoolId].adminUsers != []
      && userId !in db.schools[schoolId].adminUsers
      && (NoDup(old(db.schools[schoolId]).adminUsers) ==> NoDup(db.schools[schoolId].adminUsers))
    ensures o == Pass && actor.role == SchoolAdmin ==> actor.id in db.schools[schoolId].adminUsers
  {
    if schoolId !in db.schools {
      return Fail(NotFound);
    }
    var s := db.schools[schoolId];
    o := RemoveAdminGate(s, actor, userId);
    if o != Pass {
      return;
    }
    var rest := RemoveAll(s.adminUsers, userId);
    var before: multiset<Id>, after: multiset<Id> := multiset(s.adminUsers), multiset(rest);
    assert after[userId] == 0;
    if actor.role == SchoolAdmin {
      assert before[actor.id] > 0;
      assert after[actor.id] > 0;
    }
    if NoDup(s.adminUsers) {
      RemoveAllNoDup(s.adminUsers, userId);
    }
    db.schools := db.schools[schoolId := s.(adminUsers := rest)];
  }
}
