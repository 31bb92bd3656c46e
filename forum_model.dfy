/**
 * The forum document (Forum.js): a discussion space tied to one school, or
 * general when `schoolId` is null, with its moderators and activity counters.
 */
module ForumModel {
  import opened Common

  datatype Forum = Forum(
    name: string,
    description: string,
    schoolId: Option<Id>,
    isGeneral: bool,
    moderators: seq<Id>,
    topics: int,
    posts: int,
    lastActivity: Time,
    createdAt: Time,
    updatedAt: Time,
    isActive: bool)

  /** A forum as the schema completes it: both counters at zero, and active. */
  function NewForum(name: string, description: string, schoolId: Option<Id>, isGeneral: bool,
                    moderators: seq<Id>, now: Time): (f: Forum)
    ensures f.name == name && f.description == description && f.schoolId == schoolId
    ensures f.isGeneral == isGeneral && f.moderators == moderators
    ensures f.topics == 0 && f.posts == 0 && f.isActive
  {
    Forum(name, description, schoolId, isGeneral, moderators, 0, 0, now, now, now, true)
  }
}
