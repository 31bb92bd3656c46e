/**
 * The document store the controllers work against: one map from ids to
 * documents per collection. Users are reduced to what the controllers read
 * of them, their role and their school.
 */
module Database {
  import opened Common
  import opened SchoolModel
  import opened ForumModel
  import opened TopicModel
  import opened PostModel
  import opened EventModel

  /** A user account as far as the controllers consult it. */
  datatype UserRecord = UserRecord(role: Role, schoolId: Option<Id>)

  class Db {
    var users: map<Id, UserRecord>
    var schools: map<Id, School>
    var forums: map<Id, Forum>
    var topics: map<Id, Topic>
    var posts: map<Id, Post>
    var events: map<Id, Event>

    constructor ()
      ensures users == map[] && schools == map[] && forums == map[]
      ensures topics == map[] && posts == map[] && events == map[]
    {
      users, schools, forums := map[], map[], map[];
      topics, posts, events := map[], map[], map[];
    }
  }
}
