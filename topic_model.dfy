/**
 * The topic document (Topic.js): a thread in a forum, carrying the
 * denormalised reply count and the reference to its most recent post.
 */
module TopicModel {
  import opened Common

  datatype Topic = Topic(
    title: string,
    forumId: Id,
    userId: Id,
    content: string,
    views: int,
    replies: int,
    isPinned: bool,
    isLocked: bool,
    lastPostId: Option<Id>,
    lastPostAt: Time,
    lastPostUserId: Option<Id>,
    tags: seq<string>,
    createdAt: Time,
    updatedAt: Time,
    isDeleted: bool)

  /**
   * A topic as the schema completes it: no views and no replies, neither
   * pinned nor locked nor deleted, no last post yet, and `lastPostAt` at the
   * creation time.
   */
  function NewTopic(title: string, forumId: Id, userId: Id, content: string, tags: seq<string>,
                    lastPostUserId: Option<Id>, now: Time): (t: Topic)
    ensures t.title == title && t.forumId == forumId && t.userId == userId
    ensures t.content == content && t.tags == tags && t.lastPostUserId == lastPostUserId
    ensures t.views == 0 && t.replies == 0
    ensures !t.isPinned && !t.isLocked && !t.isDeleted
    ensures t.lastPostId == None && t.lastPostAt == t.createdAt == now
  {
    Topic(title, forumId, userId, content, 0, 0, false, false, None, now, lastPostUserId, tags, now, now, false)
  }
}
