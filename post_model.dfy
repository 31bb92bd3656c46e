/**
 * The post document (Post.js): a message in a topic, with its likes, an
 * optional parent post for nested replies, and the reports filed against it.
 */
module PostModel {
  import opened Common

  /** The enum of a report's `status`. */
  datatype ReportStatus = Pending | Reviewed | Dismissed

  /** One entry of `reports`; `id` is the sub-document's own `_id`. */
  datatype Report = Report(id: Id, userId: Id, reason: string, createdAt: Time, status: ReportStatus)

  datatype Post = Post(
    topicId: Id,
    userId: Id,
    content: string,
    likes: seq<Id>,
    isEdited: bool,
    editedAt: Option<Time>,
    parentPostId: Option<Id>,
    reports: seq<Report>,
    createdAt: Time,
    updatedAt: Time,
    isDeleted: bool)

  /**
   * A post as the schema completes it from the required fields: live, not
   * edited, no likes, no reports, a reply to `parentPostId` when one is given
   * and top level otherwise.
   */
  function NewPost(topicId: Id, userId: Id, content: string, parentPostId: Option<Id>, now: Time): (p: Post)
    ensures p.topicId == topicId && p.userId == userId && p.content == content
    ensures p.parentPostId == parentPostId && p.createdAt == now
    ensures !p.isDeleted && !p.isEdited && p.editedAt == None
    ensures p.likes == [] && p.reports == []
  {
    Post(topicId, userId, content, [], false, None, parentPostId, [], now, now, false)
  }

  /** A report as `reportPost` files it: always pending. */
  function NewReport(id: Id, userId: Id, reason: string, now: Time): (r: Report)
    ensures r.id == id && r.userId == userId && r.reason == reason
    ensures r.status == Pending
  {
    Report(id, userId, reason, now, Pending)
  }
}
