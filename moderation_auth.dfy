/**
 * The permission test that the post and topic handlers share: a forum
 * moderator or any holder of an administrative role may moderate, and the
 * update and delete handlers also let the author through.
 */
module ModerationAuth {
  import opened Common
  import opened ForumModel

  /** `forum.moderators.includes(req.user.id) || ['school_admin', 'usosa_admin', 'super_admin'].includes(req.user.role)` */
  predicate CanModerate(forum: Forum, actor: Actor) {
    actor.id in forum.moderators || IsAdminRole(actor.role)
  }

  /** The author of the document, or anyone who may moderate its forum. */
  predicate AuthorOrModerator(authorId: Id, forum: Forum, actor: Actor) {
    authorId == actor.id || CanModerate(forum, actor)
  }
}
