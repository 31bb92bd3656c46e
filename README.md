# USOSA alumni platform: forums, events and the school directory

This project models the request handlers of the USOSA alumni platform's
backend in Dafny and proves properties of the model. The platform serves
alumni of the Nigerian Unity Schools. The handlers cover:

- the discussion forums, with their topics and posts;
- the alumni events, with their rosters;
- the school directory.

The document store is a class `Database.Db`. It holds one map from ids to
documents per collection. Every handler that writes is a method over it;
the read-only getters are functions over its maps. Each answers either an
error status (400, 403, 404 or 500) or success. Each method says in its
contract which collections it writes and what each one holds afterwards.

The clock (`Date.now()`) and fresh document ids are parameters. The
authenticated requester is an `Actor` with an id, a role and an optional
school.

The modules follow the source:

- `Common`: ids, roles, error statuses, the array operations the handlers
  use, and the string order of the `{ name: 1 }` sorts.
- `PostModel`, `TopicModel`, `ForumModel`, `EventModel`, `SchoolModel`: the
  documents of the five schemas and their defaults.
- `Database`: the store.
- `ModerationAuth`: the moderator test that the post and topic handlers
  share.
- `ForumInvariant`: the bookkeeping rules of the forums, and one lemma per
  kind of update saying whether it keeps the rules or how it breaks them.
  - `forum.topics` counts the forum's live topics.
  - `forum.posts` counts one opening post per live topic plus every live
    reply. Equivalently, it is the sum of `replies + 1` over the live
    topics.
  - `topic.replies` counts the live posts of every live topic.
  - The `lastPost*` fields of every live topic name its latest live post,
    with a `lastPostAt` no earlier than that post's creation.
- `PostController`, `TopicController`, `ForumController`, `EventController`,
  `SchoolController`: one module per controller file.

Where a handler dereferences a document that a lookup did not find, the
model answers 500 (`ServerError`). This follows the handler's catch-all
`catch` block. Effects saved before the crash stay saved.

## Model

| member | source | states |
|---|---|---|
| Common.IndexOf | postController.js:206 | `indexOf`: the first position holding the id, and -1 exactly when the id is absent |
| Common.RemoveFirst | postController.js:213 | `splice(indexOf(u), 1)`: the first occurrence of the id is cut out and the entries before and after it keep their order; one entry fewer, one occurrence fewer in the multiset |
| Common.Truthy | forumController.js:157-160 | JavaScript truthiness of a string from the body: given and not empty (a definition; EditTopic, EditForum, EditAttendee and ReportPost state their results with it) |
| Common.SpliceNoDup | postController.js:213 | cutting one entry out of a list free of repeats leaves it free of repeats |
| Common.RemoveAll | schoolController.js:307 | `filter(id => id !== u)`: no occurrence of the id is left, and every other id keeps its count |
| Common.RemoveAllEmpty | schoolController.js:306-312 | filtering empties the list exactly when every entry is the removed id |
| Common.RemoveAllNoDup | forumController.js:256 | filtering keeps a list free of repeats |
| Common.LexLeTotal | schoolController.js:48 | the name order compares any two names |
| Common.LexLeTransitive | schoolController.js:48 | the name order is transitive |
| Common.LexLeAntisymmetric | schoolController.js:48 | two names ordered both ways are equal |
| PostModel.NewPost | Post.js:4-73 | a new post is live, unedited, without likes or reports, and a reply exactly when a parent is given |
| PostModel.NewReport | Post.js:45-60 | a new report is pending |
| TopicModel.NewTopic | Topic.js:4-68 | a new topic has no views, replies or last post, is neither pinned, locked nor deleted, and its `lastPostAt` is its creation time |
| ForumModel.NewForum | Forum.js:4-51 | a new forum has both counters at zero and is active |
| EventModel.InitialPayment | eventController.js:390-394 | a new roster entry is pending payment exactly when the fee is positive, and otherwise not applicable |
| EventModel.NewAttendee | Event.js:95-115 | a new roster entry is registered, carries the given payment status, and has no payment reference |
| EventModel.RosterIds | eventController.js:530 | the roster's user ids, entry by entry |
| EventModel.NewEvent | Event.js:63-136 | the schema defaults: registration required, default fee of 0 NGN, draft, alumni only, empty roster, organiser as creator and updater |
| SchoolModel.NewSchool | School.js:80-91 | a new school is active, has no logo or banner, and counts no alumni |
| ForumInvariant.CascadeDelete | topicController.js:183 | `updateMany({ topicId }, { isDeleted: true })`: every post of the topic is marked deleted, the others are untouched, and the topic has no live post left |
| ForumInvariant.ForumPostsAreSumOfReplies | topicController.js:179 | under the counter rules, `forum.posts` equals the sum of `replies + 1` over the forum's live topics |
| ForumInvariant.NewForumKeepsConsistent | forumController.js:110-116 | adding a forum with zero counters keeps every rule |
| ForumInvariant.ForumEditKeepsConsistent | forumController.js:157-163 | an edit that leaves a forum's counters alone keeps every rule |
| ForumInvariant.TopicEditEffect | topicController.js:137-139 | an edit that leaves a topic's forum, deletion flag, replies and `lastPost*` fields alone keeps every rule |
| ForumInvariant.PostEditEffect | postController.js:120-124 | an edit that leaves a post's topic, deletion flag, creation time and author alone keeps every rule |
| ForumInvariant.CreateTopicEffect | topicController.js:89-103 | a new topic that bumps both counters of its forum by one keeps every rule |
| ForumInvariant.TopicHasForum | postController.js:83 | under the rules every topic's forum exists, so the null forum of createPost cannot occur |
| ForumInvariant.CreatePostEffect | postController.js:66-86 | a new post that bumps `replies` and `forum.posts` by one and becomes the topic's last post, stamped no earlier than its creation, keeps every rule, given that no post postdates the clock |
| ForumInvariant.StampBeforePostBreaksRule | postController.js:78 | a `lastPostAt` stamped before its post's creation breaks the last-post rule, so the rule needs a clock that does not run backwards |
| ForumInvariant.LivePostHasLastPost | postController.js:164 | under the rules a live post's topic has a last post, so `lastPostId.toString()` on null occurs only for a deleted post |
| ForumInvariant.DeletePostEffect | postController.js:156-184 | deleting a live post with the re-pointing keeps every rule; deleting a post that is already deleted breaks the posts counter |
| ForumInvariant.RepeatedPostDeleteBreaksCounters | postController.js:141-158 | the lookup has no `isDeleted` filter, so deleting a deleted post subtracts from `forum.posts` again |
| ForumInvariant.DeleteTopicEffect | topicController.js:174-183 | deleting a live topic with the cascade keeps every rule; deleting a deleted one breaks the topics counter |
| ForumInvariant.RepeatedTopicDeleteBreaksCounters | topicController.js:155-179 | deleteTopic has no guard against a topic already deleted, so `forum.topics` drops below the live count |
| ForumInvariant.ReportDeleteEffect | postController.js:304-335 | handlePostReport's delete keeps every rule when the post is live and not its topic's last post |
| ForumInvariant.StaleLookupKeepsDeletedLastPost | postController.js:312-335 | the last-post lookup runs before the reported post is saved as deleted; when that post is strictly the latest, the topic is left pointing at a deleted post |
| ModerationAuth.CanModerate | postController.js:111-112 | a moderator listed on the forum or an admin role (a definition; the gates of the post and topic handlers state their answers with it) |
| ModerationAuth.AuthorOrModerator | postController.js:114-116 | the author, or anyone who may moderate (a definition; PostGate and TopicGate state their answers with it) |
| PostController.PostGate | postController.js:104-117 | post by id (deleted ones too), 404; missing topic or forum, 500; then author or moderator, or moderator only, else 403 |
| PostController.ReportGateStricter | postController.js:287-292 | the moderator-only gate of handlePostReport never admits anyone the author-or-moderator gate refuses |
| PostController.ToggleLike | postController.js:206-214 | an absent id is appended; for a present one its first occurrence is cut out and the other likers keep their order |
| PostController.ToggleLikeKeepsNoDup | postController.js:206-214 | a like list free of repeats stays so |
| PostController.ToggleLikeFlips | postController.js:206-214 | without repeats, a toggle flips whether the user likes the post |
| PostController.ToggleLikeTwiceFromAbsent | postController.js:206-214 | like then unlike gives back exactly the original list |
| PostController.ToggleLikeTwiceFromPresent | postController.js:206-214 | unlike then like gives back the same likers with the user moved last |
| PostController.ToggleLikeTwiceReorders | postController.js:206-214 | concrete case: `[1, 2]` becomes `[2, 1]` |
| PostController.ReportKeepsOnePerUser | postController.js:244-256 | appending a report from a user who has not reported keeps one report per user |
| PostController.ReportIndex | postController.js:295 | `findIndex` on the report id: the first match, or -1 exactly when there is none |
| PostController.LatestLivePost | postController.js:165-166 | `findOne({ topicId, isDeleted: false }).sort({ createdAt: -1 })`: none exactly when no live post is left, else a latest live post |
| PostController.Repoint | postController.js:164-178 | the topic then points at its latest live post, or falls back to its own creation time and author; nothing else changes |
| PostController.GetPostsByTopic | postController.js:9-40 | 404 for a missing or deleted topic; else exactly its live posts, as many as its `replies` under the rules |
| PostController.CreatePost | postController.js:43-96 | 404 for a missing or deleted topic, 403 when locked, 404 for a missing parent; then the new post (created at the first clock reading), the reply counter and `lastPost*` (stamped with the second reading) and the forum counter and `lastActivity` (the third); once the topic and parent checks pass, success exactly when the topic's forum exists and otherwise 500 (after the topic save); keeps every rule |
| PostController.UpdatePost | postController.js:99-134 | the gate; then the content is replaced and the post marked edited; keeps every rule |
| PostController.DeletePost | postController.js:137-193 | the gate, soft delete, one reply and post fewer, re-pointing when this was the last post, 500 after the post save when the topic has no last post; keeps the rules for a live post, breaks the posts counter for a deleted one |
| PostController.ToggleLikePost | postController.js:196-226 | 404 for a missing or deleted post; the like toggles and the new count is the answer; keeps every rule |
| PostController.ReportPost | postController.js:229-267 | 400 without a reason, 404, 400 for a second report by the same user; else one pending report is appended; keeps one report per user and every rule |
| PostController.DeleteReportedPost | postController.js:304-335 | the delete branch of handlePostReport: the counter upkeep of deletePost with the lookup against the posts before the delete |
| PostController.HandlePostReport | postController.js:270-345 | 400 for another action, the moderator-only gate, 404 for an unknown report; the report becomes reviewed; `delete_post` soft-deletes; keeps the rules for dismiss and for a live post that is not the last, and breaks `lastPost*` for a strictly latest one |
| TopicController.SortKey | topicController.js:19-28 | the second sort field of each named order: `lastPostAt`, `createdAt`, `views` or `replies` (a definition; KeyDescending states the order by it) |
| TopicController.ParseSort | topicController.js:10-28 | no parameter means latest; each of the four names picks its order; anything else imposes none |
| TopicController.UnknownSortIsUnordered | topicController.js:19-28 | exactly the other values, the empty string included, leave the listing unordered |
| TopicController.MayPrecedeTotal | topicController.js:19-34 | any two topics can be ordered in every mode |
| TopicController.MayPrecedeTransitive | topicController.js:19-34 | every mode is transitive |
| TopicController.PinnedFirst | topicController.js:21-27 | in every named order no unpinned topic precedes a pinned one |
| TopicController.KeyDescending | topicController.js:21-27 | among topics of equal pin state the sort key never increases |
| TopicController.UnorderedAcceptsAll | topicController.js:19 | an empty sort accepts every listing |
| TopicController.TopicGate | topicController.js:123-135 | topic by id (deleted ones too), 404; missing forum, 500; author or moderator, or moderator only, else 403 |
| TopicController.ModeratorGateStricter | topicController.js:200-212 | whoever may pin or lock may also edit or delete |
| TopicController.EditTopic | topicController.js:137-139 | a truthy title or content and any tags array replace the stored values; nothing else but `updatedAt` changes |
| TopicController.EditTopicIdempotent | topicController.js:137-139 | the same edit twice equals one edit |
| TopicController.EditTopicKeepsOnEmpty | topicController.js:137-138 | an empty title or content keeps the stored one |
| TopicController.GetTopicsByForum | topicController.js:7-51 | 404 for a missing or inactive forum; else exactly its live topics with the parsed order, as many as `forum.topics` under the rules |
| TopicController.GetTopicById | topicController.js:54-75 | 404 for a missing or deleted topic; else one more view, saved; keeps every rule |
| TopicController.CreateTopic | topicController.js:78-114 | 404 for a missing or inactive forum; else a new topic (`tags || []`) and both forum counters up by one; keeps every rule |
| TopicController.UpdateTopic | topicController.js:117-152 | the gate, then the edit; keeps every rule |
| TopicController.DeleteTopic | topicController.js:155-192 | the gate, soft delete, `topics - 1`, `posts - (replies + 1)`, cascade to the posts; keeps the rules for a live topic, breaks the topics counter for a deleted one |
| TopicController.TogglePin | topicController.js:195-225 | moderator gate; `isPinned` flips and is the answer; keeps every rule |
| TopicController.ToggleLock | topicController.js:228-258 | moderator gate; `isLocked` flips and is the answer; keeps every rule |
| TopicController.ToggleGateStable | topicController.js:200-212 | a toggle does not change its own gate, so a second toggle is admitted too |
| ForumController.ForumOrderIsTotalPreorder | forumController.js:12 | `{ isGeneral: -1, name: 1 }` is total and transitive |
| ForumController.GeneralForumsFirst | forumController.js:12 | in a sorted listing no other forum precedes a general one |
| ForumController.ActiveForums | forumController.js:8-19 | exactly the active forums |
| ForumController.ForumsBySchool | forumController.js:38-57 | 404 exactly for an unknown school (an inactive one passes); else its active forums |
| ForumController.ForumById | forumController.js:60-77 | an active forum, else 404 |
| ForumController.GetGeneralForum | forumController.js:22-35 | some active general forum, and 404 exactly when there is none |
| ForumController.CreateForumGate | forumController.js:85-107 | admin role (403); for a school forum an existing school (404) listing a school admin (403); a general forum without a school needs a platform admin (403) |
| ForumController.SchoolForumIgnoresGeneralFlag | forumController.js:89-107 | with a school given, `isGeneral` does not affect the gate |
| ForumController.ForumScope | forumController.js:142-154 | a school admin only on a forum whose school lists them, 500 when that school is missing; anyone else only as a platform admin |
| ForumController.SchoolAdminNeverOnSchoollessForum | forumController.js:145-150 | no school admin may edit a forum without a school |
| ForumController.EditForum | forumController.js:157-160 | truthy name and description, any moderators array, and any given `isActive` replace the stored values |
| ForumController.UpdateForumCanEmptyModerators | forumController.js:159 | an empty moderators array is stored, so the at-least-one-moderator rule fails |
| ForumController.AddModeratorKeepsRules | forumController.js:207-212 | appending a new moderator keeps the lists non-empty and free of repeats |
| ForumController.RemoveModeratorGuard | forumController.js:256-260 | the refusal happens exactly when every moderator is the user; what is stored no longer holds the user and keeps no repeats |
| ForumController.CreateForum | forumController.js:80-128 | the gate, then a new forum with `moderators \|\| [creator]` (a given empty array is kept); keeps every rule, and non-empty moderators unless an empty array was given |
| ForumController.UpdateForum | forumController.js:131-173 | 404, scope, then the edit; keeps every rule |
| ForumController.AddModerator | forumController.js:176-223 | 404 forum, scope, 404 user, 400 already a moderator, then append; keeps every rule and non-empty moderators |
| ForumController.RemoveModerator | forumController.js:226-273 | 404, scope, 400 not a moderator, 400 when the list would be empty; else every occurrence removed, leaving a non-empty list |
| EventController.VisibleInListing | eventController.js:77-92 | the role's visibility clause: guests and visitors public only, alumni and users public or alumni-only (the school clause ANDed on), admins everything (a definition; its consequences are GuestsSeePublicOnly, SchoolAlumniOnlyNeverListed and AdminsSeeAll) |
| EventController.Listed | eventController.js:50-92 | the whole getAllEvents filter: type, school, status (published unless given), upcoming, and the visibility clause (a definition; ListEvents and the listing lemmas state its consequences) |
| EventController.ListEvents | eventController.js:46-100 | exactly the events the query matches: type, school, status (published by default), start not before now unless `upcoming` is other than "true", and the role's visibility |
| EventController.ListingDefaultsToPublished | eventController.js:64-69 | without a status only published events are listed |
| EventController.GuestsSeePublicOnly | eventController.js:77-79 | anonymous visitors and guests see exactly the public events |
| EventController.SchoolAlumniOnlyNeverListed | eventController.js:80-90 | alumni and users see exactly public and alumni-only events: the school clause is ANDed with the `$in`, so their school's events never show |
| EventController.AdminsSeeAll | eventController.js:92 | the admin roles have no visibility filter |
| EventController.ViewGate | eventController.js:133-155 | public passes; otherwise 403 for no user, for a guest on alumni-only, for a school event without school match or admin role, and for invite-only without roster entry, organiser or platform admin; 500 for a school event without a school when the requester has one |
| EventController.EventById | eventController.js:118-162 | 404 for an unknown event; else the event exactly when the view gate passes |
| EventController.ListedImpliesViewable | eventController.js:77-155 | an event listed to a requester, invite-only ones and school-alumni events without a school aside, also opens for them |
| EventController.ListedSchoolEventWithoutSchoolCrashes | eventController.js:92-144 | a school-alumni event without a school is listed only to admin roles, and opening it as one with a school answers 500 (the null `event.schoolId._id`) |
| EventController.InviteOnlyListedNotViewable | eventController.js:92-154 | a school admin is listed every invite-only event but may open only those they attend or organise |
| EventController.EditGate | eventController.js:254-263 | organiser, creator, an admin of the event's school or a platform admin; 500 for a school admin when the event's school is missing |
| EventController.AttendeeGateStricter | eventController.js:457-465 | updateAttendeeStatus leaves out the creator: its gate passes only when the edit gate does, and a plain creator is refused |
| EventController.CreateEventGate | eventController.js:185-206 | alumni or an admin role (403); for a school event an existing school (404) that lists a school admin (403) |
| EventController.EventFromRequest | eventController.js:209-229 | organiser, creator and updater are the requester; school-specific exactly with a school; a capacity of 0 becomes none; the schema defaults for missing fields |
| EventController.CreateEvent | eventController.js:165-241 | the gate, then the new event under a fresh id |
| EventController.ApplyField | eventController.js:286-290 | a single key lands in the event; `_id`, `createdAt`, `createdBy` and `attendees` are skipped; a key writes no title, status, visibility, schoolId or `isSchoolSpecific` but its own |
| EventController.ApplyFields | eventController.js:286-290 | `Object.keys(updateData).forEach`: the keys applied in order, a later one overriding an earlier (a definition; what it keeps is ApplyFieldsKeepsProtected, ApplyFieldsKeepsUnnamed and ApplyFieldsSchool) |
| EventController.ApplyFieldsSchool | eventController.js:286-290 | after the copy, schoolId and `isSchoolSpecific` are the body's last such keys, or the stored values when the body has none |
| EventController.ApplyFieldsKeepsProtected | eventController.js:287 | whatever the body holds, creation time, creator and roster are unchanged |
| EventController.ApplyFieldsKeepsUnnamed | eventController.js:286-290 | a body without a title, status or visibility key leaves that field as stored |
| EventController.SchoolIdKey | eventController.js:266 | the body's schoolId, absent exactly when no key names it |
| EventController.SchoolSpecificKey | eventController.js:279-282 | the body's last `isSchoolSpecific`, absent exactly when no key names it |
| EventController.PutSchoolSpecific | eventController.js:279-282 | setting `isSchoolSpecific` on the body: some key holds the new value, every `isSchoolSpecific` key holds it, and every other key stays where it was |
| EventController.SchoolSpecificKeyUniform | eventController.js:279-282 | a body whose `isSchoolSpecific` keys all hold one value, and which has one, ends with that value |
| EventController.SchoolIdKeyFrame | eventController.js:266 | bodies of one length that agree on every schoolId key have the same last schoolId |
| EventController.PutSchoolSpecificKeys | eventController.js:279-282 | after setting `isSchoolSpecific` the body's last `isSchoolSpecific` is the new value and its schoolId is unchanged |
| EventController.PrepareFields | eventController.js:265-283 | the school step on the body: a truthy schoolId other than the stored one adds `isSchoolSpecific: true`, a null one adds `false`, otherwise the body goes unchanged (a definition; its effect on the stored event is PrepareFieldsSchoolStep) |
| EventController.PrepareFieldsSchoolStep | eventController.js:265-290 | after the step and the copy, a new school leaves the event school-specific with that school, a null schoolId leaves it with no school and not school-specific, and a body without a schoolId or with the stored one is copied as given |
| EventController.NewSchoolGate | eventController.js:265-277 | only a truthy schoolId other than the current one is checked: 404 unknown school, 403 school admin not listed |
| EventController.UpdateEvent | eventController.js:244-304 | 404, edit gate, school check, then the key copy of the prepared body and the `updatedAt`/`updatedBy` stamp; creation fields and roster unchanged; a new school makes the stored event school-specific with it, a null schoolId clears both |
| EventController.DeleteEvent | eventController.js:307-337 | 404, edit gate, then the document is removed |
| EventController.RegisterGate | eventController.js:349-388 | published, registration required, deadline not passed, room left, not on the roster (400 each), then visibility (403), with 500 for a school event without a school when the requester has one; 400 exactly when one of the five registration checks fails, so the 400s all come before the visibility checks; invite-only never passes |
| EventController.Full | eventController.js:365 | `event.capacity && attendees.length >= capacity`: a capacity of 0 or none never fills (a definition; RegisterGate and CancelledStillCounts use it) |
| EventController.FullBeforeVisibility | eventController.js:365-386 | an illustration of RegisterGate's 400 clause: a full invite-only event answers 400, not 403 |
| EventController.RegisterForEvent | eventController.js:340-414 | 404, the gate, then one registered entry at the end; the answer is true exactly when the fee is positive; one entry per user is kept |
| EventController.AttendeeIndex | eventController.js:427 | `findIndex` on the user id: the first entry, or -1 exactly when the user is not on the roster |
| EventController.CancelRegistration | eventController.js:417-444 | 404, 400 for a user not on the roster; else the first entry becomes cancelled and the roster keeps its length |
| EventController.CancelledStillCounts | eventController.js:365-433 | a cancelled entry still takes a place toward the capacity and still blocks registering again |
| EventController.EditAttendee | eventController.js:474-484 | a given status, payment status and truthy reference replace the stored ones; user and registration time stay |
| EventController.UpdateAttendeeStatus | eventController.js:447-495 | 404, the gate without the creator, 404 for a user not on the roster, then the edit of the first entry |
| EventController.FoundUsers | eventController.js:524 | `User.find({ _id: { $in: userIds } })`: the distinct given ids that name a user (a definition; FoundAllIff states when it matches the ids given) |
| EventController.FoundAllIff | eventController.js:524-527 | the users found equal the ids given in number exactly when every id names a user and none repeats |
| EventController.Invitees | eventController.js:533-549 | the ids not on the roster before the loop, in input order, never more than the ids given |
| EventController.InviteesMembers | eventController.js:533-549 | an id is an invitee exactly when it was given and is not on the roster before the loop |
| EventController.InviteEntries | eventController.js:541-546 | one registered entry per invitee, with the event's payment status |
| EventController.InviteKeepsUnique | eventController.js:530-550 | without repeated ids, the invitees repeat none and the roster keeps one entry per user |
| EventController.InviteOne | eventController.js:533-548 | one round of the loop: the id is appended to the invitees and gets an entry exactly when it was not on the roster before the loop |
| EventController.AppendInvitees | eventController.js:530-550 | the loop appends exactly the entries of the invitees and answers their ids |
| EventController.InviteToEvent | eventController.js:498-562 | 400 for no ids, 404, edit gate, 400 when fewer users are found than ids given (an unknown or repeated id); then the invitees appended; one entry per user is kept |
| SchoolController.ActiveSchools | schoolController.js:45-55 | exactly the active schools |
| SchoolController.SchoolsByRegion | schoolController.js:58-70 | exactly the active schools of the region |
| SchoolController.SchoolById | schoolController.js:73-89 | the school exactly when it exists and is active, else 404 |
| SchoolController.SortedListingStrict | School.js:9 | with unique names, a listing sorted by name is strictly increasing |
| SchoolController.ScopeGate | schoolController.js:159-167 | a school admin must be listed; anyone else must be a platform admin; else 403 |
| SchoolController.ListedAloneIsNotEnough | schoolController.js:160-167 | a listed account whose role is not admin is refused |
| SchoolController.RenameKeepsUnique | schoolController.js:169-175 | renaming to the same name or a name no school carries keeps names unique |
| SchoolController.DeactivatedNameStaysTaken | schoolController.js:115-118 | a school deactivated by deleteSchool leaves the active list, but its name still blocks createSchool |
| SchoolController.SchoolFromRequest | schoolController.js:121-134 | the given name, active, no alumni; admins are the given array (even empty) or the creator alone |
| SchoolController.CreateSchool | schoolController.js:92-146 | 403 unless platform admin, 400 for a name any school carries, 500 for an empty name, else the new school; names stay unique |
| SchoolController.DeleteSchool | schoolController.js:198-223 | 403 before the lookup, 404, then only `isActive` becomes false; names stay unique |
| SchoolController.ApplyField | schoolController.js:178-182 | a single key lands in the school; `_id` and `createdAt` are skipped |
| SchoolController.ApplyFields | schoolController.js:178-182 | `Object.keys(updateData).forEach` on the school: the keys applied in order (a definition; ApplyFieldsName and CopyFields state its effect) |
| SchoolController.NameKey | schoolController.js:170 | the body's name, absent exactly when no key names it |
| SchoolController.ApplyFieldsName | schoolController.js:178-182 | after the copy the name is the body's name, or the old one, and `createdAt` is unchanged |
| SchoolController.UpdateCanClearAdmins | schoolController.js:178-182 | the copy can empty `adminUsers` and reactivate a school |
| SchoolController.RenameGate | schoolController.js:169-175 | 400 exactly for a truthy new name other than the current one that some school carries |
| SchoolController.CopyFields | schoolController.js:178-182 | the loop applies every key in order |
| SchoolController.UpdateSchool | schoolController.js:149-195 | 404, scope, rename check, the copy and the `updatedAt` stamp, 500 for an empty name; `createdAt` unchanged; names stay unique |
| SchoolController.Promoted | schoolController.js:261-264 | alumni and users become school admins, other roles stay |
| SchoolController.AddSchoolAdmin | schoolController.js:226-274 | 404 school, scope, 404 user, 400 already listed; then the id is appended and the role promoted; an admin list free of repeats stays so |
| SchoolController.RemoveAdminGate | schoolController.js:281-312 | 404 aside: a school admin must be listed (403) and may not remove themselves (400); others must be platform admins (403); not listed (400); an emptied list (400) |
| SchoolController.LastAdminRule | schoolController.js:306-312 | the last-admin refusal happens exactly when the target is the only id listed |
| SchoolController.RemoveSchoolAdmin | schoolController.js:277-324 | the gate, then every occurrence is dropped; the list stays non-empty, loses the target and keeps a school admin requester; the user's role is unchanged |

## Left out

- Pagination, `populate`, and `countDocuments` are left out. The listings are sets of ids. Their sort orders are stated as predicates over a listing (`SortedFor`, `ForumsSorted`, `EventsByStart`, `SchoolsByName`). The database's sort itself is not modelled, and string order is by character code.
- Mongoose validation on save is not modelled:
  - required fields, enum values and `trim`;
  - the unique index on school names, which would also reject a name that only differs by surrounding spaces.
  
  The one exception is that a school saved with an empty name fails with 500. The enums are Dafny datatypes, so an arbitrary status string cannot be expressed.
- Dangling references are treated as present. A referenced user or school that `populate` resolves to null does not crash the model. The `schoolId` that is null on the event itself does.
- File uploads and the multer configuration are filesystem I/O. They are not part of this model: the logo, banner and attachment handlers.
- The agenda, sponsors, attachments and location coordinates of the documents are not modelled. The handlers only copy them.
- Routing and the `auth`/`checkRole` middleware are not part of this model. The requester is a parameter.
- The users collection is reduced to a role and a school per id.
- A request body's `Object.keys` is a list of typed field assignments. A key that names no schema field is not representable. Mongoose would ignore it anyway.
- Concurrency, and failure between two saves of one handler, are not modelled. Each handler runs alone, and each save succeeds except where a null is dereferenced.
- PostController.CreatePost: keeping the rules assumes that no stored post postdates the clock (`ClockNotBefore`) and that the reading for `lastPostAt` is not earlier than the one for the post's `createdAt`. Without these, a new post could fail to be its topic's latest, or be stamped before it was created.
- TopicModel.NewTopic: the `lastPostAt` and `createdAt` defaults of Topic.js are two clock readings in the source; the model takes one, so a new topic's `lastPostAt` equals its `createdAt`. Elsewhere, too, the defaults and assignments that one handler stamps together (a post's `createdAt` and `updatedAt`, `editedAt` and `updatedAt`) share one reading, and so do createTopic's new topic and its forum's `lastActivity`, which the source stamps after the topic is saved; no rule involves `lastActivity`. createPost is the exception, with a reading of its own for each of its three stamps.
- HandlePostReport: for the stale lookup, the model states the rules it keeps, and how they break when the reported post is strictly the latest. It makes no claim for a latest post that ties with another.
- An id that is not a valid ObjectId raises a cast error, answered 500. The model's ids are numbers, so this case cannot arise.
