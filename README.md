# Second Saturday in Dafny

Second Saturday is an app for small circles of friends. Each month, members answer their circle's
prompts with text, photos and video. A cron job locks every submission at the deadline, 10:59 UTC on
the month's second Saturday, and the answers are compiled into a newsletter that is mailed to the
circle. This project models the app's Convex backend and the client-side state and formatting logic
around it, and proves what each piece promises.

The backend modules are:

- `Store`: a Convex database as a class of tables keyed by document id, allocated in insertion order.
- `Submissions` and `Crons`: the submission, response and media tables with their guards, and the
  lock job.
- `Notifications`, `Newsletters`, `NewsletterHelpers`, `NewsletterReads` and `NewsletterEmails`: the
  reminder rules, newsletter listings, recipients, read marks and the monthly dispatch.
- `Circles`, `Memberships`, `Prompts`, `Users`, `Videos` and `E2ECleanup` (with `Cascade`): record
  lifecycles and cascade deletes.
- `Access` and `CycleIds`: the membership checks and the `YYYY-MM` cycle ids that these modules share.

Each mutation is a method that takes the `Database` object and changes its tables. When it fails it
returns `Err` and leaves every table unchanged, which is how a Convex transaction behaves.

The client modules follow the React components and hooks, one module per source file, except that `Countdown` joins the countdown hook with the component that shows it:

- `Dates`, `Countdown`, `AutoSaveIndicator`, `VideoThumbnail`, `BlockingUpload`, `PromptsEditor`,
  `MultiCircleSubmission`, `AdminDashboard`, `DatePicker`, `PromptResponseCard`, `CircleSettings`,
  `CompleteProfile` and `AccountSettings`.
- A component's state becomes a class whose methods are its handlers.
- A mutation the component calls is recorded as a list of calls, and its outcome is a parameter.

The supporting modules stand in for the platform:

- `Calendar` is the `Date` arithmetic of section 21.4.1 of ECMA-262, done on whole milliseconds and
  proleptic Gregorian days.
- `Text` covers `String(n)`, `padStart`, `parseInt`, `split`, `trim` and ASCII case mapping.
- `Sorting` is `Array.prototype.sort` with a numeric comparator, a stable sort by an integer key.
- `Wrappers` provides `Option` and `Result`.

Their helper lemmas have no rows below. The second-Saturday facts that every copy of the date
arithmetic relies on are listed.

## Model

| member | source | states |
|---|---|---|
| CycleIds.SplitFormat | convex/crons.ts:23 | the id `YYYY-MM` of a month splits at its one '-' into the year digits and the zero-padded month digits |
| CycleIds.ParseFormat | convex/newsletterEmails.ts:113-115 | reading back the year and month of the id of a month gives that year and month (round trip of format and split) |
| Access.MembershipOf | convex/submissions.ts:26-29 | the by_user_circle `.first()`: the earliest membership row of the user in the circle, none exactly when no row matches |
| Access.RequireMember | convex/submissions.ts:21-33 | succeeds with the earliest row exactly when it exists and has not been left; otherwise "Not a member of this circle" |
| Access.RequireAnyMembership | convex/newsletterReads.ts:53-58 | succeeds with a row of the user in the circle, fails with "Not a member of this circle" exactly when there is none |
| Access.RequireAdminMember | convex/notifications.ts:28-41 | not a member (no row or left) fails first with "Not a member of this circle"; a member passes exactly when the role is admin, else "Not an admin of this circle" |
| Access.RequireCircleAdmin | convex/circles.ts:67-75 | requireMembership first, then the role: a member passes exactly when admin, else "Admin access required" |
| Access.RequirePromptAdmin | convex/prompts.ts:44-57 | passes exactly when the earliest row has the admin role, whether or not it was left; else "Admin access required" |
| Access.RequireMemberIffActive | convex/submissions.ts:21-33 | with one row per user and circle, requireMembership admits exactly the users with an active row in the circle |
| Access.MembershipOfInsert | convex/memberships.ts:115-122 | inserting a row keeps every user's earliest row, except the new row becomes the earliest of its user and circle when they had none |
| Submissions.ValidateCycleId | convex/submissions.ts:36-50 | the checks run in the source's order: a string off the `\d{4}-\d{2}` pattern fails with the format message; one on the pattern whose year is outside 2024..2099 fails with the year message; one whose year is in range and month outside 1..12 fails with the month message; every failure carries one of the three messages |
| Submissions.ValidCycleIdIffMonth | convex/submissions.ts:36-50 | a cycle id is accepted exactly when it is the `YYYY-MM` id of a month of the years 2024 to 2099 |
| Submissions.ValidateResponseText | convex/submissions.ts:52-57 | passes exactly when the text has at most 500 characters (so '' and 500 pass), else "Response text must be 500 characters or less" |
| Submissions.MediaRows | convex/submissions.ts:334-337 | the by_response collect: exactly the media of the response, each once, in creation order |
| Submissions.CreateSubmissionGuard | convex/submissions.ts:67-87 | passes exactly when the caller is an active member, the cycle id is valid and no submission has the same user, circle and cycle |
| Submissions.CreateSubmission | convex/submissions.ts:62-99 | a failed guard returns its error and changes nothing; otherwise one new submission without lockedAt or submittedAt is inserted under a fresh id; one submission per user, circle and cycle is preserved |
| Submissions.GetPromptsForCircle | convex/submissions.ts:285-303 | a caller who is not an active member is refused; a member gets exactly the circle's active prompts in ascending order |
| Submissions.UpdateResponseGuard | convex/submissions.ts:112-133 | passes exactly when the text fits, the submission exists, is the caller's and is unlocked, and the prompt exists in the submission's circle |
| Submissions.ResponseTo | convex/submissions.ts:136-141 | the by_submission_prompt `.first()`: a response of that submission and prompt, none exactly when there is no such row |
| Submissions.UpdateResponse | convex/submissions.ts:106-176 | a failed guard changes nothing; otherwise the existing response of (submission, prompt) is patched and its id returned, or one is inserted when there was none; the submission's updatedAt is touched; one response per prompt is preserved |
| Submissions.LockSubmission | convex/submissions.ts:182-208 | not found, not the owner and already locked fail in that order with no change; otherwise lockedAt, submittedAt and updatedAt all become now |
| Submissions.MediaOwnerGuard | convex/submissions.ts:320-331 | passes exactly when the response and its submission exist, the submission is the caller's and it is unlocked |
| Submissions.AddMediaToResponse | convex/submissions.ts:309-360 | a failed guard or three existing media refuse the call with no change; otherwise the new item takes the order equal to the count; numbering 0..n-1 with n at most 3 is preserved |
| Submissions.AddKeepsNumbering | convex/submissions.ts:334-345 | giving the next item the current count as order keeps every response's media numbered 0..n-1 with n at most 3 |
| Submissions.RemoveMediaFromResponse | convex/submissions.ts:365-406 | the guards fail with no change; otherwise the item is deleted and the rest of its response renumbered 0..k-1 in their old order, other responses' media untouched; numbering is preserved |
| Submissions.RemoveAndRenumber | convex/submissions.ts:388-403 | the delete followed by the renumbering loop leaves exactly the state RemovedAndRenumbered describes |
| Submissions.Renumber | convex/submissions.ts:397-402 | the loop: item i of the sorted list gets order i, every other media row is unchanged |
| Submissions.RenumberedResponses | convex/submissions.ts:397-402 | renumbering moves no item to another response: the renumbered ones are the removed item's response's, the rest are not |
| Calendar.SecondSaturdayOf | convex/crons.ts:27-30 | `1 + (6 - weekday(1st) + 7) % 7 + 7` always lies in 8..14 |
| Calendar.SecondSaturdayIsSecondSaturday | convex/crons.ts:27-30 | the day computed is a valid date of the month, a Saturday, and of days 1..14 exactly it and the day a week before are Saturdays: it is the second Saturday |
| Calendar.SaturdayInSecondWeekIff | convex/newsletterEmails.ts:176-181 | "UTC weekday is Saturday and UTC day in 8..14" holds exactly on the month's second Saturday |
| Calendar.NextMonth | convex/newsletterEmails.ts:116-120 | the month after: December rolls over to January of the next year, any other month to month + 1 of the same year |
| Calendar.DeadlineFacts | convex/crons.ts:31 | the deadline falls on the month's second Saturday, a Saturday, at 10:59:00 UTC |
| Calendar.DeadlinesIncrease | convex/crons.ts:27-31 | every month's deadline comes before the next month's |
| Crons.CycleDeadlineOfMonth | convex/crons.ts:23-31 | for the id of a month (year 100 on), the deadline the job derives is 10:59 UTC on that month's second Saturday |
| Crons.FirstOfMonthWeekday | convex/crons.ts:27-30 | `Date.UTC(year, month, 1)` is valid and its weekday gives the second Saturday's day |
| Crons.DeadlineUtc | convex/crons.ts:31 | `Date.UTC(year, month, secondSaturdayDay, 10, 59, 0)` is the month's deadline |
| Crons.AfterLockJob | convex/crons.ts:9-48 | the job's effect on the table: the same ids, each due submission locked, the rest unchanged |
| Crons.LockPastDeadlineSubmissions | convex/crons.ts:9-48 | the new table is AfterLockJob of the old, and lockedCount is the number of submissions that were due, which is the number patched |
| Crons.LockEach | convex/crons.ts:20-45 | the loop over the unlocked submissions in scan order leaves LockedAlong of them, and counts the due ones |
| Crons.LockIfDue | convex/crons.ts:33-43 | one step: it locks exactly when the deadline has passed, patching lockedAt and updatedAt and keeping submittedAt; otherwise no change |
| Crons.LockedAlongAt | convex/crons.ts:20-45 | after visiting ids, each visited due submission is locked and every other document is untouched |
| Crons.LockJobEffect | convex/crons.ts:15-43 | a submission changes exactly when it was unlocked and due; a locked one is left as it was; submittedAt, ids and cycle never change; a due one gets lockedAt = updatedAt = now |
| Crons.LockedIffPastDeadline | convex/crons.ts:23-33 | for a cycle id createSubmission accepts, the job locks exactly the unlocked submissions with now at or after 10:59 UTC on the month's second Saturday |
| Crons.UnreadableCycleNeverLocked | convex/crons.ts:23-33 | a cycle id whose parts do not parse gives NaN deadlines: such a submission is never locked |
| Crons.LockJobIdempotent | convex/crons.ts:15-33 | a second run at the same time changes nothing and finds nothing due |
| Crons.LockJobKeepsOneSubmission | convex/crons.ts:34-41 | locking changes no (user, circle, cycle) key, so submissions stay unique per key |
| Crons.LockRunsAtDeadlineBeforeNewsletters | convex/crons.ts:51-65 | the 10:59 Saturday cron fires at every month's deadline; the 11:00 newsletter cron fires one minute later on the same second Saturday |
| Crons.RemindersThreeDaysBefore | convex/crons.ts:67-73 | the Wednesday 11:00 reminder cron fires three days before a Saturday |
| Notifications.PreferencesOf | convex/notifications.ts:56-59 | the by_user `.first()`: the user's earliest preferences row, none exactly when the user has no row |
| Notifications.GetNotificationPreferences | convex/notifications.ts:51-70 | no row gives both preferences true; otherwise the pair stored in the user's row |
| Notifications.UpdateNotificationPreferences | convex/notifications.ts:101-133 | an upsert keyed by user: an existing row gets the two flags and updatedAt = now, keeping createdAt; otherwise one row with createdAt = updatedAt = now is inserted; reading back gives the pair written; one row per user is preserved |
| Notifications.PreferencesAfterPatch | convex/notifications.ts:115-120 | the patched row stays the user's row, and rows stay unique per user |
| Notifications.PreferencesAfterInsert | convex/notifications.ts:121-128 | a row inserted for a user without one becomes that user's row, and rows stay unique per user |
| Notifications.ReminderCount | convex/notifications.ts:75-92 | getAdminReminderCount: the number of reminder rows of that admin, circle and cycle |
| Notifications.InsertKeepsCap | convex/notifications.ts:169-180 | inserting a reminder whose key has fewer than three keeps every (admin, circle, cycle) at three or fewer |
| Notifications.DeleteKeepsCap | convex/notifications.ts:516-525 | deleting reminders keeps every key at three or fewer |
| Notifications.AdminReminderGuard | convex/notifications.ts:157-191 | the checks in their order: not an active admin fails with requireAdmin's message, then three reminders already sent fails with the maximum message; passes exactly when the caller is an active admin under the cap and the target has an active, unblocked membership |
| Notifications.SendAdminReminder | convex/notifications.ts:151-207 | a failed check leaves the reminders as they were (the early insert is rolled back); otherwise one reminder row naming the target is inserted and the push goes to the target's player id, if any; the cap of three is preserved |
| Notifications.BulkReminderGuard | convex/notifications.ts:219-233 | passes exactly when the caller is an active admin with fewer than three reminders; an admin at the cap gets the maximum message |
| Notifications.SendBulkAdminReminder | convex/notifications.ts:213-265 | a failed check changes nothing; otherwise one reminder row without target is inserted and the push list is the player ids of the non-submitters, in order; notifiedCount is its length; the cap is preserved |
| Notifications.ActiveMembers | convex/notifications.ts:491-500 | exactly the circle's memberships that are neither left nor blocked, in index order |
| Notifications.UserIds | convex/notifications.ts:293-297 | the users of the listed submissions: a user is in the set exactly when one of the submissions is theirs |
| Notifications.NonSubmitters | convex/notifications.ts:274-301 | exactly the circle's memberships that are not left, not blocked and whose user has no submission of the cycle with submittedAt set, in index order |
| Notifications.PlayersMembers | convex/notifications.ts:371-382 | a player id is on the list exactly when it belongs to a listed member who has one and accepts the push (no row counts as accepting); at most one per member |
| Notifications.CollectPlayers | convex/notifications.ts:367-383 | the loop over the members, pushing each accepting member's player id in order |
| Notifications.ComingSaturdayIff | convex/notifications.ts:328-335 | the test holds exactly when now plus three days is a valid time on the second Saturday of its month |
| Notifications.SendSubmissionReminder | convex/notifications.ts:341-401 | nothing unless the coming Saturday is a second Saturday; then one push per active circle, in order, to its non-submitters for the current UTC month who accept reminders and have a player id, when there are any |
| Notifications.RemindEach | convex/notifications.ts:354-399 | the loop over the active circles produces ReminderPushes of them, in order |
| Notifications.ReminderPushesEligible | convex/notifications.ts:367-382 | every push is for a listed circle, and each of its player ids belongs to an active, non-submitting member of that circle who accepts reminders |
| Notifications.NewsletterReadyPlayers | convex/notifications.ts:407-440 | the player ids of the circle's active members who accept newsletter-ready pushes, in order |
| Notifications.CleanupAdminReminders | convex/notifications.ts:510-533 | deletes exactly the reminders of the circle and cycle, from any admin, keeping every other row as it was |
| Notifications.DeleteEach | convex/notifications.ts:522-524 | the loop deletes exactly the listed rows and keeps the others unchanged |
| Notifications.CleanupClearsCounts | convex/notifications.ts:510-533 | after cleanup every admin's reminder count for the circle and cycle is 0 |
| NewsletterEmails.IssueDateOfMonth | convex/newsletterEmails.ts:36-52 | the date label of the id of a month is `<MonthName> <year>` |
| NewsletterEmails.SubjectNamesIssue | convex/newsletterEmails.ts:78 | the subject is the circle name, then " - Issue #", then the digits of the issue number, which read back as that number |
| NewsletterEmails.SentCountBounds | convex/newsletterEmails.ts:71-85 | the count of successful sends is at most the number of recipients, and equals it exactly when every send succeeded |
| NewsletterEmails.Emails | convex/newsletterEmails.ts:73-77 | one address per recipient, in order |
| NewsletterEmails.SendNewsletter | convex/newsletterEmails.ts:23-95 | a missing newsletter or circle is an error before anything is written; otherwise every recipient is mailed the subject and date, and the newsletter's recipientCount becomes the number of successful sends, nothing else changing |
| NewsletterEmails.Deliver | convex/newsletterEmails.ts:70-91 | the send loop and updateRecipientCount: the mail sent, and only recipientCount written |
| NewsletterEmails.CountSent | convex/newsletterEmails.ts:71-85 | the loop counts exactly the successful sends |
| NewsletterEmails.RecipientCountAtMostRecipients | convex/newsletterEmails.ts:71-91 | the recorded recipientCount is at most the number of recipients, each of whom is addressed |
| NewsletterEmails.SendMissedMonthEmail | convex/newsletterEmails.ts:100-171 | a missing circle is an error; otherwise every recipient gets "No submissions this month for <circle>" with the next deadline's label |
| NewsletterEmails.NextDeadlineOfMonth | convex/newsletterEmails.ts:113-140 | for the id of a month the label names the next month (December rolling over to January of the next year), its second Saturday's day and its year |
| NewsletterEmails.IsSecondSaturdayIff | convex/newsletterEmails.ts:176-181 | isSecondSaturday holds exactly on the second Saturday of the UTC month |
| NewsletterEmails.ProcessingFollowsDeadline | convex/newsletterEmails.ts:193-199 | on a second Saturday at or after 11:00 UTC the cycle built from the UTC year and month has a deadline, already past |
| NewsletterEmails.ScheduledJobsFacts | convex/newsletterEmails.ts:206-234 | at most one job per circle, exactly one when none failed to compile; a missed-month email exactly for the circles that missed the month, a send exactly for the compiled newsletters; a failed circle does not stop the others |
| NewsletterEmails.ProcessNewsletters | convex/newsletterEmails.ts:187-238 | nothing unless now is a second Saturday; then ScheduledJobs over the active circles for the cycle of the current UTC month |
| NewsletterEmails.ScheduleEach | convex/newsletterEmails.ts:206-234 | the loop over the circles schedules ScheduledJobs of them, in order |
| Newsletters.GetNewsletterById | convex/newsletters.ts:35-64 | a missing id gives null before membership is checked; a caller who is not an active member is refused; otherwise the newsletter, its circle when it exists, and isRead exactly when a read record exists |
| Newsletters.Archive | convex/newsletters.ts:72-80 | exactly the circle's published newsletters |
| Newsletters.GetNewslettersByCircle | convex/newsletters.ts:66-109 | non-members are refused; otherwise exactly the circle's published newsletters, each once, newest first by publishedAt falling back to createdAt, each with isRead exactly when a read record exists |
| Newsletters.ArchiveFacts | convex/newsletters.ts:78-80 | the archive lists newsletters of the table, each once, ordered newest first |
| Newsletters.LatestOf | convex/newsletters.ts:117-121 | the `.order('desc').first()`: the most recently created newsletter of the circle, none exactly when the circle has none |
| Newsletters.GetLatestNewsletter | convex/newsletters.ts:111-134 | non-members are refused; the result is null exactly when the circle has no newsletter or its most recent one is not published; otherwise that one, with isRead |
| Newsletters.LatestUnpublishedHidesOlder | convex/newsletters.ts:117-123 | an older published newsletter does not show when the most recent one is a draft: the result is null |
| Newsletters.SetEmailUnsubscribed | convex/newsletters.ts:136-156 | non-members are refused with no change; otherwise only the caller's membership row has emailUnsubscribed set (unsubscribe) or cleared (resubscribe) |
| Newsletters.SwitchKeepsMembership | convex/newsletters.ts:136-156 | after the switch the caller is still a member through the same row, and switching again the same way changes nothing (idempotent) |
| Newsletters.UnsubscribedGetsNoEmail | convex/newsletterHelpers.ts:63-65 | an unsubscribed membership is no longer among the newsletter's recipients |
| NewsletterHelpers.SubscribedMembers | convex/newsletterHelpers.ts:58-65 | exactly the circle's memberships that are not left, not blocked and not unsubscribed, in index order |
| NewsletterHelpers.RecipientListMembers | convex/newsletterHelpers.ts:30-36 | at most one recipient per membership, and a recipient is listed exactly when it is the email and name of a listed member's user with a non-empty email |
| NewsletterHelpers.ResolveRecipients | convex/newsletterHelpers.ts:67-73 | the loop pushes the recipients of the memberships in order |
| NewsletterHelpers.GetCircleSendData | convex/newsletterHelpers.ts:50-81 | a missing circle is an error; otherwise the circle's name and its recipients |
| NewsletterHelpers.GetNewsletterSendData | convex/newsletterHelpers.ts:8-45 | a missing newsletter, then a missing circle, is an error; otherwise the newsletter and its circle's send data |
| NewsletterHelpers.RecipientsAreSubscribed | convex/newsletterHelpers.ts:19-36 | a recipient is listed exactly when a subscribed membership of the circle has a user with that email |
| NewsletterHelpers.ActiveCircles | convex/newsletterHelpers.ts:86-92 | exactly the circles without archivedAt, in scan order |
| NewsletterHelpers.UpdateRecipientCount | convex/newsletterHelpers.ts:97-105 | only the newsletter's recipientCount changes; a missing id is an error with no change |
| NewsletterReads.ReadOf | convex/newsletterReads.ts:61-66 | the by_user_newsletter `.first()`: a read record of the user and newsletter, none exactly when there is no such row |
| NewsletterReads.IsReadIff | convex/newsletters.ts:47-61 | isRead is true exactly when a read record exists for the user and newsletter |
| NewsletterReads.Items | convex/newsletters.ts:82-105 | one item per listed newsletter, in order, with its isRead |
| NewsletterReads.MarkNewsletterRead | convex/newsletterReads.ts:44-77 | a caller without any membership row is refused; an existing mark returns its id and inserts nothing; otherwise one mark is inserted; one mark per user and newsletter is preserved |
| NewsletterReads.ReadAfterInsert | convex/newsletterReads.ts:70-75 | the inserted mark is found afterwards, and marks stay unique per user and newsletter |
| NewsletterReads.GetNewslettersByDate | convex/newsletterReads.ts:79-123 | a caller without a membership row is refused; otherwise exactly the circle's newsletters with publishedAt set and between the month's first and last millisecond, both inclusive, each with isRead |
| NewsletterReads.MonthWindowIff | convex/newsletterReads.ts:96-97 | a time lies between startOfMonth and endOfMonth exactly when its date is in that month |
| NewsletterReads.ByDateIsPublishedInMonth | convex/newsletterReads.ts:96-106 | a newsletter is listed exactly when it is the circle's, has a publishedAt and was published in the month asked for |
| Prompts.LibraryPrompts | convex/prompts.ts:60-65 | the library's prompts, flattened: every prompt of every category appears, nothing else does, and the count is the sum of the categories' sizes |
| Prompts.LibraryFitsACircle | convex/prompts.ts:60-72 | the library has four categories of two prompts each: eight prompts, the most a circle may have, each non-empty and within the 200-character limit |
| Prompts.ActiveInOrder | convex/prompts.ts:87-92 | the circle's active prompts, each once, in ascending order |
| Prompts.SortedActive | convex/prompts.ts:92 | filtering the circle's rows to active ones and sorting them by order lists exactly the active prompts, ascending |
| Prompts.OrderedPrompts | convex/prompts.ts:92 | after the sort, every prompt's order is at most the next one's |
| Prompts.GetCirclePrompts | convex/prompts.ts:74-94 | a caller with no membership row for the circle is refused; otherwise the circle's active prompts in ascending order |
| Prompts.ValidatePrompts | convex/prompts.ts:111-119 | passes exactly for 1 to 8 prompts each of at most 200 characters; a wrong count is reported before a long text |
| Prompts.AppliedSucceedsIff | convex/prompts.ts:134-150 | the create-or-update loop completes exactly when every entry that names an id names an existing prompt |
| Prompts.AppliedKeys | convex/prompts.ts:134-150 | the loop keeps every existing prompt and inserts one new prompt per entry without id, under fresh ids |
| Prompts.AppliedKeeps | convex/prompts.ts:134-150 | a prompt no entry names is left as it was |
| Prompts.AppliedWrites | convex/prompts.ts:135-148 | each entry's prompt ends with the entry's text and order and active; an entry without id creates a prompt of the circle stamped with now |
| Prompts.UpdatePrompts | convex/prompts.ts:96-153 | a non-admin is refused, then a wrong count or a long text, with no change; otherwise every prompt of the circle is deactivated and the entries applied, or the call fails on a missing prompt with no change |
| Prompts.DeactivateAll | convex/prompts.ts:121-129 | every prompt of the circle is patched inactive; nothing else changes |
| Prompts.DeactivateEach | convex/prompts.ts:127-129 | the loop patches exactly the listed prompts inactive |
| Prompts.ApplyEntries | convex/prompts.ts:134-150 | the loop's effect is the specification of the create-or-update pass, failing exactly when it does |
| Prompts.SaveDeactivatesTheRest | convex/prompts.ts:121-150 | after a save every prompt of the circle not in the list is inactive, and other circles' prompts are untouched |
| Prompts.SaveActivatesEntries | convex/prompts.ts:121-150 | after a save every listed prompt is active with its new text and order |
| Prompts.TargetsDiffer | convex/prompts.ts:134-150 | two entries without id create two different prompts |
| Circles.DefaultPromptRows | convex/circles.ts:6-11 | the default prompt rows: one per id from start on, the i-th holding the i-th default text at order i, active |
| Circles.CreateCircle | convex/circles.ts:77-129 | a name outside 3 to 50 characters is refused with no change; otherwise the circle, the caller's admin membership and the four default prompts are inserted under fresh ids and the circle's id returned |
| Circles.InsertDefaultPrompts | convex/circles.ts:115-125 | the loop inserts the four default prompts in order under consecutive ids |
| Circles.CreatedCircleFacts | convex/circles.ts:95-125 | right after creation the creator passes the admin check and the circle's prompts are the four defaults in order |
| Circles.CreatorIsAdmin | convex/circles.ts:107-113 | the creator of a circle passes its admin check |
| Circles.DefaultPromptsInOrder | convex/circles.ts:115-125 | the circle's active prompts after creation are the four default rows in insertion order |
| Circles.DefaultsAfterCreate | convex/circles.ts:115-125 | among the ids up to the last insert, exactly the four new rows are the circle's active prompts, with orders 0 to 3 |
| Circles.Updated | convex/circles.ts:143-157 | the patched circle: updatedAt is now, each given field replaces the stored one, every other field is kept |
| Circles.UpdateCircle | convex/circles.ts:131-160 | a non-admin is refused, then a given name outside 3 to 50 characters, then a missing circle, with no change; otherwise only that circle is patched |
| Circles.RegenerateInviteCode | convex/circles.ts:162-175 | a non-admin is refused, then a missing circle; otherwise only the circle's invite code and updatedAt change and the new code is returned |
| Circles.ActiveMembers | convex/circles.ts:273-278 | exactly the circle's memberships that are not left, in index order |
| Circles.BatchMembers | convex/circles.ts:205-209 | at most 200 rows, each an active membership of the circle, in index order |
| Circles.BatchIsAllWhenSmall | convex/circles.ts:205-209 | when the circle has at most 200 membership rows the batch is all of its active members |
| Circles.MemberNames | convex/circles.ts:211-216 | the first five batch members' display names (name, else email, else 'Unknown'), in order |
| Circles.GetCirclesByUser | convex/circles.ts:177-252 | no signed-in user gives an empty list |
| Circles.SummaryOfFacts | convex/circles.ts:196-246 | each card belongs to one of the user's memberships, shows a circle that exists and is not archived, names at most five members of at most 200 counted, and hasUnread holds exactly when the circle's latest newsletter is unread |
| Circles.CirclesByUserSound | convex/circles.ts:177-252 | every card listed comes from a membership of the caller that is not left, with that membership's role, for a live circle |
| Circles.CirclesByUserComplete | convex/circles.ts:196-250 | every membership of the caller that is not left, of a circle that exists and is not archived, gives a card |
| Circles.SummaryOfLive | convex/circles.ts:199-246 | a membership of a live circle gives exactly one card with its circle and role |
| Circles.GetCircle | convex/circles.ts:254-294 | a result exactly when the caller is an active member and the circle exists; it carries the caller's role, the count of active members and the count of published newsletters |
| Circles.CircleWithCode | convex/circles.ts:299-302 | the first circle with that invite code, none exactly when no circle has it |
| Circles.GetCircleByInviteCode | convex/circles.ts:296-326 | null exactly when no circle has the code; otherwise that circle's name and description, its count of active members and its admin's display name |
| Circles.MemberCountsAgree | convex/circles.ts:205-209 | the dashboard's member count never exceeds the circle page's, and equals it for circles of at most 200 membership rows |
| Memberships.NewMember | convex/memberships.ts:115-120 | the inserted row: the caller in the circle, role member, joined now, neither left, blocked nor unsubscribed |
| Memberships.JoinCircle | convex/memberships.ts:94-124 | an unknown code is refused, then an archived circle, with no change; an existing membership row, even a left one, gives alreadyMember with no change; otherwise one member row is inserted |
| Memberships.JoinGivesMembership | convex/memberships.ts:108-120 | after joining the caller has a membership of the circle, and every other user's lookup is unchanged |
| Memberships.SecondJoinIsAlreadyMember | convex/memberships.ts:108-113 | joining twice inserts one row only: the second join changes nothing |
| Memberships.JoinKeepsOneMembership | convex/memberships.ts:108-120 | joining keeps at most one membership row per user and circle |
| Memberships.LeftMemberStaysLeft | convex/memberships.ts:108-113 | a member who left cannot rejoin by code: nothing is inserted and the member check still refuses them |
| Memberships.IntendedJoin | test/integration/memberships.test.ts:20-37 | corrected: refused with 'You have been blocked from this circle' exactly for a blocked row; alreadyMember exactly for an active row; on success the caller is an active member and every other row is unchanged |
| Memberships.Rejoined | e2e/membership-rejoin.spec.ts:36-41 | a rejoined row has leftAt cleared and joinedAt now, and keeps its user, circle, role and blocked flag |
| Memberships.IntendedJoinVersusAsWritten | convex/memberships.ts:108-122 | for a newcomer the intended join is the join as written; for a member who left and is not blocked, the join as written leaves them outside and the intended one readmits them with alreadyMember false |
| Memberships.NewMemberIsNoAdmin | convex/memberships.ts:115-120 | a new joiner passes the member check and fails the admin check |
| Memberships.EntryOf | convex/memberships.ts:63-75 | an entry carries the membership's user, role and joinedAt, the user's display name and image |
| Memberships.GetCircleMembers | convex/memberships.ts:44-80 | a caller without a membership row, left or not, is refused; otherwise the entries of the circle's memberships |
| Memberships.CircleEntries | convex/memberships.ts:57-78 | one entry per membership row of the circle, left members included, and nothing else, in the order of the rows by ascending id |
| Memberships.GetMembershipCount | convex/memberships.ts:82-92 | the number of the circle's membership rows, left members included |
| Memberships.MembershipCountAgrees | convex/memberships.ts:57-92 | the member list is as long as the membership count, and the count of active members never exceeds it |
| Users.UserByClerkId | convex/users.ts:55-63 | the by_clerk_id `.first()`: the first user with that Clerk id, none exactly when no user has it |
| Users.GetCurrentUser | convex/users.ts:65-76 | no identity gives null; otherwise the user with the identity's Clerk id, if any |
| Users.Patched | convex/users.ts:21-26 | the patched user takes the new email, name and image and updatedAt now; every other field is kept |
| Users.NewUser | convex/users.ts:30-37 | the inserted user has the given fields, created and updated now, and no avatar, time zone or push id |
| Users.UpsertUser | convex/users.ts:5-39 | an existing user with the Clerk id is patched and its id returned; otherwise a user is inserted under a fresh id |
| Users.UpsertKeepsOneUser | convex/users.ts:13-37 | upserting keeps at most one user per Clerk id and keeps an existing user's createdAt |
| Users.UpsertTwiceSameId | convex/users.ts:13-37 | after an upsert the Clerk id finds the returned user, so upserting again patches the same row |
| Users.DeleteUser | convex/users.ts:41-53 | the user with the Clerk id is deleted if there is one; otherwise nothing changes |
| Users.DeleteUserRemovesClerkId | convex/users.ts:41-53 | after deleteUser no user has that Clerk id, when there was at most one before |
| Users.ProfilePatched | convex/users.ts:93-111 | a given name replaces the stored one; a given avatar replaces the image and avatar id only when its URL resolves; updatedAt is now and all else is kept |
| Users.StorageAfterProfile | convex/users.ts:99-103 | the old avatar file is deleted exactly when a new avatar is given and an old one was stored |
| Users.AvatarUrl | convex/users.ts:104 | a URL exactly when an avatar id is given and its file is in storage |
| Users.UpdateProfile | convex/users.ts:78-114 | no identity, then no user, is an error with no change; otherwise the storage and the user's row change as the two functions above say and the user's id is returned |
| Users.PatchProfile | convex/users.ts:93-111 | the patch and the old avatar's deletion, in the source's order |
| Users.SameAvatarIsLost | convex/users.ts:99-108 | sending the avatar id already stored deletes its file first, so the URL lookup fails and the user keeps a dangling avatar id and its old image |
| Users.SetTimezone | convex/users.ts:116-130 | no identity, then no user, is an error with no change; otherwise only the user's timezone and updatedAt change |
| Users.Left | convex/users.ts:162-166 | a membership that has not been left gets leftAt now; a left one is kept with its original leftAt |
| Users.LeaveAll | convex/users.ts:155-166 | exactly the user's memberships not yet left get leftAt now; every other row is kept |
| Users.LeaveAllLeavesEverything | convex/users.ts:155-166 | afterwards every membership of the user is left, earlier leave dates are kept and other users' rows are untouched |
| Users.LeaveMemberships | convex/users.ts:156-166 | the loop's effect is LeaveAll |
| Users.ActiveAdminCircles | convex/users.ts:145-150 | exactly the circles the user administers that are not archived |
| Users.DeleteAccountCheck | convex/users.ts:135-153 | no identity, then no user, then an active administered circle, is an error; otherwise the user's id |
| Users.DeleteAccount | convex/users.ts:132-232 | a refused deletion changes nothing; otherwise the user's memberships are left, their submissions with responses, media and files deleted, their videos, avatar file, read marks and user row deleted |
| Users.EraseAccount | convex/users.ts:155-230 | the deletion steps in the source's order, with the effect stated by AccountErased |
| Users.DeleteSubmissionsOf | convex/users.ts:169-197 | exactly the user's submissions, their responses, those responses' media and the media's files are deleted |
| Users.DeleteVideosOf | convex/users.ts:199-207 | exactly the videos uploaded under the user's Clerk id are deleted |
| Users.DeleteReadsOf | convex/users.ts:214-221 | exactly the user's read marks are deleted |
| Users.DeleteAccountLeavesNoOrphans | convex/users.ts:168-197 | after the deletion no submission of the user remains and every remaining response and medium still has its parent |
| E2ECleanup.TestNames | convex/e2eCleanup.ts:14-47 | known names and names starting "E2E " are test circles; "E2E" alone, other case and other names are not |
| E2ECleanup.Compose | convex/e2eCleanup.ts:72-178 | cleaning one more circle after a set of circles erases the union and adds that circle's counters to the totals |
| E2ECleanup.ErasedNothing | convex/e2eCleanup.ts:60-70 | before the loop nothing is erased and every counter is zero |
| E2ECleanup.DeleteNewsletters | convex/e2eCleanup.ts:130-145 | the listed newsletters and exactly their reads are deleted, and the reads are counted |
| E2ECleanup.CleanupResponses | convex/e2eCleanup.ts:73-128 | the circle's prompts and submissions go, with every response to either and those responses' media and files, each counted once |
| E2ECleanup.CleanupOwned | convex/e2eCleanup.ts:130-165 | the circle's newsletters with their reads, its memberships and its videos are deleted and counted |
| E2ECleanup.DeleteCircleImages | convex/e2eCleanup.ts:167-176 | the circle row and the files of its icon and cover are deleted, and nothing else |
| E2ECleanup.CleanupCircle | convex/e2eCleanup.ts:72-178 | everything hanging off one test circle is erased and counted, and nothing else |
| E2ECleanup.CleanupCircles | convex/e2eCleanup.ts:72-178 | the loop over the matched circles erases all of them and reports the summed counters |
| E2ECleanup.DryRunOvercounts | convex/e2eCleanup.ts:84-124 | as written, a dry run over a circle with a response both to its prompt and in its submission reports more responses than a real run deletes |
| E2ECleanup.DryRun | convex/e2eCleanup.ts:54-178 | a dry run reports exactly the counters a real run over the same tables reports |
| E2ECleanup.CleanupE2EData | convex/e2eCleanup.ts:49-186 | dryRun defaults to false; the matched circles are the test circles in scan order; a dry run changes nothing; a real run erases exactly the matched circles' data; the counters are those of that erasure, in a dry run too (the corrected dry run) |
| Videos.NewVideo | convex/videos.ts:29-38 | the inserted record has the given upload, user, title and circle, status 'uploading', created and updated now, and no asset, playback, duration, ratio or error |
| Videos.CreateVideo | convex/videos.ts:21-40 | one record is inserted under a fresh id, which is returned |
| Videos.VideoByUpload | convex/videos.ts:92-95 | the first video with the upload id, none exactly when there is none |
| Videos.VideoByAsset | convex/videos.ts:121-124 | the first video with the asset id, none exactly when there is none |
| Videos.WithAssetPatch | convex/videos.ts:102-106 | the asset id and status are set and updatedAt is now; the rest is kept |
| Videos.ReadyPatch | convex/videos.ts:131-137 | playback id, duration and aspect ratio are set, status 'ready', updatedAt now; the rest is kept |
| Videos.ErrorPatch | convex/videos.ts:160-164 | status 'error' with the error text, updatedAt now; the rest is kept |
| Videos.UpdateVideoAsset | convex/videos.ts:85-110 | an unknown upload id returns null with no change; otherwise only that video is patched and its id returned |
| Videos.UpdateVideoReady | convex/videos.ts:113-141 | an unknown asset id returns null with no change; otherwise only that video is patched ready |
| Videos.UpdateVideoError | convex/videos.ts:144-168 | an unknown asset id returns null with no change; otherwise only that video is marked failed |
| Videos.UploadThenAssetThenReady | convex/videos.ts:21-141 | the lifecycle: a created video is found by its upload id, then by its asset id, and ends ready with its playback id, keeping its upload id and creation time |
| Videos.AssetThenError | convex/videos.ts:85-168 | a video given an asset can be found by it and marked failed |
| Cascade.DeleteResponseMedia | convex/users.ts:181-191 | exactly the response's media and their files are deleted, and counted |
| Cascade.DeleteMediaList | convex/e2eCleanup.ts:90-94 | the listed media and their files are deleted, one count each |
| Cascade.DeleteResponses | convex/e2eCleanup.ts:84-97 | the listed responses, their media and the media's files are deleted and counted |
| Cascade.DeleteResponsesOf | convex/e2eCleanup.ts:80-97 | exactly the responses of one prompt or submission, with their media and files, are deleted and counted |
| Cascade.DeleteSubmissions | convex/e2eCleanup.ts:107-128 | the listed submissions and every response in them, with media and files, are deleted |
| Cascade.DeletePrompts | convex/e2eCleanup.ts:78-100 | the listed prompts and every response to them, with media and files, are deleted |
| Cascade.ParentsGoneNoOrphans | convex/e2eCleanup.ts:78-128 | after the loop no remaining response belongs to a deleted parent and every remaining medium still has its response |
| Cascade.DeleteVideos | convex/e2eCleanup.ts:162-165 | exactly the listed videos are deleted |
| Cascade.DeleteNewsletterReads | convex/e2eCleanup.ts:139-142 | exactly the listed reads are deleted |
| Cascade.DeleteMemberships | convex/e2eCleanup.ts:152-155 | exactly the listed memberships are deleted |
| Dates.MidnightFacts | src/lib/dates.ts:4-8 | getSecondSaturday gives midnight of a Saturday that is the month's second Saturday |
| Dates.GetSecondSaturdayIs | src/lib/dates.ts:4-8 | for a zero-based month, getSecondSaturday is midnight of that month's second Saturday |
| Dates.MonthOverflow | src/lib/dates.ts:27 | month 12 rolls over into January of the next year, as the Date constructor does |
| Dates.FollowingMonth | src/lib/dates.ts:27 | `getSecondSaturday(year, month + 1)` is the second Saturday of the month after |
| Dates.AsWrittenSkipsSecondSaturday | src/lib/dates.ts:15-28 | as written, any moment after midnight on a second Saturday gives next month's second Saturday, a later day, where the corrected function gives today |
| Dates.NextSecondSaturdayAsWrittenIs | src/lib/dates.ts:15-28 | as written: this month's second Saturday while from is no later than its midnight, next month's from the millisecond after |
| Calendar.SetUtcHours | src/components/submissions/DeadlineCountdown.tsx:19-20 | the result is the same UTC day at the given time, and it is valid exactly when the date was and the new time is within TimeClip's range |
| Dates.NextSecondSaturdayIs | src/lib/dates.ts:15-28 | corrected: this month's second Saturday while the day is on or before it, next month's after it |
| Dates.NextSecondSaturdayFacts | src/lib/dates.ts:10-28 | corrected: the result is always a second Saturday at midnight, never on an earlier day than from, and today when from is on a second Saturday |
| Countdown.Compute | src/hooks/useDeadlineCountdown.ts:28-42 | past exactly when no time is left, with all zeros and not urgent; otherwise hours, minutes and seconds are below 24, 60 and 60 and with the days make up the remaining time to the whole second; urgent exactly under one hour left |
| Countdown.Decompose | src/hooks/useDeadlineCountdown.ts:35-38 | the four fields are in range and add back up to the remaining time, rounded down to the second |
| Countdown.CountdownDecreases | src/hooks/useDeadlineCountdown.ts:28-42 | the seconds shown never go up as time passes, and once locked the countdown stays locked |
| Countdown.DisplayReadsBack | src/components/submissions/DeadlineCountdown.tsx:34-43 | reading the d, h, m and s amounts of the display back gives the seconds left: no unit is dropped or misplaced |
| Countdown.ComputedDisplay | src/components/submissions/DeadlineCountdown.tsx:23-43 | the display shows the remaining time in whole seconds |
| Countdown.ToneOfCompute | src/components/submissions/DeadlineCountdown.tsx:46-62 | destructive once the deadline has come, amber in its last hour, muted before |
| Countdown.Caption | src/components/submissions/DeadlineCountdown.tsx:64-66 | 'Submission Locked' once past, otherwise 'Deadline: ' and the deadline |
| Countdown.ResolvedDeadline | src/components/submissions/DeadlineCountdown.tsx:15-21 | a deadline that is given is used as it is; with none, the default as written, which for years 100 to 9998 always lies ahead of now |
| Countdown.DefaultDeadlineIs | src/components/submissions/DeadlineCountdown.tsx:15-21 | as written: the default is this month's second Saturday at 10:59 UTC while now is no later than that Saturday's midnight, next month's from the millisecond after |
| Countdown.DefaultCountdownNeverLocked | src/components/submissions/DeadlineCountdown.tsx:15-36 | as written: with the default deadline the countdown is never past, so it never shows locked |
| Countdown.CorrectedDefaultDeadlineIs | src/components/submissions/DeadlineCountdown.tsx:15-21 | corrected: the default is this month's second Saturday at 10:59 UTC up to and including that day, next month's after it |
| Countdown.CorrectedCountdownLocked | src/components/submissions/DeadlineCountdown.tsx:15-36 | corrected: with the default deadline the countdown shows locked exactly on a second Saturday from 10:59 UTC to midnight |
| Countdown.AsWrittenNeverLocked | src/components/submissions/DeadlineCountdown.tsx:15-36 | from 10:59 UTC on a second Saturday the corrected countdown is locked and the one as written is not |
| AutoSaveIndicator.TimeAgo | src/components/submissions/AutoSaveIndicator.tsx:66-73 | 'just now' exactly under ten seconds, then whole seconds under a minute, whole minutes under an hour, whole hours after |
| AutoSaveIndicator.TimeAgoCoarsens | src/components/submissions/AutoSaveIndicator.tsx:66-73 | a longer time never gives a finer unit |
| AutoSaveIndicator.StatusConfig | src/components/submissions/AutoSaveIndicator.tsx:15-48 | nothing for idle; the spinner animates exactly while saving; saved shows 'Saved' with the time ago when a save time is known |
| AutoSaveIndicator.Indicator | src/components/submissions/AutoSaveIndicator.tsx:50-64 | nothing is shown exactly when idle, and the text starts with 'Saved' exactly when saved |
| VideoThumbnail.ViewOf | src/components/submissions/VideoThumbnail.tsx:41-131 | the spinner shows exactly while loading, 'not found' exactly for a null record, the failure exactly for a failed record (with its detail exactly when the error is truthy); the processing caption is 'Uploading video...' exactly for an uploading record; the thumbnail's alt text falls back to 'Video thumbnail' for a falsy title, and its badge is that of the duration |
| VideoThumbnail.BadgeOf | src/components/submissions/VideoThumbnail.tsx:126-131 | no badge exactly without a duration; the stray text '0' exactly for a duration of 0; for a positive duration a clock text that reads back as the duration; for a negative whole number of hours '0:00'; for any other negative duration a text beginning with '-' that does not read as a clock |
| VideoThumbnail.JsRem | src/components/submissions/VideoThumbnail.tsx:150-151 | JavaScript's `%`: Dafny's remainder for a non-negative dividend, a remainder in (-b, 0] for a negative one |
| VideoThumbnail.WholeNegativeHours | src/components/submissions/VideoThumbnail.tsx:148-157 | a negative whole number of hours formats as '0:00' |
| VideoThumbnail.NegativeDurationText | src/components/submissions/VideoThumbnail.tsx:148-157 | any other negative duration formats with a leading '-' and does not read back as a clock |
| VideoThumbnail.NegativeMinutesFirst | src/components/submissions/VideoThumbnail.tsx:148-156 | such a negative duration is written as its minutes with a minus sign, a colon, then the padded seconds remainder |
| VideoThumbnail.ThumbnailIff | src/components/submissions/VideoThumbnail.tsx:41-119 | the thumbnail shows exactly for a loaded video that has not failed, is not uploading, has a playback id and whose image has not failed, from the Mux URL of that id |
| VideoThumbnail.LifecycleViews | src/components/submissions/VideoThumbnail.tsx:70-104 | a new record shows 'Uploading video...', a ready one its thumbnail, a failed one the failure with its message |
| VideoThumbnail.ErrorNotice | src/components/submissions/VideoThumbnail.tsx:34-39 | onError receives the message exactly when the failure view shows one |
| VideoThumbnail.ClockParts | src/components/submissions/VideoThumbnail.tsx:148-157 | two or three groups; for a non-negative duration each is a non-empty group of digits |
| VideoThumbnail.FormatDurationReadsBack | src/components/submissions/VideoThumbnail.tsx:148-157 | reading the M:SS or H:MM:SS text back as a clock gives the seconds formatted |
| VideoThumbnail.HoursMinutesSeconds | src/components/submissions/VideoThumbnail.tsx:149-151 | minutes are below 60 and the three parts add back up to the seconds |
| BlockingUpload.Upload.IsBlocking | src/hooks/useBlockingUpload.ts:74-97 | the page blocks unload exactly while the stage is selecting, compressing, uploading or processing |
| BlockingUpload.Upload.AfterRender | src/hooks/useBlockingUpload.ts:82-151 | after a render the unload guard matches the stage, completion fires onComplete and arms the reset timer, an error stage with a message fires onError, nothing else fires |
| BlockingUpload.Upload.SetStage | src/hooks/useBlockingUpload.ts:138-151 | the stage changes; entering complete fires onComplete and arms the reset, entering error with a message fires onError, an unchanged stage fires nothing |
| BlockingUpload.Upload.SetError | src/hooks/useBlockingUpload.ts:138-151 | the error changes; an unchanged error fires nothing; a new non-empty message in the error stage fires onError, any other new error there fires nothing; a new error in the complete stage fires onComplete again and re-arms the reset; in any other stage nothing fires |
| BlockingUpload.Upload.Reset | src/hooks/useBlockingUpload.ts:126-135 | the live controller is aborted, the state returns to idle with progress 0 and no error, and nothing fires |
| BlockingUpload.Upload.Cancel | src/hooks/useBlockingUpload.ts:113-123 | as reset, and onCancel fires |
| BlockingUpload.Upload.CreateAbortController | src/hooks/useBlockingUpload.ts:100-110 | the previous controller is aborted and a new one becomes the only live one |
| BlockingUpload.Upload.ResetTimerFires | src/hooks/useBlockingUpload.ts:141-145 | a second after completion the upload is back to idle with no live controller |
| BlockingUpload.Upload.Unmount | src/hooks/useBlockingUpload.ts:153-160 | unmounting aborts the live controller |
| BlockingUpload.UploadToCompletion | src/hooks/useBlockingUpload.ts:55-151 | a full upload fires onComplete once, aborts its controller on the reset and ends idle with no live controller |
| BlockingUpload.Upload.SetProgress | src/hooks/useBlockingUpload.ts:67 | the exposed setProgress sets the progress and nothing else |
| Dates.CorrectedOnSecondSaturday | src/lib/dates.ts:15-28 | corrected: on a second Saturday the next second Saturday is that same day |
| PromptsEditor.Populate | src/components/PromptsEditor.tsx:105-116 | loaded prompts fill an empty list in order, with local ids prompt-0, prompt-1 and their database ids; a non-empty list or a pending query is kept; local ids stay distinct |
| PromptsEditor.LoadedIdsDiffer | src/components/PromptsEditor.tsx:110 | the local ids given to loaded prompts are pairwise different |
| PromptsEditor.AddPrompt | src/components/PromptsEditor.tsx:129-139 | ignored exactly at eight prompts; refused as a duplicate exactly when the text is not blank and equals an existing one after trimming and lower-casing; otherwise the new item is appended and nothing else changes |
| PromptsEditor.AddKeepsKeysDistinct | src/components/PromptsEditor.tsx:129-139 | adding keeps the non-blank prompts free of duplicates |
| PromptsEditor.WithoutId | src/components/PromptsEditor.tsx:143 | the list without the items of that id, all others kept |
| PromptsEditor.WithoutIdUnique | src/components/PromptsEditor.tsx:143 | filtering keeps local ids distinct and removes exactly one item when the id is present |
| PromptsEditor.RemovePrompt | src/components/PromptsEditor.tsx:141-144 | the last prompt cannot be removed; otherwise every item with that id goes and the rest stay; with distinct local ids exactly one item goes, the list never becomes empty and the ids stay distinct |
| PromptsEditor.UpdatePromptText | src/components/PromptsEditor.tsx:146-148 | only the text of the item with that id changes; ids, database ids and order are kept |
| PromptsEditor.FindIndex | src/components/PromptsEditor.tsx:123-124 | the index of the first item with the id, -1 exactly when there is none |
| PromptsEditor.ArrayMove | src/components/PromptsEditor.tsx:125 | the item at from ends at to, and every position takes the item the move brings there |
| PromptsEditor.ArrayMovePermutes | src/components/PromptsEditor.tsx:125 | a move is a permutation |
| PromptsEditor.ArrayMoveBack | src/components/PromptsEditor.tsx:125 | moving back from to to from restores the list |
| PromptsEditor.ArrayMoveRest | src/components/PromptsEditor.tsx:125 | without the moved item, the order of the others is unchanged |
| PromptsEditor.HandleDragEnd | src/components/PromptsEditor.tsx:118-127 | a drop on nothing or on itself changes nothing; otherwise the dragged item takes the target's place, the list is a permutation of the old one and ids stay distinct |
| PromptsEditor.NonBlank | src/components/PromptsEditor.tsx:152 | exactly the items whose text is not blank, in order |
| PromptsEditor.Payload | src/components/PromptsEditor.tsx:170-174 | one entry per valid prompt: its database id, its trimmed text, its position as order |
| PromptsEditor.HandleSave | src/components/PromptsEditor.tsx:150-185 | no non-blank prompt is refused, then a duplicate after trimming and lower-casing; otherwise the payload is sent |
| PromptsEditor.NonBlankEmpty | src/components/PromptsEditor.tsx:152-156 | the first check fails exactly when every prompt is blank |
| PromptsEditor.SentPayload | src/components/PromptsEditor.tsx:150-175 | a payload sent holds between one prompt and as many as the list, with pairwise different texts ignoring case |
| PromptsEditor.SentPromptsAccepted | src/components/PromptsEditor.tsx:150-175 | what the editor sends from a list of at most eight prompts of at most 200 characters passes updatePrompts' count and length checks |
| PromptsEditor.SaveButtonMatchesCheck | src/components/PromptsEditor.tsx:249 | outside a save the button is enabled exactly when handleSave would pass its first check |
| PromptsEditor.Editor.Load | src/components/PromptsEditor.tsx:105-116 | the list becomes Populate of the old list and the query |
| PromptsEditor.Editor.Add | src/components/PromptsEditor.tsx:129-139 | a duplicate shows the duplicate toast and keeps the list; at eight nothing happens; otherwise the item is appended; the list never grows past eight |
| PromptsEditor.SameTickAddsClash | src/components/PromptsEditor.tsx:129-147 | two adds of different texts in the same millisecond are both accepted and leave two rows with the id `prompt-<now>`; removing that id then empties the list, and editing it changes both rows |
| PromptsEditor.SharedIdRows | src/components/PromptsEditor.tsx:141-147 | two rows with one id are not distinct, are removed together and are edited together |
| PromptsEditor.Editor.Remove | src/components/PromptsEditor.tsx:141-144 | the list becomes RemovePrompt of the old one and, with distinct local ids (which `Valid` keeps), never becomes empty |
| PromptsEditor.Editor.UpdateText | src/components/PromptsEditor.tsx:146-148 | the list becomes UpdatePromptText of the old one |
| PromptsEditor.Editor.DragEnd | src/components/PromptsEditor.tsx:118-127 | the list becomes HandleDragEnd of the old one |
| PromptsEditor.Editor.Save | src/components/PromptsEditor.tsx:150-185 | a refused list shows its error with nothing sent; otherwise the payload is sent, then a success toast and onComplete, or the thrown message as toast and error |
| AdminDashboard.GetDeadlineTimestampIs | src/components/AdminSubmissionDashboard.tsx:15-36 | the fallback is this month's second Saturday at 10:59 UTC until that moment has passed, next month's after it |
| AdminDashboard.RolloverNext | src/components/AdminSubmissionDashboard.tsx:26-28 | the hand-written rollover of December to January is the next month |
| AdminDashboard.FallbackNotPast | src/components/AdminSubmissionDashboard.tsx:15-36 | the fallback deadline is never in the past, falls on a second Saturday and is at 10:59 UTC |
| AdminDashboard.CycleOfFallback | src/components/AdminSubmissionDashboard.tsx:46-57 | the cycle id derived from the fallback deadline names a cycle whose lock deadline is that same deadline |
| AdminDashboard.CycleOfDeadline | src/components/AdminSubmissionDashboard.tsx:52-57 | a month's deadline gives that month's YYYY-MM cycle id |
| AdminDashboard.RemindersRemaining | src/components/AdminSubmissionDashboard.tsx:65-66 | three while the count is loading, otherwise three less the reminders used |
| AdminDashboard.ReminderButtons | src/components/AdminSubmissionDashboard.tsx:136-164 | a reminder button is shown exactly for the members not submitted, the buttons' user ids in the rows' order (a subsequence of the rows' ids) |
| AdminDashboard.ReminderPanel.HandleSendReminder | src/components/AdminSubmissionDashboard.tsx:76-92 | with no reminders left nothing happens; otherwise sendingReminder is set to the member and one sendAdminReminder call is made for that member and cycle |
| AdminDashboard.ReminderPanel.HandleBulkReminder | src/components/AdminSubmissionDashboard.tsx:94-110 | with no reminders left nothing happens; otherwise sendingReminder is 'bulk' and one sendBulkAdminReminder call is made |
| AdminDashboard.ReminderPanel.Settle | src/components/AdminSubmissionDashboard.tsx:89-90 | the finally block clears sendingReminder whatever the outcome |
| AdminDashboard.ClickAndSettle | src/components/AdminSubmissionDashboard.tsx:76-92 | one click makes one call, and after it settles the buttons are enabled again while reminders remain |
| DatePicker.MonthBackIndex | src/components/dashboard/DatePicker.tsx:20-27 | i steps back from the current month is the month whose index is i below it, month in 0 to 11 |
| DatePicker.MonthBackStep | src/components/dashboard/DatePicker.tsx:22-26 | one step back moves one month back, from January to December of the year before |
| DatePicker.EntryIs | src/components/dashboard/DatePicker.tsx:21 | entry i is getSecondSaturday of the month i steps back |
| DatePicker.GenerateMonths | src/components/dashboard/DatePicker.tsx:14-29 | count entries (none for a negative count), entry i being the second Saturday of the month i months back |
| DatePicker.FirstEntryThisMonth | src/components/dashboard/DatePicker.tsx:17-21 | the first entry is this month's second Saturday |
| DatePicker.EntryFacts | src/components/dashboard/DatePicker.tsx:14-29 | each entry is midnight of a second Saturday in the month i months back |
| DatePicker.AtMostOneSelected | src/components/dashboard/DatePicker.tsx:31-46 | no two entries share a month, so at most one is marked selected |
| AdminDashboard.NextDeadlineLater | src/components/AdminSubmissionDashboard.tsx:25-33 | next month's deadline always lies after now, so the rolled-over fallback is in the future |
| Dates.MidnightToDeadline | src/screens/submissions/MultiCircleSubmissionScreen.tsx:27 | setUTCHours(10, 59, 0, 0) on a second Saturday's midnight gives that day's 10:59 UTC deadline |
| MultiCircleSubmission.AsWrittenDeadlineSkipsToday | src/screens/submissions/MultiCircleSubmissionScreen.tsx:25-29 | as written, on a second Saturday after midnight the screen's deadline is next month's, where the corrected one is today's 10:59 UTC |
| MultiCircleSubmission.DeadlineIs | src/screens/submissions/MultiCircleSubmissionScreen.tsx:25-29 | corrected: this month's deadline up to the second Saturday, next month's after it |
| MultiCircleSubmission.ServerText | src/screens/submissions/MultiCircleSubmissionScreen.tsx:154-155 | the text of the first server response to the prompt, '' when there is none |
| MultiCircleSubmission.BuildCircleDraft | src/screens/submissions/MultiCircleSubmissionScreen.tsx:94-98 | the loop maps every prompt to its server text, '' when unanswered |
| MultiCircleSubmission.Changed | src/screens/submissions/MultiCircleSubmissionScreen.tsx:150-159 | a prompt is changed exactly when its draft differs from its server text, and carries the draft |
| MultiCircleSubmission.ChangedPrompts | src/screens/submissions/MultiCircleSubmissionScreen.tsx:150-159 | the loop collects exactly the changed prompts |
| MultiCircleSubmission.InitialDraftUnchanged | src/screens/submissions/MultiCircleSubmissionScreen.tsx:86-161 | a freshly initialised draft has nothing to save |
| MultiCircleSubmission.OneEditOneChange | src/screens/submissions/MultiCircleSubmissionScreen.tsx:150-161 | editing one prompt of a fresh draft makes exactly that prompt changed, unless it was set back to the server text |
| MultiCircleSubmission.CountTrueAll | src/screens/submissions/MultiCircleSubmissionScreen.tsx:277 | every flag is counted exactly when all are set |
| MultiCircleSubmission.AnsweredFlags | src/screens/submissions/MultiCircleSubmissionScreen.tsx:277 | one flag per prompt: its draft is not blank after trimming |
| MultiCircleSubmission.AnsweredCount | src/screens/submissions/MultiCircleSubmissionScreen.tsx:277 | never more than the prompts |
| MultiCircleSubmission.Progress | src/screens/submissions/MultiCircleSubmissionScreen.tsx:273-279 | none exactly when there are no prompts; otherwise answered over total, answered at most total |
| MultiCircleSubmission.AllAnswered | src/screens/submissions/MultiCircleSubmissionScreen.tsx:277-278 | progress is complete exactly when every prompt's draft is not blank |
| MultiCircleSubmission.DisabledIff | src/screens/submissions/MultiCircleSubmissionScreen.tsx:292-293 | the inputs are disabled exactly from the deadline on, or when the circle is locked or submitted |
| MultiCircleSubmission.Screen.InitDrafts | src/screens/submissions/MultiCircleSubmissionScreen.tsx:86-123 | once both queries have loaded, a circle without drafts gets its initial draft; drafts already there are never overwritten |
| MultiCircleSubmission.Screen.HandleValueChange | src/screens/submissions/MultiCircleSubmissionScreen.tsx:229-237 | only that prompt's draft in that circle takes the value, creating the circle's map if needed |
| MultiCircleSubmission.Screen.AutoSave | src/screens/submissions/MultiCircleSubmissionScreen.tsx:143-219 | with no prompts, no draft or nothing changed nothing is called; otherwise the submission is created if missing and the changed texts sent, ending saved or error |
| MultiCircleSubmission.Screen.SendUpdates | src/screens/submissions/MultiCircleSubmissionScreen.tsx:176-186 | the changed texts are sent to the submission, ending saved or error |
| MultiCircleSubmission.Screen.HandleSubmit | src/screens/submissions/MultiCircleSubmissionScreen.tsx:72-83 | without a submission or while one submit is running nothing happens; otherwise isSubmitting is set and lockSubmission called once |
| MultiCircleSubmission.Screen.HandleMediaUpload | src/screens/submissions/MultiCircleSubmissionScreen.tsx:240-245 | a finished upload shows saved |
| MultiCircleSubmission.Screen.HandleMediaRemove | src/screens/submissions/MultiCircleSubmissionScreen.tsx:257-269 | removeMediaFromResponse is called, ending saved or error |
| MultiCircleSubmission.Screen.SettleSubmit | src/screens/submissions/MultiCircleSubmissionScreen.tsx:80-82 | the finally block clears isSubmitting |
| MultiCircleSubmission.DoubleClick | src/screens/submissions/MultiCircleSubmissionScreen.tsx:72-83 | a second click before the first settles locks nothing more: one call |
| MultiCircleSubmission.OpenThenAutoSave | src/screens/submissions/MultiCircleSubmissionScreen.tsx:86-161 | opening a circle and auto-saving the untouched draft calls nothing |
| PromptResponseCard.CounterEscalates | src/components/submissions/PromptResponseCard.tsx:51-55 | the counter's colour never calms as the text grows: muted, then amber, then destructive |
| PromptResponseCard.DefaultCounter | src/components/submissions/PromptResponseCard.tsx:51-55 | with maxLength 500 the counter is amber from 450 characters and destructive from 500 |
| PromptResponseCard.Card.constructor | src/components/submissions/PromptResponseCard.tsx:31-36 | the props with their defaults, the initial value and no media |
| PromptResponseCard.Card.HandleChange | src/components/submissions/PromptResponseCard.tsx:43-49 | a value within maxLength is taken and reported to onValueChange when given; a longer one changes nothing; a value within the limit stays within it |
| PromptResponseCard.Card.InitialValueChanged | src/components/submissions/PromptResponseCard.tsx:39-41 | a new initialValue replaces the value |
| PromptResponseCard.Card.HandleMediaUploadComplete | src/components/submissions/PromptResponseCard.tsx:57-60 | one more medium is counted and reported to onMediaUpload when given |
| PromptResponseCard.Card.CurrentMediaCount | src/components/submissions/PromptResponseCard.tsx:97 | the count passed to the uploader is the number of uploads completed from this card |
| PromptResponseCard.TypePastLimit | src/components/submissions/PromptResponseCard.tsx:43-55 | a text of exactly maxLength is taken, a longer one ignored, and the counter shows destructive |
| CircleSettings.Updates | src/components/CircleSettings.tsx:120-126 | the update names a field exactly when it was edited to a value different from the circle's, and then carries the edit |
| CircleSettings.MutationIffChanges | src/components/CircleSettings.tsx:127-128 | updateCircle is called exactly when hasChanges holds |
| CircleSettings.SaveShowsDisplayed | src/components/CircleSettings.tsx:77-78 | after the update the circle shows the name and description the form displayed |
| CircleSettings.AcceptedNameValid | src/components/CircleSettings.tsx:110-115 | a name of at most 50 characters that the client accepts passes the backend's name rule |
| CircleSettings.DetailsForm.constructor | src/components/CircleSettings.tsx:48-51 | nothing edited, not saving, no error, no calls |
| CircleSettings.DetailsForm.EditName | src/components/CircleSettings.tsx:248 | the name edit takes the typed text |
| CircleSettings.DetailsForm.EditDescription | src/components/CircleSettings.tsx:261 | the description edit takes the typed text |
| CircleSettings.DetailsForm.HandleSave | src/components/CircleSettings.tsx:110-141 | a name trimming to under 3 characters is rejected with nothing called; otherwise updateCircle gets the changed fields if any, a failure keeps the edits and shows its message, success clears them |
| CircleSettings.DetailsForm.Send | src/components/CircleSettings.tsx:117-139 | the call and its outcome once the name is accepted |
| CircleSettings.SaveUntouched | src/components/CircleSettings.tsx:127-134 | saving an untouched form issues no call |
| CircleSettings.NameLeTotal | src/components/CircleSettings.tsx:163 | the name comparison orders any two names |
| CircleSettings.MemberLeTotal | src/components/CircleSettings.tsx:160-164 | the comparator orders any two members |
| CircleSettings.InsertMember | src/components/CircleSettings.tsx:160-164 | inserting into a sorted list keeps it sorted and adds exactly that member |
| CircleSettings.SortMembers | src/components/CircleSettings.tsx:160-164 | sorted, and a permutation of the members |
| CircleSettings.AdminsFirst | src/components/CircleSettings.tsx:159-162 | in a sorted list no member stands before an admin |
| CircleSettings.SortedMembersAdminsFirst | src/components/CircleSettings.tsx:159-164 | the sorted list shows every member, as many as given, admins first |
| CircleSettings.GetInitials | src/components/CircleSettings.tsx:170-176 | at most two characters, the first being the upper-cased first letter of the name |
| CircleSettings.InitialsSplit | src/components/CircleSettings.tsx:171-172 | a name with a word before its first space splits with that word first |
| CircleSettings.InitialsOfTwoWords | src/components/CircleSettings.tsx:172-173 | 'first rest' gives the upper-cased first letters of both words |
| CircleSettings.InitialsOfOneWord | src/components/CircleSettings.tsx:175 | a one-word name gives its first two characters upper-cased |
| CircleSettings.RemoveButtons | src/components/CircleSettings.tsx:344-346 | admins see a remove button for every member but themselves; others see none |
| CircleSettings.MemberCountWarning | src/components/CircleSettings.tsx:202-207 | an admin of a circle under 3 members is told how many more to invite, at least one, reaching 3 |
| CircleSettings.WarningPlural | src/components/CircleSettings.tsx:207 | the plural 's' appears exactly when more than one member is missing |
| CompleteProfile.RedirectUrl | src/app/complete-profile/page.tsx:17-20 | the parameter is kept exactly when it starts with '/' and not with '//' |
| CompleteProfile.DestinationInternal | src/app/complete-profile/page.tsx:17-48 | whatever the parameter, the page navigates only to a path that begins with one slash and not two: the accepted redirect or '/dashboard' |
| CompleteProfile.ExternalRefused | src/app/complete-profile/page.tsx:18-20 | protocol-relative and absolute URLs are refused |
| CompleteProfile.RedirectIdempotent | src/app/complete-profile/page.tsx:19-20 | the guard keeps what it accepts |
| CompleteProfile.InternalAccepted | src/app/complete-profile/page.tsx:19-20 | every internal path passes the guard and is the destination |
| CompleteProfile.SkipTo | src/app/complete-profile/page.tsx:30-34 | a user with a non-empty name is sent on to the destination; otherwise the page stays |
| CompleteProfile.ProfileArgs | src/app/complete-profile/page.tsx:38-47 | none for an all-space name; otherwise the trimmed, non-empty name and the chosen avatar |
| CompleteProfile.PaddedNameSent | src/app/complete-profile/page.tsx:38-45 | a name with a space on each side is sent without them |
| CompleteProfile.ProfileForm.constructor | src/app/complete-profile/page.tsx:17-27 | the redirect passes through the guard; nothing typed, sent or navigated |
| CompleteProfile.ProfileForm.HandleSubmit | src/app/complete-profile/page.tsx:36-53 | a blank name does nothing; otherwise updateProfile gets the trimmed name, success navigates to the destination, failure shows its message and clears saving |
| CompleteProfile.ProfileForm.Send | src/app/complete-profile/page.tsx:41-52 | the call and its outcome once the name is known not to be blank |
| AccountSettings.ProfileForm.HandleSave | src/app/dashboard/settings/page.tsx:49-69 | updateProfile gets exactly the changed fields; success clears the edits, failure keeps them; saving ends cleared |
| AccountSettings.SaveThenDisabled | src/app/dashboard/settings/page.tsx:47-69 | every call carries a field, and after success Save is disabled until the next edit |
| AccountSettings.WarningsExplainValidity | src/app/dashboard/settings/page.tsx:71-72 | a valid form shows no warning; an invalid one with both fields filled in shows at least one |
| AccountSettings.PasswordForm.HandleChangePassword | src/app/dashboard/settings/page.tsx:74-92 | updatePassword gets the current and new password; success empties the fields and shows success, failure shows its message; every password sent meets the rule |
| AccountSettings.OnlyExactConfirmation | src/app/dashboard/settings/page.tsx:254 | only the exact word DELETE, with no deletion running, enables the button |
| AccountSettings.DeleteDialog.HandleDeleteAccount | src/app/dashboard/settings/page.tsx:94-105 | deleteAccount is called once; success goes to '/', failure clears deleting |
| AccountSettings.DeleteOnce | src/app/dashboard/settings/page.tsx:94-105 | after a successful deletion the button is disabled |
| CompleteProfile.ProfileForm.EditName | src/app/complete-profile/page.tsx:90 | the name field takes the typed text |
| CompleteProfile.ProfileForm.ChooseAvatar | src/app/complete-profile/page.tsx:80 | the uploader's storage id becomes the chosen avatar |
| AccountSettings.ProfileForm.constructor | src/app/dashboard/settings/page.tsx:33-35 | nothing edited, not saving, no calls |
| AccountSettings.ProfileForm.EditName | src/app/dashboard/settings/page.tsx:144 | the typed name becomes the edit |
| AccountSettings.ProfileForm.UploadAvatar | src/app/dashboard/settings/page.tsx:136 | the uploaded storage id becomes the new avatar |
| AccountSettings.PasswordForm.constructor | src/app/dashboard/settings/page.tsx:39-44 | empty fields, no error, no success, no calls |
| AccountSettings.PasswordForm.Edit | src/app/dashboard/settings/page.tsx:175-193 | the three fields take the typed text |
| AccountSettings.DeleteDialog.constructor | src/app/dashboard/settings/page.tsx:36-38 | no confirmation typed, not deleting, nothing called |
| AccountSettings.DeleteDialog.Type | src/app/dashboard/settings/page.tsx:244 | the confirmation field takes the typed text |

## Left out

- The Android shell (`MainActivity.java`) has no logic and is not part of this model.
- Network, email and push I/O are recorded as the calls made; their delivery is not modelled. This covers Resend sends, `render()`, OneSignal pushes and scheduler calls, along with `convex/emails.ts`, `convex/notificationPush.ts` and `src/lib/*` clients.
- Mux and cryptography are not part of this model: the `uploadVideoToMux` action, `convex/videoActions.ts`, and webhook HMAC checks.
- Actions that only read data and then call outside services keep just their decisions. Examples are `sendNewsletter`'s subject, date and count, and `sendSubmissionReminder`'s filtering. The network calls themselves are parameters.
- Clerk identity lookups become a caller id parameter. Clerk's `updatePassword` and `user.delete()` become one outcome parameter each.
- Time zones: `src/lib/dates.ts` uses the browser's local-time `Date` constructor and getters. The model takes the local zone to be UTC. The other copies of the date arithmetic already use UTC.
- Locale formatting (`toLocaleString`, `toLocaleDateString`) is not modelled. Month names come from a fixed English table. `localeCompare` is modelled as code-point order.
- Strings are sequences of characters. Lengths count characters, not UTF-16 code units. `trim` removes ASCII white space only, and case mapping covers ASCII letters only.
- Time values are unbounded integers cut to JavaScript's range of ±8.64e15 ms by `Calendar.TimeClip`, as `Date.UTC`, `new Date(...)` and `setUTCHours` do. The lemmas that characterise second Saturdays and deadlines require years 100 to 9998 (9999 for one month). Outside those years the functions are still defined, but only their general contracts are proved.
- Floating point is not modelled. The counter's `maxLength * 0.9` comparison is done exactly in integers. The progress bar's answered/total ratio is kept as a pair of integers, not divided. Video durations are whole seconds; a fractional duration, which `formatDuration` floors, is not modelled.
- Timers, debounce and analytics (`trackEvent`) are not modelled. The upload hook's one-second reset timer becomes an explicit step. The countdown is computed for a given `now` rather than re-rendered by its interval. Toasts are modelled only in the prompts editor, which records the sequence of toasts shown, in order; elsewhere they are not modelled.
- React scheduling is not modelled. Each handler or effect runs as one sequential step, and state read by a handler is the state at the start of that step.
- MultiCircleSubmission.Screen.SendUpdates: the `Promise.all` of `updateResponse` calls is recorded as one call carrying every changed prompt's text. Which calls land when one of them fails is not modelled, and neither is their order.
- PromptResponseCard.Card.InitialValueChanged: the effect does not re-check `maxLength`, and the model keeps that. No invariant bounds the value's length.
- PromptsEditor.Editor.DragEnd: requires both dragged ids to be in the list. The drag library reports only rendered items, so `findIndex` never gives -1 here. `arrayMove` with index -1 is not modelled.
- Invite codes from `crypto.randomUUID` and ids from `Date.now()` are inputs, not generated. The prompts editor takes its `Date.now()` ids to be unused; see the `PromptsEditor.Editor.Add` line below.
- Query-only lookups without rules of their own are not part of this model. These are `getSubmissionForCircle` (an input to the submission screen), `getVideo`, `getVideosByUser`, `getVideosByCircle`, `getNotificationPreferencesByUser` and `getUserById`.
- The mutations `deleteVideo` and `registerOneSignalPlayerId` are not part of this model. They are a single delete and a single patch.
- `compileNewsletter`, `convex/seed.ts` and the test-data generator are not part of this model.
- The page's `handleImageUpload`, `handleCopyLink` and `handleRegenerate` in `CircleSettings.tsx` are not modelled. The backend `regenerateInviteCode` is.
- The HTML `maxLength` attributes on inputs are not enforced by the model's handlers, with two exceptions. In `PromptResponseCard` the handler checks the length itself. `CircleSettings.DetailsForm.EditName` and `CircleSettings.DetailsForm.EditDescription` require a name of at most 50 and a description of at most 200 characters, which is what their inputs' `maxLength` lets through, and `DetailsForm.Valid` relies on those bounds.
- E2ECleanup.CleanupE2EData: in a dry run the counters returned are the corrected ones, those of `E2ECleanup.DryRun`, which equal a real run's. The counters the source returns, which count twice a response that is both to a prompt and in a submission of the circle, are stated by `E2ECleanup.DryRunAsWritten` and `E2ECleanup.DryRunOvercounts` (see Findings). They are not what the method returns.
- Circles.CreateCircle, Circles.UpdateCircle, Circles.RegenerateInviteCode, Memberships.JoinCircle, NewsletterReads.MarkNewsletterRead and Prompts.UpdatePrompts: `getOrCreateAuthUser` inserts a `users` row for a signed-in caller who has none. These members take the caller's user id as an input and never read or write the `users` table, so that insert is not captured.
- PromptsEditor.Editor.Add: requires that no prompt already has the id `prompt-<now>`, that is, that `Date.now()` has moved on since the last add. The source never checks this. Two adds within one millisecond give two rows with one id; `removePrompt` then drops both rows, which can empty a two-row list, and `updatePromptText` edits both (`PromptsEditor.SameTickAddsClash` states this on the list functions). The `Editor` class does not follow the list into that state: its `Valid` (distinct local ids) and the non-emptiness that `Editor.Remove` promises rest on this requires. What the list's keys and `findIndex` do with duplicate ids is not modelled.
- AdminDashboard.ReminderPanel: the backend deadline (`getSubmissionStatus`) is an input. The fallback deadline is modelled.

## Findings

| source | as written | input that shows it | evidently intended | confidence | as-written member | corrected member |
|---|---|---|---|---|---|---|
| src/lib/dates.ts:15-28 | `getNextSecondSaturday` compares `from` with this month's second Saturday at midnight. Any moment after midnight on the second Saturday itself therefore gives next month's date. | `from` = 2025-03-08 09:00 UTC, the second Saturday of March 2025, before its 10:59 deadline: the result is 2025-04-12 | compare calendar days, so the second Saturday is still "next" for the whole of that day | not executed | Dates.AsWrittenSkipsSecondSaturday | Dates.NextSecondSaturdayIs |
| src/screens/submissions/MultiCircleSubmissionScreen.tsx:25-29 | the fallback deadline is `getNextSecondSaturday(now)` at 10:59 UTC. From just after midnight until 10:59 on the second Saturday, it gives next month's deadline. | `now` = 2025-03-08 09:00 UTC: the deadline is 2025-04-12 10:59 UTC instead of 2025-03-08 10:59 UTC | today's deadline until 10:59 on the second Saturday | not executed | MultiCircleSubmission.AsWrittenDeadlineSkipsToday | MultiCircleSubmission.DeadlineIs |
| src/components/submissions/DeadlineCountdown.tsx:15-21 | with no deadline given, the default is `getNextSecondSaturday(new Date())` at 10:59 UTC. After midnight on a second Saturday that already is next month's deadline, so the countdown never reaches "Submissions Locked". | `now` = 2025-03-08 11:30 UTC, after that day's 10:59 deadline: the countdown runs towards 2025-04-12 10:59 UTC | locked from 10:59 UTC on the second Saturday until midnight | not executed | Countdown.AsWrittenNeverLocked | Countdown.CorrectedCountdownLocked |
| convex/e2eCleanup.ts:84-124 | in a dry run nothing is deleted. A response to one of the circle's prompts that also belongs to one of its submissions is counted twice, once per loop. | a test circle with one prompt, one submission and one response to that prompt in that submission: the dry run reports 2 responses, a real run deletes 1 | a dry run reports what a real run deletes | not executed | E2ECleanup.DryRunOvercounts | E2ECleanup.DryRun |
| convex/memberships.ts:108-113 | `joinCircle` answers `alreadyMember: true` for any existing membership row. A member who left cannot rejoin, and a blocked member is not refused. | a member who left the circle and is not blocked joins with its invite code: the answer is `alreadyMember: true`, `leftAt` stays set, and `requireMembership` still refuses them | a blocked member is refused with "You have been blocked from this circle"; a member who left rejoins with `leftAt` cleared and `alreadyMember: false`, as the membership tests describe | not executed | Memberships.LeftMemberStaysLeft | Memberships.IntendedJoin |
