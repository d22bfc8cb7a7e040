# Portfolio site and admin panel — a Dafny model of its core

This project models the logic of a personal portfolio site with an
administrator panel. The site is written in TypeScript with React. The model
covers these parts:

- **Security and authentication.**
  - The security service counts failed logins in a 15-minute window and locks the account after five.
  - It computes the session timeout from the last activity.
  - The authentication service signs in and out through an identity provider, checks the lockout first, and logs every outcome.
  - The session-timeout hook runs one tick every five seconds.
- **The activity log.** It is kept newest first and capped at 1000 entries. It has queries by time window, entity and action, a CSV export and summary counts.
- **Validators and sanitisers.** These cover email, password, file, year, length and URL checks, the rule-by-rule `validate`, URL and file-name sanitising, `truncate` and `sanitizeObject`.
- **Routing.** The route table, the navigation hook that maps a browser path to a page, and its guarded page change.
- **The image host's URL rewriting** (`getOptimizedUrl`).
- **The data services.**
  - The profile `save` merge.
  - The project, skill and blog-post services over one document collection: listing order, published and featured views, `create`, `update`, `delete` and `reorder`.
- **The admin pages.**
  - The multi-image upload list edits.
  - The profile section edits.
  - The blog editor's content and tag parsing, its search and its publish toggle.
  - The skills page's proficiency levels, search and sort.
  - The dashboard's relative times, action labels and activity panel.
- **The public projects page.** Its image gallery, carousel and layout by position.
- **The dark-mode switch.**

Browser storage, the hosted database and the identity provider become plain
values that each operation takes and returns. The clock (`now`, epoch
milliseconds), fresh ids, ISO time text and locale text are parameters. So
are the provider's answers, the upload results and the publish times of blog
posts. Every operation is a pure function.

Modules follow the source files:

| module | source |
|---|---|
| `Security` | src/services/security.service.ts |
| `Auth` | src/services/auth.service.ts |
| `SessionTimeout` | src/hooks/useSessionTimeout.ts |
| `Activity` | src/services/activity.service.ts |
| `Validators` | src/utils/validators.ts |
| `Sanitize` | src/utils/sanitize.ts |
| `Routes` | src/config/routes.ts |
| `Navigation` | src/hooks/useNavigation.ts |
| `Cloudinary` | src/services/cloudinary.service.ts |
| `ProfileService` | src/services/profile.service.ts |
| `Collection`, `OrderedCollection` | src/services/firestore.service.ts and the logic project.service.ts and skill.service.ts share |
| `ProjectService`, `SkillService`, `BlogPostService` | src/services/project.service.ts, skill.service.ts, blogPost.service.ts |
| `MultiImageUpload` | src/components/admin/MultiImageUpload.tsx |
| `ProfileEditor` | src/pages/admin/AdminProfile.tsx |
| `BlogEditor` | src/pages/admin/AdminBlog.tsx |
| `SkillsEditor` | src/pages/admin/AdminSkills.tsx |
| `Dashboard` | src/pages/admin/AdminDashboard.tsx |
| `Classifieds` | src/pages/ClassifiedsPage.tsx |
| `Theme` | src/hooks/useTheme.ts |
| `Wrappers`, `Seqs`, `Text`, `Ordering` | helpers: `Option`, JavaScript array `filter`, string trimming, splitting and searching, a stable sort |

## Model

| member | source | states |
|---|---|---|
| Security.IsLockedOut | src/services/security.service.ts:29-50 | With no lockout record the account is unlocked. Before `lockedUntil` it is locked, with the remaining whole seconds rounded up and at least 1, and nothing changes. From `lockedUntil` on it is unlocked, and both the lockout and the failure count are forgotten. |
| Security.RecordFailedLogin | src/services/security.service.ts:56-92 | A failure more than 15 minutes after the window opened starts a new window at 1; otherwise the count grows by one. Below five, the attempts left are 5 minus the count, in 1..4, and no lockout is written. At five or more the account is locked for 15 minutes from now. |
| Security.FailuresAccumulate | src/services/security.service.ts:62-80 | Failures that all fall within the window of the first one are counted 1, 2, 3, … in turn. |
| Security.FifthFailureLocksOut | src/services/security.service.ts:84-163 | Five failures within 15 minutes of the first: the first four leave 4, 3, 2, 1 attempts, the fifth locks, and the account then reads as locked. |
| Security.ClearFailedLoginAttempts | src/services/security.service.ts:97-100 | Both the count and the lockout are removed; the activity time is kept. |
| Security.ClearRestartsCount | src/services/security.service.ts:75-100 | After clearing, the next failure is counted as the first. |
| Security.ExpiredLockoutRestartsCount | src/services/security.service.ts:43-46 | Reading an expired lockout also forgets the count (`clearLockout`, lines 165-168), so the next failure is the first again. |
| Security.RecordActivity | src/services/security.service.ts:105-107 | Only the activity time changes, and it becomes `now`. |
| Security.ClearSessionActivity | src/services/security.service.ts:134-136 | Only the activity time is removed. |
| Security.CheckSessionTimeout | src/services/security.service.ts:113-129 | No activity gives (not timed out, 1800). 30 minutes or more since the activity gives (timed out, 0). Otherwise the remaining seconds are rounded up and are at least 1. They are at most 1800 when the clock has not gone back since the activity. |
| Security.TimeUntilTimeout | src/services/security.service.ts:141-144 | Never negative. With no activity it is 1800. Otherwise it is 0 exactly when 30 minutes have passed, and before that it is the time left in whole seconds, rounded up. |
| Security.ShouldShowTimeoutWarning | src/services/security.service.ts:141-152 | The warning shows exactly when between 1 and 120 seconds remain, which is the two minutes before the timeout: from 28 minutes of inactivity up to, not including, 30. |
| Security.InactivityScenario | src/services/security.service.ts:113-152 | 29 minutes after activity the warning shows and the session is live; at 30 minutes it has timed out and the warning is gone. |
| Auth.FailureMessage | src/services/auth.service.ts:83-108 | The message starts with the text for the provider's code: five known codes have fixed texts, and any other code gets the generic one. The note of attempts left is added exactly when no lockout was triggered and attempts remain. |
| Auth.FailureMessageNotesAttempts | src/services/auth.service.ts:104-108 | While attempts are left and no lockout was triggered, the message is the friendly text followed by the note of attempts left. After the friendly text and " (" come the digits of the count, and the message ends in " remaining)". |
| Auth.AttemptsNoteSingular | src/services/auth.service.ts:104-107 | The note says "attempt" in the singular exactly when one attempt is left. |
| Auth.LockedMessageNamesMinutes | src/services/auth.service.ts:45-48 | The locked message names the minutes left, with "minute" in the singular exactly when one is left. |
| Auth.LockedRefuses | src/services/auth.service.ts:34-49 | A locked account refuses any sign-in attempt and keeps its security records. |
| Auth.LoginAuthenticates | src/services/auth.service.ts:34-145 | After `login` the session is authenticated exactly when the lockout let the attempt through and the provider accepted it, or when it was authenticated before. |
| Auth.FailureMessageNamesAttempts | src/services/auth.service.ts:105-108 | Two messages for the same code that both report attempts left are equal only when the counts are: the message tells the user the count. |
| Auth.LockoutMinutes | src/services/auth.service.ts:38 | The locked message gives the remaining seconds as whole minutes, rounded up. |
| Auth.Login | src/services/auth.service.ts:34-112 | While locked: one `login_failed` entry is logged, the call fails with the lockout message, and the provider's answer is not used. On success: both security records are cleared, the activity time is set, one `login` entry is logged, and the result is true. On rejection: one failure is recorded and one `login_failed` entry with the error code is logged before the error. |
| Auth.LockedIgnoresProvider | src/services/auth.service.ts:36-49 | While locked, any two provider answers give the same result and state, so the provider is never consulted. |
| Auth.SuccessResetsAttempts | src/services/auth.service.ts:52-72 | After a successful sign-in, the next rejection is counted as the first. |
| Auth.FiveRejectionsLock | src/services/auth.service.ts:36-80 | Five rejected sign-ins within 15 minutes of the first leave the account locked, so a sixth attempt fails at the lockout gate whatever the provider would say. The same code is in `security.service.ts`. |
| Auth.GetUserEmail | src/services/auth.service.ts:157-159 | The first non-empty email of the service's user and then the provider's user, else none. |
| Auth.Logout | src/services/auth.service.ts:117-138 | On sign-out, both users are cleared and the activity time is removed. One `logout` entry is logged, carrying the email read before sign-out. A failed sign-out changes nothing and fails. |
| Auth.RecordActivity | src/services/auth.service.ts:176-180 | Only an authenticated session records the activity time; otherwise nothing changes. |
| Auth.AuthStateChanged | src/services/auth.service.ts:21-28 | The provider reports its own current user, so both the service's user and the provider's user become the reported one. The session is authenticated exactly when a user is reported, and then the activity time is recorded. The log is unchanged. |
| Auth.RestoredSessionRecordsActivity | src/services/auth.service.ts:21-180 | A session the provider restores on page load is authenticated, so a later `recordActivity` stores its time. |
| Auth.LoginThenLogout | src/services/auth.service.ts:34-138 | A sign-in and then a sign-out leave no one authenticated and no activity time. The two newest log entries are the logout and then the login. |
| SessionTimeout.Tick | src/hooks/useSessionTimeout.ts:20-43 | The warning shows exactly when signed in and inside the warning window. `onTimeout` is called exactly when signed in and timed out. `onWarning` is called exactly when the warning appears and was not already showing. The seconds shown follow `checkSessionTimeout` while the session is live, and are unchanged otherwise. |
| SessionTimeout.ResetTimeout | src/hooks/useSessionTimeout.ts:45-50 | Only when authenticated: the activity is recorded at `now` and the warning is hidden. Otherwise nothing changes. |
| SessionTimeout.ExtendSession | src/hooks/useSessionTimeout.ts:81-84 | Resets as above and always hides the warning. |
| SessionTimeout.WarningCalledOnce | src/hooks/useSessionTimeout.ts:36-39 | A second tick still inside the warning window does not call `onWarning` again. |
| SessionTimeout.ExtendDefersWarning | src/hooks/useSessionTimeout.ts:45-84 | After extending, ticks in the next 28 minutes neither warn nor time out. |
| SessionTimeout.SilenceTimesOut | src/hooks/useSessionTimeout.ts:26-32 | A tick 30 minutes after the last activity calls `onTimeout`. |
| Activity.GetAllLogs | src/services/activity.service.ts:72-82 | Missing storage reads as no entries. |
| Activity.NewEntry | src/services/activity.service.ts:41-58 | The entry carries the caller's fields, the fresh id and the clock. |
| Activity.Log | src/services/activity.service.ts:41-66 | The new entry is first, the old entries follow in order, and the length is min(n+1, 1000). |
| Activity.LogCapped | src/services/activity.service.ts:35-64 | The log never exceeds 1000 entries. At the cap, logging drops exactly the oldest entry. |
| Activity.PushAllNewestFirst | src/services/activity.service.ts:60-66 | After entries are logged one by one, the log holds them newest first ahead of the earlier log, cut to the 1000 most recent. |
| Activity.ClearLogs | src/services/activity.service.ts:128-130 | Afterwards there are no entries. |
| Activity.GetRecentLogs | src/services/activity.service.ts:87-93 | The stored entries stamped at or after the cutoff (inclusive), in stored order: the filter of the log by that window. Never more than are stored. |
| Activity.GetLogsByEntity | src/services/activity.service.ts:98-100 | The filter of the log by entity type: exactly the stored entries of that type, in stored order. |
| Activity.GetLogsByAction | src/services/activity.service.ts:105-107 | The filter of the log by action: exactly the stored entries with that action, in stored order. |
| Activity.GetFailedLoginAttempts | src/services/activity.service.ts:112-123 | The filter of the log to `login_failed` entries of the auth entity inside the window, in stored order. |
| Activity.LogPrependsToQueries | src/services/activity.service.ts:41-107 | Below the cap, a new entry heads the by-entity and by-action queries it matches, and the other queries are unchanged. |
| Activity.FailedLoginWindowMonotone | src/services/activity.service.ts:112-123 | A wider window never reports fewer failed logins. |
| Activity.CsvLines | src/services/activity.service.ts:135-153 | There are n+1 lines: the header, then one row per entry. |
| Activity.Cells | src/services/activity.service.ts:139-146 | Six cells: the localised time, the action and entity-type names, then `entityName \|\| '-'`, `userEmail \|\| 'Unknown'` and `details \|\| '-'`, so an empty text also falls back. |
| Activity.QuotedRowRoundTrip | src/services/activity.service.ts:148-153 | A row of cells without double quotes reads back, as a CSV record, into those cells. |
| Activity.EmbeddedQuoteNotRecovered | src/services/activity.service.ts:148-153 | Quotes inside a cell are not escaped, so such a cell does not read back. |
| Activity.ExportReadsBack | src/services/activity.service.ts:135-153 | When no free text holds a line break or a quote, the export splits into the header and one line per entry, and each reads back into its cells. |
| Activity.ExportToCsv | src/services/activity.service.ts:135-153 | With no entries the export is the header line alone. Otherwise it is the header line, a line break, then the rows. |
| Activity.GetStats | src/services/activity.service.ts:175-193 | The total is the number of recent entries. Each of the five counts is the size of the by-action query over the recent entries. Together they never exceed the total. |
| Activity.CountsBounded | src/services/activity.service.ts:183-193 | The five actions' counts over any list of entries together never exceed its length. |
| Validators.EmailShapeIsPattern | src/utils/validators.ts:9-14 | The scan used for email shape accepts exactly the texts the regular expression matches. |
| Validators.IsValidEmail | src/utils/validators.ts:9-14 | False for "". Otherwise true exactly when the trimmed text has the email shape. |
| Validators.FailedRules | src/utils/validators.ts:46-64 | Exactly the rules the password breaks, out of the five. |
| Validators.IsValidPassword | src/utils/validators.ts:39-70 | An empty password gives exactly "Password is required". Otherwise there is one message per broken rule. The password is valid exactly when it is non-empty and keeps every rule. |
| Validators.PasswordChecksInOrder | src/utils/validators.ts:46-64 | Checking the rules one after another finds exactly the broken rules, in order. |
| Validators.IsValidImageFile | src/utils/validators.ts:75-89 | Exactly the five listed MIME types pass. |
| Validators.IsValidFileSize | src/utils/validators.ts:91-105 | A file is refused exactly when it is larger than the limit in MB times 1048576. |
| Validators.FileSizeMonotone | src/utils/validators.ts:91-105 | A larger limit accepts every file a smaller one accepts. |
| Validators.IsValidYear | src/utils/validators.ts:110-117 | Exactly the integers from 1900 to ten years after the current year. |
| Validators.IsRequired | src/utils/validators.ts:122-127 | Missing values, blank text and empty lists fail; everything else passes. |
| Validators.MinLength | src/utils/validators.ts:132-135 | Empty text fails; otherwise the trimmed length is compared. |
| Validators.MaxLength | src/utils/validators.ts:140-143 | Empty text passes; otherwise the trimmed length is compared. |
| Validators.LengthChecksIgnorePadding | src/utils/validators.ts:132-143 | Padding non-empty text with white space changes neither length check. |
| Validators.InRange | src/utils/validators.ts:148-150 | Inclusive at both ends. |
| Validators.UrlShapeIsPattern | src/utils/validators.ts:155-176 | The scan used for the social-profile URLs accepts exactly what their regular expressions match. |
| Validators.IsValidGithubUrl | src/utils/validators.ts:155-158 | http:// or https://, an optional www., then github.com/ and at least one more character. |
| Validators.IsValidLinkedInUrl | src/utils/validators.ts:163-166 | The same shape for linkedin.com/in/ and linkedin.com/company/. |
| Validators.IsValidTwitterUrl | src/utils/validators.ts:171-174 | The same shape for twitter.com/ and x.com/. |
| Validators.Validate | src/utils/validators.ts:189-221 | `required` is checked first, and a value that is not required and empty is always valid. Otherwise the error of the first failing rule is given, in the order email, url, minLength, maxLength, pattern, custom. |
| Validators.EmailRuleFirst | src/utils/validators.ts:200-203 | A failing email rule decides the outcome, whatever the later rules say. |
| Validators.NoRulesAcceptAll | src/utils/validators.ts:189-221 | With no rules every value is valid. |
| Sanitize.SanitizeUrl | src/utils/sanitize.ts:44-60 | Empty input, and input whose trimmed, lower-cased text starts with a blocked scheme, give "". Anything else gives the trimmed text in its own case. |
| Sanitize.SanitizeUrlIdempotent | src/utils/sanitize.ts:44-60 | Sanitising twice is sanitising once. |
| Sanitize.BlockedSchemeAnyCase | src/utils/sanitize.ts:50-57 | A blocked scheme is refused whatever its case and padding. |
| Sanitize.RemoveDotDot | src/utils/sanitize.ts:69 | The left-to-right removal of dot pairs leaves no two dots in a row and never lengthens the text. |
| Sanitize.SanitizeFilename | src/utils/sanitize.ts:66-80 | Only the characters `[A-Za-z0-9._-]` remain. A cleaned name over 255 characters becomes its first 250 characters, a dot and the text after its last dot. |
| Sanitize.ShortNameSafe | src/utils/sanitize.ts:69-73 | A name within the limit has no pair of dots and is no longer than the input. |
| Sanitize.LongNameKeepsExtension | src/utils/sanitize.ts:76-79 | A long name ends with a dot and the original extension, after 250 characters. |
| Sanitize.SanitizeFilenameStable | src/utils/sanitize.ts:66-80 | For names within the limit, sanitising twice is sanitising once. |
| Sanitize.Truncate | src/utils/sanitize.ts:98-102 | Text within the limit is unchanged. Longer text becomes a kept part followed by "...". The kept part has no white space at its ends and sits in the first `maxLength` characters with only white space around it. |
| Sanitize.TruncatedKeepsTrimmedPrefix | src/utils/sanitize.ts:98-102 | For longer text, the part before "..." is exactly the trimmed first `maxLength` characters. |
| Sanitize.SanitizeObject | src/utils/sanitize.ts:107-118 | Exactly `__proto__`, `constructor` and `prototype` are dropped; every other key keeps its value. |
| Sanitize.SanitizeObjectIdempotent | src/utils/sanitize.ts:107-118 | An object without those keys is returned as it was. |
| Routes.PageToPath | src/config/routes.ts:9-23 | Every page's path starts with '/'. |
| Routes.AllPagesComplete | src/config/routes.ts:9-23 | The table lists all 13 pages. |
| Routes.PageToPathInjective | src/config/routes.ts:9-23 | No two pages share a path. |
| Routes.PathToPage | src/config/routes.ts:26-38 | A path in the table gives its page, and any other path gives 'not-found'. |
| Routes.PageToPathOf | src/config/routes.ts:31-33 | A page's name gives its table path; any other text gives '/' followed by that text. |
| Routes.PageRoundTrip | src/config/routes.ts:9-38 | Every page comes back from its path. |
| Routes.PathRoundTrip | src/config/routes.ts:26-38 | Every table path comes back from its page. |
| Navigation.GetPageFromPath | src/hooks/useNavigation.ts:7-23 | '/' gives the front page. The path after its first character names admin, login or one of the ten listed pages, or else it gives 'not-found'. |
| Navigation.NestedPathNotFound | src/hooks/useNavigation.ts:14-22 | A path with a further slash, such as '/admin/projects', gives 'not-found'. |
| Navigation.PushedUrl | src/hooks/useNavigation.ts:53 | '/' for the front page and '/' plus the page name otherwise. |
| Navigation.PushedUrlRoundTrip | src/hooks/useNavigation.ts:18-54 | Every page's pushed URL leads back to that page. |
| Navigation.Init | src/hooks/useNavigation.ts:33-34 | The first page is the one the browser's path names, and no transition is running. |
| Navigation.Navigate | src/hooks/useNavigation.ts:47-66 | A request for the current page, or any request during a transition, is ignored. Otherwise the transition starts, the URL of the requested page is pushed, and the page change is pending. |
| Navigation.ShowPage | src/hooks/useNavigation.ts:57-60 | The pending page is shown. |
| Navigation.EndTransition | src/hooks/useNavigation.ts:63-65 | Navigation is accepted again, and the page and URL are kept. |
| Navigation.PopState | src/hooks/useNavigation.ts:37-45 | The page follows the browser's path. |
| Navigation.NavigationCompletes | src/hooks/useNavigation.ts:47-66 | An accepted request ends on the requested page, whose URL the browser holds. A second request made mid-transition is dropped. |
| Cloudinary.TransformParts | src/services/cloudinary.service.ts:81-88 | `w_`/`h_` appear only for given, non-zero sizes, then always `q_` (80 by default) and `f_` (auto by default). |
| Cloudinary.TransformStringSplits | src/services/cloudinary.service.ts:89 | The comma-joined transformation splits back into its parts. |
| Cloudinary.GetOptimizedUrl | src/services/cloudinary.service.ts:68-91 | Other hosts' URLs, and hosted URLs without "/upload/", come back unchanged. Otherwise the transformation and a slash go right after the first "/upload/", and everything else is kept. |
| Cloudinary.OptimizedUrlRestores | src/services/cloudinary.service.ts:89-90 | Cutting out the inserted segment gives the original URL. |
| Cloudinary.DefaultTransform | src/services/cloudinary.service.ts:81-88 | With no options the segment is "q_80,f_auto". |
| ProfileService.NormalizeSection | src/services/profile.service.ts:38-42 | A section keeps a non-empty id or takes the generated one, and a missing order becomes its index. |
| ProfileService.MergeVitals | src/services/profile.service.ts:43-48 | Each of the four vitals fields takes the supplied value (even empty), else the stored one, else "". |
| ProfileService.Save | src/services/profile.service.ts:24-64 | Text fields: supplied, else stored, else "". Image and links: supplied, else stored. Each saved section is the normalised section at that position of the supplied list, else the stored one. An existing profile keeps its id; a new one gets the fresh id. The creation time is the stored one when that is non-empty, and `now` otherwise, including for a stored profile whose creation time is missing or empty. The update time is always `now`. |
| ProfileService.SaveNothingKeeps | src/services/profile.service.ts:24-64 | Saving nothing over a complete profile changes only the update time (and the vitals' availability, which the merge drops). |
| ProfileService.EmptyStringOverrides | src/services/profile.service.ts:33-36 | A supplied empty string wins over the stored text. |
| ProfileService.SaveTwiceStable | src/services/profile.service.ts:24-64 | Saving the returned profile again changes only the update time. |
| Collection.Get | src/services/firestore.service.ts:41-51 | The document with that id, if any. |
| Collection.Put | src/services/firestore.service.ts:56-70 | Afterwards the id gives the written document, and every other id gives what it gave before. Ids stay unique, and a new id is appended. |
| Collection.Remove | src/services/firestore.service.ts:75-83 | Afterwards the id gives nothing, and every other id gives what it gave before. |
| Collection.PutThenDelete | src/services/firestore.service.ts:56-83 | Adding a new document and deleting it again restores every lookup. |
| Collection.PublishedOf | src/services/project.service.ts:33 | Exactly the documents whose `published` is not an explicit false, in order. |
| Collection.FeaturedOf | src/services/project.service.ts:41 | Exactly the documents whose `featured` is true, in order. |
| Collection.Merge | src/services/project.service.ts:69-74 | Supplied fields override, the others persist, and the update time is `now`. |
| Collection.Update | src/services/project.service.ts:65-77 | An unknown id gives null and changes nothing. Otherwise the document keeps its id, takes the merged fields and is returned. The same code is in `skill.service.ts` and `blogPost.service.ts`. |
| Collection.Delete | src/services/project.service.ts:82-88 | An unknown id gives false and changes nothing. Otherwise exactly that document is removed, and the result is true. The same code is in `skill.service.ts` and `blogPost.service.ts`. |
| Collection.ReorderSpec | src/services/project.service.ts:93-104 | Each listed, existing document takes its (last) list position as its order. Unlisted documents are untouched, unknown ids are ignored, and the set of ids is unchanged. The same code is in `skill.service.ts`. |
| Collection.Reorder | src/services/project.service.ts:93-104 | The set of ids is unchanged and unique ids stay unique. A document whose id is not listed reads back unchanged. |
| OrderedCollection.GetAllAsWritten | src/services/project.service.ts:16-19 | A permutation of the collection, ascending by `order \|\| 999`. The same code is in `skill.service.ts`. |
| OrderedCollection.SortKeysDiffer | src/services/project.service.ts:18 | `order \|\| 999` and `order ?? 999` differ exactly on an order of 0. |
| OrderedCollection.GetAll | src/services/project.service.ts:18 | The corrected listing of the Findings row: a permutation of the collection, ascending by `order ?? 999`, so only a missing order counts as 999. The services' views do not use it. |
| OrderedCollection.ListedMembers | src/services/project.service.ts:16-19 | The listing holds exactly the stored documents. |
| OrderedCollection.AppendedListedLastCorrected | src/services/project.service.ts:47-58 | With the corrected listing, a document added with order equal to the number of documents, over documents whose orders are below that, is listed after all of them. |
| OrderedCollection.AppendedListedAsWritten | src/services/project.service.ts:16-58 | As written, a document added with order equal to the number of documents, over documents whose orders are below that, is listed after every document whose order is not 0, and before those with order 0 while there are fewer than 999. |
| OrderedCollection.ReorderedOrders | src/services/project.service.ts:93-104 | After `reorder` with every id listed, each document's order is its list position. |
| OrderedCollection.ReorderListsInOrder | src/services/project.service.ts:93-104 | With the intended key, the listing after `reorder` follows the order given. The same code is in `skill.service.ts`. |
| OrderedCollection.ReorderFirstSortsLast | src/services/project.service.ts:18-104 | As written, the first document given to `reorder` is listed after every other one. |
| OrderedCollection.TwoDocumentsAsWritten | src/services/project.service.ts:18-104 | Two projects reordered as [a, b] are listed b first, as written. |
| OrderedCollection.TwoDocumentsCorrected | src/services/project.service.ts:93-104 | With the intended key they are listed a first. |
| ProjectService.GetPublished | src/services/project.service.ts:31-34 | The filter of the `order \|\| 999` listing by `published !== false`: exactly the stored projects not hidden by an explicit `published: false`, each as often as stored, in that order. |
| ProjectService.GetFeatured | src/services/project.service.ts:39-42 | The filter of the `order \|\| 999` listing by published and `featured === true`: exactly those projects, each as often as stored, in that order. |
| ProjectService.Create | src/services/project.service.ts:47-60 | One document is added under the fresh id, and the others are unchanged. Its order is the number of projects, its published flag is `data.published !== false`, and both times are `now`. Every other supplied field is kept. |
| ProjectService.CreatedPosition | src/services/project.service.ts:16-60 | As written, when the existing orders are below their number, a new project is listed after every existing project whose order is not 0, and before those with order 0 while there are fewer than 999 projects. |
| ProjectService.CreatedVisibility | src/services/project.service.ts:31-53 | A new project is published unless its data says `published: false`, and it is featured exactly when its data says `featured: true`. |
| SkillService.GetFeatured | src/services/skill.service.ts:31-34 | The filter of the `order \|\| 999` listing by `featured === true`, with no published filter: exactly those skills, each as often as stored, in that order. |
| SkillService.GetByCategory | src/services/skill.service.ts:39-42 | The filter of the `order \|\| 999` listing by category: exactly the skills of that category, each as often as stored, in that order. |
| SkillService.CategoriesDisjoint | src/services/skill.service.ts:39-42 | No skill is in the view of two different categories. |
| SkillService.Create | src/services/skill.service.ts:47-59 | One document is added under the fresh id, and the others are unchanged. Its order is the number of skills and both times are `now`. Every other field is as supplied, so no published flag is added. |
| SkillService.CreatedPosition | src/services/skill.service.ts:16-59 | As written, when the existing orders are below their number, a new skill is listed after every existing skill whose order is not 0, and before those with order 0 while there are fewer than 999 skills. |
| SkillService.CreatedInCategory | src/services/skill.service.ts:39-59 | A new skill appears in the view of the category its data names. |
| BlogPostService.GetAll | src/services/blogPost.service.ts:16-21 | A permutation of the posts, newest publish date first. |
| BlogPostService.GetPublished | src/services/blogPost.service.ts:33-36 | The filter of the newest-first listing by `published !== false`: exactly the posts not hidden by an explicit `published: false`, each as often as stored, newest first. |
| BlogPostService.GetFeatured | src/services/blogPost.service.ts:41-44 | The filter of the newest-first listing by published and `featured === true`: exactly those posts, each as often as stored, newest first. |
| BlogPostService.Create | src/services/blogPost.service.ts:49-60 | One post is added under the fresh id, and the others are unchanged. It has an explicit published flag and both times `now`. Every other field is as supplied, so no order is added. |
| BlogPostService.CreatedVisibility | src/services/blogPost.service.ts:33-60 | A new post is listed as published unless its data hides it. |
| MultiImageUpload.FileError | src/components/admin/MultiImageUpload.tsx:36-44 | A file that is not an image is refused for its type first; otherwise it is refused exactly when over 5 MB. |
| MultiImageUpload.FirstFileError | src/components/admin/MultiImageUpload.tsx:36-44 | There is no complaint exactly when every file is acceptable. Otherwise the complaint is the first bad file's. |
| MultiImageUpload.ChooseFiles | src/components/admin/MultiImageUpload.tsx:30-63 | A batch is taken only when every file is acceptable, the total stays within the maximum and the upload succeeds. The new list is then the old one followed by the URLs in file order, and the error is cleared. A failed upload keeps the list and shows its message, or "Failed to upload images" when it has none. Any refusal leaves the list unchanged and shows the reason. |
| MultiImageUpload.SubmitUrl | src/components/admin/MultiImageUpload.tsx:65-75 | A blank field changes nothing. A full gallery only shows the limit message. Otherwise the trimmed URL is appended and the field is cleared. |
| MultiImageUpload.RemoveImage | src/components/admin/MultiImageUpload.tsx:77-79 | Exactly the image at the index goes, and the others keep their order. |
| MultiImageUpload.MoveUp | src/components/admin/MultiImageUpload.tsx:81-86 | The first image stays. Any other swaps with its predecessor, and the images as a multiset are unchanged. |
| MultiImageUpload.MoveDown | src/components/admin/MultiImageUpload.tsx:88-93 | The last image stays. Any other swaps with its successor, and the images as a multiset are unchanged. |
| MultiImageUpload.MovesUndo | src/components/admin/MultiImageUpload.tsx:81-93 | Moving an image up and then back down restores the list. |
| MultiImageUpload.SubmitThenRemove | src/components/admin/MultiImageUpload.tsx:65-79 | Appending by URL and removing the new last image restores the list. |
| MultiImageUpload.NeverExceedsMax | src/components/admin/MultiImageUpload.tsx:46-69 | From a list within the maximum, no edit takes it past the maximum. |
| ProfileEditor.AddSection | src/pages/admin/AdminProfile.tsx:101-113 | One blank section is appended with the fresh id and the section count as its order. Earlier sections and every other field are unchanged. |
| ProfileEditor.UpdateSection | src/pages/admin/AdminProfile.tsx:115-119 | Only the chosen field of the chosen section changes; the other sections, the count and every other field are unchanged. |
| ProfileEditor.RemoveSection | src/pages/admin/AdminProfile.tsx:121-124 | Exactly the chosen section goes, and the others keep their order. |
| ProfileEditor.AddThenRemove | src/pages/admin/AdminProfile.tsx:101-124 | Removing the section just added restores the form. |
| ProfileEditor.UpdateRestores | src/pages/admin/AdminProfile.tsx:115-119 | Typing back a field's old value restores the form. |
| BlogEditor.ParseContent | src/pages/admin/AdminBlog.tsx:127-130 | Every paragraph read from the content box is non-empty and trimmed. |
| BlogEditor.ContentRoundTrip | src/pages/admin/AdminBlog.tsx:97-130 | Paragraphs that are trimmed, non-empty and hold no blank line come back unchanged from the content box. |
| BlogEditor.ParseTags | src/pages/admin/AdminBlog.tsx:217-223 | No tag read from the tags box is empty, padded or holds a comma. |
| BlogEditor.TagsRoundTrip | src/pages/admin/AdminBlog.tsx:217-223 | Tags that are trimmed, non-empty and comma-free come back unchanged from the tags box, which shows them joined with ", " (line 383). |
| BlogEditor.Search | src/pages/admin/AdminBlog.tsx:72-86 | An empty query shows every post. Otherwise the filter of the posts by the lower-cased query, so the stored order is kept: exactly the posts whose lower-cased title, category, author or some tag contains it, each as often as stored. |
| BlogEditor.SearchIgnoresCase | src/pages/admin/AdminBlog.tsx:74-84 | A query and its lower-cased form find the same posts. |
| BlogEditor.TogglePublished | src/pages/admin/AdminBlog.tsx:197-206 | The flag is flipped, and 'unpublish' is logged exactly when the post was published. |
| BlogEditor.ToggleTwice | src/pages/admin/AdminBlog.tsx:197-206 | Toggling twice restores the flag and logs both actions in turn. |
| BlogEditor.ToggleWithoutFlag | src/pages/admin/AdminBlog.tsx:197-206 | A post stored without a flag is listed as published, yet the toggle treats it as unpublished. The same code is in `blogPost.service.ts`. |
| SkillsEditor.ProficiencyLevel | src/pages/admin/AdminSkills.tsx:215-220 | 80 and up is Expert, [60, 80) Advanced, [40, 60) Intermediate, below 40 Beginner. |
| SkillsEditor.LevelMonotone | src/pages/admin/AdminSkills.tsx:215-220 | More proficiency never gives a lower level. |
| SkillsEditor.Search | src/pages/admin/AdminSkills.tsx:101-111 | An empty query keeps every skill. Otherwise exactly the skills whose lower-cased name, category or trend contains the lower-cased query, each as often as given. |
| SkillsEditor.SearchIgnoresCase | src/pages/admin/AdminSkills.tsx:102-110 | A query and its lower-cased form find the same skills. |
| SkillsEditor.FilterSkills | src/pages/admin/AdminSkills.tsx:100-120 | Sorted by order, then by name. A permutation of the matching skills, so never more of any skill than given, and every skill for an empty query. |
| SkillsEditor.FilterSkillsIgnoresLoadOrder | src/pages/admin/AdminSkills.tsx:113-117 | When no two skills share both order and name, the listing does not depend on the order the skills were loaded in. |
| SkillsEditor.NewSkillForm | src/pages/admin/AdminSkills.tsx:127-136 | The form starts with the fixed defaults, and its order is the number of skills. |
| SkillsEditor.DefaultOrderAgrees | src/pages/admin/AdminSkills.tsx:127-136 | With the whole collection listed, the offered order is the one the service gives the created skill. The same code is in `skill.service.ts`. |
| Dashboard.AgeOf | src/pages/admin/AdminDashboard.tsx:129-141 | Exactly one branch applies. Under a minute (future times included) is "just now". Whole minutes 1–59, hours 1–23 and days 1–6 give their floored count, and a week or more is a date. |
| Dashboard.AgeMonotone | src/pages/admin/AdminDashboard.tsx:137-141 | The unit used never gets smaller as the difference grows. |
| Dashboard.FormatTimestamp | src/pages/admin/AdminDashboard.tsx:129-142 | "Just now" under a minute. "<n> min ago", "<n> hour ago" or "<n> day ago" for the floored count. The local date after a week. |
| Dashboard.AgoPlural | src/pages/admin/AdminDashboard.tsx:138-140 | The unit takes an 's' exactly when the count is more than one. |
| Dashboard.ActionLabel | src/pages/admin/AdminDashboard.tsx:144-156 | The eight actions get their fixed labels, and any other action is shown as it is. |
| Dashboard.LabelsDistinct | src/pages/admin/AdminDashboard.tsx:144-156 | Each logged action's label differs from its stored name and from every other action's label. |
| Dashboard.ActionColor | src/pages/admin/AdminDashboard.tsx:158-170 | The eight actions get their colour classes, and any other action is 'text-ink'. |
| Dashboard.ColouredIffKnown | src/pages/admin/AdminDashboard.tsx:158-170 | An action is coloured exactly when it is one the log records. |
| Dashboard.LoadActivity | src/pages/admin/AdminDashboard.tsx:73-76 | The first min(10, n) of the last seven days' entries, from the log. |
| Dashboard.PanelNewestFirst | src/pages/admin/AdminDashboard.tsx:73-76 | A log kept newest first is shown newest first. The same code is in `activity.service.ts`. |
| Dashboard.LogKeepsNewestFirst | src/services/activity.service.ts:60-66 | Logging with a clock that has not gone back keeps the log newest first. |
| Classifieds.AllImages | src/pages/ClassifiedsPage.tsx:40-43 | The main image first when it is set. Then the other images in stored order, without copies of the main image; the main image appears nowhere else. |
| Classifieds.GalleryLength | src/pages/ClassifiedsPage.tsx:40-43 | The gallery length is 1 when the main image is set, plus the other images minus their copies of the main image. |
| Classifieds.MainShownOnce | src/pages/ClassifiedsPage.tsx:40-43 | The main image appears exactly once, however often it was stored among the others. |
| Classifieds.Next | src/pages/ClassifiedsPage.tsx:145 | The index after a right click is the next one modulo the length, within range. |
| Classifieds.Prev | src/pages/ClassifiedsPage.tsx:139 | The index after a left click is the previous one modulo the length, within range. |
| Classifieds.ArrowsUndo | src/pages/ClassifiedsPage.tsx:139-145 | Each arrow undoes the other. |
| Classifieds.Browse | src/pages/ClassifiedsPage.tsx:44-145 | From the first image, any clicks keep the index within the gallery. |
| Classifieds.RightClicks | src/pages/ClassifiedsPage.tsx:44-145 | k right clicks show image k, and as many clicks as images come back to the first. |
| Classifieds.LayoutAt | src/pages/ClassifiedsPage.tsx:445-478 | Position 0 is featured, other multiples of 4 are inverted, and everything else is standard. |
| Classifieds.OneFeatured | src/pages/ClassifiedsPage.tsx:471-478 | A non-empty listing has exactly one featured project. A project four places after a featured or inverted one is inverted, and four places after a standard one is standard. |
| Theme.InitialMode | src/hooks/useTheme.ts:11-15 | A stored value decides, and only 'dark' means dark. The OS preference is asked only when nothing is stored. The hook's tests in `useTheme.test.ts` expect the same. |
| Theme.Mount | src/hooks/useTheme.ts:11-25 | Mounting picks the initial mode, stores it and sets the class to match. Other classes are untouched. |
| Theme.Apply | src/hooks/useTheme.ts:17-25 | The stored value is 'dark' exactly in dark mode and 'light' otherwise. The root 'dark-mode' class is present exactly in dark mode, and other classes are untouched. |
| Theme.Toggle | src/hooks/useTheme.ts:27-27 | The mode flips, and storage and class agree with the new mode. The hook's tests in `useTheme.test.ts` expect the same. |
| Theme.ToggleTwice | src/hooks/useTheme.ts:27-27 | Toggling twice restores the state. The hook's tests in `useTheme.test.ts` expect the same. |
| Theme.ReloadKeepsMode | src/hooks/useTheme.ts:11-24 | Mounting again with what was stored gives the same mode, whatever the OS prefers. |
| Theme.FirstVisit | src/hooks/useTheme.test.ts:30-68 | With nothing stored and no OS preference the page starts light; one toggle stores 'dark' and sets the class. |
| Ordering.SortByKey | src/services/project.service.ts:18-18 | The result is sorted ascending by the key and is a permutation of the input. The same code is in `blogPost.service.ts`. |
| Ordering.LexTrans | src/pages/admin/AdminSkills.tsx:116 | The name order used for ties is transitive. |
| Text.Trim | src/utils/validators.ts:10 | The result has no white space at either end and is a piece of the input. |
| Text.TrimFrames | src/utils/sanitize.ts:101 | The trimmed text sits inside the input with only white space around it. |
| Text.FramedTrim | src/utils/sanitize.ts:101 | Conversely, a text with no white space at its ends, surrounded only by white space, is what trimming gives. |
| Text.TrimEmpty | src/utils/validators.ts:133 | Trimming leaves nothing exactly when the text is all white space. |
| Text.SplitJoin | src/pages/admin/AdminBlog.tsx:97-130 | Joining pieces that hold no separator and then splitting gives the pieces back. |
| Text.DigitsRoundTrip | src/pages/admin/AdminDashboard.tsx:138 | A number's decimal text reads back as that number. |

## Left out

- UTF-16: Dafny characters are Unicode scalar values, while JavaScript string lengths count UTF-16 code units. Lengths of text outside the Basic Multilingual Plane differ, and so do per-character edits of it: `sanitizeFilename`'s character class has no `u` flag, so JavaScript replaces such a character by two underscores where `Sanitize.SanitizeFilename` writes one.
- Case mapping is ASCII-only. JavaScript's `toLowerCase` also maps non-ASCII letters.
- `localeCompare` in the skills sort is replaced by a fixed code-unit order on names.
- The hosted database, the identity provider and the image upload are outside the model. Their answers are parameters: the provider's outcome, the upload result, fresh ids and the listing a collection read returns. Network errors and the services' catch-all paths are not modelled.
- The listing order in which the database returns a collection is not modelled. It is the order of the `Store` sequence.
- JSON serialisation of stored values, and its parse-failure paths, are left out. The unguarded parse in `recordFailedLogin` is one of them. Storage holds typed optional records.
- Timers and event listeners are left out: the five-second interval, the navigation's two timeouts, the modal close delay, and the 'storage' and 'dataUpdated' listeners. Ticks and timer callbacks are single steps. Cross-tab races on shared storage are concurrency and are not modelled.
- Clock, date parsing and locale text are parameters: `now` in epoch milliseconds, ISO time text, the publish time of a blog post, and `toLocaleDateString`/`toLocaleString` output.
- Field values are whole numbers, text, booleans or absent. Fractional and NaN orders, and non-number orders, are not modelled.
- Prototype keys such as "constructor" in the object-literal lookups (`getActionLabel`, `getActionColor`, the route table) are not modelled.
- `sanitizeHtml`, `sanitizeText`, `stripHtml` and `isValidUrl` depend on the DOM or the URL parser and are left out. `isValidUrl` enters `validate` as a parameter. `validate`'s `pattern` and `custom` rules are opaque predicates.
- Audit logging (IP lookup), seeding, the site configuration context, the CSV file download and all JSX and styling are left out.
- MultiImageUpload.MoveUp: requires a valid index, which the component's buttons always pass.
- MultiImageUpload.MoveDown: requires a valid index, which the component's buttons always pass.
- ProfileEditor.UpdateSection: requires a valid index, and edits only the three text fields, which are the ones the form edits.
- ProfileService.MergeVitals: a stored `availability` is not carried over, as in the source. The model states this rather than modelling arbitrary extra vitals fields.
- ProfileService.Save: a supplied section list given as an explicit `undefined` is treated as absent, and explicit `undefined` values spread over stored fields are not modelled.
- Ordering.SortByKey: stability is not stated. The result is fixed by the ordering wherever keys differ.
- Collection.Merge: an explicit `undefined` in the supplied data is not modelled; a supplied key always overrides.
- BlogPostService.GetAll: an unparsable publish date (NaN in the comparator) is not modelled; the publish time is a parameter.
- SkillsEditor.FilterSkills: skills without a numeric order are not modelled; the order is a whole number.
- Dashboard.FormatTimestamp: after a week the local date text is a parameter. When it happens to read "Just now", the two outcomes are indistinguishable, so "Just now" is stated only in one direction.
- Activity.GetRecentLogs: the cutoff is `now` minus `days` times 86,400,000 ms. The source moves the local calendar date back with `setDate`, so across a daylight-saving change its window is an hour longer or shorter.
- Activity.GetFailedLoginAttempts: the cutoff is `now` minus `hours` times 3,600,000 ms. The source moves the local clock back with `setHours`, which can differ by an hour across a daylight-saving change.
- Activity.GetStats: it uses the same fixed-length days as `Activity.GetRecentLogs`.
- Auth.Login: one `now` stamps both the lockout read before the provider is asked and the activity time and log entry written after its answer. The time spent waiting for the provider is collapsed into one instant, because the provider's latency is not modelled.

## Findings

| source | as written | input that shows it | evidently intended | confidence | as-written member | corrected member |
|---|---|---|---|---|---|---|
| src/services/project.service.ts:18 (and src/services/skill.service.ts:18) | `getAll` sorts by `order \|\| 999`, so an order of 0 counts as 999. But `reorder` gives the first listed item order 0, and the first `create` gives order 0. | Two projects a and b, then `reorder([a.id, b.id])`: a gets order 0 and b order 1, and `getAll` lists b before a. | `order ?? 999`: only a missing order sorts last, so the listing follows the order `reorder` was given. | not executed | OrderedCollection.TwoDocumentsAsWritten | OrderedCollection.TwoDocumentsCorrected |

The general forms are `OrderedCollection.ReorderFirstSortsLast` (as written)
and `OrderedCollection.ReorderListsInOrder` (corrected). The same key also
misplaces the first document `create` adds: it gets order 0 and is listed after
every later one (`OrderedCollection.AppendedListedAsWritten`, corrected in
`OrderedCollection.AppendedListedLastCorrected`).

The services' views (`ProjectService.GetPublished`, `ProjectService.GetFeatured`,
`SkillService.GetFeatured`, `SkillService.GetByCategory`) are built on the
listing as written, `OrderedCollection.GetAllAsWritten`. The corrected listing
`OrderedCollection.GetAll` and the lemmas about it state what the services
would give with `order ?? 999`.

Where the toggle and the listing disagree about a post stored without a
`published` flag (`BlogEditor.ToggleWithoutFlag`), the model keeps both
behaviours as written. A first click on "publish" for such a post stores
`true` and changes nothing visible; this is harmless, so it is not listed as a
finding.
