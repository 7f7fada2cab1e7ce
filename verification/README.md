# Coding tutorials service: a Dafny model

This project models the core of a small tutorial-publishing web application. The backend is an
Express server over two Mongoose collections, users and tutorials. The frontend is a single-page
client.

Every HTTP handler is a pure function from a store (the two collections as maps keyed by
ObjectId) and a request to a `Step`: the reply the client sees, and the store afterwards.
Replies carry the status code and a body: a message, a session, a profile, one tutorial, a list
or the totals.

The modules follow the program's files:

| module | models |
|---|---|
| `Text` | JavaScript string behaviour the code relies on: `\s` and `trim`, `split` on one character, `replace` of the first match, hex digits |
| `Crypto` | bcrypt, JWT and Joi's e-mail rule as function values, with the laws the proofs need |
| `Validate` | the Joi `userSchema` and `tutorialSchema`, including Joi's default messages and its abort-early order |
| `Model` | the Mongoose `User` and `Tutorial` schemas: required paths, defaults, the password pre-save hook, `comparePassword` |
| `Db` | the store, `findOne` by e-mail, `sort({createdAt: -1})`, the views sum and the two `getStats` statics |
| `Http` | reply shapes, `populate('author', 'username')`, `select('-password')` |
| `Auth` | `POST /api/auth/register` and `POST /api/auth/login` |
| `OwnedTutorials` | the owner-scoped tutorial router |
| `Users` | the profile routes |
| `Server` | `getCurrentUser`, the public routes, create, the unscoped handlers registered in `server.js`, and `/api/stats` |
| `Client` | the pure parts of `public/script.js` |

Several library calls are parameters rather than code. Bcrypt's salt, the new document's
ObjectId and the clock are inputs. Hashing, password comparison, token signing, token
verification and Joi's e-mail check are fields of an `Oracles` value. Its laws are stated in
`Crypto.Lawful`, and only the lemmas that need them require them:
- a hash compares with its password and differs from it;
- a signed token is non-empty and verifies to the id it was signed for.

The unscoped `GET`/`PUT`/`DELETE /api/tutorials[/:id]` handlers in `server.js` are registered
before the owner router is mounted. Express therefore answers those requests with the unscoped
handlers. The model keeps both sets, and the `Server.Shadowed*` lemmas state how they differ.

Behaviour of the code worth knowing, all of it modelled as written:
- Create always publishes (`server.js:83`): whatever `published` the body carries, the new tutorial is published.
- A quiz item's `correct` is an unconstrained number, and the schema accepts an option list of any length. Only the client drops quizzes with fewer than two options.
- The stats field `authors` is the number of users, whether or not they wrote a tutorial.
- `tutorialSchema` is defined but never used. Create is checked only by Mongoose's own validation, and updates by none at all.

## Model

| member | source | states |
|---|---|---|
| Text.Trim | public/script.js:492 | the result has no whitespace at either end and is no longer than the input |
| Text.TrimIsMiddleSlice | public/script.js:492 | `trim` returns a contiguous middle slice of the input, with only whitespace cut from either side |
| Text.TrimKeepsAbsent | public/script.js:490-493 | trimming never introduces a character the input lacked |
| Text.TrimAfterSpaces | public/script.js:492 | leading whitespace in front of an already-trimmed string is exactly what `trim` removes |
| Text.Split | public/script.js:491 | `split(',')` yields at least one piece, and no piece contains the separator |
| Text.JoinSplit | public/script.js:491 | joining the pieces of `split(d)` with `d` gives the original string back |
| Text.SplitAtSeparator | public/script.js:491 | a separator after a separator-free prefix cuts exactly that prefix off as the first piece |
| Text.ReplaceFirst | server.js:18 | when the header starts with the pattern, only that leading occurrence is replaced |
| Text.ReplaceFirstAbsent | server.js:18 | a header without the pattern is returned unchanged |
| Text.IntToStringInjective | public/script.js:712 | different numbers are printed as different decimal strings |
| Text.IntToString | public/script.js:712 | the printed number is non-empty, starts with `-` exactly when negative, and is otherwise decimal digits |
| Text.HexRoundTrip | server.js:54 | printing an id as hex digits and reading them back gives the same id |
| Validate.UserSchemaError | middleware/validate.js:3-15 | no error exactly when every field meets its rule; a missing field reports Joi's required message, in key order |
| Validate.TagsError | middleware/validate.js:25 | no error exactly when every tag has 1 to 20 characters |
| Validate.TutorialSchemaError | middleware/validate.js:17-26 | no error exactly when title (5-100), content (at least 10) and tags all pass; a missing title is reported first |
| Model.BuildTutorial | models/Tutorial.js:3-18 | a document exists exactly when author and a non-empty title are present and every section's required paths are filled; a supplied `views` or `published` is kept, and absent ones default to 0 and true; sections and tags are the supplied ones or empty |
| Model.ApplyUpdate | models/Tutorial.js:3-18 | every supplied field overwrites, every absent one is kept, and the creation time never changes |
| Model.PreSave | models/User.js:10-18 | an unmodified password is stored as is; a modified one is replaced by a hash that differs from it and compares with it |
| Model.ComparePassword | models/User.js:26-28 | under the oracle laws, a password whose hash is stored is accepted |
| Model.SavedPasswordCompares | models/User.js:26-28 | the password a user saved with is accepted by `comparePassword` |
| Db.FindUserByEmail | routes/auth.js:45 | nothing is found exactly when no user has the e-mail; a hit has the e-mail, and under unique e-mails it is the only one |
| Db.NewestKey | routes/tutorials.js:19 | the chosen key is newest by creation time, with ties broken by id |
| Db.NewestPrepend | routes/tutorials.js:19 | putting the newest key in front of a newest-first listing of the others lists the whole collection newest first |
| Db.NewestFirst | routes/tutorials.js:17-19 | `sort({createdAt: -1})`: every key exactly once, and creation times never increase along the list |
| Db.SumViews | server.js:162-167 | the `$sum` aggregate over all tutorials: 0 for an empty collection and when every tutorial has 0 views |
| Db.SumViewsRemove | models/Tutorial.js:22-24 | the views total is any one tutorial's views plus the total of the others |
| Db.SumViewsUpdate | server.js:67-68 | changing one tutorial changes the total by the difference in its views |
| Db.SumViewsInsert | server.js:86 | inserting a tutorial adds its views to the total and one to the count |
| Db.SumViewsNonNegative | models/Tutorial.js:16 | with no negative counters the total is not negative |
| Db.GetUserStats | models/User.js:20-24 | the two counts are the sizes of the collections |
| Db.GetTutorialStats | models/Tutorial.js:20-29 | the count is the collection's size, and the total is the sum of every tutorial's views, 0 when there are none |
| Http.ViewUser | routes/users.js:7 | a profile exists exactly when the user does, and carries the user's id and username but no password |
| Http.Populate | routes/tutorials.js:18 | the author is replaced by `{id, username}`, or by null when the author no longer exists; the document is otherwise unchanged |
| Http.PopulatedListing | routes/tutorials.js:17-19 | populating a newest-first enumeration gives a list of the collection's documents, complete, distinct and newest first |
| Http.ListView | routes/tutorials.js:17-19 | a populated list of exactly the collection's documents, newest first |
| Auth.EmailFormatSound | routes/auth.js:19-20 | a string the direct check accepts splits into the three `[^\s@]+` runs of the regular expression |
| Auth.EmailFormatComplete | routes/auth.js:19-20 | a string the regular expression matches passes the direct check |
| Auth.EmailFormatMatchesRegex | routes/auth.js:19-20 | the direct check and the regular expression accept the same strings |
| Auth.Taken | routes/auth.js:24-25 | the `$or` lookup finds a user exactly when the e-mail lookup finds one or some user has the username |
| Auth.Register | routes/auth.js:7-38 | checks in order: schema 400, e-mail regex 400, duplicate 400, id clash 500; 201 exactly when all pass; a failure leaves the store alone; success adds exactly one user, holding the password hash, and returns a session for it |
| Auth.Login | routes/auth.js:42-55 | the store is never changed; the reply is the one 401 or a 200; under unique e-mails, 200 exactly when a user with the e-mail has a matching password, with a session for that user |
| Auth.LoginFailuresIndistinguishable | routes/auth.js:45-48 | an unknown e-mail and a wrong password get identical replies |
| Auth.RegisterKeepsCredentialsUnique | routes/auth.js:24-30 | registration keeps usernames and e-mail addresses unique |
| Auth.RegisterRaisesUserCount | models/User.js:20-24 | a successful registration adds one to the user count `getStats` reports, a failed one nothing; the tutorial count is unchanged |
| Auth.SecondRegistrationConflicts | routes/auth.js:24-27 | after a successful registration, any valid registration reusing its e-mail or username gets the 400 and changes nothing |
| Auth.RegisterThenLogin | routes/auth.js:29-33 | a fresh registration can log in with the same e-mail and password and gets a token for the new id |
| OwnedTutorials.PublishedFilter | routes/tutorials.js:11-15 | only the strings `true` and `false` filter the list; anything else means no filter |
| OwnedTutorials.OwnedSelection | routes/tutorials.js:9-15 | selects exactly the requester's tutorials that match the filter |
| OwnedTutorials.ListOwn | routes/tutorials.js:7-28 | the requester's tutorials matching the filter, each once, newest first, and nobody else's |
| OwnedTutorials.GetOwn | routes/tutorials.js:30-34 | 404 exactly when the tutorial is missing or owned by someone else; otherwise the populated document |
| OwnedTutorials.PutOwn | routes/tutorials.js:36-44 | 404 with nothing changed unless owned; otherwise the fields are applied unvalidated, other tutorials are untouched, and the reply is not populated |
| OwnedTutorials.DeleteOwn | routes/tutorials.js:46-50 | 404 with nothing changed unless owned; otherwise only that tutorial is removed |
| OwnedTutorials.OwnershipIsolation | routes/tutorials.js:7-50 | through the owner router, nobody can read, change, delete or list another user's tutorial |
| Users.GetProfile | routes/users.js:6-9 | 200 with the user's profile and no password, or null when the user is gone |
| Users.UpdateProfile | routes/users.js:11-16 | the password key is dropped; no reply and no change exactly when another user holds the resulting username or e-mail; otherwise the supplied username and e-mail replace the old ones without the username rules, and the reply is the updated profile; other users are untouched |
| Users.UpdateProfileKeepsCredentialsUnique | routes/users.js:14 | a profile update keeps usernames and e-mail addresses unique |
| Users.ProfileRepliesIgnorePassword | routes/users.js:13-14 | the reply and the stored profile fields are the same whatever the stored password is |
| Users.UpdateProfileSkipsUsernameRules | routes/users.js:14 | a one-character username, which registration refuses, is stored by a profile update |
| Server.CurrentUser | server.js:16-28 | no header means anonymous; a user is found exactly when the header, with its first `Bearer ` removed, is a non-empty token that verifies to the id of an existing user, and then it is that user |
| Server.SignedTokenIdentifiesUser | server.js:18-23 | `Bearer` plus a token signed for an existing user identifies that user |
| Server.ParseObjectId | server.js:54 | an id is read exactly when the route value is 24 hex digits; its value fits in 96 bits |
| Server.ObjectIdRoundTrip | server.js:54-59 | the 24-digit hex form of any ObjectId is accepted and read back as the same id |
| Server.PublishedSelection | server.js:41 | exactly the published tutorials |
| Server.FirstTenAreNewest | server.js:43-44 | a published tutorial not among the first ten is no newer than any of them, and more than ten exist |
| Server.TakeTen | server.js:44 | `.limit(10)` keeps at most ten, in order, and leaves out nothing newer than what it keeps |
| Server.PublicList | server.js:39-50 | at most ten published tutorials of any author, distinct, newest first, with none newer left out |
| Server.PublicGet | server.js:52-74 | 400 for a malformed id; 404 for a missing or unpublished one; 500 when the save fails, which only a stored document with an empty required path causes; otherwise 200 and views rise by one, with nothing else changed |
| Server.PublicGetServesOrphanedTutorial | server.js:61-70 | a published tutorial whose author no longer exists is served with a null author, and its views still rise by one |
| Server.RepeatedFetchesCountEachView | server.js:67-68 | n successful public reads add exactly n views and change nothing else |
| Server.Create | server.js:76-93 | 401 when anonymous; 201 exactly when the title is filled, every section is valid and the id is new, and 400 for a signed-in request otherwise; the new tutorial is the requester's and published whatever the body says, with the given title, sections, tags and `views` (0 when absent) |
| Server.CreateThenReadBack | server.js:80-88 | what was created reads back through the owner router with the same title and sections, published |
| Server.ListAll | server.js:95-106 | every tutorial of every author, each once, newest first |
| Server.GetAny | server.js:108-118 | any tutorial by id, whoever owns it; 404 only when missing |
| Server.PutAny | server.js:120-134 | any tutorial is updated, whoever owns it; `published` becomes true unless the body says false |
| Server.DeleteAny | server.js:136-145 | any tutorial is removed, whoever owns it; only that one |
| Server.Stats | server.js:157-178 | the totals equal the collection sizes and the sum of views, and agree with both models' `getStats` |
| Server.PublicGetRaisesTotalViews | server.js:67-68 | each successful public read raises the reported views total by one |
| Server.CreateRaisesTotals | server.js:157-178 | a creation adds one tutorial and its views to the totals |
| Server.ShadowedReadExposesOthersTutorials | server.js:108-118 | another user's tutorial that the owner router hides is served by the handler that answers |
| Server.ShadowedUpdateEditsOthersTutorials | server.js:120-134 | another user's tutorial that the owner router protects is overwritten by the handler that answers |
| Server.ShadowedDeleteRemovesOthersTutorials | server.js:136-145 | another user's tutorial that the owner router protects is deleted by the handler that answers |
| Server.ShadowedUpdatePublishesDrafts | server.js:125 | an update without `published` publishes a draft |
| Server.ShadowedListIgnoresFilters | server.js:95-106 | the answering list includes other users' drafts, which the owner router's drafts filter excludes |
| Client.NonEmpty | public/script.js:568 | `.filter(Boolean)` returns only non-empty strings, exactly as many as the input holds |
| Client.FilledPositions | public/script.js:561-565 | the positions of the editors that pass `title && content`: every such position, only those, ascending |
| Client.SectionAsWritten | public/script.js:562-578 | one section as built: a quiz exactly when the question, at least two non-empty options and a radio under the editor's current position are all present; `correct` is the raw radio value |
| Client.CollectAsWrittenFrom | public/script.js:561-581 | the `forEach` loop from one position on: the k-th section is the one built for the k-th filled editor, with that editor's position |
| Client.CollectSectionsAsWritten | public/script.js:559-583 | one section per filled editor, in editor order, each built as written with the editor's current position, so its quiz is present exactly under the conditions of `SectionAsWritten` |
| Client.SectionFromEditor | public/script.js:562-578 | the corrected section: the editor's own radio group, and `correct` pointing, in the filtered options, at the text the author chose |
| Client.ChosenOptionSurvivesFilter | public/script.js:568-570 | a non-empty option at input position k sits after filtering at the count of non-empty inputs before it |
| Client.CollectFrom | public/script.js:561-581 | the corrected loop from one position on: the corrected section of each filled editor, in order |
| Client.CollectSections | public/script.js:559-583 | the corrected collection: the corrected section for each filled editor, in order |
| Client.CollectedQuizMarksChosenOption | public/script.js:569-575 | every collected quiz marks as correct the exact option text the author chose |
| Client.AsWrittenDropsQuizAfterRemoval | public/script.js:540-569 | after an earlier section is removed, a later section's quiz is dropped; the corrected collection keeps it |
| Client.AsWrittenMisplacesCorrectAnswer | public/script.js:568-570 | with an empty first option, the stored answer is the option after the chosen one; the corrected collection keeps the chosen one |
| Client.TrimAll | public/script.js:492 | `.map(t => t.trim())`: each piece trimmed, in place |
| Client.ParseTags | public/script.js:490-493 | the tags sent are non-empty, trimmed and free of commas; there are as many as non-blank comma-separated pieces, and each non-blank piece is sent trimmed at its rank among them |
| Client.PieceRanks | public/script.js:491-493 | for any pieces, trimming and filtering keeps each non-blank piece, trimmed, at its rank, and keeps no more |
| Client.TrimAllClean | public/script.js:491-492 | trimmed comma-free pieces are trimmed and comma-free |
| Client.NonEmptyKeeps | public/script.js:493 | filtering keeps only well-formed tags out of trimmed comma-free pieces |
| Client.SplitPaddedJoin | public/script.js:491 | splitting tags joined with `', '` gives each tag back, every one after the first with a leading space |
| Client.ParsePadded | public/script.js:492-493 | trimming and filtering those padded pieces gives the tags back |
| Client.TagsSurviveEditRoundTrip | public/script.js:490-493 | saving the edit form's tag field unchanged sends exactly the stored tags back |
| Client.TabQuery | public/script.js:249-251 | only the published and drafts tabs send a query, and every query sent carries a `published` value |
| Client.TabSelectsServerFilter | public/script.js:249-251 | the published tab asks for published tutorials, the drafts tab for unpublished ones, and any other tab for all |
| Client.DraftCount | public/script.js:259-260 | the number of listed tutorials whose `published` is false; 0 exactly when all are published; the full length exactly when none is |
| Client.DraftCounterOnTabs | public/script.js:249-260 | through the owner router, the drafts tab counts every listed tutorial as a draft and the published tab counts none |
| Client.ServedDraftsTabMixesInPublished | public/script.js:251-260 | as served by the handler that answers, the drafts tab lists published tutorials too once any exist |
| Client.CheckQuiz | public/script.js:687-714 | no selection is reported as such; right exactly when the selected value equals `correct`; a wrong answer shows `correct + 1` |
| Client.QuizNotification | public/script.js:709-713 | the wrong-answer text is recognisable by its prefix and ends with the shown option number in decimal |
| Client.QuizNotificationIdentifiesVerdict | public/script.js:709-713 | different verdicts give different notifications, so the text names the verdict and the shown option |
| Client.ChosenOptionIsJudgedRight | public/script.js:651-697 | a reader who picks the author's chosen option, in a quiz from the corrected collection, is told it is right |
| Client.AsWrittenJudgesChosenOptionWrong | public/script.js:568-570 | with the collection as written, a reader who picks the author's choice is told it is wrong |
| Client.BeginSave | public/script.js:476-508 | refused exactly while a save is in flight; otherwise the guard is raised and the request is a PUT for the edited tutorial or a POST |
| Client.FinishSave | public/script.js:510-516 | the guard is always lowered; success also clears the edited tutorial |
| Client.SaveGuard | public/script.js:478-516 | a second save during the first is refused, and after the first ends, by success or failure, the next one goes ahead |
| Client.Logout | public/script.js:379-393 | token, stored token, current user and edited tutorial are cleared; the tab and the save guard are kept |
| Client.SignIn | public/script.js:189-191 | the reply's token is kept in memory and in storage, and its user becomes the current user |
| Client.AuthHeader | public/script.js:133-136 | an Authorization header is sent exactly when the token is a non-empty string |
| Client.SignedInClientIsIdentified | public/script.js:133-136 | after signing in with the server's token, the server identifies the client as that user |
| Client.LoggedOutClientIsAnonymous | public/script.js:384 | after logout the client is anonymous to the server, and creating a tutorial gets 401 |

## Left out

- Hashing, signing and token verification are not modelled. Bcrypt, JWT signing and verification, the JWT secret and the 7-day expiry are opaque functions with stated laws. An expired or forged token is whatever `verify` says about it.
- Salt, new ObjectIds and timestamps are parameters. Randomness and the clock are not modelled.
- Joi's e-mail grammar is the `joiEmail` predicate. Its RFC-based rules are not reproduced.
- Joi input handling is simplified. Unknown keys, non-string values and Joi's UTF-16 length counting are not modelled, and bodies are taken as the typed fields they name.
- Error message text is partly fixed. Mongoose validation and duplicate-key messages are fixed strings (`Server.ValidationFailed`, `Server.DuplicateKey`) rather than Mongoose's generated text.
- ObjectId casting is simplified. Outside the public read, route ids are taken as already-cast ObjectIds, so the cast-error path is not modelled. In the code a malformed id gives 500 on the unscoped read and delete (`server.js:115-117`, `server.js:141-143`) and 400 on the unscoped update (`server.js:130-132`). On the owner router it is an unhandled rejection (`routes/tutorials.js:30-50`), so no reply is sent.
- Mongoose 5.7 or later is assumed: `save()` on a document whose `author` was populated as `null` validates the original id, so `Server.PublicGet` serves such a tutorial rather than failing.
- Express 4 is assumed. `Http.NoReply` stands for a rejected promise in a handler without `catch`, which Express 4 never answers. The Express version is not visible in the code; Express 5 would forward the rejection to the error handler instead.
- `_id`, `createdAt` and `updatedAt` in request bodies are not modelled, and neither are the `updatedAt` timestamps.
- Ties in `createdAt` are broken by the larger id. MongoDB leaves their order unspecified, and every listing contract states only non-increasing creation times.
- `estimatedDocumentCount` is taken as exact.
- Concurrency is not modelled. This includes two public reads racing on the read-modify-save of `views`, and overlapping requests.
- Auth.Login: a body without `password` whose e-mail finds a user makes `bcrypt.compare` throw, and the catch-all answers 500; this path is not modelled because `Auth.LoginBody` always has both fields. A body without `email` does not throw: the lookup runs with an undefined e-mail and the route answers 401, or 200 if the driver drops the undefined key and the password matches the first stored user; that lookup is not modelled either.
- `middleware/auth.js`, `config/db`, `utils/errorHandler`, `public/index.html` and the CSS are not part of this model. The owner router's handlers take the authenticated id as input, so that middleware's 401 path is not modelled.
- The client's DOM is not modelled: rendering, `fetch`, notifications, modals, `escapeHtml` and the 3-second button reset. `Client.QuizNotification` keeps the notification texts without the warning symbol's mis-encoded bytes.
- The client's profile, dashboard and viewer loaders are not modelled beyond the state they set.
- Server.CurrentUser: a user found by the token is returned by id only. The `select('username')` projection is not modelled, since only the id is used afterwards.
- Users.UpdateProfile: an update body is limited to `username`, `email` and `password`. Other keys, which Mongoose would also write unvalidated, are not modelled.
- Auth.Register: bcrypt's cost factor 12 and JWT's payload layout are not modelled, because both are inside the opaque functions.

## Findings

| source | as written | input that shows it | evidently intended | confidence | as-written member | corrected member |
|---|---|---|---|---|---|---|
| public/script.js:569 | the checked radio is looked up as `q${sectionIndex}_correct` by the editor's current position, but the names were fixed at render time (540, 544, 548) and removing a section (104-108) does not re-render | three editors, the middle one removed: the editor at position 1 holds radios named `q2_correct`, so its quiz (question set, options `for`/`while`/`do`, first chosen) is silently dropped | read the checked radio of the editor's own group, whatever its position | high, not executed | Client.AsWrittenDropsQuizAfterRemoval | Client.CollectSections |
| public/script.js:568-570 | `correct` is the radio's position among all three option inputs, but `options` keeps only the non-empty inputs | options `""`, `A`, `B` with the second radio (A) chosen: stored `correct` is 1, which names `B`, and a reader who picks `A` is told it is wrong | `correct` is the chosen option's place among the kept options, and a radio beside an empty input is no choice | high, not executed | Client.AsWrittenMisplacesCorrectAnswer | Client.CollectedQuizMarksChosenOption |
