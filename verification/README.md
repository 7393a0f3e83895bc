# gym-app core in Dafny

A model of the core of gym-app, a workout-sharing app. The backend is Express and Mongoose;
the frontend is React and Zustand. The model covers:

- **Accounts**: signup, login, the session check, profile updates, public profiles with follow
  counts, and username search.
- **The follow graph**: follow, unfollow, and the following and followers lists.
- **Workouts**:
  - creation, with the duration in whole minutes;
  - the like toggle, lookup and owner-only deletion;
  - a user's workouts;
  - the feed: the service pages it by 5 and the handler returns the newest 50.
- **Comments**: posting and listing.
- **Administration**: listing users, changing a username or role, deleting a user, and the
  admin guard.
- **The error-handling middleware** that turns thrown errors into status codes.
- **The browser-side store** for the workout in progress.
- **The feed card's fallbacks** and its exercise summary.

How the model represents the system:

- **Collections.** Each MongoDB collection is a sequence in insertion order. `findOne` returns
  the first match. A write returns the new sequence.
- **Services and handlers.**
  - Each service is a function returning `Result<_, Fault>`.
  - Each HTTP handler returns a `Reply`, which is either a status with a JSON body or a fault
    passed on with `next(error)`.
  - `Replies.FinalStatus` gives the status the client finally receives, after the middleware.
- **Request ids.** An id from a request is `Missing`, `Malformed` (not an ObjectId) or
  `Valid`. Mongoose raises a cast error when a malformed id reaches a query. A missing id
  passed to `findById` matches nothing.
- **External values as parameters.** The clock (`now`), bcrypt's hash and compare, the
  Cloudinary upload, the case-insensitive regex match used by search, and whether a follow
  loses the race to a concurrent duplicate (`lostRace`) are all parameters.

Module layout:

| module | file | models |
|---|---|---|
| `Wrappers`, `Ids`, `Seqs`, `Text`, `Paging` | `wrappers.dfy`, `ids.dfy`, `seqs.dfy`, `text.dfy`, `paging.dfy` | shared helpers: results, request ids, filtering, stable sorting, `trim`, `join`, skip/limit windows |
| `Errors`, `ErrorHandler`, `Replies` | `errors.dfy`, `error_handler.dfy`, `replies.dfy` | error messages and statuses, the middleware, handler replies |
| `UserModel`, `WorkoutModel`, `CommentModel` | `user_model.dfy`, `workout_model.dfy`, `comment_model.dfy` | the three schemas |
| `Auth` | `auth.dfy` | `auth.service.js`, `auth.controller.js` |
| `FollowGraph` | `follow_graph.dfy` | `follow.service.js`, `follow.controller.js` |
| `Workouts`, `Feed` | `workouts.dfy`, `feed.dfy` | `workout.service.js`, `workout.controller.js` |
| `Comments` | `comments.dfy` | `comment.service.js`, `comment.controller.js` |
| `Admin` | `admin.dfy` | `admin.service.js`, `admin.controller.js`, `admin.middleware.js` |
| `CurrentWorkoutStore` | `current_workout_store.dfy` | `useCurrentWorkoutStore.js` |
| `WorkoutPost` | `workout_post.dfy` | `WorkoutPost.jsx`, lines 6-10 |

Where the service and the handler for an operation differ, both are modelled. Lemmas relate
them: `Workouts.FindWorkoutAgreesWithService`, `Workouts.DeleteWorkoutAgreesWithService` and
`Feed.HandlerFeedIsFirstTenPages`.

Two places where the source spells one message differently:

- **The deletion 403 message.** `deleteWorkout` in the handler uses an en dash. `removeWorkout`
  in the service holds that dash's UTF-8 bytes read back as Windows-1252, which gives the three
  characters `â€“`. The model keeps both spellings as `Errors.DeleteForbidden` and
  `Errors.DeleteForbiddenMisencoded`.
- **The duplicate-follow error.** A duplicate follow found at write time is reported as the
  domain error "Follow relationship already exists.". The model does not treat it as a crash.

## Model

| member | source | states |
|---|---|---|
| Auth.VerifyAuth | backend/src/services/auth.service.js:7-12 | fails with "Unauthorized - No Token Provided" exactly when there is no user; otherwise returns the user unchanged |
| Auth.CheckAuth | backend/src/controllers/auth.controller.js:7-16 | no session user gives 400 (not 401) with the no-token message; a user gives 200 with that user |
| Auth.RegisterUser | backend/src/services/auth.service.js:14-57 | checks in source order: missing field, password under 6, email in use, username in use; succeeds exactly when all fields are present, the password and hash are at least 6 long, and neither the email nor the username is taken; the new user has a fresh id and the schema defaults, is appended, and the result is its public fields without the password |
| Auth.RegisterKeepsKeysUnique | backend/src/models/user.model.js:5-19 | a successful signup keeps ids, emails and usernames unique |
| Auth.Signup | backend/src/controllers/auth.controller.js:18-63 | 201 exactly when registration succeeds, with the store extended by exactly one new user and the body `{ _id, username, email, profilePic, bio }` of that user: the given username and email, an empty picture, the default bio and an id no stored user has; every failure is 400 and leaves the users unchanged |
| Auth.AuthenticateUser | backend/src/services/auth.service.js:59-85 | both fields required; succeeds exactly when the email exists and the password matches its hash; every other failure is "Invalid Credentials"; returns the user's public fields |
| Auth.UnknownEmailLooksLikeWrongPassword | backend/src/services/auth.service.js:64-74 | an unknown email and a wrong password give identical results |
| Auth.SignupThenLogin | backend/src/services/auth.service.js:14-85 | after a successful signup, logging in with the same email and password returns exactly the fields signup returned |
| Auth.Login | backend/src/controllers/auth.controller.js:65-95 | 200 exactly when authentication succeeds, with the public fields `{ _id, username, email, profilePic, bio }` of the user holding that email; otherwise 400 |
| Auth.UpdateUserProfileData | backend/src/services/auth.service.js:92-130 | user not found; a non-empty username must match `^[a-zA-Z0-9-]{3,30}$` and not belong to another user; the bio is trimmed and must be at most 200; success keeps id, email, password and role, sets the new username, bio and picture (uploaded, or the old one when none is given), and replaces that user in the store |
| Auth.KeepingOwnUsernameIsAllowed | backend/src/services/auth.service.js:100-111 | resubmitting one's own valid username is not a conflict |
| Auth.UpdateKeepsKeysUnique | backend/src/services/auth.service.js:100-111 | a successful profile update keeps ids, emails and usernames unique |
| Auth.UpdateProfile | backend/src/controllers/auth.controller.js:106-151 | an absent user is 404; 200 exactly when the update succeeds, sending the updated document (new or kept username, trimmed bio, uploaded or kept picture) and storing it in place of the old one; any other failure is 400 with the users unchanged |
| Auth.FetchUserByUsername | backend/src/services/auth.service.js:159-179 | not found exactly when no user has the name; the profile is the user without password, the counts of incoming and outgoing edges, and `isFollowing` true exactly when a signed-in viewer other than the owner has an edge to the owner |
| Auth.FollowIncrementsCounts | backend/src/services/auth.service.js:163-164 | a successful follow adds one to the target's followers count and to the follower's following count |
| Auth.UnfollowDecrementsCounts | backend/src/services/auth.service.js:163-164 | a successful unfollow takes one from each of those counts |
| Auth.FindUser | backend/src/controllers/auth.controller.js:194-221 | as written: 404 when not found; otherwise 200 with the profile without password, the follower and following counts, and an `isFollowing` that is true exactly when a signed-in viewer other than the owner has NO edge to the owner |
| Auth.FindUserInvertsFollowState | backend/src/controllers/auth.controller.js:206-210 | for another user's profile, the handler's `isFollowing` is the negation of the service's |
| Auth.FindUserCounterexample | backend/src/controllers/auth.controller.js:209 | with `ala` following `bob`, the handler tells `ala` they are not following `bob`, and once there is no edge it tells them they are |
| Auth.FindUserCorrected | backend/src/services/auth.service.js:168-172 | the handler as intended: 404 when not found, otherwise 200 with the service's counts and the edge-existence `isFollowing` |
| Auth.ProfileTracksFollow | backend/src/services/auth.service.js:168-172 | with the corrected handler, following someone makes their profile report it, and unfollowing makes it report it no longer |
| Auth.SearchUsers | backend/src/services/auth.service.js:181-191 | a blank or whitespace query finds nobody; otherwise the cards of the first min(5, hits) users whose name matches the trimmed query, in store order |
| Auth.SearchShowsFirstFive | backend/src/services/auth.service.js:185-190 | when more than 5 users match, exactly the first 5 of them are returned, in store order |
| Auth.SearchShowsAllWhenFew | backend/src/services/auth.service.js:185-190 | when at most 5 users match, all of them are returned, in store order |
| Auth.SearchUser | backend/src/controllers/auth.controller.js:223-243 | always 200; a blank query gives `[]`; at most 5 results |
| FollowGraph.CreateUserFollow | backend/src/services/follow.service.js:4-32 | self-follow first, then target not found, then already following, then a duplicate at write time; success appends exactly the edge (follower, target) |
| FollowGraph.RemoveUserFollow | backend/src/services/follow.service.js:34-39 | succeeds exactly when the edge exists and removes one copy of it; otherwise fails and nothing changes |
| FollowGraph.FollowingIds | backend/src/services/workout.service.js:43-44 | the ids followed by a user are exactly the targets of that user's edges |
| FollowGraph.FollowerIds | backend/src/services/follow.service.js:46-49 | a user's followers are exactly the sources of edges pointing at that user |
| FollowGraph.FollowingFollowersInverse | backend/src/services/follow.service.js:41-49 | b is in a's following list exactly when a is in b's followers list |
| FollowGraph.FetchFollowingList | backend/src/services/follow.service.js:41-44 | one populated card (or null) per outgoing edge, in edge order; a malformed id is a cast error on `follower` |
| FollowGraph.FetchFollowersList | backend/src/services/follow.service.js:46-49 | one populated card (or null) per incoming edge, in edge order; a malformed id is a cast error on `following` |
| FollowGraph.FollowKeepsGraphValid | backend/src/services/follow.service.js:5-17 | a follow keeps the graph free of self-edges and duplicate edges |
| FollowGraph.UnfollowKeepsGraphValid | backend/src/services/follow.service.js:34-39 | an unfollow keeps the graph free of self-edges and duplicate edges |
| FollowGraph.FollowTwiceFails | backend/src/services/follow.service.js:14-17 | following the same user a second time fails with "already following" |
| FollowGraph.FollowThenUnfollowRestores | backend/src/services/follow.service.js:19-39 | follow then unfollow restores the original edge list |
| FollowGraph.UnfollowTwiceFails | backend/src/services/follow.service.js:34-39 | a second unfollow fails |
| FollowGraph.FollowShowsInBothLists | backend/src/services/follow.service.js:41-49 | after a follows b, b is in a's following list and a is in b's followers list |
| FollowGraph.EmptyGraphEmptyLists | backend/src/services/follow.service.js:41-49 | with no edges, both lists are empty |
| FollowGraph.FollowUser | backend/src/controllers/follow.controller.js:4-37 | 400 for self, 404 for a missing target, 400 when already following or on a write-time duplicate; 201 "User followed successfully." exactly when the service succeeds, with the one new edge appended; the edge list changes only on 201 |
| FollowGraph.UnfollowUser | backend/src/controllers/follow.controller.js:39-55 | 200 with the edge removed when it existed, otherwise 400 and no change; a malformed id ends as 400 |
| FollowGraph.GetFollowingList | backend/src/controllers/follow.controller.js:57-69 | 200 with the service's following list: one card (or null) per outgoing edge, in edge order; a malformed id ends as 400 |
| FollowGraph.GetFollowersList | backend/src/controllers/follow.controller.js:71-83 | 200 with the service's followers list: one card (or null) per incoming edge, in edge order; a malformed id ends as 400 |
| Workouts.DurationMinutes | backend/src/services/workout.service.js:13 | the whole number of minutes between start and end, rounded down |
| Workouts.FormatExercises | backend/src/services/workout.service.js:8-11 | succeeds exactly when every exercise reference is an ObjectId; maps the entries one to one, in order, with sets unchanged; otherwise fails on a bad reference |
| Workouts.CreateWorkout | backend/src/services/workout.service.js:5-24 | a bad reference fails; a set below the schema minima fails validation with messages; success appends a workout with a fresh id, the owner, the start time, the title, the duration, the mapped exercises, no likes and both timestamps `now` |
| Workouts.CreateKeepsStoreValid | backend/src/models/workout.model.js:3-52 | creation keeps ids distinct and every stored set within weight ≥ 0 and reps ≥ 1 |
| Workouts.AddWorkout | backend/src/controllers/workout.controller.js:5-34 | a missing user, exercises, startTime, endTime or title gives 400 "Missing required fields"; 201 exactly when all are present and creation succeeds, sending the saved workout (start time, duration in whole minutes rounded down, one entry per exercise, no likes, both timestamps `now`) appended to the store |
| Workouts.EmptyWorkoutAccepted | backend/src/controllers/workout.controller.js:7-9 | an empty exercise list passes the presence check and is saved |
| Workouts.ToggleLike | backend/src/services/workout.service.js:32-36 | the user is in the result exactly when they were not in the input; an absent user is appended once; a present user's entries are all removed, others kept in order |
| Workouts.ToggleKeepsLikedOnce | backend/src/services/workout.service.js:32-36 | if every liker appears once, that stays true after a toggle |
| Workouts.ToggleTwiceSameLikers | backend/src/services/workout.service.js:32-36 | toggling twice restores the set of likers |
| Workouts.ToggleTwiceRestores | backend/src/services/workout.service.js:32-36 | starting without the user, toggling twice restores the exact sequence |
| Workouts.LikeWorkout | backend/src/services/workout.service.js:26-40 | a missing workout gives "Workout not found" and changes nothing; success sets that workout's likes to the toggled list (other likers untouched and in order), stamps `updatedAt`, and replaces it in place |
| Workouts.LikeTwiceRestores | backend/src/services/workout.service.js:26-40 | liking twice restores the set of likers of that workout |
| Workouts.LikeKeepsLikesOnce | backend/src/services/workout.service.js:33-35 | if every liker appears once, liking keeps it so |
| Workouts.GetWorkoutById | backend/src/services/workout.service.js:70-79 | a non-ObjectId id fails with "Invalid workout ID format" before any lookup, then a missing workout fails; success is the stored workout |
| Workouts.FindWorkout | backend/src/controllers/workout.controller.js:73-95 | missing id 400, malformed id 400, checked before 404; 200 with the workout |
| Workouts.FindWorkoutAgreesWithService | backend/src/controllers/workout.controller.js:73-95 | for a present id, the handler answers exactly what the service decides |
| Workouts.RemoveWorkout | backend/src/services/workout.service.js:81-90 | not found; then not the owner (nothing deleted); the owner removes exactly one occurrence of that workout |
| Workouts.DeleteRemovesThatWorkout | backend/src/services/workout.service.js:89 | with distinct ids, no workout with that id remains and every other workout does |
| Workouts.DeleteWorkout | backend/src/controllers/workout.controller.js:97-121 | missing id 400, absent workout 404, someone else's 403; 200 exactly when the owner deletes an existing workout; the store changes only then |
| Workouts.DeleteWorkoutAgreesWithService | backend/src/controllers/workout.controller.js:104-117 | handler and service leave the same store and reach the same status |
| Workouts.GetUserWorkouts | backend/src/services/workout.service.js:66-68 | exactly the user's workouts, each as often as stored, newest first |
| Workouts.GetAllUserWorkouts | backend/src/controllers/workout.controller.js:58-71 | missing id 400 "User ID is required"; malformed id ends as 400; otherwise 200 with exactly that user's workouts, each as often as stored, newest first |
| Feed.Audience | backend/src/services/workout.service.js:43-45 | the owners shown are exactly the viewer and the users the viewer follows |
| Feed.FeedOrder | backend/src/services/workout.service.js:49-50 | exactly the visible workouts, each as often as stored, newest first |
| Feed.Present | backend/src/services/workout.service.js:53-54 | an item is the workout with its owner's card and, per exercise in order, the catalog's title for that exercise or null when the catalog has none |
| Feed.GetFollowingWorkoutFeed | backend/src/services/workout.service.js:42-64 | page below 1 fails (negative skip); otherwise at most 5 items, the window at `(page-1)*5` of the sorted feed, each with its author card and each exercise's catalog title (null when unknown); `totalPages` = ceil(total/5), `hasMore` exactly when page < totalPages, `currentPage` = page |
| Feed.ReadingEveryPageYieldsWholeFeed | backend/src/services/workout.service.js:47-60 | concatenating pages 1..totalPages gives the whole sorted feed |
| Feed.FeedPagesArePrefix | backend/src/services/workout.service.js:47-52 | the first n pages are the first 5n items of the sorted feed |
| Feed.GetFeed | backend/src/controllers/workout.controller.js:36-56 | 200 with the first min(50, total) items of the sorted feed, each visible to the viewer, with its author card and each exercise's catalog title |
| Feed.HandlerFeedIsFirstTenPages | backend/src/controllers/workout.controller.js:45-47 | the handler's list equals the service's pages 1..10 together |
| Feed.SmallFeedIsComplete | backend/src/controllers/workout.controller.js:47 | with at most 50 visible workouts, every one of them is in the feed |
| Feed.NewestFirst | backend/src/controllers/workout.controller.js:46 | the first item is at least as new as every visible workout |
| Feed.FollowingNobodyShowsOwnOnly | backend/src/controllers/workout.controller.js:40-45 | a viewer who follows nobody sees only their own workouts |
| Feed.FollowRevealsWorkouts | backend/src/services/workout.service.js:43-49 | after a successful follow, the target's workouts become visible |
| Feed.UnfollowHidesWorkouts | backend/src/services/workout.service.js:43-49 | after an unfollow, the former target's workouts are no longer visible |
| Comments.CreateComment | backend/src/services/comment.service.js:6-28 | invalid id, then blank content, then missing workout, each with nothing inserted; success appends a comment with a fresh id, the author, the workout, the trimmed content and timestamps `now`, returned with the author's card |
| Comments.StoredContentIsTrimmed | backend/src/services/comment.service.js:19-23 | the stored text is non-empty, has no whitespace at either end, and trimming it again changes nothing |
| Comments.CreateKeepsCommentsValid | backend/src/models/comment.model.js:3-23 | posting keeps every comment's content at least 1 long and comment ids distinct |
| Comments.GetCommentsForWorkout | backend/src/services/comment.service.js:30-40 | fails exactly for a non-ObjectId id; otherwise exactly that workout's comments, each as often as stored, newest first, each with its author's card |
| Comments.NewCommentListedFirst | backend/src/services/comment.service.js:35-37 | a comment newer than all others heads its workout's list |
| Comments.AddComment | backend/src/controllers/comment.controller.js:3-24 | empty content is 400 before the service runs; invalid id and blank content 400, missing workout 404; 201 exactly when the service succeeds, sending the saved comment (the author, the workout, the trimmed content, `now`) with the author's card, the comment list changing only then |
| Admin.FetchAllUsers | backend/src/services/admin.service.js:3-5 | every user, in order, without the password |
| Admin.ListingIsExactlyTheStore | backend/src/services/admin.service.js:3-5 | every stored user is listed and nobody else is |
| Admin.GetAllUsers | backend/src/controllers/admin.controller.js:3-10 | 200 with the listing |
| Admin.ModifyUser | backend/src/services/admin.service.js:7-31 | a malformed id is a cast error; a non-empty username held by a different user fails before the lookup; then user not found; success sets the given username and role, keeps everything else, and returns the user without password; it succeeds exactly when none of these fail and no other user ends up with the same username |
| Admin.OnlyEmptyUsernameHitsIndex | backend/src/services/admin.service.js:10-24 | for an existing user in a store with unique keys, only an empty username can be refused by the unique index |
| Admin.ModifyKeepsKeysUnique | backend/src/services/admin.service.js:7-31 | a successful change keeps ids, emails and usernames unique |
| Admin.UpdateUser | backend/src/controllers/admin.controller.js:12-51 | missing id 400; a username held by another user 409, before the 404 for a missing user; 200 exactly when the change succeeds, sending the updated user without password and storing it in place; the users change only then |
| Admin.RemoveUser | backend/src/services/admin.service.js:33-38 | succeeds exactly when a user has that id, removing one occurrence; otherwise "User not found" (or a cast error for a malformed id) |
| Admin.RemoveDeletesExactlyThatUser | backend/src/services/admin.service.js:34 | with unique keys, no user with that id remains and every other user does |
| Admin.DeleteUser | backend/src/controllers/admin.controller.js:53-70 | missing id 400, missing user 404, malformed id ends as 400; 200 "User deleted successfully" exactly when the user exists, with exactly that user's first occurrence removed |
| Admin.IsAdminGuard | backend/src/middleware/admin.middleware.js:1-15 | passes exactly an admin; no user is 401, checked before the 403 for a non-admin |
| Admin.AdminListUsers | backend/src/routes/admin.route.js:38 | behind the guard, 200 with the listing exactly for an admin; everyone else gets 401 or 403 |
| ErrorHandler.Handle | backend/src/middleware/errorHandler.middleware.js:1-36 | token errors 401 with "Token expired" or "Invalid Token"; validation, ObjectId cast and duplicate key 400 with their messages; otherwise the error's own status, or 500 below 400; always ≥ 400, and the body repeats the status |
| ErrorHandler.ClassOverridesOwnStatus | backend/src/middleware/errorHandler.middleware.js:6-26 | for the rewritten classes, the error's own status fields make no difference |
| ErrorHandler.HandleIsStable | backend/src/middleware/errorHandler.middleware.js:28-35 | re-throwing the answer as a plain error with that status gets the same status |
| ErrorHandler.ForwardedFaultStatus | backend/src/middleware/errorHandler.middleware.js:9-30 | forwarded cast, validation and duplicate faults end as 400; a plain thrown service error ends as 500 with its message |
| Replies.FinalStatus | backend/src/middleware/errorHandler.middleware.js:6-30 | a sent reply keeps its status; a forwarded fault ends as 400 for the three client classes and 500 otherwise |
| Replies.FailureIsNeverSuccess | backend/src/middleware/errorHandler.middleware.js:28-30 | a failed call never reaches the client with a status below 400 |
| Paging.TotalPages | backend/src/services/workout.service.js:60 | the least page count whose pages hold every item (ceiling division) |
| Paging.HasMoreIffBeforeLastPage | backend/src/services/workout.service.js:62 | `page*size < total` holds exactly when page < totalPages |
| Paging.PageBeyondLastIsEmpty | backend/src/services/workout.service.js:48-52 | a page past the last is empty and has no more |
| Text.TrimCutsSpace | backend/src/services/comment.service.js:10 | everything cut off before and after the result is whitespace, and the result neither starts nor ends with whitespace |
| Text.TrimIdempotent | backend/src/services/comment.service.js:10 | trimming an already trimmed text changes nothing |
| Text.BlankIffAllSpace | backend/src/services/comment.service.js:10 | the trimmed text is empty exactly when every character is whitespace |
| Text.MatchUsernamePattern | backend/src/services/auth.service.js:101 | accepts exactly the strings of 3 to 30 characters from `[a-zA-Z0-9-]` |
| UserModel.NewUser | backend/src/models/user.model.js:20-31 | a new user gets profilePic "", bio "I love Ziutki Gym" and role "user" |
| UserModel.FreshId | backend/src/models/user.model.js:3-33 | the new id differs from, and exceeds, every stored id |
| WorkoutModel.SetsMessages | backend/src/models/workout.model.js:18-30 | no validation messages exactly when every set has weight ≥ 0 and reps ≥ 1 |
| CurrentWorkoutStore.Load | frontend/src/store/useCurrentWorkoutStore.js:6-10 | the persisted workout if any, else empty exercises and no start time |
| CurrentWorkoutStore.StartWorkout | frontend/src/store/useCurrentWorkoutStore.js:13-27 | no change once started; otherwise empty exercises, start time `now`, persisted |
| CurrentWorkoutStore.AddExercise | frontend/src/store/useCurrentWorkoutStore.js:38-54 | appends exactly the exercise at the end without deduplicating, keeps earlier exercises and the start time, and persists |
| CurrentWorkoutStore.EndWorkout | frontend/src/store/useCurrentWorkoutStore.js:56-76 | always resets to no exercises and no start time and removes the persisted copy; nothing is sent to the server |
| CurrentWorkoutStore.TransitionsKeepMirror | frontend/src/store/useCurrentWorkoutStore.js:13-76 | every transition keeps local storage equal to the state, or absent with the state reset |
| CurrentWorkoutStore.ReloadRestoresWorkout | frontend/src/store/useCurrentWorkoutStore.js:6-10 | reloading the page brings back the same in-progress workout |
| CurrentWorkoutStore.StartIsIdempotent | frontend/src/store/useCurrentWorkoutStore.js:16-18 | starting twice is the same as starting once |
| CurrentWorkoutStore.AddingKeepsStart | frontend/src/store/useCurrentWorkoutStore.js:40-47 | adding exercises after starting keeps the start time and appends them in order |
| CurrentWorkoutStore.SessionEndsReset | frontend/src/store/useCurrentWorkoutStore.js:13-76 | start, add, end from a fresh page ends exactly where it began |
| WorkoutPost.DisplayName | frontend/src/components/WorkoutPost.jsx:6-7 | the user's name, or "Unknown User" when the user is not populated or has none |
| WorkoutPost.Avatar | frontend/src/components/WorkoutPost.jsx:6-8 | the user's picture, or "/images/avatar.png" |
| WorkoutPost.MissingUserLooksAnonymous | frontend/src/components/WorkoutPost.jsx:6-8 | an unpopulated user shows the same name and picture as one with empty fields |
| WorkoutPost.Label | frontend/src/components/WorkoutPost.jsx:10 | an exercise's title, or "Exercise" when it has none |
| WorkoutPost.ExerciseSummary | frontend/src/components/WorkoutPost.jsx:10 | "undefined" without an exercises field; ends in "..." with more than three exercises; never empty for a non-empty list |
| WorkoutPost.SummaryStartsWithFirstLabel | frontend/src/components/WorkoutPost.jsx:10 | empty for no exercises; otherwise starts with the first exercise's label |
| WorkoutPost.SummaryLengthIsCounted | frontend/src/components/WorkoutPost.jsx:10 | its length is the first (at most 3) labels, two characters per separator, and three for the ellipsis |
| WorkoutPost.SummaryAppendsLabel | frontend/src/components/WorkoutPost.jsx:10 | for the second and third exercise, the summary grows by exactly ", " and that exercise's label, so the labels appear in order |
| WorkoutPost.SummaryOfFirstThree | frontend/src/components/WorkoutPost.jsx:10 | with three or more exercises the summary is the first three labels in order joined by ", ", followed by "..." exactly when more follow |
| Text.JoinSnoc | frontend/src/components/WorkoutPost.jsx:10 | joining one more part appends the separator and that part, as `Array.prototype.join` does |
| WorkoutPost.SummaryIgnoresLaterExercises | frontend/src/components/WorkoutPost.jsx:10 | past three exercises, adding another leaves the summary unchanged |
| WorkoutPost.FourthExerciseAddsEllipsis | frontend/src/components/WorkoutPost.jsx:10 | adding a fourth exercise appends exactly "..." |
| WorkoutPost.UntitledExercises | frontend/src/components/WorkoutPost.jsx:10 | three untitled exercises read "Exercise, Exercise, Exercise" |

## Left out

- I/O and the database: collections are sequences, and a `populate` is a lookup in them.
  Mongoose query semantics beyond `findOne`, `find`, `deleteOne`, skip and limit are not
  modelled.
- Which strings `ObjectId.isValid` accepts is abstract. A request id arrives already
  classified as `Missing`, `Malformed` or `Valid`.
- Cryptography and tokens are parameters or left out:
  - bcrypt hashing and comparing are parameters;
  - JWT issuing and verification (`generateToken`, `protectRoute`) are left out;
  - the session user arrives as an `Option`.
- The Cloudinary upload is a function parameter that returns the stored URL. Its failures are
  not modelled.
- The RabbitMQ publisher and consumer, and the Swagger comments, are left out: they are network
  I/O and documentation.
- Route wiring is left out, except the admin listing route, which chains the guard.
  `updateUser` and `deleteUser` are modelled although no route in the repository wires them.
- `logout`, `updatePassword`, `deleteAccount`, `clearAuthCookie`, `updateUserPasswordData` and
  `removeUserAccount` are not part of this model. They only wrap token and password handling.
- The follow model file is not part of this model. A follow edge is the pair
  (follower, following). The model assumes a unique index on that pair, as the duplicate-key
  handling implies.
- Concurrency:
  - A follow that passes the duplicate check but loses the write race to a concurrent
    duplicate is the `lostRace` parameter.
  - The read-modify-write race in `likeWorkout` is not modelled.
- Feed sort ties: the database sorts only by `createdAt` and leaves the order of equal
  timestamps unspecified. The model breaks ties by insertion order, and the feed contracts
  (Feed.GetFeed, Feed.GetFollowingWorkoutFeed, Feed.ReadingEveryPageYieldsWholeFeed) depend
  on that fixed order. In the source, separate skip/limit queries may order tied workouts
  differently, so reading every page gives back the whole feed only when the `createdAt`
  values are distinct.
- Feed.GetFollowingWorkoutFeed: the default `page = 1` of the service is not modelled; the
  page number is always given.
- Workouts.FormatExercises: an entry without an `exercise` field makes the ObjectId
  constructor generate a fresh id. The model requires a reference, given or malformed.
- Workouts.CreateWorkout: set weights are integers, not JavaScript numbers. A set with a
  missing weight or reps, which fails the `required` validator, is not represented.
- Workouts.AddWorkout: the truthiness of `startTime` and `endTime` is modelled as
  present/absent. A numeric `0` start time would be falsy in the source but counts as present
  here. `new Date(...)` on an unparseable string (NaN) is not modelled.
- Auth.RegisterUser: two concurrent signups with the same email or username can both pass
  the lookups; the unique index then refuses the second insert, which the middleware answers
  with 400 "Duplicate field value entered for: …". That race is not modelled.
- Auth.UpdateUserProfileData: the time between the existence check and the update is not
  modelled. A user deleted in that window would make the update return `null`.
- Auth.SearchUsers: the regular-expression match is a parameter. An invalid pattern, which
  makes the database query fail, is not modelled.
- Request bodies are assumed well typed. A truthy `exercises` that is not an array makes
  `exercises.map` throw a TypeError, and a truthy `content` that is not a string makes
  `content.trim()` throw; both reach the middleware and end as 500. The model's types
  (a sequence of exercise inputs, a string) cannot express these inputs, so those 500 paths
  are not modelled.
- String lengths count characters, while the source counts UTF-16 code units. The two agree
  on text without astral-plane characters.
- The exercise catalog (`exercise.model.js`, `exercise.controller.js`) and `like.model.js` are
  not part of this model. The feed resolves exercise titles through a map from exercise id to
  title.
- `getWorkoutById` and `findWorkout` populate the full exercise documents, and
  `getUserWorkouts` and `getAllUserWorkouts` populate each exercise's title. The model returns
  the stored workouts without these projections (Workouts.GetWorkoutById, Workouts.FindWorkout,
  Workouts.GetUserWorkouts, Workouts.GetAllUserWorkouts); only the feed models the title
  lookup, in Feed.Present.
- CurrentWorkoutStore: the fetch of the exercise list, the toasts and the console output are
  left out. The `Date` in local storage, which comes back as a string after a reload, is
  modelled as the same integer timestamp.

## Findings

| source | as written | input that shows it | evidently intended | confidence | as-written member | corrected member |
|---|---|---|---|---|---|---|
| backend/src/controllers/auth.controller.js:209 | `isFollowing = !isFollowingCheck`, so a signed-in viewer is told they follow exactly the users they do not follow | users `ala` (id 1) and `bob` (id 2), edge `ala → bob`; `ala` requests `/user/bob` and gets `isFollowing: false`; with no edge they get `true` | `isFollowing = isFollowingCheck ? true : false`, as the service does (backend/src/services/auth.service.js:171) and as the profile test expects (backend/__tests__/auth.test.js:119-127) | high; not executed | Auth.FindUser (with Auth.FindUserInvertsFollowState, Auth.FindUserCounterexample) | Auth.FindUserCorrected (with Auth.ProfileTracksFollow) |
