# Perphorum — a Dafny model of its decision rules

Perphorum is a perfume-review site. It has a React/TypeScript front end and a Spring Boot
back end. This project models the rules both halves apply, as pure Dafny functions over
immutable data, and proves properties of them.

Front end:
- registration checks and password strength (`RegisterPage`);
- the wire-to-view-model transform and response classification of the API client (`Api`);
- the like button with its optimistic update and the comment box of a review card (`ReviewItem`);
- the catalogue page's category lookup, filter, sort and "show more" pagination (`GenderPage`);
- the top-ten rankings by mean rating (`RankingPage`);
- the product page's note routing, ingredient list, average and form handling (`ProductPage`);
- the navigation bar's search box and active link (`Navbar`);
- the star-rating widget (`StarRating`).

Back end, as transitions on an abstract store (`Store`): users are kept in a map keyed by
id, perfumes likewise, and reviews and comments are sequences in table order. A reply is a
status with a body or with an error message. An uncaught exception becomes a 500. The model
keeps the exception's message beside that status only to tell the failures apart. Spring
Boot's default error body does not send it to the client. The controllers modelled are:
- the user toggles and friend listing (`UserController`);
- reviews, likes, the feed and the recent list (`ReviewController`);
- comments (`CommentController`);
- registration (`AuthController`).

`Store.Valid` states the integrity of the tables. Part of it is kept by the database through
keys, foreign keys and cascades. The rest is kept by the controllers' own checks:
- no repeated list entries, by the `contains` checks before each `add`;
- no self-friendship, by the refusal of `toggleFriend`;
- unique usernames, by the `findByUsername` check of `register`.

Every modelled write is proved to preserve it. The rule "at most one review per
author and perfume" is a separate predicate, `Store.OneReviewPerAuthorAndSubject`. The seed
data does not satisfy it, but every write preserves it.

Shared helpers:
- `Common`: `Option`, and the outcome of an asynchronous call;
- `Text`: JavaScript white space, `trim`, `split`, `join`, ASCII lower case, decimal rendering;
- `Sorting`: code-unit string order, filtering, stable insertion sorts, prefixes.

Library behaviour the code relies on is fixed as follows:
- `localeCompare` and the default `Array.prototype.sort` become code-unit order.
- `toLowerCase` becomes ASCII lowering.
- `JSON.parse`, `encodeURIComponent`, the password encoder and the token signer are function parameters.
- The current time is a parameter.

## Model

| member | source | states |
|---|---|---|
| RegisterPage.CountPassed | frontend/src/pages/Auth/RegisterPage.tsx:15-21 | the number of passed requirements is at most the number of requirements; it equals that number iff every requirement passes, and is 0 iff none does |
| RegisterPage.GetPasswordStrength | frontend/src/pages/Auth/RegisterPage.tsx:15-21 | the loop over the checklist counts exactly the requirements passed, so the strength lies in 0..3 |
| RegisterPage.TestsMonotone | frontend/src/pages/Auth/RegisterPage.tsx:9-13 | each requirement is an "at least / contains" test: one a password passes is still passed after characters are appended |
| RegisterPage.CountPassedMonotone | frontend/src/pages/Auth/RegisterPage.tsx:15-21 | appending characters never lowers the count of passed requirements, for any requirement list |
| RegisterPage.StrengthMonotone | frontend/src/pages/Auth/RegisterPage.tsx:15-21 | appending characters to a password never lowers its strength |
| RegisterPage.FullStrengthMeetsMinLength | frontend/src/pages/Auth/RegisterPage.tsx:9-13 | a password of strength 3 has at least 6 characters, so it passes the submit length check |
| RegisterPage.LengthDoesNotImplyMinLengthRequirement | frontend/src/pages/Auth/RegisterPage.tsx:95-98 | the converse fails: "abc\ndef" passes the length-6 submit check but not the `/.{6,}/` requirement, since `.` does not match a line break |
| RegisterPage.StrengthLabelOfPassword | frontend/src/pages/Auth/RegisterPage.tsx:23-35 | a real password never gets the fallback label; it gets "Silne"/success iff all three requirements pass, and "Słabe" iff at most one does |
| RegisterPage.EmailValidIffShape | frontend/src/pages/Auth/RegisterPage.tsx:63 | an address matches `^[^\s@]+@[^\s@]+\.[^\s@]+$` iff it has no white space, exactly one '@' that is not first, and a '.' after the '@' that is neither the domain's first nor the address's last character |
| RegisterPage.HandleSubmit | frontend/src/pages/Auth/RegisterPage.tsx:73-116 | all four fields become touched; registration is requested iff username, e-mail, password length and confirmation all pass; otherwise the error shown is the message of the first failing check in that order; the user is sent to "/" only after a successful call, and a failed call shows its message |
| Api.JoinIngredients | frontend/src/services/api.ts:29 | absent ingredients stay absent, present ones are joined with ", " |
| Api.ImageUrl | frontend/src/services/api.ts:17-30 | an address exists iff the image name is non-empty; it is the image base, a slash, then the name, which can be read back from it |
| Api.TransformPerfume | frontend/src/services/api.ts:20-33 | `name_perfume` becomes `name`; id, brand, gender, family, subfamily and description are copied; the ingredients are exactly the joined string of `JoinIngredients` and the image exactly the address of `ImageUrl`; nested reviews are transformed one by one, keeping length and order |
| Api.TransformReview | frontend/src/services/api.ts:35-49 | every field is copied unchanged except the subject, which is present iff it was and is then transformed as a perfume |
| Api.AuthHeaders | frontend/src/services/api.ts:55-61 | the JSON content type is always present; `Authorization: Bearer <token>` is present iff a non-empty token is stored; no other header is ever set |
| Api.ClassifyResponse | frontend/src/services/api.ts:73-88 | a non-2xx response fails with its body, or "HTTP <status>" when the body is empty; an empty 2xx body yields `{}`; a parsable body yields its value; an unparsable one yields the raw text |
| Api.RequestUrl | frontend/src/services/api.ts:68 | every request goes to the API base followed by the endpoint |
| Api.FailureMessageNonEmpty | frontend/src/services/api.ts:73-76 | a failed call always carries a non-empty error message |
| ReviewItem.HasId | frontend/src/components/ReviewItem.tsx:17 | `likes.some(L => L.id === id)` holds iff some entry carries the id |
| ReviewItem.InitialLikeState | frontend/src/components/ReviewItem.tsx:17-18 | the card starts liked iff a user is logged in and is among the review's likes; the count is the reported `likesCount`, or 0 when missing |
| ReviewItem.RevertUndoesOptimistic | frontend/src/components/ReviewItem.tsx:28-39 | the compensation after a failed call restores both `liked` and the count exactly |
| ReviewItem.OptimisticTwice | frontend/src/components/ReviewItem.tsx:28-30 | two optimistic toggles in a row cancel out |
| ReviewItem.HandleToggleLike | frontend/src/components/ReviewItem.tsx:25-41 | without a user nothing changes and no call is made; otherwise the like call is made for that user; on success `liked` flips and the count moves one toward it; on failure the state is what it was before the click |
| ReviewItem.HandleAddComment | frontend/src/components/ReviewItem.tsx:44-60 | no call is made iff there is no user or the text is all white space, and then nothing changes; otherwise the text is sent as typed, submitting ends either way, success clears the box and failure keeps the text |
| ReviewItem.OfferedControls | frontend/src/components/ReviewItem.tsx:167-171 | liking and opening comments are always offered; deleting the review or a comment iff the user's role is ADMIN (one control per comment shown); the comment box iff a user is logged in |
| GenderPage.RemoveFirst | frontend/src/pages/GenderPage.tsx:19 | a one-character `replace` drops only the first occurrence, if any |
| GenderPage.ConfigFor | frontend/src/pages/GenderPage.tsx:10-14 | after the first slash is dropped, a configuration exists iff the name is "male", "female" or "unisex", with the titles, subtitles and filters of the table |
| GenderPage.RoutedCategories | frontend/src/pages/GenderPage.tsx:33 | for a router path, a category exists iff the path is /male, /female or /unisex, whose filters are Male, Female and Unisex |
| GenderPage.Heading | frontend/src/pages/GenderPage.tsx:97-99 | "Nieznana kategoria" is shown iff the path has no category |
| GenderPage.Choices | frontend/src/pages/GenderPage.tsx:59-67 | a drop-down lists a value iff some perfume has it and it is non-empty; each value appears once; the list is sorted |
| GenderPage.Families | frontend/src/pages/GenderPage.tsx:59-62 | the family drop-down has the properties of `Choices` for the family field |
| GenderPage.Brands | frontend/src/pages/GenderPage.tsx:64-67 | the brand drop-down has the properties of `Choices` for the brand field |
| GenderPage.PassesConcat | frontend/src/pages/GenderPage.tsx:69-74 | the chain of filter passes distributes over concatenation |
| GenderPage.PassesSingleton | frontend/src/pages/GenderPage.tsx:69-74 | one perfume survives the passes iff it satisfies every active filter |
| GenderPage.FilterPassesAreMatching | frontend/src/pages/GenderPage.tsx:69-74 | the three passes keep exactly the perfumes satisfying every active filter, in load order: family unless 'all', brand unless 'all', and case-insensitive note containment when a note is set |
| GenderPage.FilteredPerfumes | frontend/src/pages/GenderPage.tsx:69-79 | the result is a permutation of the matching perfumes; it is sorted by name for 'name' and by brand for 'brand', and kept in load order otherwise |
| GenderPage.MatchingCount | frontend/src/pages/GenderPage.tsx:69-74 | each perfume appears as often as it was loaded if it matches, and not at all otherwise |
| GenderPage.NoteFilterDropsBareIngredients | frontend/src/pages/GenderPage.tsx:73 | with a note filter set, a perfume without ingredients is never listed |
| GenderPage.Visible | frontend/src/pages/GenderPage.tsx:81 | the visible perfumes are the prefix of length min(visibleCount, number filtered) |
| GenderPage.HasMoreIffHidden | frontend/src/pages/GenderPage.tsx:82 | "show more" is offered iff some filtered perfume is not shown |
| GenderPage.InitialState | frontend/src/pages/GenderPage.tsx:26-31 | the page opens with all families and brands, sorted by name, the note from the query string, and one page (20) visible |
| GenderPage.Step | frontend/src/pages/GenderPage.tsx:84-167 | showing more adds 20; choosing a family or brand sets that filter and resets to 20; choosing a sort keeps the count; a non-empty note parameter sets the note; clearing the note or all filters keeps the sort and the count; a category change resets to 20 |
| GenderPage.VisibleCountAtLeastOnePage | frontend/src/pages/GenderPage.tsx:84-90 | no control ever drops the visible count below one page |
| GenderPage.ShowMoreExtends | frontend/src/pages/GenderPage.tsx:84-90 | "show more" keeps what was shown as a prefix and adds at most 20 perfumes |
| RankingPage.Average | frontend/src/RankingPage/RankingPage.tsx:15-19 | 0 for a perfume without reviews; otherwise the value that times the count gives the sum of ratings |
| RankingPage.SumRatingsBounds | frontend/src/RankingPage/RankingPage.tsx:17 | ratings within lo..hi sum to between lo and hi times the count |
| RankingPage.AverageWithin | frontend/src/RankingPage/RankingPage.tsx:17-18 | the mean of ratings within lo..hi lies within lo..hi |
| RankingPage.MinRating | frontend/src/RankingPage/RankingPage.tsx:17-18 | the lowest rating of a review list: one of them, and no greater than any |
| RankingPage.MaxRating | frontend/src/RankingPage/RankingPage.tsx:17-18 | the highest rating of a review list: one of them, and no smaller than any |
| RankingPage.AverageBetweenExtremes | frontend/src/RankingPage/RankingPage.tsx:17-18 | a reviewed perfume's average lies between its lowest and highest rating |
| RankingPage.TopTen | frontend/src/RankingPage/RankingPage.tsx:31-35 | each list has min(10, n) entries drawn from the loaded ones; it does not increase by average; every perfume kept averages at least as much as every perfume dropped |
| RankingPage.KeptOutrankDropped | frontend/src/RankingPage/RankingPage.tsx:31-35 | the first ten of a list sorted by decreasing average outrank everything after them |
| RankingPage.LoadRankings | frontend/src/RankingPage/RankingPage.tsx:25-37 | when the three requests succeed, each list is the top ten of its gender; when any fails, the lists stay as they were |
| RankingPage.Current | frontend/src/RankingPage/RankingPage.tsx:46-49 | the active tab selects exactly the men's, women's or unisex list |
| ProductPage.GenderPath | frontend/src/ProductPage/ProductPage.tsx:90-95 | gender compared case-insensitively: 'unisex' gives /unisex, 'female' gives /female, anything else /male |
| ProductPage.NoteClick | frontend/src/ProductPage/ProductPage.tsx:90-95 | a note click navigates iff the perfume is loaded, to its gender's page with the encoded note in `?note=` |
| ProductPage.NoteClickLandsOnCategory | frontend/src/ProductPage/ProductPage.tsx:90-95 | a note click always lands on a page with a category; for the three stored genders its filter is that gender |
| ProductPage.GenderPathIgnoresCase | frontend/src/ProductPage/ProductPage.tsx:92 | genders equal up to case route alike |
| ProductPage.TrimAll | frontend/src/ProductPage/ProductPage.tsx:117 | each piece is trimmed, in place |
| ProductPage.IngredientsList | frontend/src/ProductPage/ProductPage.tsx:117 | absent ingredients give no items; present ones give at least one item, none containing ',' or surrounded by white space |
| ProductPage.TrimIsSubstring | frontend/src/ProductPage/ProductPage.tsx:117 | trimming adds no character |
| ProductPage.IngredientsRoundTrip | frontend/src/ProductPage/ProductPage.tsx:117 | splitting and trimming the joined ingredients gives the original list back when it is non-empty and no ingredient contains ',' or outer white space |
| ProductPage.EmptyIngredientsDoNotRoundTrip | frontend/src/ProductPage/ProductPage.tsx:117 | an empty ingredient list comes back as one empty item |
| ProductPage.DirtyIngredientsDoNotRoundTrip | frontend/src/ProductPage/ProductPage.tsx:117 | an ingredient with a ',' or outer white space breaks the round trip |
| ProductPage.AvgRating | frontend/src/ProductPage/ProductPage.tsx:118-120 | no rating without reviews; otherwise the exact mean of the ratings |
| ProductPage.AvgRatingAgreesWithRanking | frontend/src/ProductPage/ProductPage.tsx:118-120 | the product page's mean equals the ranking page's average and lies between the lowest and highest rating |
| ProductPage.HandleListToggle | frontend/src/ProductPage/ProductPage.tsx:48-57 | without a user or a perfume nothing is sent and the message stays; otherwise the call is made for both ids, and its answer, its error message or "Błąd" is shown |
| ProductPage.HandleSubmitReview | frontend/src/ProductPage/ProductPage.tsx:70-88 | nothing is sent iff the user or the perfume is missing or the text is blank; otherwise the request carries the form; success clears the text, resets the rating to 5 and reloads; failure keeps the form and shows the error, or "Błąd dodawania opinii" |
| Navbar.HandleSearch | frontend/src/components/DoubleNavbar.tsx:20-35 | a query of fewer than 2 characters clears and hides the results without searching; otherwise the first min(5, n) results in backend order are shown, and a failed search empties them |
| Navbar.SearchStep | frontend/src/components/DoubleNavbar.tsx:73-74 | typing runs the search; focusing shows existing results; blurring hides them |
| Navbar.NeverMoreThanFiveResults | frontend/src/components/DoubleNavbar.tsx:24-26 | whatever is typed, at most five results are ever held |
| Navbar.AtMostOneActiveLink | frontend/src/components/DoubleNavbar.tsx:18 | a link is active iff the path equals its own; at most one link is active, and one is iff the path is one of theirs |
| Navbar.GenderLinksHaveCategories | frontend/src/components/DoubleNavbar.tsx:157-161 | the three gender links lead to the Male, Female and Unisex categories |
| StarRating.FiveStars | frontend/src/components/StarRating.tsx:19 | there are exactly five stars valued 1..5 |
| StarRating.Shown | frontend/src/components/StarRating.tsx:25 | the display follows the hovered star while hovering and the rating otherwise |
| StarRating.LitStars | frontend/src/components/StarRating.tsx:25 | star k is lit iff its value is at most the shown value |
| StarRating.LitStarsArePrefix | frontend/src/components/StarRating.tsx:25 | the lit stars always form a prefix |
| StarRating.Handle | frontend/src/components/StarRating.tsx:16-23 | read-only ignores everything; a click reports that star's value 1..5; hovering sets the hover star; leaving resets hover to 0 |
| StarRating.LeaveShowsRating | frontend/src/components/StarRating.tsx:16 | after the mouse leaves, exactly the stars up to the rating are lit |
| StarRating.ReadOnlyIsInert | frontend/src/components/StarRating.tsx:16-23 | a read-only widget never changes and never reports, whatever the events |
| StarRating.ReportsAreStarValues | frontend/src/components/StarRating.tsx:22 | every rating reported is in 1..5 |
| Store.LikeCountsOncePerUser | backend/perphorum/src/main/java/com/project/perphorum/model/Review.java:46-52 | the like count is the size of the like set: adding a like counts once per user, and removing one lowers the count iff it was there |
| Store.RemoveFirst | backend/perphorum/src/main/java/com/project/perphorum/controllers/AppUserController.java:44 | `List.remove(Object)` removes the first occurrence, the entry at `IndexOf`, keeps the order of the others, and leaves the list alone when the value is absent |
| Store.Toggle | backend/perphorum/src/main/java/com/project/perphorum/controllers/AppUserController.java:43-50 | a present entry is removed as `List.remove` does, its first occurrence going and the rest keeping their order; an absent one is appended |
| Store.ToggleFlips | backend/perphorum/src/main/java/com/project/perphorum/controllers/AppUserController.java:43-50 | on a list without repeats, a toggle flips its argument's membership only and creates no duplicate |
| Store.ToggleTwice | backend/perphorum/src/main/java/com/project/perphorum/controllers/AppUserController.java:43-50 | toggling twice restores the entries, and restores the list exactly when the value was absent |
| Store.FindReview | backend/perphorum/src/main/java/com/project/perphorum/controllers/ReviewController.java:64 | the review found by id has that id, and no review has it when none is found |
| Store.SaveUser | backend/perphorum/src/main/java/com/project/perphorum/controllers/AppUserController.java:49 | saving a user replaces that record and changes no other part of the store |
| Store.SaveUserKeepsValid | backend/perphorum/src/main/java/com/project/perphorum/controllers/AppUserController.java:49 | saving a user whose lists name existing, distinct perfumes and users keeps the store valid |
| Store.AppendReviewKeepsValid | backend/perphorum/src/main/java/com/project/perphorum/controllers/ReviewController.java:42-50 | storing a new review with a fresh id, an existing author and perfume and no likes keeps the store valid |
| Store.ReplaceReviewKeepsValid | backend/perphorum/src/main/java/com/project/perphorum/controllers/ReviewController.java:62-78 | replacing a review with one of the same id whose likers exist keeps the store valid |
| Store.AppendCommentKeepsValid | backend/perphorum/src/main/java/com/project/perphorum/controllers/CommentController.java:36-44 | storing a new comment by an existing user on an existing review keeps the store valid |
| Store.KeepCommentsKeepsValid | backend/perphorum/src/main/java/com/project/perphorum/controllers/CommentController.java:54-55 | keeping a subset of the comments without repeated ids keeps the store valid |
| Store.AddUserKeepsValid | backend/perphorum/src/main/java/com/project/perphorum/controllers/AuthController.java:33-38 | a new user with a free username and empty lists gets a fresh id and keeps the store valid |
| UserController.WithListRestores | backend/perphorum/src/main/java/com/project/perphorum/controllers/AppUserController.java:38-68 | replacing one perfume list touches nothing else about the user |
| UserController.TogglePerfumeList | backend/perphorum/src/main/java/com/project/perphorum/controllers/AppUserController.java:38-68 | an unknown user or perfume fails with "No value present" and changes nothing; otherwise only that user's list changes: a present perfume is removed by `List.remove`, the others keeping their order ("Usunięto z …"), and an absent one is appended ("Dodano do …") |
| UserController.ToggleWishlist | backend/perphorum/src/main/java/com/project/perphorum/controllers/AppUserController.java:38-52 | fails iff the user or perfume is unknown; leaves the owned list and friends alone; answers "Usunięto z Wishlisty" or "Dodano do Wishlisty" by prior membership |
| UserController.ToggleOwned | backend/perphorum/src/main/java/com/project/perphorum/controllers/AppUserController.java:54-68 | the same toggle on the owned list; leaves the wishlist and friends alone |
| UserController.TogglePerfumeListPreservesValid | backend/perphorum/src/main/java/com/project/perphorum/controllers/AppUserController.java:43-50 | on a valid store the toggle flips only that perfume's membership and keeps the store valid, so lists never hold duplicates |
| UserController.TogglePerfumeListTwiceRestores | backend/perphorum/src/main/java/com/project/perphorum/controllers/AppUserController.java:43-50 | adding then removing a perfume gives back exactly the store |
| UserController.TogglePerfumeListTwiceSameEntries | backend/perphorum/src/main/java/com/project/perphorum/controllers/AppUserController.java:43-50 | on a list without repeats, toggling twice restores its entries |
| UserController.ToggleFriend | backend/perphorum/src/main/java/com/project/perphorum/controllers/AppUserController.java:98-116 | befriending oneself is a bad request and an unknown user a 500, both changing nothing; otherwise only the caller's friends list changes, losing the target by `List.remove` with the others in order, or gaining it at the end, with a message naming the target |
| UserController.ToggleFriendPreservesValid | backend/perphorum/src/main/java/com/project/perphorum/controllers/AppUserController.java:104-115 | the store stays valid, the target's membership among the caller's friends flips, and the target's own friends are untouched |
| UserController.GetUserFriends | backend/perphorum/src/main/java/com/project/perphorum/controllers/AppUserController.java:86-96 | an unknown user fails with "Nie znaleziono użytkownika"; otherwise one (id, username) summary per friend, in friends-list order |
| UserController.NewFriendListedLast | backend/perphorum/src/main/java/com/project/perphorum/controllers/AppUserController.java:86-116 | a friend just added appears last in the caller's friend listing |
| UserController.RemovedFriendKeepsOrder | backend/perphorum/src/main/java/com/project/perphorum/controllers/AppUserController.java:86-116 | unfriending drops exactly the target's entry from the caller's friend listing, and the remaining friends keep their order |
| ReviewController.AddReview | backend/perphorum/src/main/java/com/project/perphorum/controllers/ReviewController.java:28-51 | a rating outside the Java `int` range is a 400 before anything else; then an unknown perfume, then an unknown user, fails with the id in the message; an existing review by that author of that perfume is a 409; in each case nothing changes; otherwise exactly one review is added with the request's text, unchecked rating, author and subject, the current time and no likes, answered 201 |
| ReviewController.AddReviewPreservesValid | backend/perphorum/src/main/java/com/project/perphorum/controllers/ReviewController.java:36-50 | adding a review keeps the store valid and keeps at most one review per author and perfume |
| ReviewController.SecondReviewConflicts | backend/perphorum/src/main/java/com/project/perphorum/controllers/ReviewController.java:36-40 | a second review by the same author of the same perfume is a conflict (a 400 when its rating does not fit an `int`) that changes nothing |
| ReviewController.WithoutReview | backend/perphorum/src/main/java/com/project/perphorum/controllers/ReviewController.java:58 | the remaining reviews are exactly those with another id |
| ReviewController.WithoutCommentsOf | backend/perphorum/src/main/java/com/project/perphorum/model/Review.java:48-49 | the remaining comments are exactly those on other reviews |
| ReviewController.DeleteReview | backend/perphorum/src/main/java/com/project/perphorum/controllers/ReviewController.java:53-60 | an unknown id is a 404 that changes nothing; otherwise only that review goes, with its comments by cascade, and users and perfumes stay |
| ReviewController.DeleteReviewPreservesValid | backend/perphorum/src/main/java/com/project/perphorum/model/Review.java:48-49 | deleting a review leaves no comment pointing at it and keeps the store valid and one review per author and perfume |
| ReviewController.ToggledLikes | backend/perphorum/src/main/java/com/project/perphorum/controllers/ReviewController.java:70-74 | the user's like flips and no one else's changes |
| ReviewController.ToggleLike | backend/perphorum/src/main/java/com/project/perphorum/controllers/ReviewController.java:62-78 | an unknown review, then an unknown user, fails and changes nothing; otherwise only that review's like set changes, by adding or removing the user, and the reply is the new count, one more or one less |
| ReviewController.ToggleLikeTwice | backend/perphorum/src/main/java/com/project/perphorum/controllers/ReviewController.java:62-78 | toggling a like twice gives back the very same store |
| ReviewController.FindFirst | backend/perphorum/src/main/java/com/project/perphorum/controllers/ReviewController.java:64 | finding a review depends on the ids alone |
| ReviewController.ToggleLikePreservesValid | backend/perphorum/src/main/java/com/project/perphorum/controllers/ReviewController.java:62-78 | toggling a like keeps the store valid |
| ReviewController.ToggleLikeKeepsOneReviewPerAuthor | backend/perphorum/src/main/java/com/project/perphorum/controllers/ReviewController.java:62-78 | toggling a like keeps one review per author and perfume |
| ReviewController.OptimisticLikeMatchesServer | frontend/src/components/ReviewItem.tsx:28-30 | when the card reflects the stored review, its optimistic toggle predicts the server's new like state and count |
| ReviewController.GetMyFeed | backend/perphorum/src/main/java/com/project/perphorum/controllers/ReviewController.java:96-110 | an unknown user fails with "User not found"; a user without friends gets nothing; otherwise a review is listed iff a friend wrote it, each as often as stored, newest first |
| ReviewController.NewestFirst | backend/perphorum/src/main/java/com/project/perphorum/controllers/ReviewController.java:117 | all reviews, as a permutation sorted newest first |
| ReviewController.GetRecentReviews | backend/perphorum/src/main/java/com/project/perphorum/controllers/ReviewController.java:112-122 | the first min(limit, n) reviews of the newest-first list, six by default; a limit outside the Java `int` range is a 400, a negative one makes `subList` throw, answered as a 500; the result is a prefix of the newest-first list, sorted and drawn from the stored reviews |
| ReviewController.RecentAreNewest | backend/perphorum/src/main/java/com/project/perphorum/controllers/ReviewController.java:112-122 | no review left out of the recent list is newer than one in it |
| CommentController.AddComment | backend/perphorum/src/main/java/com/project/perphorum/controllers/CommentController.java:27-45 | an unknown review, then an unknown user, fails and changes nothing; otherwise exactly one comment is added with the request's text (blank allowed), review and author |
| CommentController.AddCommentPreservesValid | backend/perphorum/src/main/java/com/project/perphorum/controllers/CommentController.java:36-44 | adding a comment keeps the store valid |
| CommentController.WithoutComment | backend/perphorum/src/main/java/com/project/perphorum/controllers/CommentController.java:54 | the remaining comments are exactly those with another id |
| CommentController.DeleteComment | backend/perphorum/src/main/java/com/project/perphorum/controllers/CommentController.java:49-56 | an unknown id is a 404 that changes nothing; otherwise only that comment goes |
| CommentController.DeleteCommentPreservesValid | backend/perphorum/src/main/java/com/project/perphorum/controllers/CommentController.java:49-56 | deleting a comment keeps the store valid |
| CommentController.AddThenDeleteComment | backend/perphorum/src/main/java/com/project/perphorum/controllers/CommentController.java:27-56 | deleting the comment just added restores the store, apart from the used-up id |
| AuthController.Register | backend/perphorum/src/main/java/com/project/perphorum/controllers/AuthController.java:28-42 | a taken username is a 400 that adds no user; otherwise one user is added under the next id with role USER, the encoded password and empty lists, and the response names that user's id, username and role |
| AuthController.RegisterPreservesValid | backend/perphorum/src/main/java/com/project/perphorum/controllers/AuthController.java:30-38 | registration keeps usernames unique and the store valid, and grows the user table by one |
| AuthController.SecondRegistrationRefused | backend/perphorum/src/main/java/com/project/perphorum/controllers/AuthController.java:30-32 | registering a username a second time is refused and changes nothing |
| Text.TrimIsUnpadded | frontend/src/ProductPage/ProductPage.tsx:117 | `trim` leaves no white space at either end |
| Text.SplitJoin | frontend/src/ProductPage/ProductPage.tsx:117 | splitting a ", "-join of comma-free pieces on ',' gives back the first piece and every later one with one leading space |
| Text.NatToStringRoundTrip | backend/perphorum/src/main/java/com/project/perphorum/controllers/ReviewController.java:31 | the decimal rendering of an id reads back as that id |
| Sorting.TakeKeepsHighest | frontend/src/RankingPage/RankingPage.tsx:33-35 | a prefix of a list sorted in decreasing order outranks everything after it |

## Left out

- Rendering: JSX, CSS and layout. Only the decisions the pages take are modelled.
- Network and asynchrony: `fetch`, `Promise.all` and effects. Each call is an abstract outcome (resolved, or rejected with a message). The order in which state updates of overlapping calls land is not modelled.
- Timers: the 300 ms "show more" delay, the 3 s message clearing on the product page, and the 200 ms blur delay of the search box are not modelled. The blur is treated as immediate.
- `window.confirm` before deletions is left out; it is a browser dialog.
- Library semantics: `localeCompare` is modelled as code-unit order, `toLowerCase` as ASCII lowering, and string length as characters rather than UTF-16 units. `encodeURIComponent`, `JSON.parse`, the password encoder and the token signer are parameters.
- `genderConfig` lookups of inherited object keys such as "constructor" are not modelled; the model gives such names no category.
- `toFixed` formatting of averages is left out. Means are exact reals.
- Login, user search, user and perfume lookups by id, the wishlist, owned, by-perfume and by-user listing endpoints, and `PerfumeController` are left out. They only delegate to repository queries.
- `DataLoader.java` is left out; it seeds mock data from a random generator. For this reason the one-review-per-author rule is not part of `Store.Valid`.
- The session store of the front end is not part of this model; the current user is a parameter.
- Entity equality: `AppUser.java` is not part of this model. Perfumes and users in Java lists are compared by id.
- ReviewController.GetMyFeed: the database leaves the order of reviews created at the same moment open. The model fixes one order (stable by table order), so the contract states only that the feed is sorted, not which tie order it has.
- Error bodies: a 500 reply carries the exception's message in the model. The client
  receives Spring Boot's default error body, which leaves the message out unless
  `server.error.include-message` is set, and these sources do not set it.
- ReviewController.GetRecentReviews, ReviewController.AddReview: request binding is modelled only for the `int` range of `limit` and `rating`. Ids outside the range of a Java `Long` are also refused by Spring and Jackson with a 400 before the controller runs, and a JSON field left out binds as `null` (ids, text) or 0 (rating); the model takes ids as unbounded `nat` and every field as present. The body of such a 400 is left empty.
- ReviewController.GetRecentReviews: the database leaves the order of reviews created at the same moment open. The model fixes one order (stable by table order), so its prefix clause also fixes which of several tied reviews the limit cuts off. Only the length, the sortedness, the sub-multiset clause and `RecentAreNewest` hold for every tie order.
- ReviewController.GetRecentReviews: the message of the `subList` exception is modelled as "fromIndex(0) > toIndex(n)"; the exact wording is the Java library's.
- RegisterPage.HandleSubmit: a rejected call always carries an `Error` here; the "Błąd rejestracji" fallback for other thrown values is not modelled.
- ReviewItem.HandleToggleLike: the compensation uses a functional state update in the source; the model applies it to the state left by the optimistic step, so it does not model a second click landing in between.
- ReviewItem.OfferedControls: whether the comment list is expanded is not modelled; the controls are those of an opened card.
- UserController.GetUserFriends: it requires every friend id to name a user. The database's foreign keys guarantee this, so the source never meets the other case.
- Registration does not check the e-mail or password on the server, and neither does the model.
