# RateMyDPE core rules in Dafny

RateMyDPE is a Next.js site where pilots review Designated Pilot Examiners
(DPEs). Rendering and ORM calls make up most of it. Under them sit a few
request handlers and client-side state updates with rules that can be
stated and checked. This project models those rules as pure functions over
immutable data and proves properties about them.

The data store is a pair of maps keyed by id: users and DPEs. Their records
follow `src/types/models.ts`. A session is an optional user id. Every
handler that writes (POST or PUT) is a function from the store and the
request to a `Step`: the new store plus a response datatype. The settings
GET reads the store and returns a response datatype alone. Every response
datatype has a function giving its HTTP status. The DPE search GET is a
filter: it takes the DPEs in the order `findMany` enumerates the
collection, as a sequence, and returns the ones that match.
Absent JSON fields and absent query parameters are the empty string. The
handlers only ever test them for truthiness, and the empty string fails
that test just as an absent value does. Lists that may be absent from a
body are `Option<seq<…>>`. bcrypt is a pair of functions passed in as a
parameter: `hash` and `matches`. Ids that the database assigns are
parameters too, and each is required to be fresh.

| file | module | source |
|---|---|---|
| `lists.dfy` | `Lists` | `Array.prototype.filter` and the "filter out one value" idiom, used by several handlers |
| `text.dfy` | `Text` | case-insensitive substring match (Prisma `contains` with `mode: 'insensitive'`) |
| `models.dfy` | `Models` | records of `src/types/models.ts`, the store, and `Step` |
| `accounts.dfy` | `Accounts` | the bcrypt interface and the email index of the users table |
| `save_route.dfy` | `SaveRoute` | `src/app/api/dpe/save/route.ts` |
| `dpe_route.dfy` | `DpeRoute` | `src/app/api/dpe/route.ts` |
| `settings_route.dfy` | `SettingsRoute` | `src/app/api/user/settings/route.ts` |
| `signup_route.dfy` | `SignupRoute` | `src/app/api/auth/signup/route.ts` |
| `search_page.dfy` | `SearchPage` | `src/app/search/page.tsx` |
| `profile_page.dfy` | `ProfilePage` | `src/app/profile/page.tsx` |
| `add_dpe_page.dfy` | `AddDpePage` | `src/app/dpe/add/page.tsx` |

The save relation is stored twice: on the user (`savedDPEIds`) and on the
DPE (`savedByUserIds`). `Promise.all` issues the two updates of one toggle
side by side. The model treats each update as committing exactly when its
own record exists. A Prisma `update` on a missing record throws, and the
handler turns that into a 500. So a request can answer 500 after one half
has been written. The handlers keep no state of their own, yet the
save handler is a two-state toggle per user/DPE pair in the store, and it
is modelled as one.

## Model

| member | source | states |
|---|---|---|
| Lists.RemoveAll | src/app/api/dpe/save/route.ts:35 | every copy of the value is gone; every other element keeps its membership and its number of copies; the list shrinks exactly when the value was present; a list without repeats stays without repeats |
| Lists.Filter | src/app/profile/page.tsx:284 | keeps exactly the elements that pass, and never lengthens the list |
| Lists.FilterCount | src/app/profile/page.tsx:284 | each passing element is kept as often as it occurred, and each failing one is dropped entirely |
| Lists.FilterConcat | src/app/profile/page.tsx:284 | filtering distributes over concatenation, so filtering keeps the relative order of the elements it keeps |
| Lists.FilterKeepsAll | src/app/api/dpe/route.ts:54-65 | a filter returns its whole input, and has the input's length, exactly when every element passes |
| Lists.FilterFilter | src/app/api/dpe/route.ts:54-63 | filtering by p and then by q equals filtering once by the conjunction |
| Lists.RemoveAfterAppend | src/app/api/dpe/save/route.ts:35-56 | removing a value after appending it is the same as removing it from the original list |
| Lists.RemoveConcat | src/app/api/dpe/save/route.ts:35 | removing a value from a list split in two is removing it from each part, so the elements that stay keep their order |
| Text.Contains | src/app/api/dpe/route.ts:57-58 | true exactly when the needle occurs at some position of the haystack |
| Text.ContainsItself | src/app/api/dpe/route.ts:55-60 | a name contains, case-insensitively, any string equal to it up to ASCII letter case |
| SaveRoute.Toggle | src/app/api/dpe/save/route.ts:10-69 | no session: 401 with the store unchanged; missing or empty dpeId: 400 with the store unchanged; otherwise no record is created or removed; if the DPE is not on the user's list, the DPE is appended to the user's list and the user to the DPE's, and the answer is `saved: true` when both records exist, else 500; if the DPE is on the user's list, every copy is filtered out of both lists, and the answer is `saved: false` when the DPE exists, else 500 |
| SaveRoute.ToggleFrame | src/app/api/dpe/save/route.ts:30-67 | every update writes one id list only: every other field of every record is kept, and every user but the session's and every DPE but the named one is unchanged |
| SaveRoute.SaveStep | src/app/api/dpe/save/route.ts:49-69 | for a stored user and DPE that are not linked, the request appends each id to the other record's list and answers `saved: true` |
| SaveRoute.UnsaveStep | src/app/api/dpe/save/route.ts:28-48 | for a DPE on the user's list that is stored, the request filters each id out of the other record's list and answers `saved: false` |
| SaveRoute.ToggleKeepsSymmetry | src/app/api/dpe/save/route.ts:26-69 | if the user lists a DPE exactly when the DPE lists the user, for every stored pair, then this still holds after any request |
| SaveRoute.ToggleTwiceRestores | src/app/api/dpe/save/route.ts:35-64 | starting symmetric and unsaved, two toggles answer `saved: true` and then `saved: false`, and the second one gives back the original store |
| SaveRoute.ToggleTwiceNeedsSymmetry | src/app/api/dpe/save/route.ts:43-64 | without symmetry the round trip fails: if the DPE lists a user who does not list it, saving and unsaving removes every copy of that user from the DPE's list instead of restoring it, so the store changes |
| SaveRoute.ToggleTwiceNeedsSymmetryExample | src/app/api/dpe/save/route.ts:43-64 | a DPE that lists only such a user ends with an empty list |
| SaveRoute.BranchIgnoresDpeSide | src/app/api/dpe/save/route.ts:26 | two stores that differ only in the DPEs' list contents get the same response and the same users table |
| DpeRoute.CreateDpe | src/app/api/dpe/route.ts:7-36 | 400 with nothing created exactly when a name, the city, the state or the region is empty, or checkrideTypes is missing or empty; otherwise one DPE is added under the new id, holding the submitted fields unchanged, `tags` or `[]` when absent, and no savers or reviews |
| DpeRoute.Search | src/app/api/dpe/route.ts:48-85 | a DPE is returned exactly when it is in the collection as enumerated and, for each parameter given, matches it: a case-insensitive substring of the first or last name, an exact state |
| DpeRoute.SearchWithoutQueryReturnsAll | src/app/api/dpe/route.ts:54-65 | with neither parameter, every DPE is returned in order |
| DpeRoute.SearchConjoins | src/app/api/dpe/route.ts:55-63 | with both parameters, the result equals the state search applied to the name search's result |
| DpeRoute.SearchFindsByLastName | src/app/api/dpe/route.ts:55-60 | a search for a DPE's last name, in any ASCII letter case, finds it |
| SettingsRoute.UpdateSettings | src/app/api/user/settings/route.ts:7-61 | 401 without a session id and 404 for an unknown user, with the store unchanged in both; only that user's password and email can change; "wrong password" exactly when both passwords are given and the current one does not match, and then nothing is written; the password becomes hash(new) exactly when both are given and the current one matches; "email in use" exactly when the password step passed, a non-empty email different from the stored one was given and some user holds it; the email becomes the requested one exactly when the answer is 200 and such an email was given, and is kept otherwise; a stored user gets 200 exactly when neither check refused the request |
| SettingsRoute.PasswordSurvivesEmailConflict | src/app/api/user/settings/route.ts:35-53 | a valid password change sent with a taken email is answered 400, yet the new password hash is stored and the email is kept |
| SettingsRoute.UpdateKeepsEmailsUnique | src/app/api/user/settings/route.ts:43-58 | if no two users shared an email before a PUT, none do after it |
| SettingsRoute.GetSettings | src/app/api/user/settings/route.ts:71-89 | 401 without a session id, 404 for an unknown user, otherwise the user's email and nothing else |
| SettingsRoute.GetAfterEmailChange | src/app/api/user/settings/route.ts:55-89 | after a successful PUT that asked for a new email, GET reports that email |
| SignupRoute.Signup | src/app/api/auth/signup/route.ts:10-37 | 400 "Missing fields" exactly when the email, name or password is empty; 400 "Email already exists" exactly when the fields are present and some user holds the email; the store is unchanged on failure; on success the new user has the given email and name, hash(password) and no saved DPEs, and the answer holds id, email and name only |
| SignupRoute.SignupAddsOneUser | src/app/api/auth/signup/route.ts:24-35 | a successful signup adds exactly one key and leaves every existing user as it was |
| SignupRoute.SignupKeepsEmailsUnique | src/app/api/auth/signup/route.ts:14-20 | if no two users shared an email before a signup, none do after it |
| SignupRoute.SecondSignupRefused | src/app/api/auth/signup/route.ts:14-20 | a second complete signup with an email that was just registered is refused with "Email already exists" |
| SearchPage.Mean | src/app/search/page.tsx:96 | the mean times the count is the sum |
| SearchPage.ScaledBounds | src/app/search/page.tsx:96-103 | a value that times n equals s, with s in [lo·n, hi·n], lies in [lo, hi] |
| SearchPage.MeanBetween | src/app/search/page.tsx:96-103 | the mean of values in [lo, hi] lies in [lo, hi] |
| SearchPage.MeanWithinExtremes | src/app/search/page.tsx:96-103 | the mean lies between the smallest and the largest value |
| SearchPage.SumBounds | src/app/search/page.tsx:96-103 | a sum of n values in [lo, hi] lies in [lo·n, hi·n] |
| SearchPage.Percent | src/app/search/page.tsx:111-119 | p·total = 100·count, 0 ≤ p ≤ 100, p = 0 exactly when count = 0, and p = 100 exactly when count = total |
| SearchPage.AverageRating | src/app/search/page.tsx:94-98 | "N/A" exactly when there are no reviews; otherwise the value times the number of reviews is the rating sum |
| SearchPage.AverageRatingBounds | src/app/search/page.tsx:94-98 | with at least one review, the average lies within [min, max] of the ratings |
| SearchPage.AverageDifficulty | src/app/search/page.tsx:100-105 | "N/A" exactly when no review has a non-zero difficulty; otherwise the value is the mean of those difficulties |
| SearchPage.DifficultiesAreRatings | src/app/search/page.tsx:101-103 | the i-th difficulty averaged is the rating of the i-th review that has a non-zero one, in order |
| SearchPage.NoDifficulties | src/app/search/page.tsx:101-102 | there are no difficulties to average exactly when no review has a non-zero difficulty |
| SearchPage.AverageDifficultyBounds | src/app/search/page.tsx:100-105 | the average difficulty lies within [min, max] of the difficulties it averages |
| SearchPage.UnratedDifficultyIgnored | src/app/search/page.tsx:101 | adding a review without a (non-zero) difficulty leaves the average difficulty unchanged |
| SearchPage.FlagRate | src/app/search/page.tsx:107-121 | the placeholder exactly when no flag is non-null; otherwise 100·trueCount/setCount, which lies in [0, 100], is 0 exactly when no set flag is true, and is 100 exactly when every set flag is true |
| SearchPage.FullRate | src/app/search/page.tsx:108-111 | the rate is 100 exactly when some flag is set and no set flag is false |
| SearchPage.ZeroRate | src/app/search/page.tsx:108-111 | the rate is 0 exactly when some flag is set and none is true |
| SearchPage.PassRate | src/app/search/page.tsx:107-113 | "No data" exactly when every review's checkridePassed is null; otherwise 100 × (reviews that passed) / (reviews with an outcome), a value in [0, 100] |
| SearchPage.RecommendRate | src/app/search/page.tsx:115-121 | "N/A" exactly when every review's wouldRecommend is null; otherwise 100 × (reviews that recommend) / (reviews with an answer), a value in [0, 100] |
| SearchPage.UnsetFlagIgnored | src/app/search/page.tsx:108-111 | appending an unset flag leaves the rate unchanged |
| SearchPage.UnrecordedOutcomeIgnored | src/app/search/page.tsx:107-113 | a review without a checkride outcome leaves the pass rate unchanged |
| SearchPage.UnansweredRecommendationIgnored | src/app/search/page.tsx:115-121 | a review without a recommendation leaves the recommend rate unchanged |
| SearchPage.RatingColour | src/app/search/page.tsx:134-140 | gray exactly for the text "N/A", green exactly for values ≥ 4.0, yellow exactly for values in [3.0, 4.0); every other text is red |
| SearchPage.ColourMonotone | src/app/search/page.tsx:137-139 | a higher value never gets a lower colour on the gray < red < yellow < green scale |
| SearchPage.CardColour | src/app/search/page.tsx:94-140 | on the exact mean, the badge is gray exactly when there are no reviews, and green exactly when the rating sum is at least 4 per review |
| SearchPage.Round1 | src/app/search/page.tsx:97 | the rounded value has one decimal and lies in (x − 0.05, x + 0.05] |
| SearchPage.OneDecimalUnique | src/app/search/page.tsx:97 | exactly one one-decimal value lies in (x − 0.05, x + 0.05], so the rounding is fixed, with halves going up |
| SearchPage.RoundAtLeast | src/app/search/page.tsx:97 | a rounded value reaches a whole number c exactly when the value reaches c − 0.05 |
| SearchPage.RoundWithin | src/app/search/page.tsx:97 | rounding keeps a value inside an interval with whole-number ends |
| SearchPage.ShownRating | src/app/search/page.tsx:94-98 | the text the badge receives is "N/A" exactly when there are no reviews; otherwise it has one decimal and lies in (mean − 0.05, mean + 0.05] |
| SearchPage.ShownRatingBounds | src/app/search/page.tsx:94-98 | with at least one review, the shown value stays within [min, max] of the ratings |
| SearchPage.RoundedMeanAtLeast | src/app/search/page.tsx:97-138 | a rounded mean of n values with sum s reaches c exactly when 20·s ≥ (20·c − 1)·n |
| SearchPage.BadgeColour | src/app/search/page.tsx:242-248 | the badge the page shows is gray exactly when there are no reviews, green exactly when the mean is at least 3.95, and yellow exactly when it is in [2.95, 3.95) |
| SearchPage.TotalPages | src/app/search/page.tsx:123 | zero pages for an empty list; otherwise the smallest page count whose pages hold n items |
| SearchPage.SliceIndex | src/app/search/page.tsx:124-127 | a resolved bound lies in [0, length]: an index in range is kept, a negative one in range counts back from the end, and one beyond either end stops at that end |
| SearchPage.Slice | src/app/search/page.tsx:124-127 | the slice is the run of elements starting at the resolved start, as long as the gap to the resolved end, and empty when the end does not come after the start |
| SearchPage.SliceFromEnd | src/app/search/page.tsx:124-127 | slicing from 0 to the length copies the list, and a start of −k takes the last k elements, except −0, which takes them all |
| SearchPage.Page | src/app/search/page.tsx:124-127 | a page holds at most 10 items; page p ≥ 1 is the window [(p−1)·10, p·10) clamped to the list |
| SearchPage.PagesArePrefix | src/app/search/page.tsx:124-127 | pages 1..k laid end to end form the list's prefix of length min(n, 10·k) |
| SearchPage.PagesPartition | src/app/search/page.tsx:123-127 | pages 1..totalPages laid end to end are exactly the list |
| SearchPage.PageOccupancy | src/app/search/page.tsx:123-127 | every page the buttons offer is non-empty, and every page after the last is empty |
| SearchPage.LocalSave | src/app/search/page.tsx:142-170 | with no session, only the sign-in prompt opens; otherwise the list keeps its length, and only DPEs with the matching id change, getting the user appended on `saved: true` or filtered out on `saved: false`; a failed request changes nothing |
| SearchPage.LocalSaveMirrorsServer | src/app/search/page.tsx:158-170 | if a card's list agrees with the stored DPE, then after the server's answer it agrees with the stored DPE after the toggle |
| ProfilePage.ParseTab | src/app/profile/page.tsx:111 | names a tab exactly when the text is that tab's query spelling |
| ProfilePage.TabFromQuery | src/app/profile/page.tsx:109-114 | the active tab changes only to the tab the query value names, and stays put when the value is absent or not one of profile, settings, reviews or saved |
| ProfilePage.EveryTabReachable | src/app/profile/page.tsx:110-113 | each of the four tabs is selected by its own query value |
| ProfilePage.ToggleTag | src/app/profile/page.tsx:863-870 | the tag ends up present exactly when it was absent and fewer than 3 were active; no other tag changes; a list of at most 3 stays at most 3; removing is filtering every copy out with the rest kept in order, and adding appends at the end |
| ProfilePage.ToggleTagKeepsDistinct | src/app/profile/page.tsx:863-870 | tag clicks never create a repeated tag |
| ProfilePage.ToggleTagTwice | src/app/profile/page.tsx:867-869 | clicking an inactive tag twice, when there is room, restores the list |
| ProfilePage.CharsRemaining | src/app/profile/page.tsx:849 | the counter plus the content's length in UTF-16 code units is 2000, so it is non-negative exactly when the content fits, and lies between 2000 − 2·(characters) and 2000 − (characters) |
| ProfilePage.Utf16Length | src/app/profile/page.tsx:849 | `length` counts between one and two code units per character |
| ProfilePage.Utf16LengthConcat | src/app/profile/page.tsx:849 | the code-unit length of a concatenation is the sum of the lengths |
| ProfilePage.Utf16LengthBmp | src/app/profile/page.tsx:849 | text of Basic Multilingual Plane characters has as many code units as characters |
| ProfilePage.CharsRemainingAfterTyping | src/app/profile/page.tsx:849 | typing more text lowers the counter by the code units typed, so by one per character when all are in the Basic Multilingual Plane |
| ProfilePage.EmojiCountsTwice | src/app/profile/page.tsx:849 | content made of one emoji leaves 1998, not 1999 |
| ProfilePage.StarLine | src/app/profile/page.tsx:915-916 | a rating outside 0..5 makes `repeat` throw; otherwise the line has five stars, filled exactly before position rating |
| ProfilePage.Repeat | src/app/profile/page.tsx:915-916 | `repeat(n)` gives n copies of the character |
| ProfilePage.FilledRepeat | src/app/profile/page.tsx:915-916 | a run of a filled stars followed by empty ones counts a filled stars |
| ProfilePage.StarsShowRating | src/app/profile/page.tsx:915-916 | a rating from 0 to 5 shows exactly that many filled stars |
| ProfilePage.MergeEdit | src/app/profile/page.tsx:292-310 | with no form or a failed request the list is unchanged; otherwise the length is kept, entries with other ids are unchanged, and entries with the id take every column from the server's record while keeping their DPE summary |
| ProfilePage.MergeEditIdempotent | src/app/profile/page.tsx:308-310 | merging the same answer a second time changes nothing |
| ProfilePage.Unsave | src/app/profile/page.tsx:272-284 | after a successful request, exactly the entries with that id are gone and every other entry keeps its number of copies; a failed request changes nothing |
| ProfilePage.UnsaveKeepsOrder | src/app/profile/page.tsx:284 | unsaving from a list split in two is unsaving from each part, so the order of the rest is kept |
| ProfilePage.HandleUnsave | src/app/profile/page.tsx:272-289 | the server store is the toggle's result, and on a 200 answer the tab no longer lists the DPE, whatever `saved` the server reported |
| ProfilePage.HandleUnsaveCanDiverge | src/app/profile/page.tsx:281-284 | when the server's list no longer holds the DPE, the click saves it on the server while the tab drops it |
| ProfilePage.HandleUnsaveChecked | src/app/profile/page.tsx:272-289 | the tab drops the DPE exactly on a `saved: false` answer and is otherwise unchanged |
| ProfilePage.HandleUnsaveCheckedAgrees | src/app/profile/page.tsx:272-289 | afterwards the tab lists the DPE exactly when the server's list for the user holds it |
| ProfilePage.UpdatePassword | src/app/profile/page.tsx:240-264 | a new password that differs from its confirmation sends nothing and changes nothing; otherwise the body holds just the two passwords, and success clears the form and closes the editor |
| ProfilePage.UpdateEmail | src/app/profile/page.tsx:222-232 | the body holds just the email, and success closes the email editor |
| ProfilePage.FormsAreIndependent | src/app/profile/page.tsx:222-254 | the password form's request never changes an email, and the email form's request never changes a password |
| AddDpePage.InitialForm | src/app/dpe/add/page.tsx:28-36 | every text field is empty, and checkrideTypes and tags are empty |
| AddDpePage.CheckboxChange | src/app/dpe/add/page.tsx:165-176 | only checkrideTypes changes; ticking appends the type; unticking removes every copy and keeps the membership and copy count of every other type |
| AddDpePage.ClickFlips | src/app/dpe/add/page.tsx:164-177 | a click flips the ticked state of its own box and of no other |
| AddDpePage.ClickTwiceRestores | src/app/dpe/add/page.tsx:166-176 | ticking and then unticking a box restores the form |
| AddDpePage.UntickKeepsOrder | src/app/dpe/add/page.tsx:171-176 | unticking removes the type from each part of a list split in two, so the other types keep their order |
| AddDpePage.ClickKeepsDistinct | src/app/dpe/add/page.tsx:164-177 | clicks never put a type in the list twice |
| AddDpePage.Submit | src/app/dpe/add/page.tsx:85-152 | the browser posts the form exactly when the names, the city, the state and the region are filled |
| AddDpePage.SubmittedFormRefusedIffNoType | src/app/dpe/add/page.tsx:155-177 | the server refuses a form the browser lets through exactly when no checkride type is ticked, and otherwise stores it as typed |
| AddDpePage.InitialFormRefused | src/app/dpe/add/page.tsx:28-36 | the browser does not send the untouched form, since its required fields are empty; its body would be refused with "Missing required fields" anyway |

## Left out

- Rendering: JSX, styling and the static pages have no behaviour to state.
- The authentication modal: it only switches views around next-auth's `signIn`, whose code is not part of this model.
- fetch, `NextResponse`, Prisma and next-auth sessions: the store is two maps, a session is an optional user id, and a response is a datatype with a status function.
- A malformed JSON body: it makes `request.json()` throw and the handler answer 500; that path is not modelled.
- The distinction between `null` and `undefined`: both are an absent value (`None`, or the empty string for strings). The string guards test truthiness, which treats the two alike. The rate helpers test `!== null` (src/app/search/page.tsx:108, 116), but their flags arrive in JSON, which never carries `undefined`.
- bcrypt's salt and cost factors (10 and 12): `hash` and `matches` are opaque functions passed in as a parameter.
- Concurrency: the race between the two paired updates of the save handler, and between two requests, is not modelled. Each handler is one atomic step. Within that step, the two `Promise.all` updates commit independently.
- Fresh database ids: ObjectIds are parameters, and each is required not to be in use yet.
- Clocks: `createdAt` and `updatedAt` are not part of the records.
- The GET projection of the DPE search: the handler selects a subset of the columns (no region, no timestamps). The model returns whole records, so `DpeRoute.Search` states which DPEs come back, not which columns.
- Text.Contains: case folding covers ASCII letters only; the database's Unicode case-insensitive matching is not modelled.
- SearchPage.AverageRating: the figure is the exact mean; `toFixed(1)` formatting is modelled only for the badge colour (`SearchPage.ShownRating`, `SearchPage.BadgeColour`), and that rounding is taken on the exact value, so binary floating-point error at a tie is not modelled.
- SearchPage.Round1: `toFixed` rounds a negative half away from zero, while `Round1` rounds it up; ratings are never negative on this page.
- SearchPage.CardColour: it applies the thresholds to the exact mean; the page applies them to the rounded text, which `SearchPage.BadgeColour` states.
- SearchPage.AverageDifficulty: the figure is the exact mean, not the one-decimal text the card prints.
- SearchPage.FlagRate: the figure is the exact percentage, not the whole-number text `toFixed(0)` prints, so a rate of 99.5 or more shows as 100% on the page even when some flag is false.
- SearchPage.LocalSave: the saving spinner map and `window.scrollTo` are side effects only.
- The search page trims the name before it builds the query (src/app/search/page.tsx:56); `DpeRoute.Search` takes the parameter as it arrives.
- The 2000-character limit that the review text box enforces (`maxLength`) is not modelled; only the counter is.
- The average rating on the profile page's saved tab is not modelled; it is a display computation like the search page's.
- Pass-through routes (`src/app/api/user/profile/route.ts`, `src/app/api/review/route.ts`, `src/app/api/user/reviews/route.ts`, `src/app/api/user/saved-dpes/route.ts`, `src/app/api/reviews/[reviewId]/route.ts`): each does a single ORM read or write. The last one's answer, the full updated review record, is the input of `ProfilePage.MergeEdit`.

## Findings

| source | as written | input that shows it | evidently intended | confidence | as-written member | corrected member |
|---|---|---|---|---|---|---|
| src/app/profile/page.tsx:281-284 | `handleUnsave` posts to the save toggle and drops the entry on any 200 answer, ignoring the `saved` field of the reply | a saved tab still listing a DPE that the user already unsaved elsewhere (the server's `savedDPEIds` lacks it): the toggle saves it again and answers `saved: true`, while the tab drops it | drop the entry only when the server answers `saved: false`, so that the tab and the server agree | medium, not executed | ProfilePage.HandleUnsave, ProfilePage.HandleUnsaveCanDiverge | ProfilePage.HandleUnsaveChecked, ProfilePage.HandleUnsaveCheckedAgrees |
