# Safar travel journal — a Dafny model of its request logic

Safar is a travel-journal web application. Its Express backend keeps user
accounts and travel stories in a document store, stores uploaded pictures in
an `uploads/` directory, and serves a React frontend. This project models:

- the request handlers of `backend/index.js`. Each handler is a pure function
  from the server state (`Records.Db`: the users, the stories, the names of the
  uploaded files and a fresh-id counter) and the request to the response
  (status and body) and the next state. The handlers are account creation,
  login, get-user, add, list, edit, delete, mark-as-favorite, search, the
  date filter, image upload and image delete;
- the upload policy of `backend/multer.js`: the file filter (MIME prefix and
  extension allow-list) and the stored-file naming rule (timestamp followed
  by the original extension);
- the string helpers of `frontend/Safar/src/utils/helper.js`: the email-shape
  check, the initials of a name, and the empty-state message and picture.

The two POSIX path functions the code depends on, `path.basename` and
`path.extname`, are modelled in `PathPosix`. The password library and the
token library are parameters: `Handlers.Crypto` carries an uninterpreted
`hash` and `compare`, and `Tokens` keeps only the claims a token carries
(the user id, the issue second and the expiry second 72 hours later).

Modules: `Optional`, `Text` (case mapping, substring search, decimals),
`PathPosix`, `Tokens`, `Records` (entities and the state invariant
`Valid`), `Queries` (filtering, the favorites-first sort, first-match
lookups), `Upload` and `UploadExamples` (multer.js), `Handlers` (index.js),
`Helper` (helper.js) and `Properties` (facts that relate several requests).

Request values follow JavaScript truthiness: a missing string field is `""`.
`visitedLocation` is an `Option` because an empty array is truthy.
`visitedDate` is an `Option<int>`: a JSON number of milliseconds, where `Some(0)` is falsy.
The handlers read it through `parseInt`, which first turns the number into a
string: its decimal form below 10^21 in magnitude, an exponent form such as
"1e+21" from there on, of which only the sign and the leading digit are read.
A `:id` parameter that is not an object id is `IdParam.Malformed`; the store's
cast of it throws, and the handler's `catch` answers. A time value outside
±8.64e15 ms is an Invalid Date, which the store refuses.

Two behaviours worth knowing, both read from `backend/index.js`:

- Adding a story without an image is rejected ("All fields are required.",
  lines 178-180). The placeholder image is substituted only when a story is
  edited (lines 314-319).
- Deleting a story whose image file cannot be unlinked does not succeed.
  `unlinkSync` is handed a callback that would log the failure
  (lines 360-364), which shows logging was intended. But `unlinkSync` takes
  no callback and throws instead, so the handler answers 400 after the
  record is already gone (see Findings).

## Model

| member | source | states |
|---|---|---|
| Handlers.CreateAccount | backend/index.js:62-103 | Any empty field gives 400 "All fields are required." and a taken email gives 400 "User already exists.", both with the state unchanged. It answers 201 exactly when all fields are present and the email is free. Then one user is appended, with the next id and the hash of the password, and nothing else changes. The response shows only the name and email, with a token for the new id and the message "Registration successful.". |
| Handlers.Login | backend/index.js:112-145 | Missing credentials and an unknown email give their 400 messages. A 200 names a stored user with that email whose hash the password matches, and carries a token for that user's id. "Invalid password" means the stored hash did not match. The state is never changed. |
| Properties.LoginChecksStoredPassword | backend/index.js:119-145 | With both fields present and an account registered under the email, a password its digest accepts gets exactly that account's profile and a token for its id, and any other password gets exactly "Invalid password". |
| Properties.FindsRegisteredUser | backend/index.js:119 | With unique emails, the lookup by email finds the registered account itself. |
| Handlers.GetUser | backend/index.js:152-166 | 401 with no body exactly when no user has the id. Otherwise 200 with the stored user of that id. |
| Handlers.AddStory | backend/index.js:172-202 | A missing title, story, locations, image or date gives 400 "All fields are required.", and a date that `parseInt` reads as an invalid time gives 400 with the store's error, both with the state unchanged. It answers 201 exactly when all are present and the parsed date is valid. Then one story is appended with the next id, the caller as owner, every given field, the parsed date and isFavorite false. |
| Handlers.ListStories | backend/index.js:209-221 | The result holds exactly the caller's stories, each as often as it is stored, with no non-favorite before a favorite. |
| Handlers.Edited | backend/index.js:314-320 | The edit overwrites title, story, locations and date. It keeps id, owner and isFavorite. The image is the given one when one is given, and exactly the placeholder URL when none is, so it is never empty. |
| Handlers.EditStory | backend/index.js:292-330 | Missing fields give 400, and a story the caller does not own gives 400 "Story not found". A malformed id or an invalid date is caught and answered with 200. The edited story is returned exactly when the fields are present, the date as `parseInt` reads it is valid and the caller owns the story. Then the reply is 200 "Updated Successfully" with that edited story, and only that story is replaced, by its edited form with the parsed date. Every failure leaves the state unchanged. |
| Handlers.DeleteStory | backend/index.js:337-370 | A malformed id gives 400 and a story the caller does not own gives 400 "Story not found", both with the state unchanged. Otherwise the owned story is removed. Its image file is unlinked when it is a plain file name present in uploads, and then the reply is 200. If not, the reply is 400 and the story stays deleted. Users and the id counter are untouched. |
| Handlers.DeleteStoryLogged | backend/index.js:359-365 | The intended delete: the same removal, but the reply is 200 "Story Deleted Successfully" exactly when the caller owns the story, whatever happens to the file. |
| Handlers.UpdateIsFavorite | backend/index.js:377-397 | A malformed id gives 400 and a story the caller does not own gives 400 "Travel Story not found", both with the state unchanged. It answers 200 exactly when the caller owns the story. Then only that story's isFavorite field changes. |
| Handlers.Search | backend/index.js:404-427 | An empty query gives 400. Otherwise the result holds exactly the caller's stories whose title, text or some location contains the query ignoring case, favorites first. |
| Handlers.FilterByDate | backend/index.js:434-455 | It answers 200 exactly when both bounds are valid dates, and 500 otherwise. The result holds exactly the caller's stories with start ≤ visitedDate ≤ end, favorites first. It is empty when start > end. |
| Handlers.ImageUpload | backend/index.js:228-243 | No file gives 400 and a file the filter rejects gives 500, both with the state unchanged. It answers 200 exactly when the filter accepts. Then the generated name is added to uploads and returned under the uploads URL. |
| Handlers.DeleteImage | backend/index.js:256-285 | An empty URL gives 400. It answers 200 "Image deleted Successfully" exactly when the URL's base name is a plain file name present in uploads, and then only that name is removed. A plain name that is absent gives 200 "Image not found". A base name that is "", "." or ".." gives 500, because it names a directory that exists but cannot be unlinked. Every other reply leaves the state unchanged. |
| Upload.FileFilter | backend/multer.js:25-34 | A file is accepted exactly when its MIME type starts with "image/" and the extension of its name, lower-cased, is one of .png, .jpg and .jpeg. |
| Upload.StoredFilename | backend/multer.js:10-12 | The stored name is the decimal digits of the timestamp, without leading zeros, followed by the original extension with its case kept. It has the same extension as the original name and is a plain file name. |
| Upload.NoExtensionRejected | backend/multer.js:26-32 | A name whose base has no '.' is rejected, whatever its MIME type. |
| Upload.NonImageMimeRejected | backend/multer.js:29-32 | A MIME type that does not start with "image/" is rejected, whatever the name. |
| UploadExamples.UpperCaseJpgAccepted | backend/multer.js:27-30 | A plain name ending in ".JPG" with an image MIME type is accepted, because the extension test ignores case. |
| UploadExamples.GifRejected | backend/multer.js:26-32 | A name ending in ".gif" is rejected even with an image MIME type. |
| PathPosix.BaseName | backend/index.js:267 | The base name contains no '/'. It is the last component of the path once trailing separators are ignored. It is empty exactly when the path is all separators. |
| PathPosix.ExtName | backend/multer.js:27 | The extension is empty, or a '.' followed by no other '.'. It is a proper suffix of the base name, and it is non-empty exactly when the base name has a '.' after its first character and is not "..". |
| PathPosix.BaseNameAfterDirectory | backend/index.js:267 | A directory prefix ending in '/' followed by a name without '/' has that name as its base name. |
| Tokens.Sign | backend/index.js:88-94 | The token names the user. Its issue second is the clock reading rounded down to seconds, and its expiry is 72 hours after that. |
| Tokens.Verify | backend/index.js:88-94 | A token yields its user id exactly while the clock is before its expiry second. |
| Tokens.TokenLifetime | backend/index.js:130-136 | A fresh token verifies up to 72 hours minus one second after issue, and fails from 72 hours on. |
| Queries.Select | backend/index.js:213 | A filtered listing keeps each story the condition accepts as often as it is stored, and drops the rest. |
| Queries.SortFavoritesFirst | backend/index.js:213-215 | The sort is a permutation of its input with no non-favorite before a favorite. |
| Queries.FindOwnedStory | backend/index.js:308 | The lookup finds a story exactly when one has the id and belongs to the caller, and then it points at the first such story in store order. |
| Queries.SelectRemoveRejected | backend/index.js:350 | Deleting a story the condition rejects leaves the filtered listing unchanged. |
| Text.NatToDecimal | backend/multer.js:11 | The decimal form of a number is a non-empty digit string without leading zeros that denotes the number. |
| Text.Occurs | backend/index.js:416-418 | True exactly when the pattern occurs at some position of the text. |
| Handlers.MatchesQuery | backend/index.js:415-418 | The search condition: the query occurs, ignoring ASCII case, in the title, the story text or one of the location tags. A definition without a contract; Handlers.MatchesQueryIgnoresCase states its case-insensitivity. |
| Handlers.Unlinkable | backend/index.js:273-275 | Removing `uploads/<name>` succeeds exactly when the name is a plain file name and that file exists. A definition without a contract; Handlers.UploadedImageUnlinkable states when it holds. |
| Handlers.ValidTime | backend/index.js:183 | `new Date(ms)` is a valid date exactly when the time value lies within ±8.64e15 ms, the range the TimeClip operation of ECMA-262 allows. A definition without a contract; the AddStory, EditStory and FilterByDate rows state what an invalid time does. |
| Handlers.ParseIntOfNumber | backend/index.js:183 | `parseInt` of a request number, taken as an exact integer v, gives v itself below 10^21 in magnitude. From there on it gives the leading digit of the exact integer with the sign of v: a digit d from 1 to 9 with d·10^k ≤ the magnitude of v < (d+1)·10^k. |
| Handlers.ExponentFormBoundReadsAsOne | backend/index.js:183 | 10^21 is read as 1. |
| Text.LeadingDigit | backend/index.js:183 | The leading digit of a positive number is a digit d from 1 to 9 with d·10^k ≤ n < (d+1)·10^k for some k. |
| Properties.ExponentFormDateAdded | backend/index.js:183-195 | A story dated 10^21 ms, far past the last valid time, is still added, dated 1 ms after the epoch. |
| Handlers.MatchesQueryIgnoresCase | backend/index.js:415-418 | The search condition (the query in the title, the story text or a location tag) holds for a query exactly when it holds for the query lower-cased: the `i` option ignores case. |
| Handlers.UploadedImageUnlinkable | backend/index.js:273-275 | A stored picture is removable through the URL the upload handler returned for it: its base name is a plain file name that exists. |
| Queries.FindUserByEmail | backend/index.js:71 | The lookup finds an account exactly when one has the email, and then points at one with that email. |
| Queries.FindUserById | backend/index.js:155 | The lookup finds an account exactly when one has the id, and then points at one with that id. |
| Queries.StoriesOf | backend/index.js:213 | The listing holds each of the user's stories as often as it is stored and no story of anyone else. |
| Queries.RemoveAt | backend/index.js:350 | Deleting position k removes exactly one copy of that story: the stories before it stay in place and the ones after it shift down by one. |
| Text.Lower | backend/multer.js:27 | Lower-casing keeps the length, leaves no ASCII capital, and keeps every character up to ASCII case. |
| Text.UpperChar | frontend/Safar/src/utils/helper.js:19 | Upper-casing gives an ASCII capital exactly for an ASCII letter, and never changes the character's lower-case form. |
| Helper.ValidateEmail | frontend/Safar/src/utils/helper.js:6-9 | True exactly when the string is a non-empty local part, one '@', and a domain with a '.' that has a character on either side, with no white space and no second '@'. |
| Helper.Split | frontend/Safar/src/utils/helper.js:15 | The pieces contain no separator, and joining them with the separator gives back the string. |
| Helper.SplitInvertsJoin | frontend/Safar/src/utils/helper.js:15 | Splitting a join of separator-free pieces gives back the pieces. |
| Helper.GetInitials | frontend/Safar/src/utils/helper.js:12-23 | An absent or empty name gives "". Otherwise the call throws exactly when one of the first two words is empty. If it does not throw, the result has one upper-cased first character for each of the first two words (at most two characters). |
| Helper.InitialsOfOneWord | frontend/Safar/src/utils/helper.js:15-20 | A name without spaces gives its upper-cased first character. |
| Helper.InitialsOfTwoWords | frontend/Safar/src/utils/helper.js:15-20 | A name of two or more words gives the upper-cased first characters of the first two. |
| Helper.LeadingSpaceThrows | frontend/Safar/src/utils/helper.js:15-19 | A name with a leading space throws. |
| Helper.EmptyCardMessage | frontend/Safar/src/utils/helper.js:25-34 | "search" and "date" get their own messages, and every other value gets the default message. |
| Helper.EmptyCardImg | frontend/Safar/src/utils/helper.js:36-45 | "search" and "date" get their own pictures, and every other value gets the add-story picture. |
| Helper.MessageAndImageAgree | frontend/Safar/src/utils/helper.js:25-45 | Two filter types get the same message exactly when they get the same picture. |
| Properties.CreateAccountKeepsValid | backend/index.js:71-86 | Registration keeps ids unique and below the counter, and emails unique. |
| Properties.AddStoryKeepsValid | backend/index.js:186-195 | Adding a story keeps the state invariant. |
| Properties.EditStoryKeepsValid | backend/index.js:308-322 | Editing a story keeps the state invariant. |
| Properties.UpdateIsFavoriteKeepsValid | backend/index.js:383-391 | Marking a story keeps the state invariant. |
| Properties.DeleteStoryKeepsValid | backend/index.js:343-360 | Deleting a story keeps the state invariant. |
| Properties.DeleteStoryLoggedKeepsValid | backend/index.js:343-365 | The intended delete keeps the state invariant. |
| Properties.ImageUploadKeepsValid | backend/index.js:228-238 | An upload adds only a plain file name, so the invariant is kept. |
| Properties.DeleteImageKeepsValid | backend/index.js:267-275 | Deleting an image keeps the state invariant. |
| Properties.RegisterThenLogin | backend/index.js:62-145 | With a password library whose compare accepts its own hashes, a new account can log in at once with its password and gets its own profile and a token for its id. |
| Properties.RegistrationTokenResolves | backend/index.js:88-166 | The registration token verifies to the new id for 72 hours, and get-user resolves that id to the new account. |
| Properties.AddThenList | backend/index.js:186-215 | A story just added appears in its author's listing with the given fields, not marked as a favorite. |
| Properties.AddStoryIsolated | backend/index.js:186-195 | Adding a story leaves every other user's listing unchanged. |
| Properties.EditStoryIsolated | backend/index.js:308-322 | Editing a story leaves every other user's listing unchanged. |
| Properties.UpdateIsFavoriteIsolated | backend/index.js:383-391 | Marking a story leaves every other user's listing unchanged. |
| Properties.DeleteStoryIsolated | backend/index.js:343-350 | Deleting a story leaves every other user's listing unchanged. |
| Properties.DeleteStoryLoggedIsolated | backend/index.js:343-350 | The intended delete leaves every other user's listing unchanged. |
| Properties.UpdateIsFavoriteIdempotent | backend/index.js:383-392 | Marking a story twice with the same value has the same effect and the same reply as marking it once. |
| Properties.SearchWithinListing | backend/index.js:413-420 | Every search hit is one of the caller's listed stories. |
| Properties.UploadThenDeleteImage | backend/index.js:236-276 | Deleting the URL an upload returned succeeds and removes exactly the stored file. |
| Properties.UploadThenDeleteRestores | backend/index.js:236-276 | When the stored name was new, an upload followed by that delete leaves the state as it was. |
| Properties.DeletePlaceholderStoryAsWritten | backend/index.js:350-368 | Deleting a story whose image is the placeholder answers 400 with the unlink failure, yet the story is removed. |
| Properties.DeletePlaceholderStoryLogged | backend/index.js:359-365 | The intended delete of the same story answers 200 and removes it. |
| Properties.EditWithoutImageThenDelete | backend/index.js:314-368 | An edit without an image succeeds. Deleting that story afterwards answers 400 as written, and 200 in the intended version. |

## Left out

- The document store (MongoDB through mongoose) is a pair of sequences. Its generated object ids are a counter, and its model schemas are not part of this model, so save-time schema validation is left out.
- Handlers.Search: the query is matched as a literal substring after ASCII lower-casing, not as a regular expression. A query holding regular-expression syntax behaves differently in the store, and an invalid pattern makes it throw.
- The password library (bcrypt, with its cost factor and its 72-byte input limit) is an uninterpreted `hash` and `compare`. `Handlers.Faithful` is the only property assumed of it.
- Tokens.Verify: the signature, the secret and the `authenticateToken` middleware (backend/utilities.js is not part of this model) are left out. A token here is its claims, and the protected handlers receive the user id the middleware would have found.
- Express routing, CORS, static file serving and the JSON encoding of responses are left out. Each body is a datatype standing for the JSON object sent.
- File-system I/O is reduced to the set of names in `uploads/`. Handlers.DeleteImage and Handlers.DeleteStory treat a base name that is "", "." or ".." as one that cannot be unlinked. Those names resolve to a directory, and unlinking a directory fails.
- Handlers.ImageUpload: multer's disk write, a second upload under the same millisecond name (a concurrency issue), and an unexpected form field are left out. The filter's rejection is answered by Express's error handler, modelled as a 500.
- Handlers.UpdateIsFavorite: `isFavorite` is taken as a boolean. The store's cast of other JSON values is left out.
- Handlers.AddStory, Handlers.EditStory and Handlers.FilterByDate take dates as exact integer milliseconds, not as the IEEE doubles JSON numbers become. A fractional JSON number, which `parseInt` truncates, is left out, and so is a number of magnitude 10^21 or more that is not a double or whose shortest printed form rounds to another leading digit (see Handlers.ParseIntOfNumber). `parseInt` of a non-numeric string is a missing bound in the filter. The store's own errors carry library messages, which are named by their cause in `Handlers.Fault`.
- Handlers.ParseIntOfNumber: request numbers are exact integers, not doubles. JSON text such as `999999999999999999999` becomes the double 10^21, which `parseInt` reads as 1, while the model keeps the exact value and reads it as 999999999999999999999. The double that `1e23` becomes, 99999999999999991611392, prints as "1e+23" and is read as 1, while the model reads its exact leading digit, 9. Below 10^21 every integer date that is a double is read exactly.
- The `createdOn` timestamp the store adds to a story, and the `message: ""` field of the get-user reply, are left out.
- Helper.GetInitials: upper-casing is ASCII only. JavaScript's `toUpperCase` also maps non-ASCII letters, some of them to two characters ('ß' becomes "SS"). Strings are sequences of characters, not UTF-16 code units.
- The lower-casing in Upload.FileFilter is ASCII only. No non-ASCII character lower-cases to one of the letters of ".png", ".jpg" or ".jpeg", so the decision is unaffected.
- PathPosix: Node's `path` follows the host platform. On Windows, `path.win32` also separates on `\` and knows drive letters. The model is the POSIX variant only.
- Every React component of the frontend is left out, as UI state and rendering.
- Concurrent requests are left out: each request is one atomic step.

## Findings

| source | as written | input that shows it | evidently intended | confidence | as-written member | corrected member |
|---|---|---|---|---|---|---|
| backend/index.js:350-368 | The story record is deleted first (line 350). Then `fs.unlinkSync(filePath, callback)` runs. `unlinkSync` is synchronous and ignores the callback, so a missing file throws into the `catch`, which answers 400 with the error message although the story is already gone. | Edit a story with an empty imageUrl, so that its image becomes the placeholder `http://localhost:8080/assets/placeholder.jpeg`. Then delete it: `uploads/placeholder.jpeg` does not exist. | The callback shows the unlink failure was meant to be logged. The reply would then still be 200 "Story Deleted Successfully". | high; not executed | Properties.DeletePlaceholderStoryAsWritten (on Handlers.DeleteStory) | Handlers.DeleteStoryLogged, with Properties.DeletePlaceholderStoryLogged |
