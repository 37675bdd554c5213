# Food scanner and conflict mediator: the sequential core in Dafny

The repository holds two small web apps. The Dafny project covers the three parts of them that are plain sequential logic:

- **Response parsing** (`routes.dfy`, module `Routes`). The food-scan handler takes the free text the generative model returns and derives three fields from it. Each field falls back to a fixed default:
  - `isVegan`: case-insensitive substring tests for "vegan", "not vegan" and "isn't vegan".
  - `confidence`: the first match of `/(\d+)%/`, defaulting to 85.
  - `foodName`: taken from the first line that mentions "this" together with "appears to be", "looks like" or "is a". The name comes from the capture of `/(?:appears to be|looks like|is a)\s+(?:a\s+)?([^.!?]+)/i`, trimmed. It defaults to "Food Item".

  The two regular expressions are written as scanning functions. For the name pattern, the backtracking of `\s+` and of the optional article is worked out case by case.
- **In-memory store** (`storage.dfy`, module `Storage`). `MemStorage` is a class with two maps, users and scans. Each map is keyed by ids from its own counter, which starts at 1. It offers lookups by id and by user name, and a "recent scans" query: a stable sort by creation time, newest first, then `slice(0, limit)`.
- **New-session form** (`new_session.dfy`, module `NewSession`). The participant list starts with two empty entries. Entries can be added up to six, removed down to two, and edited one field at a time. Submitting checks the two selections, then keeps the participants whose trimmed name and perspective are both non-empty, and needs at least two of them.

`js_string.dfy` (module `JsString`) models the JavaScript string operations these rely on: `toLowerCase`, `includes`, `trim`, and `split` on one character. Whitespace is the set that `\s` matches and `trim()` removes. `wrappers.dfy` holds the `Option` type, which stands for `undefined`/`null` results.

The parsing functions have no preconditions, so every text, including the empty one, yields all three fields. Where the source mutates state (the store, the form), the model is a class whose methods update its fields in place. The new creation time and the store are passed in as parameters.

Behaviours of the code worth knowing, all kept in the model:
- The confidence is not clamped to 0..100: "250%" gives 250.
- An optional leading "a " after the phrase is dropped.
- When only whitespace follows the phrase, up to `.`, `!`, `?` or the end of the line:
  - with two or more whitespace characters, the pattern gives the last one back to the capture, which trims to an empty name;
  - with one there is no match at that position, and the search moves on.
- When "a" and whitespace follow the phrase, and then only `.`, `!`, `?` or the end of the line:
  - with two or more whitespace characters after the "a", the last one is captured;
  - with one, the capture is "a" and that character, which trims to the name "a".
- `is a` also matches inside words: "This appears ..." contains "is a" in "This appears", so every line starting with "This a" passes the candidate test. The match at that `is a` fails when a non-whitespace character follows it, as in "This appears", and the search moves on; in "This a salad" whitespace follows it, and the match there captures "salad".

## Model

| member | source | states |
|---|---|---|
| `JsString.ToLowerCase` | server/routes.ts:75 | `toLowerCase` keeps the length, leaves no upper-case ASCII letter, and changes no character other than by case |
| `JsString.Includes` | server/routes.ts:75-77 | `includes` as a left-to-right scan; its meaning is stated by `IncludesMeaning` |
| `JsString.IncludesMeaning` | server/routes.ts:75-77 | `includes` is true exactly when the word occurs at some index of the text |
| `JsString.IncludesLowerCase` | server/routes.ts:75-77 | `text.toLowerCase().includes(w)` holds exactly when `w` occurs in the text ignoring ASCII case |
| `JsString.Trim` | server/routes.ts:96 | `trim()` gives a result with no leading or trailing whitespace; it is the input with only whitespace removed at both ends, and it is empty exactly when the input is all whitespace |
| `JsString.TrimUnchanged` | server/routes.ts:96 | `trim()` leaves a string with no whitespace at either end unchanged |
| `JsString.TrimKeepsOnly` | server/routes.ts:94-96 | trimming adds no character: a property of every character of the input holds of every character of the result |
| `JsString.Split` | server/routes.ts:84 | `split('\n')` gives at least one part; no part contains the separator; joining the parts with the separator gives back the text |
| `JsString.SplitWithoutSep` | server/routes.ts:84 | a text without a line feed splits into exactly one line, itself |
| `Routes.IsVegan` | server/routes.ts:75-77 | the three `includes` tests on the lower-cased text; their meaning is stated by `IsVeganMeaning` |
| `Routes.IsVeganMeaning` | server/routes.ts:75-77 | the verdict is "vegan" exactly when "vegan" occurs in any case and neither "not vegan" nor "isn't vegan" does |
| `Routes.NotVeganWins` | server/routes.ts:76 | any text containing "not vegan" in any case is judged not vegan, whatever else it says |
| `Routes.NotVeganExample` | server/routes.ts:75-77 | "This dish is not vegan." is judged not vegan |
| `Routes.ParseDecimal` | server/routes.ts:81 | `parseInt` on a digit run, unbounded; `ParseDecimalString` proves it reads back every decimal numeral and `ParseDecimalLeadingZero` that leading zeros do not change the value |
| `Routes.ParseDecimalLeadingZero` | server/routes.ts:81 | a leading zero does not change the value of a digit run: `parseInt("095")` is 95 |
| `Routes.ParseDecimalString` | server/routes.ts:81 | `parseInt` reads back the decimal digits of every natural number |
| `Routes.MatchAt` | server/routes.ts:80 | a match of `/(\d+)%/` at a position starts with a digit, and the digit run from there is followed by `%` |
| `Routes.FirstMatch` | server/routes.ts:80 | a match found searching from a position is the match at some position at or after it |
| `Routes.Confidence` | server/routes.ts:80-81 | the confidence is never negative |
| `Routes.ConfidenceDefault` | server/routes.ts:80-81 | a text with no digit immediately followed by `%` gets confidence 85 |
| `Routes.ConfidenceFirstPercent` | server/routes.ts:80-81 | otherwise the confidence is the value of the whole digit run ending at the first `%` that follows a digit, unclamped |
| `Routes.ConfidenceOfPercent` | server/routes.ts:80-81 | `n%` placed after any text without an earlier digit-then-`%` and not ending in a digit yields exactly `n`, however large |
| `Routes.ConfidenceExample` | server/routes.ts:80-81 | "I am 95% sure" has confidence 95 |
| `Routes.PhraseEnd` | server/routes.ts:94 | an alternative of the name pattern matches at a position exactly when `appears to be`, `looks like` or `is a` occurs there ignoring case; the match ends 13, 10 or 4 characters later |
| `Routes.CaptureFrom` | server/routes.ts:94 | the capture `[^.!?]+` is the text from its start up to the first `.`, `!` or `?`, or the end of the line; it is non-empty |
| `Routes.CaptureAt` | server/routes.ts:94 | a match at one position captures non-empty text free of `.`, `!` and `?`; `CaptureAtNeedsPhraseAndSpace` states that there is none unless a phrase followed by whitespace starts there; which text is stated by `CaptureAtPlain`, `CaptureAtArticle`, `CaptureAtGiveBack` and `CaptureAtArticleGiveBack` |
| `Routes.NameMatch` | server/routes.ts:94-95 | the leftmost match captures non-empty text free of `.`, `!` and `?`; the leftmost position where `CaptureAt` captures decides it (`NameMatchLeftmost`); `NameAfterPhrase` and `NameAfterArticle` state it for whole lines |
| `Routes.CaptureFromIs` | server/routes.ts:94 | when text free of `.!?` is followed by one of them or the end, the capture from its start is exactly that text |
| `Routes.CaptureAtPlain` | server/routes.ts:94 | a phrase, whitespace, then text not starting with "a" and whitespace: the match there captures that text, up to the first `.!?` |
| `Routes.CaptureAtArticle` | server/routes.ts:94 | a phrase, whitespace, the article "a", more whitespace, then text: the article group is dropped and the capture is that text |
| `Routes.PhraseInLine` | server/routes.ts:94 | a phrase, in any case, written into a line is matched where it starts and ends where it ends |
| `Routes.NameMatchSkips` | server/routes.ts:94-95 | the leftmost-match search from any position passes every position before `n` when no match starts before `n` |
| `Routes.NameMatchLeftmost` | server/routes.ts:94-95 | when no match starts before `p`, the match at `p` if there is one is the leftmost match; when none starts anywhere in the line, there is no match |
| `Routes.CaptureAtNeedsPhraseAndSpace` | server/routes.ts:94 | no match starts at a position unless one of the phrases occurs there, ignoring case, and whitespace follows it |
| `Routes.CaptureAtGiveBack` | server/routes.ts:94 | a phrase followed only by whitespace, then `.!?` or the end: two or more whitespace characters give the last one to the capture, one gives no match |
| `Routes.CaptureAtArticleGiveBack` | server/routes.ts:94 | a phrase, whitespace, "a" and whitespace, then `.!?` or the end: two or more whitespace characters after "a" give the last one to the capture; one gives "a" and that character |
| `Routes.CaptureAfterPhrase` | server/routes.ts:94 | in `pre + phrase + whitespace + name + rest`, the match at the phrase captures exactly `name` |
| `Routes.CaptureAfterArticle` | server/routes.ts:94 | in `pre + phrase + whitespace + "a" + whitespace + name + rest`, the match at the phrase captures exactly `name` |
| `Routes.NameAfterPhrase` | server/routes.ts:89-96 | for a line `pre + phrase + whitespace + name + rest`, where `name` does not start with "a" and whitespace and runs to the first `.!?` or the end, and no match starts in `pre`: the match captures exactly `name`, and a candidate line yields `trim(name)` |
| `Routes.NameAfterArticle` | server/routes.ts:89-96 | for a line `pre + phrase + whitespace + "a" + whitespace + name + rest`, with no match starting in `pre`: the article is dropped, the match captures exactly `name`, and a candidate line yields `trim(name)` |
| `Routes.LineName` | server/routes.ts:89-96 | a name taken from a line is trimmed and free of `.`, `!` and `?`; which name is stated by `NameAfterPhrase` and `NameAfterArticle`, and through `NameMatchLeftmost` for every capture shape |
| `Routes.FirstName` | server/routes.ts:88-100 | the name found over the lines is trimmed and free of `.`, `!` and `?` |
| `Routes.FirstNameNone` | server/routes.ts:85-100 | no name is found exactly when no line yields one |
| `Routes.FirstNameAt` | server/routes.ts:88-97 | the first line that yields a name decides the result |
| `Routes.IsCandidateLine` | server/routes.ts:89-92 | the candidate test: `includes` of "this" and of one of the three phrases on the lower-cased line; its meaning is stated by `IsCandidateLineMeaning` |
| `Routes.IsCandidateLineMeaning` | server/routes.ts:89-92 | a line is a candidate exactly when it mentions "this" and one of the three phrases, in any case |
| `Routes.FoodName` | server/routes.ts:84-100 | every `foodName`, "Food Item" included, is trimmed and contains no `.`, `!` or `?` |
| `Routes.FoodNameFirstLine` | server/routes.ts:84-100 | lines are examined in order of `split('\n')`; the first line whose pattern matches gives `foodName` and later lines are ignored |
| `Routes.FoodNameDefault` | server/routes.ts:85-92 | `foodName` is "Food Item" when no line mentions "this" together with one of the three phrases |
| `Routes.FoodNameExample` | server/routes.ts:84-100 | "This appears to be a vegan salad." gives the food name "vegan salad" |
| `Routes.ExtractFoodName` | server/routes.ts:84-100 | the loop (candidate test, regular expression, `trim`, `break` at the first name) computes the name of the first line that yields one, else "Food Item" |
| `Routes.AnalyzeResponse` | server/routes.ts:74-108 | every text yields all three fields; the record carries the text as analysis, a trimmed name free of `.!?`, and no image URL |
| `Routes.AnalyzeAndStore` | server/routes.ts:102-112 | the parsed record is stored under the next scan id with the given time; users and earlier scans are unchanged |
| `Storage.StoredImageUrl` | server/storage.ts:46 | a URL is kept exactly when it is present and non-empty; otherwise null is stored |
| `Storage.Insert` | server/storage.ts:55-57 | inserting into a newest-first list keeps it newest first and adds exactly the one scan |
| `Storage.SortNewestFirst` | server/storage.ts:55-57 | the sort is newest first and is a permutation of the stored scans |
| `Storage.InsertKeepsRecentOrder` | server/storage.ts:57 | inserting a scan with a smaller id keeps the order "newer first, equal times by id" |
| `Storage.SortIsStable` | server/storage.ts:55-57 | scans listed in id order come out newest first, and equal times stay in id (creation) order |
| `Storage.SortedPrefix` | server/storage.ts:56-58 | a prefix of the sorted list holds only stored scans, and no scan left out is newer than one kept |
| `Storage.MemStorage.constructor` | server/storage.ts:18-23 | both maps start empty and both counters at 1 |
| `Storage.MemStorage.GetUser` | server/storage.ts:25-27 | finds the user stored under `id`, which exists exactly for ids 1 up to the counter |
| `Storage.MemStorage.GetUserByUsername` | server/storage.ts:29-33 | returns a stored user with that name, the earliest created, or nothing exactly when no user has that name |
| `Storage.MemStorage.CreateUser` | server/storage.ts:35-40 | the new user gets the next id, larger than every earlier one, and is found under it; no other user and no scan changes |
| `Storage.MemStorage.CreateScan` | server/storage.ts:42-52 | the new scan gets the next id, copies the input fields with the URL rule, and is found under its id; nothing else changes |
| `Storage.MemStorage.GetScan` | server/storage.ts:61-63 | finds the scan stored under `id`, which exists exactly for ids 1 up to the counter |
| `Storage.MemStorage.AllScans` | server/storage.ts:55 | the map's values in insertion order, which is increasing id order, and every stored scan among them |
| `Storage.MemStorage.GetRecentScans` | server/storage.ts:54-59 | `slice(0, limit)` of the sorted scans: `limit` scans (default 10) or all when fewer are stored, and for a negative limit all but the last `-limit`; newest first with ties in creation order; all stored; no stored scan left out is newer; the store is not changed |
| `NewSession.WithField` | client/src/pages/new-session.tsx:66 | setting one field gives it the value and leaves the other two fields alone |
| `NewSession.WithoutIndex` | client/src/pages/new-session.tsx:60 | the index filter removes exactly the entry at the index and keeps the rest in order; an index outside the list removes nothing |
| `NewSession.Added` | client/src/pages/new-session.tsx:52-56 | adding keeps every entry in place and appends one empty participant, unless six are there already |
| `NewSession.Removed` | client/src/pages/new-session.tsx:58-62 | with more than two entries, removing drops exactly the entry at a valid index and keeps the rest in order; otherwise nothing changes |
| `NewSession.Updated` | client/src/pages/new-session.tsx:64-68 | an update changes one field of one entry; the length and all other entries and fields are unchanged |
| `NewSession.EditsKeepBounds` | client/src/pages/new-session.tsx:52-68 | under any series of add, remove and update actions the list length stays between 2 and 6 |
| `NewSession.IsValidParticipant` | client/src/pages/new-session.tsx:80 | `p.name.trim() && p.perspective.trim()` holds exactly when neither field is all whitespace |
| `NewSession.ValidParticipants` | client/src/pages/new-session.tsx:80 | the submitted participants are exactly those whose name and perspective are not all whitespace |
| `NewSession.ValidParticipantsConcat` | client/src/pages/new-session.tsx:80 | the filter keeps the original order |
| `NewSession.NewSessionForm.constructor` | client/src/pages/new-session.tsx:24-29 | nothing selected, and exactly two participants with all fields empty |
| `NewSession.NewSessionForm.SetRelationshipContext` | client/src/pages/new-session.tsx:131 | the selection changes and nothing else |
| `NewSession.NewSessionForm.SetArgumentCategory` | client/src/pages/new-session.tsx:147 | the selection changes and nothing else |
| `NewSession.NewSessionForm.AddParticipant` | client/src/pages/new-session.tsx:52-56 | appends one empty participant when there are fewer than 6, otherwise changes nothing; 2 to 6 entries are kept |
| `NewSession.NewSessionForm.RemoveParticipant` | client/src/pages/new-session.tsx:58-62 | with more than 2 entries, removes exactly the entry at the index and keeps the others in order; otherwise changes nothing |
| `NewSession.NewSessionForm.UpdateParticipant` | client/src/pages/new-session.tsx:64-68 | sets one field of one entry; the length and every other entry and field stay unchanged |
| `NewSession.NewSessionForm.HandleSubmit` | client/src/pages/new-session.tsx:70-95 | rejects a missing context or category, then fewer than 2 participants with content; otherwise sends exactly those participants, in order |

## Left out

- HTTP routing, the multer upload and its 10 MB limit, base64 conversion, the generative-model client and prompt, and the JSON and status responses (server/routes.ts:1-72, 113-126). These are I/O and foreign library calls. The model starts from the response text.
- `insertScanSchema.parse` (server/routes.ts:111): zod validation against a scan schema that shared/schema.ts does not define. `Routes.AnalyzeAndStore` passes the parsed record straight to the store. The scan record's fields are taken from server/routes.ts:102-108 and server/storage.ts:44-49.
- Case: `toLowerCase` and the `/i` flag are modelled for ASCII letters only. Full Unicode case mapping, where lower-casing can even change the length of a string, is not.
- `parseInt` is exact over unbounded naturals. JavaScript numbers lose precision beyond 2^53, so a digit run longer than about 16 digits can give a different confidence there.
- Promises and `async`: every storage method is modelled as a synchronous call. `new Date()` becomes the caller-supplied integer `now`.
- `getRecentScans` takes an integer limit, and an omitted limit gives 10. A fractional, NaN or non-number limit is not modelled. Likewise `getUser` and `getScan` take integer ids, so the NaN that `parseInt` gives for a non-numeric route parameter is not modelled.
- The `.unique()` on the user name (shared/schema.ts:7) is a database constraint that `MemStorage` does not enforce. The model does not enforce it either, which is why `GetUserByUsername` returns the earliest matching user.
- NewSession.NewSessionForm.UpdateParticipant: requires an index inside the list. With any other index the source throws a TypeError at `updated[index][field]`, and the form only ever passes indexes of rendered entries.
- `updateParticipant` mutates the participant object that the previous state shares (client/src/pages/new-session.tsx:66). The model holds participants as values, so this aliasing of the old state is not captured.
- React mechanics in new-session.tsx (`useState`, the mutation, toasts, navigation, JSX) and the request sent by `createMediationSession` (client/src/lib/gemini.ts) are UI and network I/O. `HandleSubmit` returns the request instead of sending it.
- Fairness-score and action-item extraction: no code for them exists in server/routes.ts, and the `/api/sessions` endpoints have no handler there.
- The UI-only pages and components (history, home, scan result, session result, camera hook, status bar, loading modal, app routing) are presentation only.
