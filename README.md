# food-selector, modelled in Dafny

food-selector is a group-vote app for choosing where to eat. All of its state
is one shared document with three parts:

- `restaurants`, an ordered list;
- `votes`, mapping visitor → restaurant id → `up`/`down`;
- `notes`, mapping visitor → restaurant id → text.

Two deployments serve the same HTTP API. One is an Express server (`server.js`)
that keeps the document in a file. The other is a set of Netlify functions
(`netlify/functions/*.js`) that keep it in a blob store. Every mutating
request loads the document, seeding the seven built-in restaurants when
nothing is stored. It checks its inputs, changes the document and writes it
back. The read request projects the document into per-restaurant views
sorted by score.

This project models that core:

- `text.dfy` (`Text`): the JavaScript string built-ins the code relies on:
  `trim` (over the ECMAScript white-space set), ASCII `toLowerCase`, and
  `split` with a one-character or a longer separator.
- `slug.dfy` (`Slugs`): the id a suggestion gets,
  `name.trim().toLowerCase().replace(/[^a-z0-9]+/g, '-')`.
- `model.dfy` (`Model`): the document, the seven built-in restaurants, the
  error replies, and the invariant the operations keep. The invariant says
  ids are unique, suggested ids are slugs of their names, and no stored note
  is blank.
- `migration.dfy` (`Migration`): what a load does. A missing `notes` map
  becomes empty. On the Express server only, a built-in id with a falsy
  cuisine gets the built-in cuisine back. A missing document is seeded.
- `operations.dfy` (`Operations`): the five read-modify-write operations
  (set-user with its rename transfer, vote, note, suggest, reset) as pure
  transitions with their errors in the source's order.
- `handlers.dfy` (`Handlers`): the handlers as methods of a `Store` class.
  The class holds what is stored and counts the writes. Each handler mutates
  its working copy step by step, and its contract ties the new stored state
  and the number of writes to the pure operations.
- `projection.dfy` (`Projection`): the `GET /api/restaurants` projection.
  - The voter and note loops are methods with loop invariants.
  - Each view holds exactly the right voters and notes.
  - The score is the vote balance.
  - The sort yields a sorted permutation of the restaurants.
- `cookies.dfy` (`Cookies`): the serverless functions' `parseCookies`.
- `client.dfy` (`Client`): from the browser script, `escapeHtml`, `getCookie`
  and the rule that turns a click on a vote button into the vote type sent.
- `wrappers.dfy` (`Wrappers`): `Option` and `Result`.

A missing `visitorId` cookie is modelled as the empty string. Every handler
tests it with `!visitorId`, which treats `undefined` and `""` alike. The
handlers take the visitor's name as a parameter. In the Netlify functions it
is `Cookies.Visitor(Cookies.ParseCookies(header))`; in the Express server it
comes from the cookie-parser middleware.

## Model

| member | source | states |
|---|---|---|
| Text.Trim | server.js:132-136 | the result is a slice of the input with only white space cut from either end; it starts and ends with non-white-space and is empty exactly when the input is all white space |
| Text.TrimIdempotent | server.js:136 | trimming a trimmed string changes nothing |
| Text.Split | netlify/functions/restaurants.js:45-46 | at least one part; no part holds the separator; the first part is the longest separator-free prefix |
| Text.SplitSecond | netlify/functions/restaurants.js:46 | the first two parts with the separator between them are a prefix of the string, which ends there or continues with the separator |
| Text.SplitJoin | netlify/functions/restaurants.js:45 | joining the parts of a split with the separator gives back the string |
| Text.JoinSplit | netlify/functions/restaurants.js:45 | splitting a join of separator-free parts gives back the parts |
| Text.FindFromFirst | public/app.js:82 | the separator search finds an occurrence whenever one exists, and never one later than any occurrence |
| Text.SplitOnOnce | public/app.js:82 | one occurrence of a multi-character separator gives at least two parts |
| Text.SplitOnTwice | public/app.js:82 | two non-overlapping occurrences give at least three parts |
| Slugs.Slug | netlify/functions/suggest.js:76 | the id has only `[a-z0-9-]`, never two hyphens in a row, and is non-empty for a non-blank name |
| Slugs.SqueezeShaped | server.js:254 | replacing runs of non-id characters by one hyphen yields a slug-shaped string |
| Slugs.SqueezeAppend | server.js:254 | the global replace works piecewise over a concatenation, given the run state between the pieces |
| Slugs.SlugKeepsIdChars | netlify/functions/suggest.js:76 | every letter and digit of the lower-cased trimmed name survives in the id, in order |
| Slugs.SlugIdempotent | netlify/functions/suggest.js:76 | deriving an id from an id changes nothing |
| Slugs.SlugOfTrim | server.js:254-262 | the id of the trimmed name stored in the restaurant equals the id of the raw name |
| Model.FindById | server.js:184-187 | `find` by id: found exactly when some restaurant has the id, and it is the first such restaurant |
| Model.Put | server.js:190-199 | after creating the visitor's map, the one entry holds the new value or is removed and every other entry is unchanged |
| Model.InitialValid | server.js:21-29 | the seeded document has the seven built-in restaurants with unique ids, no votes and no notes, and satisfies the invariant |
| Migration.DefaultFor | server.js:41 | a built-in restaurant is found exactly for a built-in id |
| Migration.BackfilledSpec | server.js:40-45 | the backfill changes only the cuisine; a built-in id with a falsy cuisine gets that built-in restaurant's own cuisine, every built-in id ends with a truthy cuisine, and everything else is left alone |
| Migration.BackfilledIdempotent | server.js:40-45 | backfilling twice is backfilling once |
| Migration.BackfillCuisines | server.js:40-45 | the `forEach` rewrites each restaurant into its backfilled form, keeping the length |
| Migration.Migrate | server.js:37-45 | votes unchanged; notes default to empty; on Netlify the restaurants are unchanged, on Express each is backfilled |
| Migration.MigrateKeepsValid | netlify/functions/restaurants.js:17-20 | a load keeps ids, names and built-in flags, so it keeps the invariant |
| Migration.LoadSaveLoad | server.js:32-65 | saving a loaded document and loading it again gives the same document |
| Migration.SaveLoad | netlify/functions/restaurants.js:36-39 | a saved document that needs no backfill loads back exactly |
| Migration.SeededLoadsBack | netlify/functions/restaurants.js:26-33 | after seeding, the next load returns exactly the seeded document on either backend |
| Migration.LoadedValid | server.js:32-61 | every loaded document satisfies the invariant when the stored one did |
| Operations.MoveKey | server.js:142-149 | the old key's entry moves to the new key, overwriting it; the old key is gone; other keys are untouched; without the old key nothing changes |
| Operations.RenameSuggestions | server.js:152-156 | suggestions by the old name now name the new one; nothing else in any restaurant changes |
| Operations.SetUser | server.js:130-159 | a blank or missing name is refused; otherwise the trimmed name is returned, and the document is written, renamed, exactly when the cookie held a different non-empty name |
| Operations.RenameTransfers | netlify/functions/set-user.js:76-89 | the new name owns exactly the old name's vote map and note map, or keeps its own when the old name had none; the old name owns nothing |
| Operations.RenameRoundTrip | netlify/functions/set-user.js:76-87 | renaming back undoes a rename onto a name that owned nothing |
| Operations.MoveKeyRoundTrip | netlify/functions/set-user.js:77-84 | moving a key there and back restores a map that lacked the target key |
| Operations.RenameKeepsValid | netlify/functions/set-user.js:76-87 | a rename keeps the invariant |
| Operations.SetUserTwice | netlify/functions/set-user.js:72-89 | setting the same name again, with the cookie holding it, writes nothing |
| Operations.ParseVoteType | server.js:177-179 | exactly `up`, `down` and `none` are accepted, each as its own choice |
| Operations.CastVote | server.js:169-201 | errors in the order no visitor, invalid type, unknown restaurant; on success the visitor's map exists, the one vote is set or removed, and nothing else changes |
| Operations.CastVoteKeepsValid | server.js:190-200 | a vote keeps the invariant |
| Operations.LostUpdate | server.js:181-201 | two votes computed from the same loaded document: the second save drops the first visitor's vote |
| Operations.WriteNote | netlify/functions/note.js:57-88 | errors in the order no visitor, unknown restaurant; the visitor's note map exists afterwards; a blank or missing note deletes the entry, any other is stored trimmed; nothing else changes |
| Operations.WriteNoteKeepsValid | netlify/functions/note.js:82-86 | a stored note is never blank after a write |
| Operations.BlankNoteDeletes | netlify/functions/note.js:82-83 | a blank note and a missing note have the same effect |
| Operations.CuisineOf | netlify/functions/suggest.js:85 | the cuisine is absent exactly when blank or missing, and otherwise the non-blank trimmed text |
| Operations.AddSuggestion | netlify/functions/suggest.js:56-98 | errors in the order no visitor, blank name, existing id; on success exactly the new restaurant is appended and the suggester's vote for it is `up`, with every other vote and every note unchanged |
| Operations.SuggestedShape | netlify/functions/suggest.js:76-91 | the appended restaurant has a non-empty slug id equal to the slug of its trimmed, non-blank name, is not built-in, and records the suggester and time |
| Operations.AppendKeepsUnique | netlify/functions/suggest.js:78-91 | appending a restaurant with a fresh id keeps ids unique |
| Operations.AppendKeepsSlugs | server.js:254-273 | appending a restaurant whose id is its name's slug keeps suggested ids slugs |
| Operations.SuggestKeepsValid | netlify/functions/suggest.js:76-96 | a suggestion keeps the invariant |
| Operations.SuggestTwiceConflicts | netlify/functions/suggest.js:78-80 | suggesting the same name again, by any visitor, is refused as a duplicate |
| Operations.Reset | netlify/functions/reset.js:56-77 | no visitor is refused; otherwise the visitor's vote and note maps are gone, other visitors and restaurants are unchanged, and the write happens exactly when one existed |
| Operations.ResetTwice | netlify/functions/reset.js:63-77 | a second reset finds nothing and writes nothing |
| Operations.ResetKeepsValid | netlify/functions/reset.js:65-73 | a reset keeps the invariant |
| Projection.VisitVoter | netlify/functions/restaurants.js:87-93 | visiting one more visitor keeps each voter list exactly the visited visitors with that vote, without repeats |
| Projection.CollectVotes | netlify/functions/restaurants.js:87-93 | a visitor is in `upvoters` iff their vote is `up`, in `downvoters` iff it is `down`, each at most once |
| Projection.AddNoteEntry | netlify/functions/restaurants.js:96-100 | recording a new author keeps the note list exactly one entry per visited author with a truthy note |
| Projection.CollectNotes | netlify/functions/restaurants.js:96-100 | one `{author, text}` entry per visitor with a truthy note for the restaurant, holding that note, authors distinct |
| Projection.DistinctCard | server.js:94 | a list without repeats is as long as its set of elements |
| Projection.ViewOf | netlify/functions/restaurants.js:81-122 | the view holds the restaurant, exactly its voters and notes, their counts, the score, and the viewer's own vote and note |
| Projection.ScoreIsVoteBalance | netlify/functions/restaurants.js:102 | the score is the number of up voters minus the number of down voters, independent of visiting order |
| Projection.VotersDisjoint | server.js:79-85 | no visitor is both an up voter and a down voter |
| Projection.Project | server.js:73-115 | one correct view per restaurant, in the restaurants' order |
| Projection.NameLeTotal | netlify/functions/restaurants.js:128 | the name order is total |
| Projection.NameLeTrans | netlify/functions/restaurants.js:128 | the name order is transitive |
| Projection.NameLeAntisym | netlify/functions/restaurants.js:128 | the name order is antisymmetric |
| Projection.BeforeTotal | netlify/functions/restaurants.js:126-129 | the comparator orders every pair |
| Projection.BeforeTrans | netlify/functions/restaurants.js:126-129 | the comparator is transitive |
| Projection.Insert | server.js:118-121 | inserting into a sorted list keeps it sorted and adds exactly the one view |
| Projection.SortViews | server.js:118-121 | the result is sorted (score non-increasing, names non-decreasing among equal scores) and a permutation of the input |
| Projection.InsertRestaurants | server.js:118-121 | inserting a view adds exactly its restaurant to the list's restaurants |
| Projection.SortRestaurants | netlify/functions/restaurants.js:126-129 | sorting only reorders the restaurants |
| Projection.Restaurants | netlify/functions/restaurants.js:81-129 | the reply is sorted, its restaurants are a permutation of the document's, and every view is correct for its restaurant |
| Cookies.Entry | netlify/functions/restaurants.js:46-49 | a kept piece has a non-empty name and value, both free of `=` |
| Cookies.CookiesWellFormed | netlify/functions/restaurants.js:44-52 | every parsed name and value is non-empty and free of `=` |
| Cookies.ParseCookies | netlify/functions/restaurants.js:42-53 | the loop records the pieces' entries left to right, a later duplicate overwriting an earlier one |
| Cookies.EntryOf | netlify/functions/restaurants.js:45-50 | every recorded name comes from a kept entry carrying its recorded value |
| Cookies.LastEntryWins | netlify/functions/restaurants.js:45-50 | an entry whose name no later entry repeats gives that name its value |
| Cookies.EntryRecorded | netlify/functions/restaurants.js:47-49 | every kept entry's name is recorded |
| Cookies.PieceOf | netlify/functions/set-user.js:28-37 | every parsed name comes from a header piece carrying its value |
| Cookies.LastPieceWins | netlify/functions/note.js:26-35 | the last piece with a given name decides its value |
| Cookies.NoHeaderNoCookies | netlify/functions/restaurants.js:43-44 | no header, or an empty one, gives no cookies |
| Cookies.EntryPrefix | netlify/functions/restaurants.js:46-47 | a kept entry is read from the start of the trimmed piece: `name=value`, followed by the end of the piece or by a second `=` |
| Cookies.EntryDropsRest | netlify/functions/restaurants.js:46-47 | a piece `name=value=rest` parses to that name and value; the rest is dropped |
| Cookies.EntryOfPair | netlify/functions/restaurants.js:46 | a lone `name=value` piece parses to that name and value |
| Cookies.SetCookieRoundTrip | netlify/functions/set-user.js:92 | the `visitorId=value` cookie the server sets parses back to exactly that one entry |
| Cookies.Visitor | netlify/functions/reset.js:53-54 | the visitor is non-empty exactly when the `visitorId` cookie is present, and is then its value |
| Client.Escaped | public/app.js:71-76 | escaping each character on its own leaves no `<`, `>`, `"` or `'` |
| Client.ChainIsEscaped | public/app.js:71-76 | with `&` replaced first, the chained replacements equal the per-character escape, so nothing is escaped twice |
| Client.UnescapeEscaped | public/app.js:71-76 | decoding the five entities undoes the per-character escape |
| Client.EscapeHtmlRoundTrip | public/app.js:69-77 | the page shows the text itself, and the escaped text holds no markup character |
| Client.EscapePlain | public/app.js:71-76 | a text with none of the five special characters is returned unchanged |
| Client.GetCookie | public/app.js:80-85 | a returned value is read from just after an occurrence of the `; name=` marker in `"; " + cookie`, up to the next `;`, and never contains `;` |
| Client.GetCookieOnce | public/app.js:80-84 | when the marker occurs exactly once, the value after it, up to the next `;`, is returned |
| Client.GetCookieMissing | public/app.js:80-85 | no `; name=` marker gives null |
| Client.GetCookieDuplicate | public/app.js:82-84 | the marker twice gives null |
| Client.GetCookieAlone | public/app.js:80-84 | a cookie string holding just `name=value` reads back `value` |
| Client.CookieReadsAgree | public/app.js:80-85 | a cookie the server sets is read back with the same value by the browser and by the serverless functions |
| Client.NextVoteType | public/app.js:293-299 | a click on the active vote sends `none`, any other click sends the clicked vote; the type sent is always accepted |
| Client.ToggleApplied | public/app.js:293-305 | the vote the server stores after a click is withdrawn when it was the clicked one and the clicked one otherwise |
| Client.ToggleTwice | public/app.js:293-299 | two clicks on the same button return to the starting state when there was no vote or that vote |
| Handlers.HandOverSuggestions | server.js:152-156 | the in-place loop rewrites the list into `RenameSuggestions` of it |
| Handlers.SetEntry | server.js:190-199 | creating the visitor's map, then setting or deleting the one entry, gives `Put` |
| Handlers.Store.Save | server.js:63-65 | the store holds exactly the document written, with one more write |
| Handlers.Store.Load | server.js:32-61 | returns the loaded document; seeds and writes the initial document only when nothing is stored |
| Handlers.Store.SetUserHandler | server.js:130-165 | a blank name is refused before anything is read; otherwise the store ends as `SetUser` says, written only when renaming |
| Handlers.Store.InterleavedVotes | server.js:181-201 | two vote requests that both load before either saves: the store ends with the second visitor's document, in which the first visitor's vote is missing |
| Handlers.Store.VoteHandler | server.js:169-203 | visitor and vote type are refused before anything is read; then the store ends as `CastVote` says, written only on success |
| Handlers.Store.NoteHandler | server.js:206-236 | a missing visitor is refused before anything is read; then the store ends as `WriteNote` says, written only on success |
| Handlers.Store.SuggestHandler | server.js:239-281 | visitor and name are refused before anything is read; then the store ends as `AddSuggestion` says and the new restaurant is returned |
| Handlers.Store.ResetHandler | server.js:284-311 | a missing visitor is refused before anything is read; then the store ends as `Reset` says, written only when something changed |
| Handlers.Store.RestaurantsHandler | netlify/functions/restaurants.js:77-138 | only seeding writes; the views are sorted, a permutation of the loaded restaurants, each correct; the current user is null without a visitor |

## Left out

- Projection.NameLe: `localeCompare` is replaced by plain lexicographic order on code points, since the locale's collation is outside the program.
- Slugs.Slug: `toLowerCase` is modelled on ASCII letters only; Unicode case mapping is not modelled.
- Cookies.ParseCookies: `decodeURIComponent` is the identity here. In `set-user`, `encodeURIComponent` is likewise the identity when the cookie is written.
- Client.GetCookie: `decodeURIComponent` is the identity here too.
- Cookies.Visitor: it requires the map to be well formed, as every map `ParseCookies` returns is.
- The Express server reads the visitor through the cookie-parser middleware. That middleware is not part of this model; the handlers take the visitor's name as a parameter.
- HTTP wiring is not modelled: routes, status codes, CORS headers, the `OPTIONS` and 405 branches, `Invalid JSON` replies, the 500 catch-all and the `Set-Cookie` header string. Errors are the `Failure` values instead.
- Storage I/O and JSON are not modelled. The file or blob store is the `Store` class's `blob` field. Two things follow:
  - A document that cannot be read or parsed is not distinguished from a missing one.
  - Handlers.Store.Load re-seeds only on a missing document.
- The lost-update race between concurrent requests is not modelled as concurrency. Operations.LostUpdate and Handlers.Store.InterleavedVotes show one interleaving of two load→modify→save sequences.
- The seeded document refers to the `defaultRestaurants` array itself, so a later `push` in the same process changes that array. This aliasing is not modelled: the seed is a value.
- JavaScript objects iterate keys in insertion order; Dafny maps have no order. The voter and note lists are therefore specified by membership, distinctness and count, not by order.
- Projection.SortViews: the engine's sorting algorithm and its stability are not modelled. The model sorts by insertion, and two views that compare equal have equal scores and names.
- Model.SuggestedIdsAreSlugs: the invariant covers suggested restaurants only. The seven built-in ids are hand-written and are not proved to be slugs of their names.
- No Netlify vote function is among the modelled files. Handlers.Store.VoteHandler follows server.js:169-203 and uses whichever backend the store was built with.
- The clock (`new Date().toISOString()`) is the `at` parameter of the suggest operations.
- The rest of the browser script is UI and is not modelled: DOM rendering, `fetch`, theme and `localStorage`, event listeners and modals.
- Keys that name `Object.prototype` properties are not modelled. In JavaScript, `votes[k]` and `notes[k]` read the inherited property when `k` is `constructor`, `toString`, `__proto__` and the like, even though nothing is stored under `k`. The model treats such names like any other key, so the lines below do not capture what the source does for them.
- Operations.CastVote: for a visitor named `constructor`, the `!data.votes[visitorId]` guard sees the inherited function, and the vote is set on that function; it never reaches the saved JSON. For `__proto__`, the vote lands on `Object.prototype`. From then on, in the same Express process, the projection counts every visitor who has no vote of their own for that restaurant as a voter of that vote type.
- Operations.AddSuggestion: the automatic up-vote has the same two effects as Operations.CastVote for those visitor names.
- Operations.WriteNote: the note has the same two effects as Operations.CastVote for those visitor names.
- Operations.Reset: for a visitor named `toString` or `constructor`, the guard passes and `delete` runs, leaving nothing stored. The source still writes the document, while the model reports that nothing was removed and does not write.
- Operations.SetUser: renaming to `__proto__` replaces the prototype of the vote and note objects instead of adding a key, so the moved entries are lost on save. Renaming from an inherited name such as `constructor` moves the inherited value. Operations.Rename and Operations.MoveKey move stored entries only.
- Projection.CollectNotes: a restaurant id such as `constructor` makes `notes[restaurant.id]` truthy for every visitor, so the source lists every visitor who has a notes map as an author. The model lists stored notes only.
- Projection.CollectVotes: a restaurant id naming an inherited property reads that property, which is never `'up'` or `'down'`, so the model and the source agree there. They disagree once `Object.prototype` has been polluted as described under Operations.CastVote.
- Projection.UserVote and Projection.UserNote: `data.votes[visitorId]?.[restaurant.id]` reads inherited properties for such visitor names or restaurant ids. The model reads stored entries only.
- Projection.UserNote: the code reads the viewer's note with `|| null` (server.js:100-101), so an empty stored string reads as null.
- Migration.Migrate: the cuisine backfill (server.js:40-45) runs on the Express server only; the Netlify load does not do it.
