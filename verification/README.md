# A Dafny model of GoShorty

GoShorty is a URL shortener in Go. This project models the stateful logic below its HTTP layer and proves
what it is meant to guarantee over whole runs, not only call by call. `dafny verify dfyconfig.toml` checks
everything.

| file | module(s) | what it models |
|---|---|---|
| Common.dfy, Text.dfy, Orders.dfy, Traversals.dfy | Common, Int64, Durations, Text, Orders, Traversals | int64 wrap-around, bytewise string order, stable sorting, ranging over a Go map in an arbitrary order |
| Keyset.dfy, Walks.dfy | Keyset, Walks | keyset pagination once, over any strict total order: what a page is, the two ways of computing one, and walks from page to page |
| UrlTable.dfy, UrlRuns.dfy | UrlTable, UrlRuns | URL records as a table of entries, every store operation on it, and runs of operations |
| Storage.dfy, UrlService.dfy, UrlWalks.dfy | GoSort, Storage, UrlService, UrlWalks | the in-memory store and the URL service as classes, proved against those operations; following `next_cursor` |
| Encoding.dfy, Json.dfy, Cursors.dfy | Base64Url, Utf8, Json, Cursors | unpadded base64url, UTF-8, flat JSON objects, cursor tokens |
| RateLimiter.dfy | RateLimiter | the fixed-window limiter and its bounded table |
| UserTable.dfy, UserLists.dfy, UserStorage.dfy | UserTable, UserLists, UserStorage | accounts as a table, runs over it, user pages, and the store whose two maps share mutable user objects |
| TokenService.dfy, Auth.dfy, AuthHandlers.dfy | TokenService, Auth, AuthHandlers | signed tokens, the middleware, revocation over runs, the handlers |
| Migration.dfy | Migration | the migration runner: instances interleaving transaction steps under an advisory lock |
| LastAdmin.dfy | LastAdmin | role changes and deletions on PostgreSQL as interleaved lock, read, count, write and commit steps |

Conventions. Instants are integers in nanoseconds (seconds inside tokens) and every operation gets the
instant its clock shows. Generated IDs, bcrypt results, random codes and `url.Parse` results are parameters;
an ID is assumed not to have been generated before. The MAC is an uninterpreted function of key and payload
with 32-byte results, and the migration checksum an uninterpreted function of the content; nothing is
claimed about forging either. A method with a loop or with changing state is a Dafny method whose contract ties the new state to
a function on values, and the theorems are about those functions. Every lemma switches automatic induction
off, so that each proof stands on its written steps.

Where the code and its own words differ, the model follows the code:

- The comments at services/token_service.go:24-27 and 52-54 say that the previous key is accepted only for
  tokens without a `kid`. The code tries it for every token (169-172). TokenRoundTrip states exactly that:
  no claim of the token tells the keys apart.
- `Delete` answers for expired entries (storage/storage.go:89-99), unlike every other operation. So cleanup
  is invisible except to a bare `Delete`; DeleteNoticesSweep says exactly when that one notices it.
- A page can end in a record whose key the service then refuses as a cursor (creation at nanosecond 0 of
  1970, or an empty code; services/url_service.go:203). NextCursorUsable gives the exact condition,
  NextCursorRefused an input. The walk theorems ask for records without such keys.
- The user list refuses its own cursor when the first page is a user with the empty name alone
  (handlers/auth.go:204-207). The store accepts that name (storage/user.go:64-91); only the binding of
  registration requests, which is not part of this model, asks for three characters. OwnCursorRefused gives
  the exact condition, EmptyNameRefused an input, and the user walk theorems exclude exactly that page.
- Revocation is permanent only up to a wrap of the int64 version counter. RevokedExactly gives the exact
  condition, RevocationsWrap an input, RevocationIsPermanent the practical form.
- The limiter admits more than its limit in a window's length that straddles two windows. RateBound bounds n
  such lengths by n * limit + limit - 1 plus one limit for each eviction of the key, RateBoundReached reaches
  that for all parameters, and KeepsRateExactly says on which routes n * limit is never exceeded.
- base64url decoding is not injective. EncodeDecoded says for which texts encoding gives back what was decoded.
- `bootstrapAdmin` leaves no admin when the name `admin` already belongs to a plain user. BootstrapExact
  gives the exact condition.

## Model

| member | source | states |
|---|---|---|
| Keyset.PageUnique | storage/storage.go:140-170 | A page request has exactly one answer: the declarative definition of a page (the limit-smallest visible keys after the cursor, in order, and whether any are left) leaves no freedom |
| Keyset.AfterIsSuffix | storage/storage.go:158-161 | Along the sorted list "is after the cursor" turns true once and stays true, for every cursor, also one that matches no record |
| Keyset.SliceIsPage | storage/storage.go:155-169 | Slicing the sorted list from the first row after the cursor gives the page of the declarative definition |
| Keyset.SliceRefinesLimitPlusOne | storage/postgres.go:298-340 | Sort, search and slice gives the same items and HasMore as filter, order, LIMIT limit+1 and truncate, over the same rows in any two orders |
| Orders.SortByPermutation | storage/storage.go:155 | Sorting by a strict total order gives the same list whatever order the map was traversed in |
| Walks.WalkAdvances | services/url_service.go:195-230 | Keys strictly advance over all pages of a walk, whatever the visible records do between requests |
| Walks.WalkMissesNothing | services/url_service.go:195-230 | A key visible to every request of a complete walk is returned |
| Walks.WalkUnderWrites | services/url_service.go:195-230 | With arbitrary changes between the pages, a key visible throughout is returned exactly once |
| Walks.StaticWalk | services/url_service.go:195-230 | On unchanged rows the pages of a complete walk concatenate to the whole sorted list |
| Walks.UnfinishedIsFull | services/url_service.go:195-230 | A walk that is not over has collected nothing but full pages |
| Walks.StaticWalkEnds | services/url_service.go:195-230 | On unchanged rows following cursors ends: a walk is complete exactly when it has max(1, ceil(n / limit)) pages, and never has more |
| GoSort.Search | storage/storage.go:160 | Binary search ends at a boundary of the predicate, even one that is not monotone |
| GoSort.BoundaryIsFirstAfter | storage/storage.go:158-161 | On sorted rows the only such boundary is the first row after the cursor |
| UrlTable.BeforeStrictTotal | models/pagination.go:51-57 | Newest first with the short code as tie-breaker is a strict total order on keys |
| UrlTable.CursorMatchesOrder | models/pagination.go:51-67 | The cursor comparison and the sort comparison never disagree: u is after the key of v exactly when v is newer than u |
| Text.LessExactly | models/pagination.go:56 | The string order: at the first difference, one string ends or has the smaller character |
| UrlTable.VisibleExactly | storage/storage.go:123-130 | A record is seen exactly up to and including its expiry, by its owner and by administrators |
| UrlTable.SortedIsNewestFirst | models/pagination.go:51-57 | A sorted list has later creation times first, and smaller codes first among equal ones |
| UrlTable.PageIsNewestFirst | models/pagination.go:51-57 | So has every page |
| UrlTable.PageIsAfterCursor | models/pagination.go:61-67 | Everything on a page was created before the time in the cursor, or at that time under a greater code |
| UrlTable.SliceListsPage | storage/storage.go:144-169 | Any traversal of the visible records, sorted and sliced, answers the request as declared, with the total count |
| UrlTable.ListsPageUnique | storage/storage.go:140-170 | That answer, records included, is unique |
| UrlTable.StoresAgree | storage/postgres.go:285-341 | Over the same active records PostgreSQL and memory answer every list request alike |
| UrlTable.EnumerationTotal | storage/storage.go:205-214 | Any traversal order adds up to the same number of visits |
| UrlTable.AdminTotalsAreOwnerSums | storage/storage.go:197-220 | The administrator's URL and visit totals are the sums of all owners' own totals, in exact numbers and in the int64 numbers that are reported |
| Storage.Store.constructor | storage/storage.go:34-44 | A new store is empty |
| Storage.Store.SetIfAbsent | storage/storage.go:55-68 | Reserves the code in one step exactly when it is absent or expired; otherwise KeyExists and nothing changes |
| Storage.Store.Get | storage/storage.go:71-86 | The stored record of an unexpired code, else KeyNotFound |
| Storage.Store.Delete | storage/storage.go:89-99 | Removes the code whether or not it is expired |
| Storage.Store.GetAndIncrement | storage/storage.go:102-113 | Counts one visit on an active entry in place, with int64 wrap, and returns the record; touches no other entry |
| Storage.Store.CleanupExpired | storage/storage.go:182-191 | One sweep leaves exactly the unexpired entries |
| Storage.Store.GetAllFor | storage/storage.go:116-134 | Lists exactly the caller's active records, each once, in the order of the traversal |
| Storage.Store.FindStart | storage/storage.go:158-161 | The slice starts at the top without a cursor, else at the boundary found by the search |
| Storage.SearchedSliceLists | storage/storage.go:155-169 | The slice from that boundary is the unique answer to the request |
| Storage.Store.ListURLs | storage/storage.go:140-170 | Always the sorted, searched and sliced traversal; over records filed under their own codes, as the service files them, the page that records, cursor and limit determine, independent of the traversal |
| Storage.Store.StatsFor | storage/storage.go:197-220 | Count and int64 visit sum of the caller's active records |
| UrlRuns.LookupExactly | storage/storage.go:71-86 | Exactly the unexpired record stored under the code is found |
| UrlRuns.ReserveExactly | storage/storage.go:55-68 | A reservation succeeds exactly on an absent or expired code, files record and expiry, and touches nothing else |
| UrlRuns.VisitExactly | storage/storage.go:102-113 | A visit adds one to exactly the unexpired code it is for, and changes nothing else |
| UrlRuns.SweepExactly | storage/storage.go:182-191 | The sweep drops exactly what has expired |
| UrlRuns.InfoExactly | services/url_service.go:142-156 | Info is given on exactly the own unexpired records, and on all of them to administrators |
| UrlRuns.DeleteExactly | storage/storage.go:89-99 | The bare deletion removes a code that is there, expired or not, and no other |
| UrlRuns.DeleteURLExactly | services/url_service.go:159-179 | A deletion removes exactly an own unexpired record, or any for an administrator; it is forbidden on others' and otherwise finds nothing, changing nothing |
| UrlRuns.GoneUntilRecreated | services/url_service.go:159-179 | After a deletion nobody finds the code at any later point of any run, until it is created again |
| UrlRuns.VisitShowsInStats | storage/storage.go:197-220 | A visit raises the visit total of the owner and of administrators by one, and no number of URLs |
| UrlRuns.StepSeesOnlyLive | storage/storage.go:55-134 | Two tables with the same unexpired entries answer every operation but the bare Delete alike, and still agree on them afterwards |
| UrlRuns.CleanupSimulation | storage/storage.go:173-194 | A run answers as the same run without its sweeps, from any table with the same unexpired entries |
| UrlRuns.CleanupIsInvisible | storage/storage.go:173-194 | Runs that differ only in where the sweep ran give their callers the same answers |
| UrlRuns.DeleteNoticesSweep | storage/storage.go:89-99 | The bare Delete notices a sweep exactly on an expired entry |
| UrlRuns.VisitsConserved | storage/storage.go:102-113 | Over any run a stored record changes only by one visit for each successful GetAndIncrement |
| UrlRuns.ReservationHeld | storage/storage.go:55-68 | Unexpired and not deleted, a code stays reserved through any run and is not won again |
| UrlRuns.HeldThroughout | storage/storage.go:71-113 | At every point of such a run lookups and visits return the record with exactly the visits so far, and creates are refused |
| UrlRuns.ReservationSafety | services/url_service.go:82-113 | The same from the create that won the code: URL, owner and expiry it was given are what every lookup returns |
| UrlRuns.WinNeedsRelease | storage/storage.go:55-68 | Another create wins the code only after a deletion or the expiry |
| UrlRuns.OwnRecordsDecide | storage/storage.go:116-220 | Two stores that agree on a plain user's own active records give that user the same lists, pages, statistics and URL info |
| UrlRuns.OthersAreInvisible | services/url_service.go:142-230 | Whatever other users do, a plain user sees afterwards what it would have seen without them |
| UrlRuns.StaysKeyed | services/url_service.go:82-101 | Every run keeps records filed under their own short codes |
| UrlService.NormalizeLimit | services/pagination.go:32-40 | The page size is always in 1..200: unchanged when already so, 200 when larger, 50 when not positive |
| UrlService.URLService.constructor | services/url_service.go:36-42 | Holds the store and the configuration it is given |
| UrlService.URLService.CreateShortURL | services/url_service.go:45-126 | Undisturbed by others: ends within 100 attempts; wins the first generated code not active at its attempt, or the custom code if free; files exactly that record; any error leaves the store unchanged |
| UrlService.AllocatesFirstFree | services/url_service.go:92-113 | With other callers doing anything between the attempts: the first attempt wins whose code is not active in the store of that moment, and failed attempts leave no trace |
| UrlService.UndisturbedAllocation | services/url_service.go:92-113 | Without them this is what CreateShortURL promises |
| UrlService.CreatedIsHeld | services/url_service.go:82-113 | What a creation won is what every lookup and visit returns afterwards, up to the expiry, unless the code is deleted; no other create wins it |
| UrlService.URLService.GetOriginalURL | services/url_service.go:129-139 | The URL of an active code, with one visit counted, else not found |
| UrlService.URLService.GetURLInfo | services/url_service.go:142-156 | Others' records are indistinguishable from missing ones |
| UrlService.URLService.DeleteURL | services/url_service.go:159-179 | At one instant: deletes an active record of the caller or for an admin, otherwise changes nothing |
| UrlService.URLService.GetAllURLs | services/url_service.go:182-189 | The sorted traversal; over records filed under their own codes exactly the visible records, strictly sorted newest first |
| UrlService.URLService.ListURLs | services/url_service.go:195-230 | Malformed and half-zero cursors are refused, every other request is served from one traversal; over records filed under their own codes the answer is a function of the visible records, limit and cursor text |
| UrlService.AllSorted | services/pagination.go:61-63 | Sorting any traversal yields a strictly ordered list of exactly those records |
| UrlWalks.NextCursorIsLast | services/url_service.go:208-229 | A page lists newest first and counts all visible records; its next_cursor is there exactly when more follow and holds creation time and code of the last record listed |
| UrlWalks.CursorAccepted | services/url_service.go:198-206 | The text of a key is taken back exactly when both halves are nonzero, and then means that key |
| UrlWalks.NextCursorUsable | services/url_service.go:203-228 | A page's own next_cursor is refused later exactly when its last record has a zero half in its key |
| UrlWalks.ZeroKeyRefused | services/url_service.go:203-228 | The failing case: of any two records, the newer with a zero half in its key, listed one a page, the first page's next_cursor is refused |
| UrlWalks.NextCursorRefused | services/url_service.go:203-228 | An instance of it: two records created at nanosecond 0 of 1970 |
| UrlWalks.ServiceWalk | services/url_service.go:195-230 | Following next_cursor is a walk of pages, and no request is refused, for records with nonzero creation nanoseconds and nonempty codes |
| UrlWalks.FinishedIsComplete | services/url_service.go:218-228 | next_cursor is empty exactly when nothing follows |
| UrlWalks.UrlWalkUnderWrites | services/url_service.go:195-230 | The walk theorem for the service: no refusal, strictly advancing keys, and a record visible throughout exactly once |
| UrlWalks.WalkDuringRun | services/url_service.go:195-230 | Tied to store runs: from a store of regular records, with any operations between the requests whose creations have a nonempty code and a nonzero time, no request is refused and a record neither deleted nor expired is returned exactly once |
| UrlWalks.UrlStaticWalk | services/url_service.go:195-230 | On an unchanged store a walk is finished exactly at max(1, ceil(n / normalized limit)) pages, never later, and has then returned the sorted visible records |
| UrlWalks.UrlWalkEnds | services/url_service.go:195-230 | Every unfinished walk over an unchanged store goes on to a finished one |
| Base64Url.EncodeAlphabet | models/pagination.go:32 | Only characters of the base64url alphabet come out (section 5 of RFC 4648) |
| Base64Url.EncodeLength | models/pagination.go:32 | Unpadded length (section 3.2 of RFC 4648) |
| Base64Url.KnownTexts | models/pagination.go:32 | The alphabet, by known texts (sections 5 and 10 of RFC 4648) |
| Base64Url.RoundTrip | models/pagination.go:32-38 | Decoding an encoded byte string gives it back |
| Base64Url.EncodeDecoded | models/pagination.go:32-38 | The converse holds exactly for texts without line breaks whose spare low bits are zero |
| Base64Url.DecodeNotInjective | models/pagination.go:38 | Both conditions can fail: three texts that decode to the same byte |
| Utf8.RoundTrip | models/pagination.go:28-42 | Text survives the conversion to bytes and back |
| Utf8.KnownBytes | models/pagination.go:28 | Encodings of one to four bytes |
| Json.StringRoundTrip | models/pagination.go:28-42 | A written string is read back with whatever follows it (section 7 of RFC 8259) |
| Json.IntRoundTrip | models/pagination.go:28-42 | A written integer is read back with whatever follows it (section 6 of RFC 8259) |
| Json.RoundTrip | models/pagination.go:28-42 | Reading a written flat object gives back its members in order |
| Json.FieldFilled | models/pagination.go:42 | A field named once is filled with exactly its value |
| Cursors.CodecRoundTrip | models/pagination.go:27-46 | Decoding an encoded cursor gives back its members; the token is nonempty base64url text |
| Cursors.UrlCursorRoundTrip | models/pagination.go:16-46 | Every int64 timestamp and every code survives the token |
| Cursors.UserCursorRoundTrip | models/pagination.go:22-46 | Every username survives the token |
| Cursors.UrlCursorJson | models/pagination.go:16-19 | The text inside a URL cursor: field names, order and values |
| Cursors.UserCursorJson | models/pagination.go:22-24 | The text inside a user cursor |
| RateLimiter.RetryAfter | handlers/security.go:46-49 | At least 1, less than a second short of the time left, and no longer than it when a second or more is left |
| RateLimiter.Limiter.constructor | handlers/security.go:25-27 | A new limiter has no windows |
| RateLimiter.Limiter.Limit | handlers/security.go:31-76 | Counts the request in the caller's window, decides from that window alone, and leaves at most 10,000 windows |
| RateLimiter.Limiter.Evict | handlers/security.go:51-63 | Both loops end; the sweep drops what the calling route's window calls expired, then arbitrary keys down to the bound, changing no kept window |
| RateLimiter.DecisionInWindow | handlers/security.go:36-49 | In a running window the request is one more; it is told what remains of the limit and, in seconds, when the window ends |
| RateLimiter.DecisionAnew | handlers/security.go:37-49 | Without one, or after its end, a window starts now with this request as its first |
| RateLimiter.EvictedExactly | handlers/security.go:51-63 | A table of at most 10,000 stays; a larger one loses exactly what started a whole window ago if that suffices, and never ends above 10,000 |
| RateLimiter.WithinBudget | handlers/security.go:31-65 | From any state, what a key gets admitted up to b fits the room of its window plus one limit per window start still possible |
| RateLimiter.RateBound | handlers/security.go:31-65 | Over any run of all clients, n windows of time admit at most n * limit + limit - 1 requests of a key (n * limit for a window of one nanosecond), plus one limit per eviction of it |
| RateLimiter.RateBoundReached | handlers/security.go:31-65 | The bound is reached: for every client, limit, window, start and number of windows there is a run without evictions that admits exactly that many |
| RateLimiter.KeepsRateExactly | handlers/security.go:31-65 | All runs without evictions keep to n limits in n windows exactly when the limit is at most 1 or the window is one nanosecond |
| RateLimiter.AnsweredAsIfAlone | handlers/security.go:35-64 | While its window is kept, a client gets the decisions it would get alone, whatever else is counted or evicted |
| UserTable.InitialIsHealthy | storage/user.go:38-61 | The store starts consistent, with an admin |
| UserTable.InitialExactly | storage/user.go:49-59 | The first user is the administrator named admin, with the hash, email and ID given |
| UserTable.CreateExactly | storage/user.go:64-91 | A creation succeeds exactly for a free name and a hash; the new user is a plain one with the data given, and no admin is made |
| UserTable.PasswordExactly | storage/user.go:139-154 | A password change replaces hash and version of that user alone |
| UserTable.RevokeExactly | storage/user.go:157-166 | A revocation moves the version of that user alone |
| UserTable.UnknownID | storage/user.go:139-166 | For an ID that nobody has, neither finds a user |
| UserTable.RoleExactly | storage/user.go:169-188 | A role change has its exact answer in every case, and on success changes that role alone |
| UserTable.DeleteExactly | storage/user.go:232-249 | A deletion has its exact answer in every case, and on success removes that user alone |
| UserTable.LastAdminExact | storage/user.go:169-249 | LastAdmin is answered exactly for the role changes and deletions that would leave no admin |
| UserTable.EveryReachableIsHealthy | storage/user.go:64-249 | In every reachable state names and IDs are unique, roles are known ones, and there is an admin |
| UserTable.StepOnVersion | storage/user.go:139-166 | Only password changes and revocations of a user move its version, by one; only deletion ends it; no other user gets its ID |
| UserTable.GoneForever | storage/user.go:232-249 | The ID of a deleted user never comes back |
| UserTable.VersionAlong | storage/user.go:139-166 | After any run a user is deleted for good, or its version has moved, in int64, once for each bump |
| UserTable.NameAlong | storage/user.go:64-249 | Until deleted, a user keeps name and ID |
| UserLists.SliceListsUsers | storage/user.go:206-229 | Any traversal, sorted and sliced, gives the declared page of users with the total |
| UserLists.ListsUsersUnique | storage/user.go:206-229 | That page is unique |
| UserLists.UserStoresAgree | storage/postgres.go:541-585 | PostgreSQL's LIMIT limit+1 form gives the same page for every cursor |
| UserLists.CursorReads | handlers/auth.go:198-207 | The endpoint takes back every cursor but the one of an empty name |
| UserLists.OwnCursorRefused | handlers/auth.go:198-226 | The endpoint refuses the next_cursor of its own page exactly when that is the first page, of one user, some user has the empty name, and there are others |
| UserLists.EmptyNameRefused | handlers/auth.go:198-226 | It does so once the store has accepted a user with the empty name beside the admin |
| UserLists.UserWalk | handlers/auth.go:189-230 | In all other cases following next_cursor over users is a walk of pages |
| UserLists.RefusedExactly | handlers/auth.go:189-230 | No request of a walk is refused, except after such a first page |
| UserLists.UserWalkUnderWrites | handlers/auth.go:189-230 | Names strictly advance; a user present throughout comes exactly once |
| UserLists.UserStaticWalk | handlers/auth.go:189-230 | On unchanged users a walk is finished exactly at max(1, ceil(n / normalized limit)) pages, never later, and has then returned all users by name; not when stuck at the empty name |
| UserLists.UserWalkEnds | handlers/auth.go:189-230 | Every unfinished walk over unchanged users goes on to a finished one |
| UserStorage.User.Clone | storage/user.go:283-289 | A new object with the same contents |
| UserStorage.UserStore.Indexed | storage/user.go:107-117 | Under the invariant both maps hold the same objects, and the ID index finds the user the table has under that ID |
| UserStorage.NewUserStorage | storage/user.go:38-61 | Fails exactly when the admin password cannot be hashed; else a store with one admin |
| UserStorage.UserStore.constructor | storage/user.go:43-60 | One admin under both indexes |
| UserStorage.UserStore.CreateUser | storage/user.go:64-91 | Adds the user under both indexes or changes nothing; the returned snapshot is no stored object |
| UserStorage.UserStore.GetUser | storage/user.go:94-104 | A fresh snapshot of the named user |
| UserStorage.UserStore.GetUserByID | storage/user.go:107-117 | A fresh snapshot of the user with the ID |
| UserStorage.UserStore.VerifyPassword | storage/user.go:120-136 | The comparison with the stored hash, or not found |
| UserStorage.UserStore.UpdatePassword | storage/user.go:139-154 | Found by ID and changed in place: seen through both indexes, version up by one, nobody else touched |
| UserStorage.UserStore.RevokeTokens | storage/user.go:157-166 | Version up by one, nothing else changed |
| UserStorage.UserStore.AdminCountLocked | storage/user.go:273-281 | The number of admins |
| UserStorage.UserStore.UpdateUserRole | storage/user.go:169-188 | Not found before invalid role before last admin; on success only that role changes; an admin remains |
| UserStorage.UserStore.DeleteUser | storage/user.go:232-249 | Removes the user from both indexes, never the last admin |
| UserStorage.UserStore.GetAllUsers | storage/user.go:191-201 | Fresh, pairwise different snapshots of exactly the stored users, each once |
| UserStorage.UserStore.ListUsers | storage/user.go:206-229 | The declared page, as fresh snapshots |
| UserStorage.UserStore.FindStart | storage/user.go:216-219 | The page starts at the top or at the first name after the cursor |
| UserStorage.SortCommutes | storage/user.go:214 | Sorting the snapshot objects sorts what they hold |
| TokenService.PayloadRoundTrip | services/token_service.go:118-185 | A payload holds its ten claims and no '.' or other character outside base64url |
| TokenService.AuthenticateSigned | services/token_service.go:147-175 | A signed payload passes up to the signature check and is recovered from the token exactly when active or previous key signs it alike |
| TokenService.JudgeGenerated | services/token_service.go:187-208 | The claim checks on generated claims come down to one condition on lifetimes, window, issuer and audience |
| TokenService.TokenRoundTrip | services/token_service.go:108-210 | A token generated by one configuration is accepted by another, with the same claims, exactly under that condition and an accepted key: key rotation included |
| TokenService.OwnTokenWindow | services/token_service.go:108-210 | Under one configuration: the same claims exactly when issued - 30 <= now <= issued + ttl, "issued in the future" before, "expired" after |
| TokenService.TtlExactly | services/token_service.go:129 | A time to live counts in whole seconds, rounded down |
| TokenService.RefusedUnread | services/token_service.go:147-161 | Empty and oversized tokens, a missing key and a missing dot have each their own refusal, in this order |
| TokenService.AcceptedIsSigned | services/token_service.go:158-185 | However payloads are read: any accepted token is a payload with the claims returned, a dot, and a text for the MAC of that payload under the active or previous key |
| TokenService.LifetimeCannotWrap | services/token_service.go:188-199 | The lifetime subtraction is exact in int64 after the earlier checks |
| TokenService.AcceptedWindow | services/token_service.go:187-199 | However payloads are read: any accepted token was issued at most 30 s ahead, is unexpired, and lives no longer than the configured time |
| TokenService.AcceptedTokenBound | services/token_service.go:147-211 | However payloads are read: for any token string the instants at which it is accepted span at most ttl + 30 s, with the same claims each time |
| Auth.BearerExactly | handlers/auth.go:317-338 | Exactly the headers of the form "Bearer " and a token without spaces name a token |
| Auth.HeaderReads | handlers/auth.go:317-338 | The header for a generated token is read back as that token |
| Auth.AdmittedIffCurrent | handlers/auth.go:341-367 | A verified token is admitted iff a user with its ID has exactly its version; refused as invalid without such a user, as revoked with another version |
| Auth.RevokedExactly | handlers/auth.go:341-371 | After any run a token that was current is admitted iff its user was not deleted and the number of bumps is a multiple of 2^64 |
| Auth.RevocationsWrap | handlers/auth.go:341-371 | A current token is refused after 1 to 2^64 - 1 revocations in a row, and admitted again after 2^64 |
| Auth.RevocationIsPermanent | handlers/auth.go:341-371 | After a successful password change, revocation or deletion it is refused in every later state, for the next 2^64 - 1 bumps |
| Auth.Session | handlers/auth.go:314-375 | From issue to any later request: admitted exactly within the window while not revoked, and then with the stored role of that moment |
| Auth.AdminsAreLive | handlers/auth.go:378-393 | The admin middleware lets an admitted user through exactly if stored as an admin at that moment, and nobody without a role |
| AuthHandlers.RegisteredExactly | handlers/auth.go:30-69 | A registration succeeds exactly for an acceptable password, a free name, a hash and a key; it makes a plain user with the data given, and issues its token |
| AuthHandlers.LoggedInExactly | handlers/auth.go:72-124 | A login succeeds exactly with the stored password, and issues a token with the stored ID, role and version |
| AuthHandlers.PasswordChangedExactly | handlers/auth.go:127-167 | A change succeeds exactly with the right current password and a different acceptable one that was hashed; the new hash is stored |
| AuthHandlers.RevokedAtOnce | handlers/auth.go:127-179 | The token a user changes the password or revokes the sessions with is itself refused as revoked from then on |
| AuthHandlers.LoginSession | handlers/auth.go:72-124 | From login to any later request: admitted exactly in the window while not revoked, with the role of that moment |
| AuthHandlers.AuthHandler.Register | handlers/auth.go:30-69 | Creates at most one user and answers with its token; a token that cannot be issued leaves the user behind |
| AuthHandlers.AuthHandler.Login | handlers/auth.go:72-124 | Answers from the stored user and changes nothing |
| AuthHandlers.AuthHandler.ChangePassword | handlers/auth.go:127-167 | Changes the password of the caller's ID after the checks in order, else nothing |
| AuthHandlers.AuthHandler.RevokeSessions | handlers/auth.go:171-179 | Bumps the caller's version, else nothing |
| AuthHandlers.AuthHandler.AuthMiddleware | handlers/auth.go:314-375 | Over the heap store decides exactly as Authorize does on the table |
| AuthHandlers.AuthHandler.GetAllUsers | handlers/auth.go:189-230 | Serves one page and its next cursor, as fresh snapshots |
| Migration.StepTied | storage/postgres.go:84-148 | The lock is held exactly by an instance in its transaction, and what it read about its row still stands in the committed ledger |
| Migration.StepGrows | storage/postgres.go:113-146 | A commit writes only over a row that is missing or has no checksum |
| Migration.EveryRun | storage/postgres.go:84-148 | The invariant over all runs; ledger rows only appear or gain a checksum |
| Migration.NeverReapplied | storage/postgres.go:104-131 | A version with a row is never applied |
| Migration.MigrationSafety | storage/postgres.go:84-148 | From any ledger, any instances, any interleaving and failures: applied at most once, never when already recorded, and a finished instance's versions are recorded with its checksums for good |
| Migration.FileOrder | storage/postgres.go:84-148 | From any ledger, with the same files everywhere: what has been applied is at any moment the first part of what the ledger lacked, in file order, without a gap; and all of it once an instance has finished |
| Migration.OwnFileOrder | storage/postgres.go:84-148 | From any ledger, with any lists of files: what an instance has applied stands at strictly increasing positions of its own list; each had no row when applied, and everything before it was recorded |
| Migration.RerunAppliesNothing | storage/postgres.go:104-131 | An instance whose versions are all recorded applies nothing |
| Migration.RerunAfterDone | storage/postgres.go:84-148 | In particular a rerun after an instance that finished |
| Migration.MismatchStops | storage/postgres.go:122-125 | No run takes an instance past a file recorded with another checksum |
| Migration.FailureIsLocal | storage/postgres.go:95-145 | A failure takes back only the instance's own open transaction |
| Migration.CanFinish | storage/postgres.go:84-148 | An instance at rest can finish exactly when no file ahead of it is recorded with another checksum |
| LastAdmin.NextTied | storage/postgres.go:468-622 | A lock holder's local reads stay true of the committed table: the role read still holds, and no fewer admins are left than counted |
| LastAdmin.CommitIsAtomic | storage/postgres.go:468-622 | A commit does to the table of that moment what the atomic guarded operation does |
| LastAdmin.RefusalIsAtomic | storage/postgres.go:478-497 | A refusal is the atomic operation's own answer at that moment, and changes nothing |
| LastAdmin.Linearizable | storage/postgres.go:468-622 | Any interleaving of role changes, deletions and single statements leaves the table that the atomic operations leave one after another |
| LastAdmin.AdminStays | storage/postgres.go:468-622 | Once there is an admin, every committed state has one |
| LastAdmin.BootstrapExact | storage/postgres.go:155-170 | The bootstrap adds the admin only under a free name and changes nobody; it leaves an admin iff there was one or the name was free |
| LastAdmin.AlwaysAnAdmin | storage/postgres.go:155-170 | From an empty table every committed state after the first bootstrap has an admin |

## Left out

- HTTP: routing, JSON binding of requests, headers, CORS, audit log, metrics, configuration, the OpenAPI document and the web pages.
- bcrypt, SHA-256, HMAC, random codes and IDs, `url.Parse`: parameters or uninterpreted functions, as said above. That a failed random generator panics is not modelled.
- The option functions of the token service: the model starts from the configuration they leave.
- `Duration.Seconds()` goes through a float; the model uses whole seconds truncated from integer nanoseconds.
- JSON beyond what cursors and claims need: nested values, fractions and booleans under unknown names, and Go's case-insensitive matching of field names. What is stated about accepted tokens holds for any reader of payloads.
- Strings that are not valid UTF-8. Strings are sequences of Unicode scalar values, whose order is the byte order of their encodings.
- `UnixNano` of an instant outside int64 is undefined in Go; the model wraps.
- RateLimiter.Limiter.Limit: does not model int overflow of the request count, which takes 2^63 requests in one window.
- UrlService.URLService.DeleteURL: is one step at one instant; what may happen between its two store calls is not modelled.
- UrlService.URLService.CreateShortURL: the method is one undisturbed step; the attempts among other callers are in AllocatesFirstFree, on values.
- AuthHandlers.AuthHandler.ChangePassword: the password check and the update are two store calls and one step here; the same for the two reads of AuthHandlers.AuthHandler.Login.
- Storage.Store.ListURLs: takes a nonnegative limit; the service normalizes the limit before.
- The records in the URL store are values, so that snapshots cannot alias them is not a theorem there; in the user store, whose objects are mutable, it is.
- PostgreSQL: SQL itself, connection errors and timeouts beyond failing at any step, row locks (the protocols allow more interleavings than they do), collation other than bytewise, microsecond truncation of timestamps, cascading deletion of a user's URLs, and activity at the very instant of expiry, where the two stores differ; UrlTable.StoresAgree therefore takes the set of active records as given.
- Migration files are assumed to contain no transaction control, and creating the ledger table is the state the model starts from.
- The legacy URL and user list endpoints without cursors, apart from URLService.GetAllURLs; the remaining handlers, which only pass calls on.
