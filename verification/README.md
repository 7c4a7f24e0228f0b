# x40.link, verified

A Dafny model of the link shortener x40.link, with proofs about it: the in-memory stores and their search, alone and under
any number of goroutines; ownership of links in Firestore while writers interleave; the interceptor that decides who may
write; the token cache and the file it survives restarts in; the slugs of generated links; and the way from a call that
makes a link to the request that follows it.

Check it with `dafny verify dfyconfig.toml`.

## How it is laid out

| file | what it models |
|---|---|
| Wrappers.dfy, Storage.dfy, Urls.dfy | options and results, the errors of a store, URLs and how they print |
| Lexical.dfy | Go's order on strings, as an order that is proved rather than assumed |
| SortedIndex.dfy | the sorted slice: search window, number of probes, insertion |
| Memory.dfy | the classes `HashTable`, `LinearSearch` and `BinarySearch`, and what they answer after the same writes |
| Concurrent.dfy | `BinarySearch` step by step, with its read-write mutex, under an arbitrary scheduler |
| Uid.dfy | slugs: bytes, base 256, base 62 |
| DocumentPaths.dfy | the Firestore document of an URL |
| Firestore.dfy | the read-then-set write, interleaved by any number of agents; the class `Store` |
| Jwts.dfy | claims, the bearer prefix, the interceptor |
| TokenFile.dfy | the swap-and-rename protocol, system call by system call; the class `File` |
| TokenCache.dfy | the caching token source, over runs of calls, restarts and crashes |
| Links.dfy | the API, the redirect handler, the YAML loader |
| EndToEnd.dfy | interceptor, API and Firestore together |

What lies outside the program comes in as a parameter: clocks, entropy, the outcome of every system call and every remote
call, URL parsing, JSON and the JWT library. The proofs hold for all of their values. A `char` of a string stands for one
byte. A store behind an interface is the class `Links.Storer`: a map that can refuse.

## Main results

- **Linearizability.** Under every schedule of steps of every set of concurrent calls, the binary search store is a map on
  which each call happens at one instant between its arrival and its return. Mutual exclusion of the mutex is proved, not
  assumed; no search ever leaves the slice; and a call that has the mutex makes at most 4 + ceil(log2 n) more
  steps.
- **Search.** A failed search makes exactly 1 + ceil(log2 n) probes and a successful one no more; search and splice do what
  a plain walk through the list does.
- **Ownership.** An owner is safe in every continuation if and only if no write by anybody else has passed its check
  already. Only agents who raced to create a document can ever own it; two of them are enough for its owner to change any
  number of times.
- **End to end.** However requests interleave, every document has the destination and owner of one request with a verified
  subject and the scope. Without interleaving, its owner is fixed for good and nobody else redirects it.
- **Token cache.** Memory and file agree over every run of calls exactly as long as every write that replaces the file
  meets a harmless swap file: nothing of it but white space reaches beyond the new contents. (It is enough that no token is
  encoded shorter than the one before it, and the first no shorter than what was left over.) Under that condition, over any
  number of processes that fail to start, stop, or die in the middle of writes, the file holds the token handed out last,
  or the newer one that a dying process had just put in place; and the next process begins with it, and runs the seed
  exactly when it can be neither used nor refreshed.
- **Slugs.** Decoding gives back type and payload, so slugs never collide; the five characters of a random slug are an
  instance of a bound for every type and payload length.

## Where the code and its documentation differ

The model follows the code.

- `api/auth/tokens/storage/storage.go:17-19` says a storage truncates before it writes. The swap file is opened without
  `O_TRUNC` (`api/auth/tokens/storage/storage.go:56`), so a longer swap file survives past the end of a shorter token.
  `AgreementIff` gives the exact condition under which that does harm, and `TornFromAgreement` how it comes about: one
  failed rename is enough. A torn file stops every new process (`NoStartRepairs`). One that is still running repairs it with
  its next completed write, unless another write got as far as opening the swap file before that and failed
  (`NextWriteHeals`); then the file can be torn again (`NextWriteTearsAgain`).
- `storage/firestore/firestore.go:130-138` makes a path of an URL without checking its host, and `api/dev/url.go:83-86`
  takes the host from the request. With slashes in it, a host can reach the documents of another (`HostAliases`). Only on
  plain hosts, that is one path element other than "." and "..", does a document tell host and path apart
  (`PlainSameDocumentIff`).
- `api/auth/tokens/source.go:150-153` announces token types and compares access tokens: a token that differs only in its
  type is not stored again. Agreement of memory and file is therefore stated up to the type.
- `api/auth/jwts/server_interceptor.go:169-173` says that a public method gets its context unchanged. The code removes the
  authorization metadata (line 192 there).
- `storage/firestore/firestore.go:112-127` marks an unreadable document as corrupt, but none of its callers says so: `Get`
  and `Put` look at the gRPC status of that error and report a failure, `Owns` answers false.
  `storage/firestore/firestore.go:45` parses the target relative to the link, because the parameter hides the package.
- `storage/firestore/firestore.go:74` compares owners, but the check and the set are two calls; ownership holds only under
  the condition of `OwnerIsSafeIff`.

## Model

| member | source | states |
|---|---|---|
| Lexical.LessIffFirstDifference | storage/memory/binary_search.go:57 | one string is below another exactly when, at the first position where they differ, it ends or has the smaller byte |
| Lexical.LessTransitive | storage/memory/binary_search.go:57 | the order of keys is transitive |
| Lexical.LessTrichotomy | storage/memory/binary_search.go:57 | of two keys exactly one is smaller unless they are equal |
| Urls.ServedPrints | server/storage.go:18-21 | an URL in which nothing has to be encoded prints as two slashes, host and path, with a slash between them if the path lacks one; without a host, as the path |
| Urls.KeepsExactly | server/storage.go:18-21 | the characters that are printed as they are, in hosts and in paths |
| Urls.EscapeRoundTrip | server/storage.go:18-21 | decoding upper-case percent-encoding gives back every byte string |
| Urls.ServedKeysAgree | server/storage.go:18-21 | any two URLs built from a host and a path, percent-encoding and all, share an index key exactly in these cases: with hosts, both are equal up to a missing leading slash of the path (a lone asterisk is like no other path); without, as the next two rows say |
| Urls.BareKeysAgree | server/storage.go:18-21 | two URLs without a host share a key exactly when their paths are equal, or one is the other with the "./" in front that printing adds when there is a colon in its first segment |
| Urls.EmptyHostAliases | server/storage.go:18-21 | an URL without a host shares its key with one that has a host exactly when its path is two slashes, that host and that path, and no character of the host is encoded in one of them only |
| SortedIndex.WindowMovesRight | storage/memory/binary_search.go:57-64 | the right step keeps the window around the key and leaves one halving less |
| SortedIndex.WindowMovesLeft | storage/memory/binary_search.go:59-64 | the left step keeps the window around the key, whether or not it still includes the probe, and leaves one halving less |
| SortedIndex.HalvingsIsCeilLog2 | storage/memory/binary_search.go:11-13 | the number of halvings is the base-2 logarithm rounded up |
| SortedIndex.PlaceIsUpsert | storage/memory/binary_search.go:93-118 | overwriting or splicing at the place a search returned is inserting into the sorted list by a plain walk |
| SortedIndex.UpsertKeepsAscending | storage/memory/binary_search.go:81-82 | a write keeps the slice strictly sorted, hence free of duplicates, and adds no other key |
| SortedIndex.UpsertAssigns | storage/memory/binary_search.go:95-118 | as a map, a write is one assignment |
| SortedIndex.LocatedAnswers | storage/memory/binary_search.go:73-78 | a finished search finds a key exactly when the map has it, with the map's value |
| Memory.HashTable.Get | storage/memory/hash_table.go:30-39 | answers as the map does |
| Memory.HashTable.Put | storage/memory/hash_table.go:43-50 | one assignment |
| Memory.LastWriteAnswers | storage/memory/hash_table.go:30-50 | after any writes, a lookup is answered with the destination of the last write for that URL, or not found if there was none |
| Memory.LinearSearch.Get | storage/memory/linear_search.go:28-39 | the first entry for a key answers |
| Memory.LinearSearch.Put | storage/memory/linear_search.go:42-51 | appends |
| Memory.BinarySearch.Find | storage/memory/binary_search.go:32-66 | found with the key's position, or the neighbour of an absent key; exactly 1 + ceil(log2 n) probes if absent, no more if present |
| Memory.BinarySearch.Get | storage/memory/binary_search.go:69-79 | answers as the map the slice stands for |
| Memory.BinarySearch.Put | storage/memory/binary_search.go:83-121 | the slice becomes the plain insertion, stays sorted, and stands for the updated map |
| Memory.BinarySearchAgreesWithHashTable | storage/memory/binary_search.go:69-121 | after any writes, every lookup is answered as by the hash table |
| Memory.LinearSearchAgreesIff | storage/memory/linear_search.go:28-51 | agrees with the hash table on all keys exactly when no key's last destination differs from its first |
| Concurrent.EveryRunIsLinearizable | storage/memory/binary_search.go:32-121 | every run under every schedule has an order of whole operations on a map with the same answers that respects real time, and the slice stands for the map it ends in |
| Concurrent.GetSeesLastPut | storage/memory/binary_search.go:69-121 | in that order, a Get answers with the destination of the last Put for its URL before it, or that there is none |
| Concurrent.RunKeepsInvariant | storage/memory/binary_search.go:32-121 | in every reachable state the slice is sorted, every search in flight has a correct window, and calls have taken effect exactly when they have an answer |
| Concurrent.ExclusiveStays | storage/memory/binary_search.go:69-85 | the mutex counts its readers, and a writer is alone |
| Concurrent.SomeCallCanMove | storage/memory/binary_search.go:32-85 | no call that holds the mutex is ever stuck or out of bounds, and while calls are outstanding one of them can move |
| Concurrent.CallsCanArrive | storage/memory/binary_search.go:69-85 | a new call can arrive in every state, and changes no other call |
| Concurrent.HoldersAreQuick | storage/memory/binary_search.go:32-121 | whatever other calls do, one that has the mutex makes at most 4 + ceil(log2 n) more steps in all, and at most 3 on an empty slice |
| Uid.SlugRoundTrip | uid/uid.go:55-66 | a slug decodes to its type and payload, of any length |
| Uid.SlugsNeverCollide | uid/uid.go:12-22 | two slugs are equal exactly when type and payload are |
| Uid.TypeZeroCollides | uid/uid.go:12-22 | with type 0, payloads that differ by a leading zero would collide |
| Uid.SlugIsCanonical | uid/uid.go:61-65 | only base-62 digits, none leading zero |
| Uid.TextRoundTrip | uid/uid.go:65 | base-62 text decodes to its number |
| Uid.CanonicalTextRoundTrip | uid/uid.go:65 | and every canonical text is the text of its number |
| Uid.BytesRoundTrip | uid/uid.go:61-63 | bytes that do not start with zero are recovered from their number |
| Uid.LengthIsExact | uid/uid.go:65 | a text has L digits exactly when its number lies from 62^(L-1) to below 62^L |
| Uid.SlugLength | uid/uid.go:61-65 | slugs of a type and payload length have L characters whenever their numbers lie between these powers |
| Uid.RandomSlugs | uid/uid.go:70-79 | a random slug, type 1, has five characters and gives the three bytes back; without entropy there is none |
| Uid.KnownTypes | uid/uid.go:14-22 | types 1, 90 and 91 exist; type 91 always makes a slug, type 1 with entropy, no other ever |
| Uid.StaticSlug | uid/uid.go:30-36 | the static slug is "6SCxiHS", as `api/dev/url_test.go` expects |
| DocumentPaths.PlussedIs | storage/firestore/firestore.go:134 | every slash becomes a plus where it is, and nothing else changes |
| DocumentPaths.PathOfAddressable | storage/firestore/firestore.go:130-138 | for plain hosts the document is "links/" and the host, followed by "/id/" and the path with pluses if there is a path, and it has a reference |
| DocumentPaths.CleanRules | storage/firestore/firestore.go:137 | cleaning ignores empty parts, "." and a part with ".." behind it, and keeps what has none of these |
| DocumentPaths.CleanLeavesNothing | storage/firestore/firestore.go:137 | a cleaned path has none of them left: it goes up and then down, and is "." if nothing remains |
| DocumentPaths.ReferenceIff | storage/firestore/firestore.go:56 | a path has a document reference exactly when the number of its slashes is odd |
| DocumentPaths.SameDocumentIff | storage/firestore/firestore.go:130-138 | any two URLs share a document exactly when the cleaned parts of host and path, put together, are the same |
| DocumentPaths.PlainSameDocumentIff | storage/firestore/firestore.go:130-138 | on plain hosts, exactly when hosts agree and paths agree after "/" becomes "+", with ".." taken for no path and "." for a bare "id" |
| DocumentPaths.DocumentsAreDistinct | storage/firestore/firestore.go:130-138 | on plain hosts and paths without "+", two URLs share a document exactly when hosts and paths are the same, or the hosts are and each path is empty or ".." |
| DocumentPaths.DotDotIsTheHost | storage/firestore/firestore.go:137 | the path ".." leads to the document of the host, on every host |
| DocumentPaths.HostAliases | storage/firestore/firestore.go:131-137 | a host may contain slashes: every path of every host is also reached from another host without any path |
| Firestore.OwnerIsSafe | storage/firestore/firestore.go:55-89 | if only the owner has writes pending, then in every continuation the owner stays and every write is the owner's |
| Firestore.OwnerIsSafeIff | storage/firestore/firestore.go:66-82 | that condition is necessary and sufficient for the owner to stay in every continuation |
| Firestore.OnlyCreatorsOwn | storage/firestore/firestore.go:66-82 | however writers interleave, only agents that found the document absent, or held it before, own or write it |
| Firestore.SoleCreatorOwns | storage/firestore/firestore.go:66-82 | a document that one agent set out to create belongs to that agent |
| Firestore.CorruptStays | storage/firestore/firestore.go:70-72 | an unreadable document is never overwritten by a new write |
| Firestore.TwoCreatorsCanFlap | storage/firestore/firestore.go:66-82 | two agents that race to create a document can take it from each other any number of times |
| Firestore.Store.Get | storage/firestore/firestore.go:36-51 | each error exactly in its case, otherwise the parsed target |
| Firestore.Store.Put | storage/firestore/firestore.go:55-89 | read then set of the concurrent model in a row; no error exactly for a permitted and confirmed write; unauthorized exactly for a foreign document; every other error exactly in its case; an error changes nothing unless an unconfirmed set took effect |
| Firestore.Store.Owns | storage/firestore/firestore.go:92-110 | true exactly for the named owner of a readable document |
| Jwts.NeedsPermission | api/auth/jwts/jwts.go:29-44 | refuses exactly those who lack a non-empty permission |
| Jwts.Validate | api/auth/jwts/jwts.go:59-70 | passes exactly with a subject and the needed permission; a missing subject is reported first |
| Jwts.BearerRoundTrip | api/auth/jwts/server_interceptor.go:23-25 | a token comes out whole, without a prefix, with "Bearer ", or with that in any mixture of cases |
| Jwts.StripsFirst | api/auth/jwts/server_interceptor.go:213 | the first prefix goes, in any case of its letters, what is before it stays, and stripping goes on behind it |
| Jwts.StripsNothingElse | api/auth/jwts/server_interceptor.go:213 | a text without a prefix stays as it is |
| Jwts.ServerInterceptor.AddPermissions | api/auth/jwts/server_interceptor.go:104-112 | the scopes added last count |
| Jwts.AdmittedIff | api/auth/jwts/server_interceptor.go:196-225 | with a scope, a call passes exactly with one "authorization" value that verifies without its prefix, has a subject and holds the scope; its agent is "sub:" and that subject |
| Jwts.ServerInterceptor.ValidateCtx | api/auth/jwts/server_interceptor.go:174-227 | passes exactly the public methods and the callers that AdmittedIff describes, sets their agent, removes the token unless the method is unknown, keeps all other metadata, and gives each error exactly in its case |
| TokenFile.OverlayAt | api/auth/tokens/storage/storage.go:56-61 | writing without truncation, byte by byte: the new contents, and behind them what was there |
| TokenFile.OverlayIsExactIff | api/auth/tokens/storage/storage.go:56-61 | what is written over a leftover is exact if and only if the leftover is no longer |
| TokenFile.NeverPartial | api/auth/tokens/storage/storage.go:54-75 | wherever a run of writes stops, the file holds the last completed write over its leftover, or what it held at first |
| TokenFile.CutShort | api/auth/tokens/storage/storage.go:54-75 | a write stopped anywhere, in pieces of any size, leaves all of the new contents over the leftover if it got to the rename, and the old contents otherwise |
| TokenFile.GrowingWritesAreExact | api/auth/tokens/storage/storage.go:54-75 | if writes never get shorter, every completed one is exact, whatever is cut short between them |
| TokenFile.ScriptMakesDisk | api/auth/tokens/storage/storage.go:54-75 | a whole write with a fault in any call is what its system calls do one by one |
| TokenFile.File.Read | api/auth/tokens/storage/storage.go:31-50 | not found exactly without a file; otherwise all of it, or a failure |
| TokenFile.File.Write | api/auth/tokens/storage/storage.go:54-75 | both files after success and after each failure; failures leave the file alone; success is exact if and only if the leftover is no longer |
| TokenCache.IsDifferent | api/auth/tokens/source.go:134-160 | not to differ is to look the same to the comparison, hence an equivalence |
| TokenCache.DifferentIff | api/auth/tokens/source.go:134-160 | tokens differ exactly when one is missing, or access token, refresh token or expiry do; the type does not count |
| TokenCache.AnswerIsExact | api/auth/tokens/source.go:108-132 | an unchanged token is handed out, a changed one exactly if it can be encoded and stored, in each case as delivered; each error exactly in its case |
| TokenCache.AfterIsExact | api/auth/tokens/source.go:121-131 | memory changes exactly when a changed token is stored; the files change exactly when it can be encoded |
| TokenCache.CallKeepsAgreement | api/auth/tokens/source.go:108-132 | a call keeps memory and file in agreement, hands out what is stored, and changes neither on error |
| TokenCache.AgreementIff | api/auth/tokens/source.go:121-131 | after storing a token, memory and file agree if and only if nothing but white space of the leftover swap file reaches beyond the new contents |
| TokenCache.TornFromAgreement | api/auth/tokens/source.go:121-131 | from agreement and a clean directory, a write that fails at the rename and then another one get there: the second is handed out, and readable exactly under that condition |
| TokenCache.NextWriteHeals | api/auth/tokens/source.go:121-131 | after any completed write, torn or not, the next completed write of the same process restores agreement if no call in between opened the swap file |
| TokenCache.NextWriteHealsIff | api/auth/tokens/source.go:121-131 | after any run, from any state, a completed write restores agreement exactly when it meets a harmless leftover |
| TokenCache.NextWriteTearsAgain | api/auth/tokens/source.go:121-131 | when another write failed at the rename in between, the next completed one agrees exactly when nothing but white space of the failed one reaches beyond it |
| TokenCache.FailedWritesAreRetried | api/auth/tokens/source.go:117-131 | a token is not handed out while its writes fail, however often; it is tried again at each delivery, and is current once a write succeeds |
| TokenCache.RunKeepsAgreement | api/auth/tokens/source.go:108-132 | over every run, memory and file agree, every token handed out is the stored one, and the last one is current |
| TokenCache.HandsOutStoredIff | api/auth/tokens/source.go:108-132 | from agreement, every token handed out in a run is the stored one at that moment if and only if each write that replaces the file meets a harmless leftover |
| TokenCache.UntouchedStorageIsClean | api/auth/tokens/storage/storage.go:17-23 | on a storage where failed writes change nothing, the premise of these results always holds |
| TokenCache.GrowingRunIsClean | api/auth/tokens/source.go:108-132 | the premise holds over every run that never wants to store a shorter encoding than before, or than the leftover at the start, whichever writes fail |
| TokenCache.GrowingLivesAreClean | api/auth/tokens/source.go:56-132 | and likewise over any number of processes, wherever they die |
| TokenCache.UsableIff | api/auth/tokens/source.go:73 | a token is kept if it can be refreshed, or has a text and does not expire within ten seconds |
| TokenCache.StartWithFile | api/auth/tokens/source.go:61-76 | a start with a file fails if that cannot be read or decoded, keeps exactly a usable token, and runs the seed otherwise |
| TokenCache.StartWithSeed | api/auth/tokens/source.go:78-101 | a start that runs the seed hands out its token exactly if that can be encoded and stored; each error in its case |
| TokenCache.StartAgrees | api/auth/tokens/source.go:56-103 | a source that starts is in agreement with its file |
| TokenCache.RestartAfterRun | api/auth/tokens/source.go:56-101 | after any run, a restart begins with the token handed out last, and runs the seed exactly when that is neither valid nor refreshable |
| TokenCache.CrashKeepsOldOrNew | api/auth/tokens/source.go:121-131 | a crash while a token is stored leaves that token if the file had been replaced, and what was there before otherwise |
| TokenCache.FileSurvivesCrashes | api/auth/tokens/source.go:56-132 | over any number of processes that fail to start, stop, or die in the middle of a write, the file holds the token handed out last, or the newer one that a dying process had just put in place |
| TokenCache.RestartAfterCrashes | api/auth/tokens/source.go:56-101 | a start after any such history begins with that token, and runs the seed exactly when there is none or it is neither valid nor refreshable |
| TokenCache.NoStartRepairs | api/auth/tokens/source.go:67-71 | after a write over a leftover that does harm, no start gets past the file, or touches it |
| TokenCache.CachingSource.New | api/auth/tokens/source.go:44-104 | the outcome of a start is `FirstToken`, and the files are `FirstDisk`, which the results about starts and restarts are about |
| TokenCache.CachingSource.Token | api/auth/tokens/source.go:108-132 | the outcome of a call is `Answer`, and memory and files are `After`, which the results about calls and runs are about |
| Links.URLEnricher.Enrich | api/dev/url.go:24-41 | fills in host and path where they are missing; the host even if no path can be made |
| Links.API.Get | api/dev/url.go:53-73 | the stored target, or each status exactly in its case |
| Links.RequestedIsExact | api/dev/url.go:76-94 | the link a call asks for, piece by piece: its destination is the parsed one of the request, host and path are those of the request, or the domain and a generated path where they are missing |
| Links.API.New | api/dev/url.go:76-106 | stores exactly the requested link and returns its text, or stores nothing |
| Links.RedirectHandler.Redirect | server/storage.go:17-45 | redirects to the stored target, or leaves a not-found or internal problem |
| Links.LatestCallWins | api/dev/url.go:76-106 | after any run of calls, a URL leads to the destination that the latest successful call for it named, and nowhere without one |
| Links.NewAll | api/dev/url.go:76-106 | calls to the API, one after the other, from an empty store, leave exactly the table that the row above is about |
| Links.RequestFindsLink | server/storage.go:18-23 | a request meets a link exactly when host and path are those of the link, or print like them as `ServedKeysAgree` says |
| Links.Yaml.Load | storage/yaml/yaml.go:38-71 | the store gets the readable rows in order, the last for a URL counting, up to the first one it refuses |
| Links.LastRowWins | storage/yaml/yaml.go:46-68 | after loading, a URL leads where the last readable row for it says, or where it did before |
| Links.Yaml.Put | storage/yaml/yaml.go:77-79 | refuses, and changes nothing |
| EndToEnd.EveryDocumentIsAuthorised | api/auth/jwts/server_interceptor.go:174-227 | however requests interleave, every document comes from a request with a verified subject, its owner, and the scope |
| EndToEnd.PublicMethodIsAnonymous | api/auth/jwts/server_interceptor.go:187-194 | if the method had no scope, documents would be owned in nobody's name |
| EndToEnd.OwnerIsSafeOnline | storage/firestore/firestore.go:55-89 | whatever requests come in, an owner with no foreign write pending keeps the document |
| EndToEnd.TurnIsAuthorised | api/dev/url.go:76-106 | a request served alone writes at most one document, absent before or its subject's own |
| EndToEnd.TurnIsExact | api/dev/url.go:76-106 | a request that is admitted and complete writes its document exactly when that can be reached, is free or the agent's own, and the set is carried out |
| EndToEnd.EveryTurnIsAuthorised | api/dev/url.go:76-106 | from an empty store, requests served one by one leave only documents that one of them authorises |
| EndToEnd.TurnIsArriveAndFinish | storage/firestore/firestore.go:55-89 | in the interleaved model, a request that is finished before anything else happens does what a turn does |
| EndToEnd.OwnerDecides | api/dev/url.go:76-106 | without interleaving, a document keeps its owner for good, and only the owner, with the scope, redirects it |
| EndToEnd.GeneratedLinksAreDistinct | uid/uid.go:12-22 | links with a generated path share a document exactly when host, type and bytes are the same |
| EndToEnd.EnrichedLinksAreDistinct | api/dev/url.go:24-41 | two calls that leave out the path ask for the same document exactly when the hosts are the same once filled in, and the generators have one type and drew the same bytes |

## Left out

- `storage/boltdb`, `storage/di`, `cfg`, `cmd`, `cli`, `api/di`, `main.go`, wire files: thin wrappers, configuration and plumbing.
- HTTP and gRPC transport, the error middleware, the matchers, logging and printing: library behaviour or single branches.
- JWT signatures and registered claims, key sets and the device flow: one function from a token to its claims, or none.
- User info, queries and fragments in URLs: a parsed URL prints as any text; URLs built from a host and a path are printed by the model, with percent-encoding.
- Changes to an URL object after it was stored: the stores keep references, the model keeps values.
- The preference of Go's read-write mutex for waiting writers: the model allows every order, so it covers those that Go allows.
- `api.X40Permissions`: the scopes of methods are a parameter; where it matters that New has one, the premise `Guarded` says so.
- Concurrent calls to one caching source, and two processes writing one swap file: the code has no lock for either, and the model has one writer at a time.
- JSON: encoding and decoding are a parameter that keeps access token, refresh token and expiry, and, where a result needs it, ignores white space after a value and rejects everything else there.
- `uid.Rand` fills a buffer; here the three bytes are a value.
- Building the new slice inside `Put` and publishing it are one step of the concurrent model: the new slice is local to the writer until it is published.
- Durability beyond the atomic rename, quality of randomness, timeouts, the monotonic part of times.
