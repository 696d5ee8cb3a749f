# Verified core of the SSO server

A Dafny model of the stateful parts of the SSO server: the rate limiter, the string interning pool, the arena
allocator, the JSON containers of the bundled yyjson header, the authorization-code and refresh-token grants, the
base-32 codec and one-time passwords, the span exporter and the route matcher. Code that works by changing things in
place is modelled by classes, arrays and loops whose contracts tie the new state to a specification function; what the
code is for is then proved about those functions, over every input, every run or every interleaving.

`dafny verify dfyconfig.toml` checks the whole project.

| files | component |
|---|---|
| `RateLimiter`, `RateLimiterRuns`, `RateLimiterBurst`, `RateLimiterAccess` | open-addressed table with reuse of expired slots and LRU eviction |
| `InternPool`, `InternCells`, `InternTable`, `InternConcurrency`, `InternCalls` | chained hash table with doubling over linked cells, and its read-then-write locking |
| `ArenaLayout`, `Arena`, `ArenaSystem`, `ArenaSharing` | bump allocation over a linked chain of blocks; any number of arenas under one metric; requests that share a block |
| `JsonRing`, `JsonArray`, `JsonObject`, `JsonObjectLaws` | mutable JSON containers: circular lists with a tail pointer |
| `JsonFlat` | parsed JSON: a preorder encoding of a tree |
| `RedirectUris`, `OAuth`, `OAuthRuns`, `OAuthGrants` | redirect list, authorization codes, refresh tokens |
| `Bits`, `Base32`, `Base32Laws`, `Totp` | base-32 text and one-time passwords |
| `SpanQueue`, `SpanExporter`, `SpanContext` | bounded queue, producers, batching workers, shutdown; the open spans of a thread |
| `Routes` | path patterns |
| `Basics` | optional values, the 64-bit word, powers of two |

What comes from outside is a parameter: hash functions, HMAC and the S256 transformation are arbitrary functions;
what `malloc` returns is an input, nothing or a range apart from the blocks in use; so are the clock, random bytes, codes
and tokens, user lookups and allocation failures. 64-bit wrap-around is written
out where the code depends on it (elapsed times, the delete loop's counter, the address in the in-place test, the
one-time-password step). A null container argument of the JSON routines is not distinguished from a value of another
kind, for which they do nothing.

Results that may surprise a reader of the code:

- A key of 64 or more characters is stored cut off and compared whole, so the rate limiter never finds it again and
  accepts its every check in every run; any shorter key can be refused: `LongKeyIsNeverLimited`,
  `LimitedExactlyWhenShort`.
- `arena_alloc` rounds to 16 bytes, not to the 8 its comment names; `Align` follows the code.
- A counter that has been reset counts from zero instead of one, so the sliding bound is `2 * max` there and
  `2 * max - 1` otherwise: `SlidingBound`. Both are attained: `ResetBoundIsReached`, `BoundIsReached`.
- The iterator lookup of an object equals the plain lookup exactly when the plain one's member is not behind the
  iterator, or no later member has the key: `LookupsAgreeExactly`.
- A span started with sixteen or more open gets no parent: `SiblingsShareParent`.
- A producer that read the running flag before a shutdown can queue a span after the worker has left, and it stays
  queued: `LateSpanStaysQueued`. A shutdown that finds a worker sends every accepted span, however it goes on, if and
  only if no producer is on its way in: `ShutdownSendsAll`.
- A slash at the end of a route pattern is not always ignored: `/*` matches `/a/b` and `/*/` does not
  (`SlashBehindStarMatters`). `PatternSlashIgnored` and `PathSlashIgnored` say for exactly which patterns a slash at the
  end of the pattern, or of the path, is ignored.

## Model

| member | source | states |
|---|---|---|
| RateLimiter.Table.Create | src/ratelimit.c:45-61 | no table for zero entries, otherwise all slots empty |
| RateLimiter.Table.FindOrEvict | src/ratelimit.c:74-103 | the one-pass probe returns the first slot with the key or no key, else the first expired slot, else the slot with the least last access |
| RateLimiter.Table.Check | src/ratelimit.c:105-141 | the new table and the answer are those of `CheckTable` on the old table |
| RateLimiter.Table.Reset | src/ratelimit.c:143-164 | the new table is that of `ResetTable` on the old one |
| RateLimiterRuns.StopFindsKey | src/ratelimit.c:82-87 | under the probe invariant, stopping at the first match or empty slot finds a stored key wherever it is |
| RateLimiterRuns.StopWithoutKey | src/ratelimit.c:82-87 | without the key the probe stops at an empty slot, unless the table is full |
| RateLimiterRuns.WhereCheckLands | src/ratelimit.c:74-103 | check lands on its own key exactly when stored, on another key only when the table is full, and every slot from home to there is occupied |
| RateLimiterRuns.VictimIsLeastRecentlyUsed | src/ratelimit.c:95-102 | full table, key absent, nothing expired: no slot has an earlier last access than the victim, and of several as early it is the one probed first |
| RateLimiterRuns.ExpiredSlotIsPreferred | src/ratelimit.c:89-102 | full table, key absent, some slot expired: the chosen slot is expired, and no expired one is probed before it |
| RateLimiterAccess.AccessIsLastUse | src/ratelimit.c:105-164 | in every run from a new table, the last access of each stored key is the time of its last check, or 0 after a reset |
| RateLimiterAccess.VictimWasUnusedLongest | src/ratelimit.c:89-102 | in every such run, a check that evicts takes the slot of a key that no stored key was last checked before, and all other slots stay |
| RateLimiterRuns.RunKeepsTable | src/ratelimit.c:74-164 | every run keeps: slots between a key's home and its slot are occupied, no key occurs twice, no date lies in the future |
| RateLimiterRuns.NewTableOk | src/ratelimit.c:45-61 | a new table satisfies that invariant |
| RateLimiterRuns.KeyRefinement | src/ratelimit.c:105-164 | in every run that never evicts a key's live entry, all answers for that key equal those of an unbounded map of counters |
| RateLimiterRuns.TableRefinesMap | src/ratelimit.c:74-164 | from a new table, if every insertion into a full table finds an expired slot, all answers equal those of the unbounded map |
| RateLimiterRuns.AgreementLostExactlyByEviction | src/ratelimit.c:89-103 | after a check of another key, table and map agree on the key for every limit if and only if its live entry was not evicted |
| RateLimiterRuns.LongKeyIsNeverLimited | src/ratelimit.c:74-141 | on every table of stored keys, in every run, each check of a key of at least 64 characters is accepted, whatever the window and the limit |
| RateLimiterRuns.LimitedExactlyWhenShort | src/ratelimit.c:74-141 | on every new table, some run has a refused check of the key if and only if the key has fewer than 64 characters |
| RateLimiterRuns.SlidingBound | src/ratelimit.c:105-141 | any closed interval of one window's length holds at most 2*max accepted checks of a key that is not reset or evicted, and at most 2*max - 1 unless it starts on a counter just reset |
| RateLimiterRuns.WindowBound | src/ratelimit.c:118-138 | each single counting window holds at most max accepted checks, less those counted before |
| RateLimiterBurst.BoundIsReached | src/ratelimit.c:105-141 | on every new table, for every storable key, positive limit and window from 1 to 2^64 - 2, some run has exactly 2*max - 1 checks accepted within one window's length, so the bound cannot be improved |
| RateLimiterBurst.ResetBoundIsReached | src/ratelimit.c:105-164 | from every table holding a counter just reset, some run has exactly 2*max checks accepted within one window's length |
| RateLimiterBurst.ResetLeavesZero | src/ratelimit.c:143-164 | a check and a reset of any key on any new table lead to such a table |
| InternPool.MaskIsRemainder | src/intern.c:53 | for a power of two, masking with capacity - 1 is the remainder, for every hash |
| InternPool.MissIsSound | src/intern.c:53-62 | no match in the masked bucket means the text is nowhere in the pool |
| InternPool.HitIsSound | src/intern.c:55-60 | a match is the node whose copy spells the text |
| InternPool.LinkKeepsPool | src/intern.c:115-122 | linking a new node keeps the pool well formed, adds exactly that node and keeps every earlier text at its pointer |
| InternPool.RehashKeepsPool | src/intern.c:81-100 | a rehash keeps the pool well formed and every text at exactly the same pointers |
| InternTable.Table.Search | src/intern.c:52-62 | finds the pointer of the text, and none exactly when it is not interned |
| InternCells.FindCell | src/intern.c:54-62 | the walk along the next pointers stops at the first cell that matches, or has passed every cell |
| InternCells.Push | src/intern.c:90-91 | a cell goes in front of its chain; every chain stays a list of its own cells |
| InternCells.Relink | src/intern.c:86-93 | taking a chain apart by its next pointers moves exactly its nodes to the new table, each in its masked bucket, and leaves the old array and the other chains alone |
| InternCells.Rehash | src/intern.c:82-97 | a new array of twice the size whose chains hold exactly the old nodes, each in its masked bucket |
| InternTable.Table.Grow | src/intern.c:81-100 | the grown table is well formed and has every text at exactly the same pointers |
| InternTable.Table.Link | src/intern.c:115-122 | the new cell goes in front of its chain, its buffer holds the text and a NUL, everything else is kept |
| InternTable.Table.Insert | src/intern.c:79-127 | grows exactly at three quarters full, keeps all earlier pointers and contents, interns nothing but the text, and keeps the load at most three quarters while growth succeeds |
| InternTable.Table.Intern | src/intern.c:45-128 | returns the pointer of the text; NULL exactly for a NULL argument or a failed allocation of a new text; known texts change nothing, and no other text is interned |
| InternConcurrency.StepKeepsInv | src/intern.c:45-128 | every step of every thread keeps the pool, the lock discipline and where each walker stands, and never takes back a result |
| InternConcurrency.RunKeepsEverything | src/intern.c:45-128 | over every interleaving, interned texts stay at their pointers with their contents |
| InternCalls.PointersAreTexts | src/intern.c:45-128 | in every interleaving of any number of callers, two returned pointers are equal if and only if the texts are, each holds its text, and the table is at most three quarters full unless a growth failed |
| InternCalls.EveryCallIsAnswered | src/intern.c:45-128 | in every interleaving, the pointers returned are, one for one and in order, those of the calls that ended other than by a failed allocation, each for the text its call asked for; a growth counts as failed exactly when one has |
| InternCalls.HitReturnsPointer | src/intern.c:55-60 | a call that ends in a hit, in either walk, returns the pointer its text is interned at |
| InternCalls.NullOnlyForNewText | src/intern.c:102-127 | a call runs out of memory, or makes a new pointer, only for a text that is not interned then |
| InternCalls.NeverStuck | src/intern.c:45-128 | in every reachable state a thread in a call can go on, or waits for the write lock while one that holds a lock can |
| InternCalls.WhatIsAllowed | src/intern.c:48-120 | in every reachable state: a call starts exactly when the thread is at rest and nobody writes, growth is tried exactly at three quarters full, and a new node is linked at any address not in use |
| ArenaLayout.Align | src/arena.c:19-20 | the least multiple of 16 not below the size |
| ArenaLayout.AlignClearsLowBits | src/arena.c:20 | adding 15 and clearing the low four bits gives that multiple |
| ArenaLayout.AllocationFits | src/arena.c:69-74 | every allocation is 16-byte aligned and inside the used part of its block |
| ArenaLayout.AllocationsAreDisjoint | src/arena.c:62-124 | any two allocations of an arena are disjoint |
| ArenaLayout.TestPicksLastAllocation | src/arena.c:158 | the pointer test of realloc, with its 64-bit wrap-around, holds exactly for the last allocation of the tested block |
| Arena.Arena.constructor | src/arena.c:27-34 | an empty chain; block size 0 means 4096 |
| Arena.Arena.CreateBlock | src/arena.c:44-54 | an empty block apart from all others, counted in the block metric; null exactly when malloc fails |
| Arena.Arena.Alloc | src/arena.c:62-124 | a new last allocation of the rounded size in the current block if it fits; if large, in a block of just that size right behind the current one; else in the next block with room, all between being too full, or in a new block of the default size when all behind are; no block lost, no other allocation changed, metric in step; fails only for size 0 or without memory |
| Arena.Arena.Advance | src/arena.c:96-104 | stops at the first block with room behind the current one; without one, all blocks behind were too full |
| Arena.Arena.Splice | src/arena.c:85-91 | a large block goes right behind the current one; the chain stays linked and keeps every block in order |
| Arena.Arena.CanResize | src/arena.c:157-166 | true exactly for the last allocation of the current block, when it shrinks or has room |
| Arena.Arena.ResizeHere | src/arena.c:159-168 | that allocation has the new size at its old place; no byte and no other allocation changes |
| Arena.Arena.Realloc | src/arena.c:146-178 | in place exactly when the test and the room allow it; otherwise a disjoint new allocation with the common bytes copied, all other allocations and bytes unchanged, in the current block if it fits, a new block being sized as for an allocation; fails only for size 0 or without memory |
| Arena.CommonPrefixSurvives | src/arena.c:171-177 | after a move every byte of the common prefix, and every byte of any other allocation, reads as before |
| Arena.Arena.ReallocKeepsPrefix | src/arena.c:146-178 | after every reallocation that returns a pointer, each byte both sizes have in common is at the result |
| Arena.Arena.ReallocSparesOthers | src/arena.c:146-178 | after every reallocation, each byte of each allocation there was reads as before |
| Arena.Arena.Reset | src/arena.c:216-243 | the chain is exactly the blocks of at most the default size, in order and empty; current is the first; metric in step |
| Arena.KeptMembers | src/arena.c:223-241 | exactly the blocks up to the limit are kept |
| Arena.Arena.Destroy | src/arena.c:197-214 | the chain is empty and the metric falls by its length |
| Arena.AllocationsStandApart | src/arena.c:62-124 | of every arena in order: each allocation is 16-byte aligned, inside the used part of its block, and disjoint from every other allocation of every block |
| ArenaSharing.AllocEach | src/arena.c:68-74 | requests that fit the current block together lie one behind the other in it, and no memory is asked for |
| ArenaSharing.RequestsShareBlock | src/arena.c:62-124 | the first ordinary request of an arena makes one block of the default size, and all further ones that still fit are answered from it, one behind the other |
| ArenaSystem.InitIn | src/arena.c:27-34 | a new arena joins any number of others without a change of the metric |
| ArenaSystem.AllocIn | src/arena.c:44-124 | with any number of arenas in one process, an allocation in any one of them keeps: all are in order with blocks of their own, and the metric is the number of blocks on all chains |
| ArenaSystem.ReallocIn | src/arena.c:146-178 | so does a reallocation |
| ArenaSystem.ResetIn | src/arena.c:216-243 | so does a reset |
| ArenaSystem.DestroyIn | src/arena.c:197-214 | so does a destroy |
| Arena.Arena.Contains | src/arena.c:245-255 | true exactly for addresses inside some block of the chain |
| JsonArray.Insert | include/yyjson.h:6523-6552 | inserts at the index into the sequence, for every index up to the length; keeps the cycle and the tail; a refused call changes nothing |
| JsonArray.Append | include/yyjson.h:6554-6571 | adds at the end |
| JsonArray.Prepend | include/yyjson.h:6573-6590 | adds in front |
| JsonArray.Replace | include/yyjson.h:6592-6618 | replaces the element and returns the old one |
| JsonArray.Remove | include/yyjson.h:6620-6642 | takes out the element at the index |
| JsonArray.RemoveFirst | include/yyjson.h:6644-6661 | takes out the first element |
| JsonArray.RemoveLast | include/yyjson.h:6663-6683 | takes out the last element |
| JsonArray.RemoveRange | include/yyjson.h:6685-6705 | takes out the range; fails exactly when it does not fit |
| JsonArray.Clear | include/yyjson.h:6707-6713 | leaves the empty sequence |
| JsonArray.Rotate | include/yyjson.h:6715-6725 | rotates the sequence to the left by the index |
| JsonArray.RemoveUndoesInsert | include/yyjson.h:6523-6642 | removing at the index of an insertion gives the old sequence back |
| JsonArray.RotateBack | include/yyjson.h:6715-6725 | rotating on by the rest of the length gives the old sequence back |
| JsonObject.Iter.Next | include/yyjson.h:6953-6963 | the keys in order, one per call, then null |
| JsonObject.Iter.Remove | include/yyjson.h:6970-6985 | cuts out the current pair, keeps the cycle, and steps the iterator back |
| JsonObject.RemoveStrn | include/yyjson.h:7469-7485 | the iterator-based delete leaves exactly the pairs of other keys, in order, and returns the first matching value |
| JsonObject.RemoveCounting | include/yyjson.h:7124-7150 | so does the index loop, whose counter may pass below zero and back |
| JsonObject.Add | include/yyjson.h:7107-7122 | appends a pair to the cycle |
| JsonObject.Put | include/yyjson.h:7192-7216 | the pairs become `PutPairs` of the old ones; fails, and changes nothing, exactly for a non-object or a key that is not a string |
| JsonObjectLaws.PutOverOldValue | include/yyjson.h:7192-7216 | put over an existing key: the key occurs once, at its first old position, with the new value, all other pairs in order |
| JsonObjectLaws.PutUnderNewKey | include/yyjson.h:7192-7216 | put under a new key: the pair comes last, all others unchanged |
| JsonObjectLaws.WithoutTwice | include/yyjson.h:7124-7150 | after a delete the key is gone, and deleting again changes nothing |
| JsonObjectLaws.DeleteForgetsOnlyThatKey | include/yyjson.h:7124-7150 | a delete changes neither the first value nor the number of pairs of any other key |
| JsonFlat.NextSkipsValue | include/yyjson.h:5124-5130 | get_next moves past the whole encoding of a value, for every tree |
| JsonFlat.FlatMeansOneCellEach | include/yyjson.h:5069-5073 | the flat test holds if and only if every child occupies one cell |
| JsonFlat.FlatChildPos | include/yyjson.h:5536-5550 | then child idx is idx cells behind the first |
| JsonFlat.ArrGet | include/yyjson.h:5536-5550 | both paths return the idx-th child of every encoded array, and nothing past the end or for another kind |
| JsonFlat.ObjGetN | include/yyjson.h:5631-5643 | the value of the first member with the key |
| JsonFlat.ObjIter.Advance | include/yyjson.h:5674-5682 | the keys in order, one per call |
| JsonFlat.ObjIter.GetN | include/yyjson.h:5693-5720 | from any position: inspects each member at most once, finds the first match on the way round, leaves the iterator alone on a miss, which means no member has the key |
| JsonFlat.LookupsAgreeExactly | include/yyjson.h:5693-5720 | the two lookups agree exactly when the plain one is not behind the iterator or no later member has the key; always with unique keys |
| RedirectUris.IsAllowed | src/oauth.c:97-119 | true exactly when some non-empty field between commas of the 511-character copy reads the URI once trimmed |
| RedirectUris.NextToken | src/oauth.c:105-117 | the next non-empty field, with only commas skipped before it |
| RedirectUris.TrimMeans | src/oauth.c:108-114 | trimming takes away exactly the spaces in front and behind |
| OAuth.VerifyPkce | src/oauth.c:30-50 | without a challenge anything passes, otherwise exactly a 43 to 128 character verifier that transforms to it |
| OAuth.Server.HandleAuthorize | src/oauth.c:170-342 | a code is stored exactly for a granted request, and its record holds, field by field, what that request sent; the answer names the first fault otherwise |
| OAuth.GrantedMeans | src/oauth.c:172-278 | granted exactly: a complete request for a code, by the configured client or a registered one of status 1, to an address on that client's list, for an active user |
| OAuth.RecordsMeans | src/oauth.c:280-313 | the record is determined: client, user and redirect URI of the request, scope, nonce and challenge if sent, each cut to its field, the method sent or `plain` with a challenge alone, and the configured lifetime or a minute |
| OAuth.Server.HandleExchange | src/oauth.c:411-519 | a redeemable code is marked used before anything else; tokens are stored and answered exactly when the user is active and issuing succeeds |
| OAuth.Server.HandleRefresh | src/oauth.c:589-663 | a usable token is revoked and replaced, a revoked one revokes its whole family, anything else changes nothing |
| OAuth.Server.StoreRefreshToken | src/oauth.c:121-143 | under the hash of the token there is an unrevoked record of the user, issued now, valid for 30 days, with at most 63 characters of the client id; every other record is as it was |
| OAuthRuns.RunKeeps | src/oauth.c:170-663 | over every run, a code or token record only ever changes by becoming used or revoked, and that is never taken back |
| OAuthRuns.CodeHasOrigin | src/oauth.c:280-321 | every stored code was granted by an earlier authorization request, and its record is that request's |
| OAuthRuns.CodeResponseWasAuthorized | src/oauth.c:411-519 | every token response to a code follows a grant of that code to that user, not after expiry, with that request's redirect URI, which was on the list of its client, and with a verifier answering its challenge if it sent one |
| OAuthRuns.CodeIsSpentOnce | src/oauth.c:433-458 | a code passes the checks at most once in every run |
| OAuthRuns.OneResponsePerCode | src/oauth.c:411-519 | each code yields at most one token response |
| OAuthRuns.TokenRotatesOnce | src/oauth.c:608-646 | each refresh token is replaced at most once |
| OAuthRuns.OneResponsePerToken | src/oauth.c:589-663 | each refresh token yields at most one token response |
| OAuthRuns.RefreshResponseIsInTime | src/oauth.c:618-621 | a refresh token is answered with tokens only within 30 days of the earlier step that issued it |
| OAuthRuns.ReplayEndsFamily | src/oauth.c:608-616 | presenting a revoked token makes every token its user then has at its client unredeemable for good |
| OAuthRuns.OneLiveTokenPerChain | src/oauth.c:589-663 | each chain started by a code exchange has at most one token that is not revoked |
| OAuthRuns.RefreshKeepsCount | src/oauth.c:641-646 | a refresh leaves the number of unrevoked tokens of every user at every client unchanged |
| OAuthRuns.LiveTokensAreEarned | src/oauth.c:411-663 | a user never has more unrevoked tokens at a client than code exchanges there |
| OAuthGrants.CodeIsGoodExactly | src/oauth.c:411-519 | over every run, a granted code is answered with tokens for its user if and only if it has not been spent, is in time, and comes with the redirect URI and a verifier for the challenge of its request, the user is active, and issuing and answering succeed |
| OAuthGrants.UsedExactly | src/oauth.c:433-458 | over every run, a code is used up if and only if it has been spent, and nothing else of its record changes |
| OAuthGrants.IssuedTokenIsStored | src/oauth.c:497-646 | trading a code or a token stores the new one, not revoked, for the same user and client, for thirty days |
| OAuthGrants.TokenIsGoodExactly | src/oauth.c:589-663 | over every run, an issued token is answered with new ones for its user if and only if it has neither expired nor been taken away, the user is active, and issuing and answering succeed |
| OAuthGrants.StepRevokes | src/oauth.c:608-646 | a step revokes exactly the token it rotates, or those of the user and client of a revoked one it presents; every record of another user or another client stays as it was |
| OAuthGrants.RevokedExactly | src/oauth.c:608-646 | over every run, a token is revoked if and only if it was, or has been rotated, or a revoked one of its user at its client has been presented; nothing else of its record changes |
| OAuthGrants.TokenBelongsToGrant | src/oauth.c:284-646 | every refresh token is for the user and the client of the request that was granted the code its chain started with |
| OAuthGrants.AuthorizeAnswers | src/oauth.c:172-341 | which answer each fault of an authorization request gets, in which order |
| OAuthGrants.ExchangeRefusals | src/oauth.c:413-505 | which answer each fault of an exchange gets, and that a code past its checks is refused for its user, then for tokens, then for memory |
| OAuthGrants.RefreshRefusals | src/oauth.c:591-653 | the same for a refresh |
| Base32.Encode | src/mfa.c:21-46 | succeeds exactly when the text and its terminator fit, or the input is empty; writes the five-bit groups of the input's bits, zero-filled at the end, and nothing behind the given length |
| Base32.Decode | src/mfa.c:48-77 | writes the whole bytes of the symbols' bits, skipping other characters, and nothing behind the given length; 0 when they do not fit |
| Base32.EmitGroups | src/mfa.c:30-36 | the inner loop writes the next symbols and leaves fewer than five bits |
| Base32Laws.EncodedLength | src/mfa.c:21-46 | n bytes take ceil(8n/5) symbols |
| Base32Laws.DecodeUndoesEncode | src/mfa.c:21-77 | decode(encode(x)) == x for every byte string |
| Base32Laws.EncodeUndoesDecode | src/mfa.c:21-77 | encode(decode(s)) == s if and only if s is canonical: upper-case alphabet, no idle last symbol, zero leftover bits |
| Base32Laws.EncodingChangesBase | src/mfa.c:18-46 | as a number in base 32, A to Z then 2 to 7, the text is the bytes as a big-endian number, moved up by the bits that fill the last symbol |
| Base32Laws.DecodeReadsSymbols | src/mfa.c:48-77 | decoding ignores the case of letters and skips everything that is no letter and no digit from 2 to 7 |
| Totp.Message | src/mfa.c:89-93 | the eight bytes are the big-endian form of the step |
| Totp.GenerateTotp | src/mfa.c:88-105 | the low 31 bits of the four digest bytes at the offset that the last four bits of the digest name, modulo a million; 0 when HMAC fails |
| Totp.SixDigitsAreInjective | src/mfa.c:118-120 | six decimal places tell all codes apart |
| Totp.Verify | src/mfa.c:107-128 | accepts exactly a code of the step before, of or after the current one, for a secret of 1 to 64 bytes |
| Totp.AcceptedNumbers | src/mfa.c:116-125 | the accepted six-digit numbers are exactly those of the three steps |
| Totp.NearbySteps | src/mfa.c:116-118 | steps are 30 seconds long, and the one before step 0 is the last 64-bit one |
| Totp.EnrolledDeviceIsAccepted | src/mfa.c:79-128 | a device holding the raw key is accepted when its period is the server's or a neighbour |
| Totp.GenerateSecret | src/mfa.c:79-86 | 20 raw bytes as 32 symbols if the buffer holds more than 32, otherwise the empty string |
| SpanQueue.Ring.Enqueue | src/otlp.c:69-81 | the span joins the end of the queue, or is dropped when 1024 are queued; signals from 128 on |
| SpanQueue.Ring.Drain | src/otlp.c:145-150 | up to 128 of the oldest spans leave the queue in order |
| SpanQueue.WriteTail | src/otlp.c:71-73 | writing the tail cell adds to the end and changes nothing queued, wherever the ring wraps |
| SpanExporter.StepConserves | src/otlp.c:58-191 | every step keeps: batches followed by the queue are the accepted spans in order |
| SpanExporter.StepKeepsInHand | src/otlp.c:132-164 | every step keeps: a batch not yet sent is in the hands of exactly one worker |
| SpanExporter.DropsOnlyWhenFull | src/otlp.c:70-80 | a span is dropped only when 1024 are queued, and accepted otherwise |
| SpanExporter.CollectsWhenDue | src/otlp.c:138-143 | a worker that is not sending takes a batch exactly when 128 spans are queued or the exporter is stopped |
| SpanExporter.CollectTakesOldest | src/otlp.c:145-162 | it takes the oldest spans, 128 of them or all, and leaves when there are none |
| SpanExporter.StartAndStopOnce | src/otlp.c:167-191 | a start of a stopped exporter adds one worker; a second start or stop changes nothing |
| SpanExporter.EverySpanOnce | src/otlp.c:58-82 | in every interleaving, each span brought to the queue is accepted once or dropped once, and a producer is on its way in exactly from its arrival to then |
| SpanExporter.NothingIsLost | src/otlp.c:58-191 | both hold in every interleaving of producers, workers, start and shutdown |
| SpanExporter.ExitLeavesNothingQueued | src/otlp.c:145-162 | a worker that leaves saw an empty queue: all accepted spans are in batches, and none of its own is unsent |
| SpanExporter.SentExactlyWithoutLateProducers | src/otlp.c:58-191 | from any stopped state, every way to go on without a restart ends with all accepted spans sent, if and only if no producer is on its way in and, should no worker be left, nothing is queued |
| SpanExporter.ShutdownSendsAll | src/otlp.c:58-191 | at a shutdown that finds a worker: if and only if no producer is on its way in |
| SpanExporter.LateSpanStaysQueued | src/otlp.c:66-82 | a run in which a span is accepted after the worker has left |
| SpanExporter.ShutdownDrains | src/otlp.c:132-191 | after a shutdown with no producer on its way in, the workers leave after boundedly many steps, never get stuck, and all accepted spans have been sent |
| SpanContext.Context.InitTrace | src/otlp.c:202-210 | a new trace starts with no span open |
| SpanContext.Context.StartSpan | src/otlp.c:212-223 | the new span's own id joins the open ones; its parent is the innermost open span when between 1 and 15 are open, and missing otherwise |
| SpanContext.Context.EndSpan | src/otlp.c:225-230 | the innermost open span is closed; without one nothing changes |
| SpanContext.InnerSpansKeepOuter | src/otlp.c:212-230 | whatever opens and closes inside a span, however deep, leaves the spans around it open |
| SpanContext.SiblingsShareParent | src/otlp.c:212-230 | after complete inner spans the next span gets the same parent, the innermost open span if and only if fewer than 16 are open |
| SpanContext.ParentIsEnclosing | src/otlp.c:212-230 | a span started directly inside another, after any complete ones, has that one as its parent if it was opened with fewer than 15 open, and none otherwise |
| SpanContext.RootHasNoParent | src/otlp.c:212-223 | a span started when all earlier ones are closed has no parent |
| Routes.MatchRoute | src/handlers_common.c:332-367 | terminates; false for null; otherwise the answer of the walk on strings |
| Routes.WalkMatchesSegments | src/handlers_common.c:336-366 | for every pattern of literal, parameter and `*` segments and every path of segments, the walk equals the matcher on segments |
| Routes.RouteMatchesBySegments | src/handlers_common.c:332-367 | the same for every path string |
| Routes.PathSlashExactly | src/handlers_common.c:363-364 | on segments, for every pattern and every path that does not end in a slash: with a slash added the path matches if and only if it did without, or the pattern ends in exactly two slashes and matches it without one of them |
| Routes.PathSlash | src/handlers_common.c:332-367 | the same for the walk on the texts |
| Routes.PathSlashIgnored | src/handlers_common.c:332-367 | for the walk on texts: a slash at the end makes no difference to any path if and only if the pattern does not end in exactly two slashes behind something |
| Routes.SlashBeforeTwoMatters | src/handlers_common.c:361-366 | for every other pattern there is a path that matches with the slash and not without |
| Routes.PatternSlashExactly | src/handlers_common.c:361-362 | on segments, for every pattern and every such path: with a slash added the pattern matches if and only if it did without and has as many segments as the path |
| Routes.PatternSlash | src/handlers_common.c:332-367 | the same for the walk on the texts |
| Routes.PatternSlashIgnored | src/handlers_common.c:332-367 | for the walk on texts: a slash at the end of the pattern makes no difference to any path if and only if the pattern ends in a non-empty literal or a parameter, is empty, or ends in two empty segments |
| Routes.SlashMatters | src/handlers_common.c:345-364 | for every other pattern there is a path that it matches without the slash and not with it |
| Routes.SlashBehindStarMatters | src/handlers_common.c:345-352 | `/*` matches `/a/b` and `/*/` does not |
| Routes.StarSwallowsRest | src/handlers_common.c:345-352 | a final `*` takes whatever follows |

## Left out

- RateLimiter.Table.Check: a missing table or key, answered with an error before anything is read, is not modelled; nor is it for reset.
- RateLimiterRuns.KeyRefinement: signed overflow of the request count and clock samples out of lock order are not modelled.
- InternConcurrency.StepKeepsInv: a walk advances over a sequence of nodes; the linked cells are those of the single-caller model.
- InternCalls.PointersAreTexts: calls between init and destroy only; destroying the pool is not modelled.
- Arena.Arena.Alloc: request sizes up to 2^63 - 64, so that rounding and adding the block header do not wrap.
- Arena.Arena.Realloc: the caller's old size is the size the allocation was made with, as the header demands.
- ArenaSystem.AllocIn: calls on different arenas come one after another, and address ranges of different arenas are not compared.
- JsonObject.RemoveCounting: objects of fewer than 2^64 members.
- OAuth.Server.HandleExchange: storage reads and writes succeed and a handler call is atomic; two requests interleaved inside the storage calls are not modelled.
- OAuthRuns.RunKeeps: new codes and the hashes of new tokens are assumed not to have been stored before.
- SpanExporter.ShutdownDrains: no timing; the wait of the worker is a step that is not taken until it is enabled.
- Arena calloc and strdup: an allocation followed by filling it.
- The token endpoint's client-credentials grant, proof-of-possession headers, request parsing and response text: no stored state.
- Introspection, revocation, user info, key set and discovery endpoints: reading and formatting.
- Span identifiers, times and the payload of a batch: random bytes and formatting.
- Storage back ends, token signing, permission engine, managers, WebAuthn, risk engine and Raft: other components.
- Configuration, HTTP servers, logging, the interactive shell and the front end: input, output and field copying.
