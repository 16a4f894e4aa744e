# Veda in Dafny

A model of the algorithmic parts of the Veda platform, with proofs of what they promise.

- **Authorization** (`AccessBits`, `AclIndex`, `AclGraph`, `SubjectWalk`, `SubjectExclusive`,
  `ObjectWalk`, `ObjectExclusive`, `Authorization`, `AuthorizationTheorems`, `WrittenIndex`). `Authorization` holds the code with its memos,
  cuts, early exits and trace modes as methods over the fields of a context, proved to give
  the answer of a slow form without any of them. The theorems say what that answer is: for
  every bit a reachability question over memberships joined to the permission records;
  `WrittenIndex` states it for an index written from lists of rights.
- **Numerator** (`Numerator`). The intervals of committed numbers, and the events that
  commit and revoke them.
- **Binary codec** (`Cbor`, `CborIndividual`, `CborStream`, `CborFormat`) and **decimals** (`Decimal`).
  `Cbor` and `CborIndividual` say what is written and what is read; `CborStream` holds the
  writer that appends and the reader that moves a position; `CborFormat` gives the bytes in
  numbers.
- **Client update service** (`SubscriptionManager`, `UpdateService`, `Subscriptions`): the
  manager on the server, the buffering browser, and both as one system.
- **Versions** (`Versioning`, `VersionChains`) and **stopping of workflows**
  (`WorkflowStop`).
- **Queue consumer** (`QueueConsumer`), **object cache** (`ObjectCache`), **class
  specifications** (`ClassSpecifications`).
- **Bundled algorithms** (`Mustache`, `Sha256` with `Sha256Standard` and `Primes`).
- `Collections`, `Text` and `Wrappers` are shared.

How the model is read:

- The index of rights is a map from keys to record texts. Texts are sequences of
  characters; where the program counts bytes, a character stands for a byte.
- A shift of a 32-bit number drops what leaves it, as in a release build. Access bytes are
  sets of bits; `AccessBits` ties the set operators to the byte operators, and
  `Authorization.AuthorizeByte` states the answer for the byte.
- Failures that the program signals by an exception, by `false` or by undefined behaviour
  are values: `None`, `ok == false`, `Overflow`.
- Hash maps and JavaScript objects are visited in no particular order, except where their
  order matters (the buckets of the cache).

What the proofs turned up, each with its exact condition in the table below:

- The writer of access records prints two hexadecimal digits with the high one first and
  the reader takes the first one as the low one (`AclIndex.RoundTrip`).
- In trace mode a filtered object is answered before the filter's permissions are looked at
  (`AuthorizationTheorems.TraceModesAgree`).
- In the binary form the tag of a value is still in force for an untagged value after it, a
  zero byte ends a text, milliseconds are dropped, and an empty list comes back as a list
  of one hole (`CborIndividual.RoundTrip`).
- A decimal with a positive exponent, or with more than 32 leading zeros, does not come
  back (`Decimal.NumbersSurvive`).
- A uri with a comma or an equals sign cannot be subscribed to
  (`Subscriptions.SubscriptionArrives`).
- Saves of a document whose events are handled late give one version, however many they
  are (`VersionChains.LateEventsMerge`).
- A second commit of the queue consumer without a pop passes the checksum and moves by the
  length of the old record, so that the place is right if and only if the two records are
  equally long (`QueueConsumer.CommitWithoutPop`, `QueueConsumer.UnevenRecords`).
- Whether an exclusive membership restricts a user can depend on the order in which his groups
  are walked (`SubjectExclusive.IgnoredFirst`, `SubjectExclusive.SelfFirst`).
- A number given to a saved document whose earlier state had none is not committed
  (`Numerator.SaveIs`).
- Caching an object under an id that is cached already makes the count wrong
  (`ObjectCache.Cache.Set`).
- Some saves of numbered documents leave a number committed for no live document
  (`Numerator.SaveKeeps`).

`dafny verify dfyconfig.toml` checks the project.

## Model

| member | source | states |
|---|---|---|
| AccessBits.BitsOfAnd | source/authorization/src/authorization.rs:517-517 | the byte operator `&` on access bytes is the intersection of the bit sets the walks work on |
| AccessBits.BitsOfOr | source/authorization/src/authorization.rs:564-569 | `\|` is their union |
| AccessBits.BitsOfLeft | source/authorization/src/authorization.rs:320-325 | `(granted ^ request) & request` is what is requested and not granted |
| AccessBits.PermissionByteBits | source/authorization/src/authorization.rs:382-386 | the allowed-and-not-denied byte of a permission entry, bit by bit |
| AccessBits.BitsInjective | source/authorization/src/authorization.rs:517-517 | an access byte is determined by its set of bits |
| AccessBits.LeftToCheck | source/authorization/src/authorization.rs:320-325 | the byte test that skips an entry asks whether the entry has none of the bits still wanted |
| AccessBits.GrantByte | source/authorization/src/authorization.rs:382-443 | the loop of byte operators over the access bits of one entry adds exactly the allowed, not denied, requested and passed-on bits |
| AclIndex.GetElementsFromIndex | source/authorization/src/authorization.rs:252-306 | the parsing loop equals the recursive reading of the record text, for every text |
| AclIndex.ReadWritten | source/veda/authorization/right_set.d:113-135 | what the reader makes of any record the writer produces: ids and markers as they were, the two hex digits of an access byte swapped |
| AclIndex.RoundTrip | source/veda/authorization/right_set.d:113-135 | a written record is read back if and only if every access byte is below 16 or has two equal hex digits |
| AclIndex.DenialReadAsPermission | source/authorization/src/authorization.rs:252-306 | a byte that only denies is read as one that only permits |
| AclIndex.HexDigitIs | source/authorization/src/authorization.rs:252-306 | a hexadecimal digit is read by its place among the characters, in both cases, and nothing else is a digit |
| AclGraph.ClosedHoldsReachable | source/authorization/src/authorization.rs:622-777 | a set closed under memberships holds everything reachable from a member |
| SubjectWalk.SubjectGroupsExact | source/authorization/src/authorization.rs:622-777 | the groups collected for a user are reachable ones, and all of them when no walk is cut by the level guard |
| SubjectWalk.SubjectWalkCalm | source/authorization/src/authorization.rs:622-777 | on a shallow hierarchy, or a small one whose memberships of a group are alike, cycles included, the guard cuts nothing; without reachable exclusive memberships none is required |
| SubjectWalk.SmallCalm | source/authorization/src/authorization.rs:622-777 | with at most 32 groups, each entered with one access and one marker, a walk over any cyclic graph skips what it entered before and stays within the levels |
| SubjectWalk.GuardLevel | source/authorization/src/authorization.rs:635-641 | a line of 34 memberships is cut by the guard, one of 33 is not |
| SubjectExclusive.NeedsOnlyThen | source/authorization/src/authorization.rs:717-737 | who needs an exclusive group reaches an exclusive membership without passing one that ignores restrictions |
| SubjectExclusive.NeedsExactlyThen | source/authorization/src/authorization.rs:622-777 | where no membership ignores restrictions and no group is an exclusive member of itself, he needs one if and only if he reaches an exclusive membership |
| SubjectExclusive.IgnoredFirst | source/authorization/src/authorization.rs:658-677 | a group entered first behind a membership that ignores restrictions hides an exclusive membership |
| SubjectExclusive.SelfFirst | source/authorization/src/authorization.rs:658-715 | so does an exclusive membership of a group in itself |
| SubjectExclusive.MarkersComeFromMemberships | source/authorization/src/authorization.rs:739-765 | a group of the user has the marker of a membership through which he reaches it |
| ObjectWalk.WalkGrows | source/authorization/src/authorization.rs:490-620 | a walk only adds bits, and only requested ones |
| ObjectWalk.WalkComplete | source/authorization/src/authorization.rs:490-620 | an uncut walk with the pruning memo has consulted every group for every bit that reaches it |
| ObjectWalk.WalkSound | source/authorization/src/authorization.rs:490-620 | every bit a walk grants has a witness |
| ObjectWalk.SettledWalk | source/authorization/src/authorization.rs:580-599 | once everything requested is granted and no exclusive group is wanting, going on changes no answer, which justifies the early exits |
| ObjectWalk.PhaseExact | source/authorization/src/authorization.rs:1038-1076 | a phase grants exactly the requested bits that have a witness, if the guard cuts no walk, and never another one |
| ObjectWalk.PhaseNotCut | source/authorization/src/authorization.rs:491-497 | the guard fires in no hierarchy that is shallow or has at most 32 groups |
| ObjectExclusive.FoundExact | source/authorization/src/authorization.rs:522-549 | an uncut phase finds an exclusive group exactly when the object, or a group it reaches by memberships that are not exclusive, settles it by the rules for shared groups, TTL groups, names with `_group` and missing records |
| Authorization.AzContext.AuthorizeObjGroup | source/authorization/src/authorization.rs:308-488 | with the memo of checked groups and the "left to check" cut the granted bits are those of the plain consultation of the record |
| Authorization.AzContext.GrantPermissions | source/authorization/src/authorization.rs:356-446 | the loop over permission entries, with its early exit, grants what all entries together give |
| Authorization.AzContext.GrantPermission | source/authorization/src/authorization.rs:388-443 | the loop over the access bits of one entry |
| Authorization.AzContext.NoteExclusive | source/authorization/src/authorization.rs:522-549 | the flags of the exclusive groups follow the slow form |
| Authorization.AzContext.VisitGroup | source/authorization/src/authorization.rs:551-600 | one membership: pruning, memo of walked groups, recursion |
| Authorization.AzContext.PrepareObjGroup | source/authorization/src/authorization.rs:490-620 | in every trace mode the recursive walk over memoised fields gives the answer of the slow form |
| Authorization.AzContext.GetResourceGroups | source/authorization/src/authorization.rs:622-777 | the recursive walk over the subject fills the fields with exactly what the slow form collects |
| Authorization.AzContext.FinalCheck | source/authorization/src/authorization.rs:881-906 | an answer is allowed if and only if a needed exclusive group was found |
| Authorization.AzContext.RunPlain | source/authorization/src/authorization.rs:1038-1076 | the untraced plain phase with its three early returns |
| Authorization.AzContext.RunPlainTraced | source/authorization/src/authorization.rs:1116-1167 | the plain phase in trace mode |
| Authorization.AzContext.RunFiltered | source/authorization/src/authorization.rs:1078-1113 | the phase under the filter, with the memos cleared before it |
| Authorization.Authorize | source/authorization/src/authorization.rs:838-1240 | for every index, object, user, request and trace mode, cyclic and exclusive groups included, the memoised code answers what the slow form answers |
| Authorization.AuthorizeByte | source/authorization/src/authorization.rs:838-1240 | the same of the byte that is returned: it is the one byte whose bits are the answer to the bits of the requested byte |
| WrittenIndex.WrittenAnswer | source/authorization/src/authorization.rs:965-1113 | for an index written from lists of rights, filters included, a permission is in the answer if and only if it was requested, the user deserves it by the lists, and he is admitted |
| WrittenIndex.AuthorizeWritten | source/authorization/src/authorization.rs:838-1113 | the code itself on such an index: the returned byte holds exactly those permissions and no denial |
| WrittenIndex.ShortFilter | source/authorization/src/authorization.rs:971-976 | a filter record of fewer than three characters is as good as none |
| WrittenIndex.FilterWithoutRight | source/authorization/src/authorization.rs:971-986 | a filter record without a separator is itself put before the permission keys, and no plain permission counts |
| Authorization.ForgetPath | source/authorization/src/authorization.rs:788-798 | following and removing the chain of an element ends on cyclic trees and removes nothing else |
| AuthorizationTheorems.UncutWhenShallow | source/authorization/src/authorization.rs:491-497 | a condition on the index under which the guard fires in no phase |
| AuthorizationTheorems.WitnessIsEntitlement | source/authorization/src/authorization.rs:308-488 | a witness of the walks is an entitlement stated by paths and permission entries alone, and conversely |
| AuthorizationTheorems.AnswerExact | source/authorization/src/authorization.rs:1008-1113 | without an exclusive restriction the untraced answer holds a bit exactly if the bit is due (plain permissions within what the filter leaves, or permissions under the filter); never more, even when the guard cuts |
| AuthorizationTheorems.AnswerToAdmitted | source/authorization/src/authorization.rs:1008-1113 | the untraced answer to any user, restricted or not, holds a bit exactly if it is due and he needs no exclusive group or the object is open to him |
| AuthorizationTheorems.RestrictedAnswer | source/authorization/src/authorization.rs:1224-1238 | with an exclusive restriction the answer is all of it or nothing, and always within the request |
| AuthorizationTheorems.ShallowAnswerExact | source/authorization/src/authorization.rs:1008-1113 | the same equivalence from conditions on the index only, met by shallow hierarchies and by small cyclic ones, for the object and for the user |
| AuthorizationTheorems.TraceModesAgree | source/authorization/src/authorization.rs:1115-1222 | tracing changes the answer exactly when the object is filtered, the plain phase is not refused and the filter gives more |
| AuthorizationTheorems.TraceModesAgreeWhenDue | source/authorization/src/authorization.rs:1115-1222 | the same in terms of what is due |
| AuthorizationTheorems.TraceModesDiffer | source/authorization/src/authorization.rs:1154-1167 | a concrete filtered object read without tracing and refused with it |
| Numerator.CoverIsUnique | public/js/common/numerator.js:129-319 | disjoint, non-adjacent intervals are determined by the numbers they stand for |
| Numerator.CoverCount | public/js/common/numerator.js:129-319 | their number is the number of members whose predecessor is no member |
| Numerator.CoverIsMinimal | public/js/common/numerator.js:129-221 | no other set of intervals for the same numbers is smaller |
| Numerator.Scope.CommitValue | public/js/common/numerator.js:129-221 | merging, extending or inserting keeps the intervals separated and adds exactly the value; a committed value is not added again |
| Numerator.Scope.RevokeValue | public/js/common/numerator.js:223-319 | trimming, splitting or dropping keeps them separated and removes exactly the value |
| Numerator.Scope.FindNeighbours | public/js/common/numerator.js:136-152 | the search for the value and for its two neighbour intervals |
| Numerator.Scope.ReviseAll | public/js/common/numerator.js:226-314 | the loop that rebuilds the interval list |
| Numerator.Scope.ReviseInterval | public/js/common/numerator.js:231-310 | one interval trimmed, split or dropped in place |
| Numerator.Scope.GetNextValueSimple | public/js/common/numerator.js:329-362 | the next number: the first value in an empty scope, otherwise the least number from 1 up above every committed one |
| Numerator.Scope.IsNumerationValueAvailable | public/js/common/numerator.js:364-380 | a value is available if and only if it is not committed |
| Numerator.NextIsFresh | public/js/common/numerator.js:329-362 | with a first value of at least 1 the automatic number is never committed |
| Numerator.NextIsLeast | public/js/common/numerator.js:329-362 | the automatic number is the first one or the least above all committed ones |
| Numerator.Run | public/js/common/numerator.js:129-319 | after any run of commits and revokes from an empty scope the intervals are separated, stand for exactly the committed-and-not-revoked numbers, and are as few as possible |
| Numerator.UndoRestores | public/js/common/numerator.js:129-319 | committing an absent value and revoking it restores the same set of intervals |
| Numerator.Numerate | public/js/common/numerator.js:32-94 | the script run on a saved document changes the scope, the scope of the previous state and the document as its case table says, whether the two scopes are one or not |
| Numerator.SaveIs | public/js/common/numerator.js:32-94 | for every save: which number the document gets, which number is committed, which is given back, that no third one is touched, and that a first number given to a document that had none is not committed |
| Numerator.SaveKeeps | public/js/common/numerator.js:32-94 | a save keeps "committed numbers = numbers of live documents, all different" if and only if it is one of the listed saves |
| Numerator.RunConsistent | public/js/common/numerator.js:32-94 | so it does over any run of such saves, and each automatic number is fresh |
| Cbor.LittleEndianRead | source/lib64/ext-lib-bind-src/v8_d/cbor.cpp:94-120 | the bytes after a header give the number back, lowest byte first |
| Cbor.NumberRead | source/lib64/ext-lib-bind-src/v8_d/cbor.cpp:122-150 | a header is read back in all five length classes |
| Cbor.HeadRead | source/lib64/ext-lib-bind-src/v8_d/cbor.cpp:122-179 | so is a header with its major type, a negative integer being stored as its opposite, and the tag left as it was |
| Cbor.TaggedHeadRead | source/lib64/ext-lib-bind-src/v8_d/cbor.cpp:152-162 | a tag written before a header is read with it |
| Cbor.HeadsInvert | source/lib64/ext-lib-bind-src/v8_d/cbor.cpp:20-179 | the reader of headers inverts the writer on every buffer below 2^63 bytes |
| CborIndividual.ValueReadBack | source/lib64/ext-lib-bind-src/v8_d/cbor8json.cpp:154-246 | any value written is read back as the stated effect of the tag left behind, and leaves the stated tag |
| CborIndividual.RestReadBack | source/lib64/ext-lib-bind-src/v8_d/cbor8json.cpp:154-246 | the loop over array elements with one header reused |
| CborIndividual.ElementsReadBack | source/lib64/ext-lib-bind-src/v8_d/cbor8json.cpp:57-246 | the array that starts with one hole: an empty list comes back as one hole |
| CborIndividual.PropertyReadBack | source/lib64/ext-lib-bind-src/v8_d/cbor8json.cpp:45-257 | a property comes back with its list |
| CborIndividual.FromReadBack | source/lib64/ext-lib-bind-src/v8_d/cbor8json.cpp:12-261 | a whole individual, for any pair of a header writer and a reader that inverts it |
| CborIndividual.DecodeEncode | source/lib64/ext-lib-bind-src/v8_d/cbor8json.cpp:12-501 | decoding the encoding of any individual gives the individual up to the four stated effects and consumes exactly the bytes written |
| CborIndividual.ReadAllAsThemselves | source/lib64/ext-lib-bind-src/v8_d/cbor8json.cpp:154-246 | a list comes back equal if and only if no value is changed by the tag before it |
| CborIndividual.RoundTrip | source/lib64/ext-lib-bind-src/v8_d/cbor8json.cpp:12-501 | the individual comes back equal if and only if its texts hold no zero byte and every list is non-empty and survives its tags |
| CborIndividual.AlikeSurvive | source/lib64/ext-lib-bind-src/v8_d/cbor8json.cpp:154-246 | lists of one type and one language survive |
| CborStream.Writer.WriteTypeValue | source/lib64/ext-lib-bind-src/v8_d/cbor.cpp:20-68 | the pushed bytes are the header: one, two, three, five or nine of them |
| CborStream.Writer.WriteInteger | source/lib64/ext-lib-bind-src/v8_d/cbor.cpp:71-77 | integers |
| CborStream.Writer.WriteString | source/lib64/ext-lib-bind-src/v8_d/cbor.cpp:79-83 | texts |
| CborStream.Writer.WriteBool | source/lib64/ext-lib-bind-src/v8_d/cbor.cpp:85-91 | booleans |
| CborStream.Writer.WriteElement | source/lib64/ext-lib-bind-src/v8_d/cbor8json.cpp:267-395 | one value appended to the output |
| CborStream.Writer.WriteIndividual | source/lib64/ext-lib-bind-src/v8_d/cbor8json.cpp:397-501 | the loops over properties and values append exactly the encoding |
| CborStream.Reader.ReadTypeValueAt | source/lib64/ext-lib-bind-src/v8_d/cbor.cpp:122-179 | the code that reads a header, recursively behind a tag |
| CborStream.Reader.ReadContent | source/lib64/ext-lib-bind-src/v8_d/cbor8json.cpp:60-152 | what follows a header |
| CborStream.Reader.ReadElements | source/lib64/ext-lib-bind-src/v8_d/cbor8json.cpp:151-246 | the loop over an array, position and header updated in place |
| CborStream.Reader.ReadProperty | source/lib64/ext-lib-bind-src/v8_d/cbor8json.cpp:45-257 | one property |
| CborStream.Reader.ReadIndividual | source/lib64/ext-lib-bind-src/v8_d/cbor8json.cpp:12-261 | the reader computes the decoding of any bytes, failures included |
| CborStream.WriteThenRead | source/lib64/ext-lib-bind-src/v8_d/cbor8json.cpp:12-501 | writer and reader together: the individual comes back under the stated condition, for every individual |
| CborFormat.ValueIsItem | source/lib64/ext-lib-bind-src/v8_d/cbor8json.cpp:267-395 | the bytes of every value in numbers: major types, tags 1, 4, 32, 42 and 43, the bytes 0xF5 and 0xF4 for the truth values, 0x20 for zero |
| CborFormat.IndividualIsItem | source/lib64/ext-lib-bind-src/v8_d/cbor8json.cpp:397-501 | the bytes of a whole individual in numbers, the key `@` as 0x61 0x40 |
| CborFormat.ItemIsRead | source/lib64/ext-lib-bind-src/v8_d/cbor8json.cpp:60-246 | those bytes, wherever they stand and whatever tag is in force, are read as the value the tag makes of them |
| CborFormat.TruthIsRead | source/lib64/ext-lib-bind-src/v8_d/cbor8json.cpp:112-122 | 0xF5 is read as true and 0xF4 as false |
| CborFormat.WriteFormatted | source/lib64/ext-lib-bind-src/v8_d/cbor8json.cpp:12-501 | the writer in place produces those bytes and the reader in place takes them back |
| Decimal.ToInt | source/lib64/ext-lib-bind-src/v8_d/util8json.cpp:188-212 | the loop with the negative accumulator gives the number, or the first error |
| Decimal.IntOfIsExact | source/lib64/ext-lib-bind-src/v8_d/util8json.cpp:188-212 | it gives a number exactly for an optional sign and digits whose value is a 64-bit number, and then that value |
| Decimal.TextOfIs | source/lib64/ext-lib-bind-src/v8_d/util8json.cpp:41-93 | the two parts of the text made for a mantissa and an exponent |
| Decimal.NumbersSurvive | source/lib64/ext-lib-bind-src/v8_d/util8json.cpp:41-93 | a mantissa and an exponent come back from their text if and only if the exponent is not positive, at most 32 zeros are needed, and the mantissa is not the least number |
| Decimal.MadeIsCanonical | source/lib64/ext-lib-bind-src/v8_d/util8json.cpp:41-93 | texts made by the code are canonical |
| Decimal.TextSurvives | source/lib64/ext-lib-bind-src/v8_d/cbor8json.cpp:321-363 | a text the writer reads comes back the same if and only if it is canonical, at most 32 zeros are needed, and the mantissa is not the least number |
| Decimal.TextThroughBytes | source/lib64/ext-lib-bind-src/v8_d/cbor8json.cpp:321-363 | so it does through the encoded bytes |
| SubscriptionManager.Manager.AddSubscription | source/veda-ccus/src/main.rs:237-257 | `+uri=counter`: an existing subscription keeps its counter |
| SubscriptionManager.Manager.TellChanges | source/veda-ccus/src/main.rs:264-292 | a poll tells exactly the changed uris, each once, in any order of the map, and marks them told |
| SubscriptionManager.Manager.RemoveSubscription | source/veda-ccus/src/main.rs:310-324 | `-uri` |
| SubscriptionManager.Manager.RemoveSubscriptions | source/veda-ccus/src/main.rs:296-309 | `-*` |
| SubscriptionManager.Manager.HandleItem | source/veda-ccus/src/main.rs:228-326 | one item of a message: the state, the text of the answer and the id sent back to a new socket |
| SubscriptionManager.Manager.HandleMessage | source/veda-ccus/src/main.rs:221-331 | the loop over items, ended by a handshake, with the last poll and the last new socket deciding the answer |
| SubscriptionManager.Manager.TakeFromQueue | source/veda-ccus/src/main.rs:353-364 | an individual from the queue gives its count to a known uri; the set of known uris stays |
| UpdateService.Service.SendMessage | public/js/browser/update_service.js:41-62 | what is sent at once and what is buffered |
| UpdateService.Service.OnTimer | public/js/browser/update_service.js:52-60 | the timer sends the joined buffer |
| UpdateService.Service.SubscribeTo | public/js/browser/update_service.js:113-125 | a second subscription is only counted |
| UpdateService.Service.UnsubscribeFrom | public/js/browser/update_service.js:127-137 | a subscription that is still counted is not given up |
| UpdateService.Service.OnOpen | public/js/browser/update_service.js:91-95 | a socket that opens sends the handshake and restores the subscriptions |
| UpdateService.Service.Restore | public/js/browser/update_service.js:139-145 | every subscription is sent once, in any order |
| UpdateService.Service.ReceiveMessage | public/js/browser/update_service.js:64-89 | the loop over an update message; a counter is the number that begins the text after the equals sign, or NaN |
| Subscriptions.Understood | source/veda-ccus/src/main.rs:228-260 | a message of the browser is understood as its command |
| Subscriptions.Spelled | source/veda-ccus/src/main.rs:228-324 | `+uri=count` and `-uri` as they are spelled |
| Subscriptions.SpelledAlone | source/veda-ccus/src/main.rs:228-310 | so the handshake, `N`, `?` and `-*` |
| Subscriptions.CounterRead | source/veda-ccus/src/main.rs:239-242 | a 64-bit counter in digits is read back |
| Subscriptions.StepKeeps | public/js/browser/update_service.js:41-62 | every step keeps: handling all that is in flight or buffered leaves the socket with exactly the subscribed uris |
| Subscriptions.OpeningEstablishes | public/js/browser/update_service.js:91-95 | a socket that opens establishes it, whatever the server held |
| Subscriptions.RunKeeps | public/js/browser/update_service.js:113-145 | any interleaving of subscriptions, timers, deliveries, polls, other sockets and queue entries keeps it |
| Subscriptions.Quiescent | source/veda-ccus/src/main.rs:213-326 | with nothing in flight the two key sets are equal |
| Subscriptions.PollTellsAll | source/veda-ccus/src/main.rs:264-292 | after a poll every uri has been told its current counter, so that a second poll tells nothing |
| Subscriptions.QueueCounts | source/veda-ccus/src/main.rs:353-364 | an entry from the queue sets the counter of its uri, if known, and nothing else |
| Subscriptions.CounterIsLast | source/veda-ccus/src/main.rs:213-364 | over any run the counter of a known uri is the count of the last entry for it from the queue, or what it was |
| Subscriptions.BecomesKnown | source/veda-ccus/src/main.rs:245-257 | a uri becomes known with the counter of the first subscription to it |
| Subscriptions.UpdateIsTold | source/veda-ccus/src/main.rs:237-364 | after a first subscription with one counter and an entry with another the next poll tells the other |
| Subscriptions.OneChangeText | source/veda-ccus/src/main.rs:264-292 | the text of an answer with one change |
| Subscriptions.RemoveUndoesAdd | source/veda-ccus/src/main.rs:245-324 | giving up a subscription takes back what subscribing counted |
| Subscriptions.PollTellsWhatChanged | source/veda-ccus/src/main.rs:353-364 | a poll tells exactly the uris whose last count from the queue is not the counter they had at the last poll, with that count, whatever the queue and other sockets did between |
| Subscriptions.PollTellsKept | source/veda-ccus/src/main.rs:264-292 | so it is for every uri that the socket keeps, whatever else the socket subscribes to and gives up between the polls |
| Subscriptions.PollIsUnderstood | public/js/browser/update_service.js:64-89 | the answer, in whatever order, brings exactly the told entries of the browser up to date |
| Subscriptions.SubscriptionArrives | source/veda-ccus/src/main.rs:228-257 | a subscription arrives if and only if the uri holds neither a comma nor an equals sign, whatever other uris are subscribed to |
| Subscriptions.NewSubscription | source/veda-ccus/src/main.rs:237-257 | a new subscription starts with the counter the browser knows, and the next poll tells the uri if and only if the server knows another one |
| Subscriptions.SubscribersCounted | public/js/browser/update_service.js:113-137 | over any run a uri is given up only when every subscription of it has been |
| Versioning.Storage.PutIndividual | public/js/server/util.js:338-338 | a put stores the document and queues an event with the state before |
| Versioning.Storage.MakeVersion | public/js/server/util.js:281-376 | the script, object by object, computes the new store, the failures included |
| VersionChains.GuardIsLive | public/js/server/util.js:283-302 | the guard lets an event through if and only if no version was made since its save; versions never pass |
| VersionChains.LinkedAfter | public/js/server/util.js:311-374 | a new version keeps the chains of all documents linked in both directions |
| VersionChains.GrowKeeps | public/js/server/util.js:281-376 | handling a live event adds one version and keeps the invariant |
| VersionChains.StepKeeps | public/js/server/util.js:281-376 | every step keeps it; an event that is not live changes no document, and the events of the script's own writes are dead, live for no document |
| VersionChains.RunKeeps | public/js/server/util.js:281-376 | so does any run of saves of any documents with events handled sooner or later |
| VersionChains.RunFromNothing | public/js/server/util.js:281-376 | so the chains are linked after every fair run from the empty store |
| VersionChains.OwnWritesDead | public/js/server/util.js:283-302 | the puts of the version, of the version before it and of the document queue only dead events |
| VersionChains.DeadForever | public/js/server/util.js:283-302 | a dead event stays dead over any run, whatever is saved or handled |
| VersionChains.Quiescent | public/js/server/util.js:281-376 | with no event waiting every document has a version equal to it |
| VersionChains.WalkBack | public/js/server/util.js:314-318 | walking back along `previousVersion` visits every version once, newest first |
| VersionChains.WalkForth | public/js/server/util.js:319-326 | walking forth along `nextVersion` visits them in order and ends at the document |
| VersionChains.SaveThenHandle | public/js/server/util.js:281-376 | a save and the handling of all events that follow from it, the script's own included, empty the queue and add exactly one version with the saved content and types |
| VersionChains.LateEventsMerge | public/js/server/util.js:283-302 | any number of saves of a document, new or not, whose events are handled only afterwards add exactly one version, of the last content |
| WorkflowStop.Walker.RecursiveCall | public/js/server/util.js:378-418 | the recursive walk with its mark of 0 terminates on every store and finishes what it marks |
| WorkflowStop.Walker.Expand | public/js/server/util.js:385-417 | the four lists of an element |
| WorkflowStop.Walker.StopForms | public/js/server/util.js:385-394 | decision forms |
| WorkflowStop.Walker.VisitProcesses | public/js/server/util.js:408-416 | processes |
| WorkflowStop.ClosedHolds | public/js/server/util.js:378-418 | marks closed under links hold everything reached |
| WorkflowStop.WalkIsExact | public/js/server/util.js:378-418 | what a finished walk has stopped is exactly what is to be stopped |
| WorkflowStop.StopWorkflow | public/js/server/util.js:378-418 | on any store, cyclic or not, the walk throws if and only if something mentioned is missing, and otherwise stops exactly the uncompleted processes and decision forms of the elements reached, deletes exactly those forms, and changes nothing else |
| QueueConsumer.HeaderRead | source/veda-gowebserver/queue.go:43-65 | a record header is read back field by field |
| QueueConsumer.HeaderFields | source/veda-gowebserver/queue.go:43-65 | where the fields of a header stand and how its bytes make the numbers |
| QueueConsumer.RecordAt | source/veda-gowebserver/queue.go:266-304 | where a record of a well-formed part stands in the file |
| QueueConsumer.Consumer.GetInfo | source/veda-gowebserver/queue.go:182-243 | reading the place file, with its failures |
| QueueConsumer.Consumer.Pop | source/veda-gowebserver/queue.go:245-311 | a pop gives the record at the place and moves nothing |
| QueueConsumer.Consumer.CommitAndNext | source/veda-gowebserver/queue.go:322-364 | from any state a commit succeeds exactly if the checksum of the buffers is the one in the header, and then moves the place by the header's length and writes it down; after a pop that is the next record |
| QueueConsumer.PlaceOverwrites | source/veda-gowebserver/queue.go:156-180 | overwriting without truncation leaves nothing of the old place, whose text never gets shorter |
| QueueConsumer.InfoRead | source/veda-gowebserver/queue.go:182-243 | the place written is read back |
| QueueConsumer.RunTurns | source/veda-gowebserver/queue.go:245-364 | over any run of pops, some of them committed, the consumer stands behind exactly as many records as turns commit, every turn gives the record it stands at, again until that is committed, and the committed messages are the records in order, each once |
| QueueConsumer.TakeTurn | source/veda-gowebserver/queue.go:245-364 | one turn gives the record at the place, if there is one, and moves on exactly if it commits it |
| QueueConsumer.Reopen | source/veda-gowebserver/queue.go:110-137 | opening again stands at the last commit |
| QueueConsumer.CommitWithoutPop | source/veda-gowebserver/queue.go:322-364 | a second commit without a pop succeeds, moves by the length of the old record, and stands at the next record if and only if the two are equally long |
| QueueConsumer.UnevenRecords | source/veda-gowebserver/queue.go:322-364 | two concrete records after which the consumer stands beside the end of the second |
| ObjectCache.SizesAgree | public/js/common/app_model.js:12-66 | the buckets together hold as many objects as the storage |
| ObjectCache.Cache.FilterBucket | public/js/common/app_model.js:30-35 | the filter drops objects from the front while there are too many |
| ObjectCache.Cache.Evict | public/js/common/app_model.js:26-42 | an eviction removes exactly min(objects outside the first bucket, count - limit + delta), the first in bucket order, and spares the first bucket |
| ObjectCache.Cache.Set | public/js/common/app_model.js:21-49 | what storage, buckets and their order hold after room has been made and the object filed: a new bucket with an array index as its key stands among the others in ascending order, any other one last; the cache is consistent if and only if the id was not cached already |
| ObjectCache.Cache.Remove | public/js/common/app_model.js:50-60 | a removal takes the object out of storage and out of its bucket only, and the key of a bucket left empty out of the order; an unknown id fails |
| ObjectCache.Cache.Clear | public/js/common/app_model.js:61-65 | clearing |
| ObjectCache.RunOps | public/js/common/app_model.js:12-66 | over any run of additions of new ids and removals the count, the storage and the buckets agree |
| ObjectCache.RunPuts | public/js/common/app_model.js:21-49 | the bucket of the least array index, where the ontology is, is the first one, and no run of additions to it and behind it evicts one of its objects |
| ClassSpecifications.ComesFromAbove | public/js/common/ontology_model.js:219-236 | what a class has was declared by it or above it |
| ClassSpecifications.InheritsAll | public/js/common/ontology_model.js:219-236 | and it has everything declared there, its own declaration winning |
| ClassSpecifications.FirstSuperWins | public/js/common/ontology_model.js:224-231 | otherwise the first super class that has the property wins |
| ClassSpecifications.Ontology.GetSpecs | public/js/common/ontology_model.js:219-236 | whatever was asked before, the map given out is the complete one, and every stored map stays the own or the complete one |
| ClassSpecifications.Ontology.MergeAll | public/js/common/ontology_model.js:222-231 | merging the super classes in place completes a map and never changes a complete one |
| Mustache.SquashTokens | public/js/server/lib/mustache.js:235-254 | the loop over tokens with holes joins adjacent texts |
| Mustache.SquashedApart | public/js/server/lib/mustache.js:235-254 | text never stands next to text afterwards |
| Mustache.CheckSections | public/js/server/lib/mustache.js:203-226 | the parser accepts exactly the balanced token lists |
| Mustache.NestTokens | public/js/server/lib/mustache.js:262-289 | the loop with its stack of sections builds the tree |
| Mustache.BalancedNests | public/js/server/lib/mustache.js:262-289 | balanced tokens nest without an error and leave no section open |
| Mustache.FlatNested | public/js/server/lib/mustache.js:262-289 | flattening the tree with the closing tags at their recorded places gives the tokens again |
| Mustache.NestedFlat | public/js/server/lib/mustache.js:262-289 | nesting the tokens of any tree gives the tree |
| Mustache.JoinAlike | public/js/server/lib/mustache.js:479-543 | joining two texts changes no rendering, in any state of nesting |
| Mustache.SquashKeepsRendering | public/js/server/lib/mustache.js:228-289 | for every token list and every view, rendering after squashing gives the same text |
| Mustache.InvertedWhenNothing | public/js/server/lib/mustache.js:502-543 | an inverted section renders its children exactly when the plain one of its name renders nothing for any children, and nothing otherwise |
| Mustache.TextSection | public/js/server/lib/mustache.js:502-534 | a plain section renders its children once for every element of a list, once for anything else that is not falsy, and never for what is |
| Mustache.ListRenders | public/js/server/lib/mustache.js:515-518 | a list renders part by part, each element in front of the context |
| Mustache.VariableRenders | public/js/server/lib/mustache.js:554-564 | the escaped form of a variable is the escaped text of the unescaped form; a missing name renders nothing |
| Sha256.BlockCount | public/js/common/lib/sha256.js:36-41 | the number of blocks is the least that holds message, marker byte and length, and equals the padding of section 5.1.1 of FIPS 180-4 |
| Sha256.LengthOverwritesNothing | public/js/common/lib/sha256.js:48-54 | the two length words hold no message byte before they are written |
| Sha256.LengthWords | public/js/common/lib/sha256.js:50-54 | they are the 64-bit length of section 5.1.1 |
| Sha256.MessageWord | public/js/common/lib/sha256.js:43-49 | the other words are those of the padded message |
| Sha256.BuildBlocks | public/js/common/lib/sha256.js:36-54 | the blocks built are the padded message |
| Sha256.RotRRotates | public/js/common/lib/sha256.js:97-97 | the two shifts are the right rotation of section 3.2 of FIPS 180-4 |
| Sha256.ChChooses | public/js/common/lib/sha256.js:102-102 | `Ch` takes its bits from the second or the third word as the first one says |
| Sha256.MajIsMajority | public/js/common/lib/sha256.js:103-103 | `Maj` has a one where two words have |
| Sha256Standard.BigSigma0Bit | public/js/common/lib/sha256.js:98-98 | bit by bit, the first function of section 4.1.2 with rotations by 2, 13 and 22 |
| Sha256Standard.BigSigma1Bit | public/js/common/lib/sha256.js:99-99 | by 6, 11 and 25 |
| Sha256Standard.SmallSigma0Bit | public/js/common/lib/sha256.js:100-100 | by 7 and 18, and a shift by 3 |
| Sha256Standard.SmallSigma1Bit | public/js/common/lib/sha256.js:101-101 | by 17 and 19, and a shift by 10 |
| Primes.PrimesAreFirst | public/js/common/lib/sha256.js:23-31 | the listed numbers are the first 64 primes |
| Sha256Standard.ConstantsAreCubeRoots | public/js/common/lib/sha256.js:23-31 | each constant is the first 32 bits of the fractional part of the cube root of its prime, section 4.2.2 |
| Sha256Standard.InitialIsSquareRoots | public/js/common/lib/sha256.js:33-33 | the initial hash value is that of the square roots of the first eight primes, section 5.3.3 |
| Sha256.PrepareSchedule | public/js/common/lib/sha256.js:62-64 | the schedule in signed, late-reduced numbers is that of section 6.2.2, and all sums are exact in a double |
| Sha256.RoundStep | public/js/common/lib/sha256.js:70-81 | one round with late masking is one round of section 6.2.2 |
| Sha256.MainLoop | public/js/common/lib/sha256.js:66-81 | the 64 rounds |
| Sha256.HashBlock | public/js/common/lib/sha256.js:60-91 | one block |
| Sha256.ToHexStr | public/js/common/lib/sha256.js:110-114 | the digits of a word |
| Sha256.Hash | public/js/common/lib/sha256.js:19-96 | for every byte string the digest is that of FIPS 180-4 |

## Left out

- Authorization.Authorize: errors of the index database and the texts of the traces are not modelled; `get_path` is modelled by what it removes.
- SubjectExclusive.NeedsExactlyThen: with memberships that ignore restrictions, or groups that are exclusive members of themselves, only one direction is stated, because what is needed then depends on the order of the walk.
- AuthorizationTheorems.PlainExact: the converse holds only for walks that the level guard does not cut, which is what the code does.
- Numerator.Numerate: values as integers (the program passes the automatic number as a text and the store normalises it), labels of intervals and recovery of documents are not modelled.
- Numerator.SaveKeeps: registries with one scope; a document that moves to another scope is in `Numerate` only.
- CborIndividual.DecodeEncode: property names are a list, so that two properties of one name are not merged; values given as a single object, as nested lists or as null are not modelled, nor are the numbers a JavaScript engine narrows to 32 bits.
- CborStream.Writer.WriteTypeValue: the least 64-bit integer, whose opposite overflows, is not written.
- CborStream.Reader.ReadIndividual: a read past the end of the buffer, which the program does not check, is a failure here; positions are not narrowed to 32 bits.
- Decimal.ToInt: the text ends before its first zero character; decimals given as floating-point numbers are not modelled.
- Subscriptions.RunKeeps: one open connection; reconnects with a timer pending and `unsubscribe()` without a uri, which bypass the buffer, are not steps of the system.
- UpdateService.Service.ReceiveMessage: blanks before the number and hexadecimal numbers, which `parseInt` also takes, are not modelled; the server sends neither.
- SubscriptionManager.Manager.HandleMessage: counters of subscribers are not bounded by 64 bits.
- VersionChains.RunKeeps: a save keeps the links it finds; users save documents and not versions; dates, authors and the choice of an appointment are not modelled, and memberships are kept as pairs.
- Versioning.Storage.MakeVersion: the membership is kept as a pair, without its own put and event; dates and authors are not modelled.
- WorkflowStop.StopWorkflow: a property `isCompleted` is absent, true or false; an empty list of values is not modelled.
- QueueConsumer.Consumer.Pop: moving to the next part and errors of files are not modelled; the checksum is any function that gives four bytes.
- QueueConsumer.Consumer.CommitAndNext: `header_buff` and `buff` are package variables that all consumers share (`source/veda-gowebserver/queue.go:71-72`); here each consumer has its own, so that one consumer at a time is described.
- QueueConsumer.Reopen: names of queues and consumers hold no semicolon and no line break.
- ObjectCache.Cache.Set: ids do not change while an object is cached, and keys of buckets are integers.
- ClassSpecifications.Ontology.GetSpecs: a reference to a stored map is the name of its class; the hierarchy is acyclic, without which the program does not end.
- Mustache.NestTokens: the tree is built from values on the stack, where the program fills arrays that are already linked; the aliasing is not modelled.
- Mustache.SquashKeepsRendering: views without functions, templates without partials; how names are looked up and values are written is a parameter, the same for both trees; the buffer loop of rendering is a function.
- Sha256.Hash: the message is a sequence of bytes; `Utf8.encode` and `Utf8.decode` are not modelled.
- The scanner of templates with its regular expressions.
- Conversion of floating-point numbers to mantissa and exponent.
- `jsobject2msgpack` and `msgpack2jsobject`.
- The byte conversions of `source/veda-gowebserver/tools.go` beyond the two reads a record header needs: easy members.
- `getClassProperties`, login and ticket handling, HTTP and websocket handlers.
- The user interface and the test scripts.
