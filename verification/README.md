# Verified model of the jeltz core

jeltz is an intercepting HTTP proxy. This project models its three hardest
parts in Dafny and proves what they promise. `dafny verify dfyconfig.toml`
checks everything.

**Leaf certificates** (`internal/ca/ca.go`). `LeafProtocol` is a transition
system of any number of concurrent `LeafCert` calls over `ca.mu`, the
reference-counted host locks and the cache, with one step for each blocking
`Lock()` and each critical section; `LeafSafety` proves invariants of every
run, freedom from deadlock, termination, conservation of issues, and that the
cache is true LRU. `Lru` is the theory of the cache as a recency list.
`LinkedList` and `CertAuthority` are the same state in place, a doubly linked
list, a map of its nodes and a table of counters, and each method is proved
against the value-level functions.

**PKCS#12 bundles** (`pkg/p12/p12.go`). `Pkcs12Kdf` proves the in-place
derivation loop against a recursive form of Appendix B.2 of RFC 7292, on top of
the big-endian arithmetic of `Bytes`, and `Pkcs12KdfBytes` proves that form byte
by byte. `Der` writes and reads DER. `Pkcs12` builds the bundle as `Encode` does
and defines a reader after section 4 of RFC 7292; `Pkcs12RoundTrip` proves that
the reader recovers what went in.

**Rule engine** (`internal/rules`, `internal/httpx`, `Run` in
`internal/proxy/pipeline.go`). `RuleSet` compiles one file-ordered list into
stages and `Pipeline` runs them on mutable request and response objects;
`PipelineLaws` proves that this means one walk over the file, and `RunLaws` what
the client and the upstream see of a run. Under it lie the header edits
(`HttpHeader`, `HeaderLaws`), hop-by-hop removal (`HopByHop`), search and replace
(`Rewrite`, `Redirect`), paths (`Paths`, `MapLocal`, `MapRemote`), and the logging
body reader (`DumpBody`). `Prelude` and `GoStrings` hold shared datatypes and the
string functions of Go's library.

What is a parameter: the certificate an issue returns or its failure, SHA-1
(any function to 20 bytes), HMAC, the cipher (any invertible map that keeps
lengths), random salts, the marshalled private key, regular expressions (any
function that finds a match), the file system, media type tables, request
construction, and the upstream (any function from requests to replies).

Two places where the documentation promises more than the code does. The
repository's own README (line 268) says that a containment check neutralises
traversal attempts; the check at `internal/rules/maplocal.go:132` also refuses
ordinary files whose name starts with two dots (`MapLocal.TraversalExactly`,
`MapLocal.DottedFileIsRefused`). The comment at `pkg/p12/p12.go:157` promises a
BMPString; the loop gives one for ASCII passwords only, because its index is a
byte offset (`Pkcs12.PasswordIsBmpExactlyForAscii`). The fixed password is
ASCII.

## Model

| member | source | states |
|---|---|---|
| LeafSafety.RunIsSafe | internal/ca/ca.go:93-109 | the lock and cache invariants hold in every state that any schedule of any number of concurrent calls reaches |
| LeafSafety.HostLockDiscipline | internal/ca/ca.go:220-240 | in every reachable state the lock object a call waits on, holds or must still deregister from is the one in `locks`, its `refs` is the number of such calls, and at most one call per host is inside the host lock |
| LeafSafety.DeleteIsLast | internal/ca/ca.go:233-238 | deregistering deletes the table entry if and only if no other call refers to that lock object |
| LeafSafety.Progress | internal/ca/ca.go:220-240 | no deadlock: while a call is unfinished, some call can step |
| LeafSafety.SchedulesAreShort | internal/ca/ca.go:93-109 | every schedule takes at most eleven steps a call, so every run ends |
| LeafSafety.StuckMeansFinished | internal/ca/ca.go:93-109 | a run that cannot go on has finished every call, with an empty `locks` map and no mutex held |
| LeafSafety.CanFinish | internal/ca/ca.go:93-109 | from every reachable state all calls can be run to completion |
| LeafSafety.IssueConservation | internal/ca/ca.go:97-108 | for each host, successful issues equal evictions, plus one if cached, plus one if some call has issued and not yet stored; no call ever stores over an existing entry |
| LeafSafety.CacheIsLru | internal/ca/ca.go:187-218 | after any interleaving the cache has no duplicate, is within its capacity, and holds exactly the most recently touched distinct hosts in order, each with the certificate the history says |
| LeafSafety.DifferentOnlyAfterEviction | internal/ca/ca.go:93-109 | two calls for one host return different certificates only if one of them was evicted between the two touches |
| LeafSafety.ResultsAreExplained | internal/ca/ca.go:97-108 | a returned certificate was hit or stored by that very call, and an error is the failure of its own issue |
| LeafProtocol.StepKeepsLockInv | internal/ca/ca.go:220-240 | every step of every call keeps the lock invariant: who holds `ca.mu`, who holds each host lock, the table, and the counts |
| LeafProtocol.StepMovesForward | internal/ca/ca.go:93-109 | a step moves one call, and lowers the steps it has left |
| LeafSafety.StepKeepsLog | internal/ca/ca.go:187-218 | every step keeps cache, log and LRU order in agreement |
| LeafSafety.StepKeepsPending | internal/ca/ca.go:101-107 | every step keeps the balance of issues, stores and evictions |
| LeafSafety.StepKeepsThreads | internal/ca/ca.go:97-107 | a call that missed keeps finding its host absent until it stores, whatever other calls do |
| Lru.ReplayIsLru | internal/ca/ca.go:187-218 | for every sequence of getCached and putCached calls and every capacity the cache is the true LRU content |
| Lru.StackProperty | internal/ca/ca.go:187-218 | a larger cache holds what a smaller one holds, as an extension of it, and never issues more |
| Lru.ServeIsLru | internal/ca/ca.go:93-109 | a sequence of LeafCert requests keeps the LRU content of its request history |
| Lru.GetKeepsLru | internal/ca/ca.go:187-196 | a hit moves the host to the front of the recency order |
| Lru.PutKeepsLru | internal/ca/ca.go:198-218 | a put makes its host the most recent and drops the least recent beyond capacity |
| Lru.GetLookup | internal/ca/ca.go:187-196 | getCached changes no answer |
| Lru.PutLookup | internal/ca/ca.go:198-218 | after putCached its host has the new certificate, the evicted host has none, every other host is as before |
| LinkedList.List.PushFront | internal/ca/ca.go:208 | the intrusive list gains a front node and keeps the others, in order |
| LinkedList.List.MoveToFront | internal/ca/ca.go:194 | the node moves to the front, the others keep their order |
| LinkedList.List.Remove | internal/ca/ca.go:216 | the node leaves, the others keep their order |
| LinkedList.List.Back | internal/ca/ca.go:213 | the last node, or null when the list is empty |
| LinkedList.List.SetValue | internal/ca/ca.go:203 | one value changes, the order does not |
| CertAuthority.CA.constructor | internal/ca/ca.go:151-160 | an empty cache and an empty lock table |
| CertAuthority.CA.GetCached | internal/ca/ca.go:187-196 | map and list together answer and move exactly as the recency list of entries does |
| CertAuthority.CA.PutCached | internal/ca/ca.go:198-218 | overwrite or insert-and-evict on map and list is the put of the recency list |
| CertAuthority.CA.EvictBack | internal/ca/ca.go:213-217 | the back node leaves list and map together |
| CertAuthority.CA.Register | internal/ca/ca.go:221-228 | the in-place lock table and counters change as the register step of the transition system |
| CertAuthority.CA.Deregister | internal/ca/ca.go:233-238 | the in-place lock table and counters change as the deregister step of the transition system |
| CertAuthority.CA.LockHost | internal/ca/ca.go:220-231 | the lock of the host, created on demand, with one more reference, held by the caller |
| CertAuthority.CA.UnlockHost | internal/ca/ca.go:231-239 | the host lock is free, one reference less, and the entry goes with the last one |
| CertAuthority.CA.GetOrIssue | internal/ca/ca.go:97-108 | hit, or issue and store; a failed issue leaves the cache alone |
| CertAuthority.CA.LeafCert | internal/ca/ca.go:93-109 | an uncontended call answers from the cache or issues, and leaves the lock table as it found it |
| Pkcs12Kdf.Kdf | pkg/p12/p12.go:321-360 | the byte-array loop computes the recursive derivation of Appendix B.2 of RFC 7292, for every id, password, salt, iteration count and length |
| Pkcs12Kdf.Derived | pkg/p12/p12.go:321-360 | exactly keyLen bytes |
| Pkcs12KdfBytes.KeyIsTheRun | pkg/p12/p12.go:321-360 | byte k of the key is byte k mod 20 of the last digest of round k / 20, in any run written down byte by byte: 64 bytes of id, then the repeated salt, then the repeated password, the hash iterated, and every 64-byte block of I grown by B + 1 from round to round |
| Pkcs12KdfBytes.RunExists | pkg/p12/p12.go:321-360 | there is such a run for all inputs and any number of rounds |
| Pkcs12KdfBytes.StartIsExpanded | pkg/p12/p12.go:330-332 | I starts as the repeated salt followed by the repeated password, empty ones included, and as nothing else |
| Pkcs12KdfBytes.GrowsIsBumped | pkg/p12/p12.go:350-357 | the next I is the only one whose every block has grown by B + 1 modulo 2^512 |
| Pkcs12Kdf.DerivedPrefix | pkg/p12/p12.go:337-359 | a shorter key is a prefix of a longer one |
| Pkcs12Kdf.Round | pkg/p12/p12.go:338-357 | one round: the iterated hash, and the next I in place |
| Pkcs12Kdf.HashTimes | pkg/p12/p12.go:338-347 | the hash applied iterations times, at least once |
| Pkcs12Kdf.Fill | pkg/p12/p12.go:350-353 | B is the digest repeated to 64 bytes |
| Pkcs12Kdf.AddToBlocks | pkg/p12/p12.go:354-357 | addB happens exactly once to each 64-byte block and disturbs no other |
| Pkcs12Kdf.BumpedBlock | pkg/p12/p12.go:354-357 | the value of every block j grows by B + 1 modulo 2^512 |
| Pkcs12Kdf.AddB | pkg/p12/p12.go:376-384 | the slice becomes the big-endian a + B + 1 modulo 256^len(a); the rest of the buffer is untouched |
| Pkcs12Kdf.PlusOneValue | pkg/p12/p12.go:376-384 | what the rewritten slice is worth: (a + B + 1) mod 256^len(a) |
| Pkcs12Kdf.DigitsArePlusOne | pkg/p12/p12.go:378-383 | schoolbook addition with carry computes that value |
| Pkcs12Kdf.DigitsSum | pkg/p12/p12.go:378-383 | digits plus outgoing carry account for the whole sum, from any column on |
| Pkcs12Kdf.Expand | pkg/p12/p12.go:364-374 | the data repeated to the expanded length; nothing for no data |
| Pkcs12Kdf.ExpandedLength | pkg/p12/p12.go:368 | the least multiple of v that is at least the input length |
| Pkcs12Kdf.CopiesAt | pkg/p12/p12.go:370-372 | byte k of a repetition is data[k mod len] |
| Pkcs12.Pkcs7Pad | pkg/p12/p12.go:389-397 | the data, then pad bytes of value pad |
| Pkcs12.PaddingRoundTrip | pkg/p12/p12.go:389-397 | unpadding (section 6.3 of RFC 5652) undoes padding, which always adds 1 to blockSize bytes up to a multiple |
| Pkcs12.PaddedBytes | pkg/p12/p12.go:389-397 | every byte of the result: the data, then bytes that each say how many of them there are |
| Pkcs12.PasswordBytes | pkg/p12/p12.go:159-166 | the buffer the loop fills, with its byte-offset indexing |
| Pkcs12.PasswordBufferAt | pkg/p12/p12.go:159-166 | every byte of the result: each code point big-endian at twice its byte offset, zeros in the rest of its room |
| Pkcs12.WidthMeaning | pkg/p12/p12.go:161 | the byte offsets are those of UTF-8, section 3 of RFC 3629 |
| Pkcs12.PasswordIsBmpExactlyForAscii | pkg/p12/p12.go:157-166 | on the Basic Multilingual Plane the result is the BMPString of Appendix B.1 of RFC 7292 if and only if the password is ASCII |
| Pkcs12RoundTrip.EncodeReadsBack | pkg/p12/p12.go:96-153 | Encode fails exactly when key marshalling or a random source fails; otherwise an RFC 7292 reader recovers exactly the two bags, linked by the certificate digest, and the MAC over the contents of the outer OCTET STRING |
| Pkcs12RoundTrip.BundleOpens | pkg/p12/p12.go:96-153 | with the password the bundle yields cert.Raw and the PKCS#8 bytes, its MAC verifies, the key is padded to whole 8-byte blocks, and key and MAC each name their own salt and 2048 iterations |
| Pkcs12RoundTrip.CertBagReads | pkg/p12/p12.go:176-199 | the certificate bag reads back |
| Pkcs12RoundTrip.KeyBagReads | pkg/p12/p12.go:203-250 | the shrouded key bag reads back with its salt and iteration count |
| Pkcs12RoundTrip.MacReads | pkg/p12/p12.go:292-312 | the MAC structure reads back |
| Pkcs12RoundTrip.DataContentInfoReads | pkg/p12/p12.go:253-263 | the data ContentInfo reads back as the wrapped bytes |
| Pkcs12RoundTrip.LocalKeyIdReads | pkg/p12/p12.go:266-280 | the localKeyId attribute reads back |
| Pkcs12RoundTrip.SafeContentsReads | pkg/p12/p12.go:283-289 | a bag wrapped in a SEQUENCE reads back as the one bag |
| Pkcs12RoundTrip.AuthenticatedSafeReads | pkg/p12/p12.go:131-134 | the two ContentInfos read back as the two bags in order |
| Pkcs12RoundTrip.PfxReads | pkg/p12/p12.go:143-152 | the outer value reads back as authSafe, bags and MAC |
| Der.ElementsRoundTrip | pkg/p12/p12.go:148-152 | DER elements with short and long lengths (sections 8.1.3 and 10.1 of X.690) read back |
| Der.IntegerRoundTrip | pkg/p12/p12.go:227 | DER INTEGER reads back |
| Der.OidRoundTrip | pkg/p12/p12.go:25-33 | DER OBJECT IDENTIFIER reads back |
| Pkcs12.ObjectIdentifierOctets | pkg/p12/p12.go:25-33 | the seven identifiers are the octets their standards assign |
| HttpHeader.FilterHeaderValues | internal/rules/headers.go:70-85 | removes exactly the matching values of one name, and the key with its last value |
| HttpHeader.ApplyDelete | internal/rules/headers.go:45-66 | the in-place delete is the per-key delete; the wildcard gives the same map for every order of visiting the keys |
| HttpHeader.ApplySet | internal/rules/headers.go:87-95 | replace or append on one canonical key |
| HttpHeader.Apply | internal/rules/headers.go:36-43 | all deletes, then all sets |
| HeaderLaws.NormalForm | internal/rules/headers.go:36-95 | every name ends with its values that no delete kills, in order, folded through the replace and append operations that name it |
| HttpHeader.GetMeaning | internal/proxy/pipeline.go:229-230 | reading a header gives its first value, or all of them, under the canonical name |
| HeaderLaws.EachValueByItself | internal/rules/headers.go:70-85 | a value goes exactly when an operation names its header, or any, and its expression, if it has one, finds a match; the others keep their places |
| HeaderLaws.LastReplaceWins | internal/rules/headers.go:87-95 | the last replace of a name starts its values over, and the appends after it follow |
| HeaderLaws.AppendsAddUp | internal/rules/headers.go:87-95 | without a replace the appended values follow those there were |
| HeaderLaws.NamesInAnyCase | internal/rules/headers.go:60-88 | naming a header in another letter case deletes and sets the same header |
| HeaderLaws.OddKeysStay | internal/rules/headers.go:45-95 | a key not in canonical form is out of reach of every operation |
| HeaderLaws.ApplyKeepsClean | internal/rules/headers.go:36-43 | canonical, non-empty keys stay so |
| HeaderLaws.DeleteOrderIsIrrelevant | internal/rules/headers.go:37-39 | deletes may be reordered and repeated at will |
| HeaderLaws.DeletesCommute | internal/rules/headers.go:45-66 | any two deletes commute and each is idempotent, on every map |
| HeaderLaws.CleanDetermined | internal/rules/headers.go:36-43 | the values of all names determine a clean map |
| HeaderLaws.ValuesAfterDeletes | internal/rules/headers.go:37-39 | a run of deletes is one filter |
| HeaderLaws.ValuesAfterSets | internal/rules/headers.go:40-42 | a run of sets is a fold over those that name the header |
| HopByHop.RemoveHopByHop | internal/httpx/hopbyhop.go:24-34 | in place, the map loses the fixed names and every canonicalised token of every Connection line, and nothing else |
| HopByHop.ForwardableIsExact | internal/httpx/hopbyhop.go:24-34 | exact removal, even when Connection lists itself, and idempotent |
| RunLaws.ForwardableMeaning | internal/httpx/hopbyhop.go:10-34 | what is left is exactly the fields that are none of the nine names and not listed, between commas and white space, in a Connection line |
| HopByHop.FoldedConnectionIsTheSame | internal/httpx/hopbyhop.go:26-30 | several Connection lines and the same lines joined by commas and optional white space (section 5.3 of RFC 9110) have the same effect |
| HopByHop.CopyHeader | internal/proxy/pipeline.go:429-433 | the copy for the upstream request, for every order of keys: clean, exactly the canonical forms of the keys with a value, with the same values where no two keys share a form |
| HopByHop.CopyOfClean | internal/proxy/pipeline.go:429-433 | the copy of a clean header is the header itself |
| HopByHop.OutgoingIsForwardable | internal/proxy/pipeline.go:429-434 | whatever the header holds, the copy after removal has no hop-by-hop name and nothing Connection lists |
| GoStrings.CanonicalTwice | internal/rules/headers.go:60 | the canonical form of a header name is its own canonical form |
| GoStrings.CanonicalMeaning | internal/rules/headers.go:60 | the same letters, upper case at the start and after a hyphen and lower case elsewhere; what is no token is left alone |
| GoStrings.LetterCaseIsIrrelevant | internal/rules/headers.go:60 | tokens in different letter case have one canonical form |
| GoStrings.ToLowerMeaning | internal/proxy/pipeline.go:283 | texts agree ignoring case exactly when they have the same letters |
| GoStrings.TrimSpaceMeaning | internal/httpx/hopbyhop.go:28 | white space goes from both ends, all of it and nothing else |
| GoStrings.SpaceMeaning | internal/proxy/pipeline.go:282 | white space is what Unicode calls so |
| GoStrings.JoinSplit | internal/httpx/hopbyhop.go:27 | splitting at commas loses nothing |
| GoStrings.DecimalRoundTrip | internal/proxy/pipeline.go:309 | the text of a length says which length it is |
| GoStrings.DecimalIsShortest | internal/proxy/pipeline.go:309 | digits only, without leading zeros |
| Rewrite.ReplaceAllMeaning | internal/rules/redirect.go:120 | replace-all puts the replacement exactly where the leftmost non-overlapping cut of the text has the search text |
| Rewrite.CutIsLeftmost | internal/rules/redirect.go:120 | the cut exists: its pieces with the search text between them are the input, and every occurrence is leftmost |
| Rewrite.CutIsUnique | internal/rules/redirect.go:120 | there is only one such cut |
| Rewrite.LengthLaw | internal/rules/redirect.go:120 | len(out) = len(in) + n * (len(replace) - len(search)) |
| Rewrite.ChangesExactlyWhenFound | internal/rules/redirect.go:104-107 | the text changes if and only if the search text occurs and differs from its replacement |
| Redirect.LiteralRedirect | internal/rules/redirect.go:98-124 | in literal mode a redirect is emitted exactly when the match holds, the search occurs in the full URL and differs from the replacement; its location is the rewritten URL |
| Redirect.PatternRedirect | internal/rules/redirect.go:98-124 | in regex mode a redirect is emitted exactly when the condition holds and the rewriting changes the URL |
| Redirect.UrlIdentifiesTarget | internal/rules/redirect.go:126-155 | two flows have the same full URL if and only if scheme, host, port up to the default, path up to empty or slash, and query agree |
| Redirect.UrlParts | internal/rules/redirect.go:126-142 | the full URL is scheme, authority without the default port, path or slash, and query |
| Rules.MatchesMeansHits | internal/rules/rules.go:43-56 | a condition holds when the method is listed, if any is, and both expressions find a match |
| Rules.StrippedMeaning | internal/rules/maplocal.go:92-98 | stripping takes off exactly what the expression matched from the start of the path |
| MapLocal.TargetIsContained | internal/rules/maplocal.go:112-136 | a returned target is the rule file, or the rule directory or below it, with no dot component |
| MapLocal.TraversalExactly | internal/rules/maplocal.go:122-134 | the traversal error occurs if and only if the first component of the cleaned remainder starts with two dots, and is then an ordinary name below the rule directory |
| MapLocal.DottedFileIsRefused | internal/rules/maplocal.go:131-134 | a concrete request for an ordinary file below the rule directory that is answered with the traversal error |
| MapLocal.ServesBelowDirectory | internal/rules/maplocal.go:92-135 | when the path is what the expression consumed and then names, the target is those names below the rule directory |
| MapLocal.ServesIndexFile | internal/rules/maplocal.go:98-104 | when the path is what the expression consumed, with or without a slash, the target is the index file of the rule directory |
| MapLocal.ServesIndexBelow | internal/rules/maplocal.go:98-104 | names with a trailing slash are served the index file below them |
| MapLocal.OtherPaths | internal/rules/maplocal.go:87-115 | no match when the condition fails or the expression matches further on, an error when the rule path is missing, and a rule file for every path |
| MapLocal.DirectoryTargetMeaning | internal/rules/maplocal.go:116-135 | the directory branch in full: base components followed by the cleaned remainder, or the error |
| Paths.ComponentsAreNames | internal/rules/maplocal.go:118 | cleaning a rooted path leaves no empty, dot or dot-dot component |
| Paths.CleanTwice | internal/rules/maplocal.go:118 | cleaning is idempotent |
| Paths.ParentUndoesName | internal/rules/maplocal.go:118 | a dot-dot component undoes the name before it, and the root is its own parent |
| Paths.JoinPathAppends | internal/rules/maplocal.go:120 | joining clean names appends them to the components of the base |
| Paths.RelBelow | internal/rules/maplocal.go:131 | the relative path from a base to something below it is the rest of the components |
| MapRemote.TargetBelowBase | internal/rules/mapremote.go:61-98 | the target has scheme, host and port of the rule URL, the rest of the path below its path, and both queries in order |
| MapRemote.OneSlashAtTheSeam | internal/rules/mapremote.go:100-113 | the joined path has exactly one slash at the seam |
| MapRemote.OtherRequestsStay | internal/rules/mapremote.go:62-70 | no target when the condition fails or the expression matches further on |
| RuleSet.Compile | internal/rules/ruleset.go:47-98 | the loop yields the staged form of the enabled rules in file order, or the error of the first enabled rule that does not compile |
| RuleSet.OnlyStageOrderMatters | internal/rules/ruleset.go:47-98 | files that list the same enabled rules in the same order within every stage compile alike, or both fail |
| RuleSet.DisabledRulesAreIgnored | internal/rules/ruleset.go:50-52 | dropping a rule whose enabled key says false, even an invalid one, changes nothing |
| RuleSet.EnabledRuleTakesItsPlace | internal/rules/ruleset.go:49-96 | every other rule adds itself to the stage of its type, between what stands before and after it, and fails the file when it does not compile |
| RuleSet.AbsentMeansEnabled | internal/rules/ruleset.go:50-52 | no enabled key and enabled: true are the same |
| RuleSet.CompiledInTwo | internal/rules/ruleset.go:49-97 | a file in two parts compiles exactly when both do, to one rule set after the other |
| RuleSet.StagesCommute | internal/rules/ruleset.go:54-95 | swapping neighbours of different stages changes nothing |
| RuleSet.StagedAppend | internal/rules/ruleset.go:54-95 | one more rule extends exactly the lists of its own type |
| RuleSet.FaultFails | internal/rules/ruleset.go:56-94 | a rule in error fails the whole file |
| Pipeline.Run | internal/proxy/pipeline.go:134-273 | for every request, Run on the in-place request and response objects gives the outcome of the stages, and leaves the request header as the request rules make it |
| Pipeline.DoRoundtrip | internal/proxy/pipeline.go:374-448 | limit, retargeting, header copy and removal, transport failure and reply filtering, in place |
| Pipeline.EditBody | internal/proxy/pipeline.go:227-250 | the body stage in place: matching rules folded over the body in file order, Content-Length rewritten |
| Pipeline.IsIdentityContentEncoding | internal/proxy/pipeline.go:275-290 | true if and only if every listed token is empty or identity in any letter case |
| Pipeline.ReadRequestBody | internal/proxy/pipeline.go:450-460 | reading one byte past the limit decides between the whole body, too large, and a read error |
| Pipeline.FindRedirect | internal/proxy/pipeline.go:156-166 | the first redirect in file order that rewrites the URL |
| Pipeline.FindMapped | internal/proxy/pipeline.go:171-203 | the first map or map_local rule in file order that decides, with its early exits |
| Pipeline.FindRemote | internal/proxy/pipeline.go:205-216 | the first map_remote target in file order |
| Pipeline.ApplyRequestRules | internal/proxy/pipeline.go:138-144 | the request operations of every matching header rule, in order |
| Pipeline.ApplyResponseRules | internal/proxy/pipeline.go:253-259 | the response operations of every matching header rule, in order |
| Pipeline.ServeLocal | internal/proxy/pipeline.go:334-370 | 404 for a missing file, errors for opening, sniffing and seeking, otherwise the file as a stream with its type |
| Pipeline.ServeMapped | internal/proxy/pipeline.go:302-317 | the inline body with its type and length |
| Pipeline.ServeRedirect | internal/proxy/pipeline.go:320-331 | Location, no body, length 0 |
| Pipeline.RequestHeaderIsClean | internal/proxy/pipeline.go:138-144 | the request header rules keep the header canonical |
| PipelineLaws.CompiledRunMeansTheWalk | internal/proxy/pipeline.go:134-273 | Run on the compiled rule file means one walk over the file-ordered list of enabled rules |
| PipelineLaws.StagesMeanTheWalk | internal/proxy/pipeline.go:134-273 | for every rule list the staged form and the single walk give the same response or the same error |
| PipelineLaws.WalkIsStaged | internal/proxy/pipeline.go:138-216 | from any state of the walk, walking the rest of the list finds what its stages find |
| PipelineLaws.ReorderedFilesRunTheSame | internal/proxy/pipeline.go:134-273 | reordering a file across stages or dropping disabled rules changes no response |
| PipelineLaws.RuleAnswersIgnoreTheRequest | internal/proxy/pipeline.go:155-203 | when a redirect or mapped rule answers, the response depends on the flow metadata alone, for the stages and for the walk |
| PipelineLaws.FirstRedirectIsFirst | internal/proxy/pipeline.go:156-166 | the answering redirect is that of the first rule that rewrites the URL, and there is none exactly when no rule does |
| PipelineLaws.FirstMappedIsFirst | internal/proxy/pipeline.go:171-203 | the map stage decides as its first deciding rule, and not at all exactly when no rule decides |
| PipelineLaws.UpstreamUrl | internal/proxy/pipeline.go:395-403 | without a map_remote target the upstream URL is the one redirects see, unless the path is empty or the default port is written out |
| PipelineLaws.BodiesAreNotTruncated | internal/proxy/pipeline.go:410-424 | under a limit a request body goes upstream whole or not at all |
| PipelineLaws.RedirectAnswer | internal/proxy/pipeline.go:320-331 | a redirect carries the rewritten URL in Location, status and length 0, no body, and no other field |
| PipelineLaws.InlineAnswer | internal/proxy/pipeline.go:302-317 | an inline answer carries its rule's status, bytes, their length, and the rule's type or else the sniffed one, and no other field |
| PipelineLaws.FileAnswer | internal/proxy/pipeline.go:334-370 | a file is streamed as it is with only a Content-Type: the rule's, else that of its name, else what its first 512 bytes look like; a missing one is an empty 404, and failures to open, sniff or rewind are errors |
| PipelineLaws.LocalContentLength | internal/proxy/pipeline.go:227-264 | a response built here ends with no Content-Length or the length of its final body, unless an applied response operation sets Content-Length |
| PipelineLaws.NamedLengthWins | internal/proxy/pipeline.go:262-264 | a rule that sets Content-Length on its own response has the last word, right or wrong |
| PipelineLaws.ChangedBodyHasItsLength | internal/proxy/pipeline.go:237-249 | a replaced body is the fold of the matching rules and carries its own length; no other header changes |
| PipelineLaws.EditedHeaderIsForwardable | internal/proxy/pipeline.go:429-434 | the forwardable part of the edited request header is clean and has no hop-by-hop or listed name |
| RunLaws.MissedRulesCanGo | internal/proxy/pipeline.go:134-273 | a rule of any kind whose condition the request does not meet might as well not be in the file |
| RunLaws.NoRuleSetMeansNoRules | internal/proxy/pipeline.go:138 | no rule set is a rule set without rules |
| RunLaws.RedirectAnswersFirst | internal/proxy/pipeline.go:156-167 | the first redirect that rewrites answers, whatever the map stage would have done |
| RunLaws.InlineRuleAnswers | internal/proxy/pipeline.go:190-202 | the first rule of the map stage that does not decline, when inline, answers with its own status, type and body |
| RunLaws.FileRuleAnswers | internal/proxy/pipeline.go:174-191 | a map_local rule that is reached: an empty 403 past all response stages for a refused traversal, an error for a missing rule path or an unreadable file, else the file |
| RunLaws.FinishedMeaning | internal/proxy/pipeline.go:227-264 | body edits, then header rules, then the rule's own operations; status and source stay |
| RunLaws.UpstreamIsAskedExactly | internal/proxy/pipeline.go:374-448 | when no rule answers, the upstream is asked with the client's method and whole body, the URL of the flow or its map_remote target, and every field that is not withheld; its reply comes back with status and body, without its withheld fields |
| RunLaws.UpstreamIsNotAsked | internal/proxy/pipeline.go:411-424 | a body over the limit is an empty 413, and one that cannot be read an error |
| RunLaws.UpstreamHeadersAreForwardable | internal/proxy/pipeline.go:429-436 | two upstreams that agree on every clean request without hop-by-hop or listed fields cannot be told apart by any run |
| RunLaws.RunAsksForwardableRequests | internal/proxy/pipeline.go:134-273 | the same for a whole run, whatever the request header rules add |
| RunLaws.HeaderRulesInOrder | internal/proxy/pipeline.go:138-144 | header rules apply in file order, each when its condition holds, request operations going out and response operations coming back |
| RunLaws.BodyRulesThatMatch | internal/rules/bodyreplace.go:73-81 | a body rule takes part when its condition holds and its content type expression, if any, finds a match |
| RunLaws.BodyEditsInOrder | internal/proxy/pipeline.go:243-245 | each matching body rule is applied to what the one before it left |
| RunLaws.BodyEditMeaning | internal/rules/bodyreplace.go:84-91 | a literal rule puts its replacement wherever the leftmost cut has the search bytes |
| RunLaws.CodedBodiesAreLeftAlone | internal/proxy/pipeline.go:228-229 | a body is edited only when every listed coding is empty or identity in any letter case |
| DumpBody.DumpBodyReadCloser.Read | internal/proxy/pipeline.go:531-537 | the caller gets the bytes, count and status of the body itself; the snippet and log move by one step |
| DumpBody.DumpBodyReadCloser.Close | internal/proxy/pipeline.go:539-542 | the body is closed once, and the snippet is logged if it was not |
| DumpBody.SnippetLimitWriter.Write | internal/proxy/pipeline.go:508-521 | keeps what still fits and reports everything written |
| DumpBody.Dump | internal/proxy/pipeline.go:486-501 | no body stays none, and without a positive limit the body is handed on unwrapped |
| DumpBody.SnippetIsPrefix | internal/proxy/pipeline.go:503-521 | for every run of reads and closes the snippet is the first min(maxBytes, bytes read) bytes |
| DumpBody.LoggedOnce | internal/proxy/pipeline.go:531-557 | at most one snippet is logged, at the first end of file or Close, equal to what had been read by then up to the limit |
| DumpBody.NothingIsLost | internal/proxy/pipeline.go:531-537 | for every chunking and every run of calls the delivered bytes are the content of the body, in order |

## Left out

- CertAuthority.CA.LeafCert: states an uncontended call only; calls that interleave are the transition system of LeafProtocol, whose register and deregister steps and cache steps are what the methods of the class are proved against.
- LeafProtocol.StepKeepsLockInv: the code between `ca.mu.Lock()` and `ca.mu.Unlock()` is one step, taken by the holder of the mutex; the Go memory model and mutex fairness are not modelled.
- LinkedList.List.PushFront: the list stands for `container/list`, which is not part of this repository.
- Pkcs12RoundTrip.EncodeReadsBack: certificate and key are at most 2^59 bytes, so that every DER length fits a Go int.
- Pkcs12.PasswordBytes: passwords are sequences of code points; bytes that are not valid UTF-8 are not modelled.
- Der.ElementsRoundTrip: stands for `encoding/asn1`, which is not part of this repository; only the element kinds the bundle uses are written.
- HttpHeader.ApplyDelete: the sorted order of the wildcard's keys is not modelled; every order is, and gives the same map.
- HttpHeader.Apply: header strings are sequences of code points, so bytes that are not valid UTF-8 are not modelled.
- Redirect.LiteralRedirect: regular-expression replacement templates are an arbitrary rewriting function.
- Redirect.UrlIdentifiesTarget: covers hosts without ':' or '/', so no IPv6 literals.
- MapLocal.TargetIsContained: paths are slash-separated and the rule path is absolute, as the configuration makes it; symbolic links are not followed.
- Paths.ComponentsAreNames: `path` and `filepath` of the Go library are modelled by components, not byte by byte.
- RuleSet.Compile: the compilers of the single rule types are parameters; their field checks would add only easy members. Error texts are reduced to index and type.
- Pipeline.Run: response streams are values that yield bytes and then an end or an error; closing bodies, request cancellation, `dumpHeaders` and the choice of wrapping the body when dumping is on are not part of Run here. The wrapper itself is DumpBody.
- Pipeline.DoRoundtrip: when several keys of a request header share one canonical form, which net/http never delivers, the order in which their values are joined is left open.
- `FullPathWithQuery` of the flow metadata: no rule reads it.
- MapRemote.TargetBelowBase: parsing the rule URL into its parts is left to `net/url`.
- DumpBody.DumpBodyReadCloser.Read: a body gives an error or end with its last bytes or after them; readers that misreport counts are not modelled.
- Key and certificate generation, X.509, RSA, 3DES and CBC, and loading from disk: left to library code.
- TLS interception, HTTP/1.1 and HTTP/2 serving, raw tunnels, transports and timeouts: decided by network and library code.
- Configuration loading, flags, environment, XDG paths, terminal UI, log formatting: easy overrides or presentation.
