# Upstream selection and access logging, verified

A Dafny model of two parts of an Envoy-compatible proxy written in Rust: the engine in
`envoy-cluster` that decides which upstream endpoint serves a request, and the format compiler in
`envoy-accesslog` that turns a request record into a log line. `dafny verify dfyconfig.toml` checks
the whole project.

| file | what it models |
|---|---|
| `Primes.dfy`, `Maglev.dfy` | Maglev table build, its validator, and the number theory it rests on |
| `Budget.dfy`, `BudgetGauges.dfy` | the circuit-breaker budget: a lock-free acquire loop and guard release under every interleaving, and when its gauges can be trusted |
| `Outlier.dfy`, `OutlierDetectors.dfy`, `OutlierCap.dfy`, `OutlierObject.dfy` | outlier ejection: streaks, the capped response compound, the sweeper, as one concurrent system and as an object; the detectors over whole runs; how tight the cap is |
| `RingHash.dfy`, `RingResize.dfy`, `Subset.dfy`, `Pick.dfy` | the ring and what happens when a host leaves it, the subset index, and endpoint selection composed from them |
| `EdsReload.dfy` | endpoint reloads, and runs in which reloads, selections and responses interleave |
| `Health.dfy` | active health with wrapping counters and the membership gauge |
| `CommandOperator.dfy`, `OperatorGrammar.dfy`, `FormatString.dfy` | the format language: operators, escaping, parsing, printing |
| `Grpc.dfy`, `Rendering.dfy`, `DefaultFormat.dfy` | rendering against a record, and the default format |
| `Json.dfy`, `JsonFormat.dfy` | JSON formats, and an independent decoder after RFC 8259 |
| `Calendar.dfy` | timestamps |
| `Common.dfy`, `Decimal.dfy`, `Lex.dfy` | shared vocabulary |

Three expectations turn out to be false of the code. For each there is the family of failing runs or
inputs and the exact condition under which the code does meet it:

* Circuit-breaker gauges can stay wrong while nothing is in flight, against the comment that they are
  never persistently stale. They are right at rest over every run exactly with at most one thread or
  no slot to take (`BudgetGauges.ExactIffAloneOrNoSlots`).
* Overlapping response compounds can eject more endpoints than the cap allows: with T of them, T - 1
  more, and that many are reached for every T (`OutlierCap.BoundIsReached`). The cap holds over every
  run exactly when nothing is detected, at most one thread responds, the cap is zero, or it covers
  every endpoint (`OutlierCap.WithinCapIff`).
* Removing a host can move keys between the hosts that stay, because the number of ring entries per
  host depends on the number of hosts. No hash moves such a key exactly when there are at most two
  hosts or one address, the ring is too small to hold any entry, or the number of entries per host
  does not change (`RingResize.KeysStayIff`).

## Model

| member | source | states |
|---|---|---|
| Primes.ProbesCover | crates/envoy-cluster/src/maglev.rs:31-53 | for a prime table size and any nonzero skip the probe positions of a host reach every slot |
| Primes.PrimeIffEverySkipCovers | crates/envoy-cluster/src/maglev.rs:31-53 | a table size makes every host's probes reach every slot exactly when it is prime |
| Primes.IsPrime | crates/envoy-config/src/bootstrap.rs:4207-4225 | trial division by 2 and the odd numbers up to the square root decides primality, for every input |
| Primes.ValidateTableSize | crates/envoy-config/src/bootstrap.rs:4275-4292 | a table size is accepted exactly when it is prime and at most 5000011; which of the two errors otherwise |
| Maglev.HostCanClaim | crates/envoy-cluster/src/maglev.rs:39-61 | while a slot is free, every host's search ends within one lap |
| Maglev.GreedyCounts | crates/envoy-cluster/src/maglev.rs:39-61 | after k turns exactly M - k slots are free and each host owns one slot per turn it has had |
| Maglev.NextUnclaimed | crates/envoy-cluster/src/maglev.rs:44-53 | the cursor that never looks back finds the same slot as a rescan from position 0, at a cursor below M and without overflow of the 64-bit product |
| Maglev.TakeTurn | crates/envoy-cluster/src/maglev.rs:43-56 | one turn with a cursor is one turn of the naive process that rescans from position 0, and keeps every position below every host's cursor claimed |
| Maglev.Build | crates/envoy-cluster/src/maglev.rs:22-62 | the build ends with the naive greedy table: empty exactly without hosts or slots, otherwise claim k belongs to host k mod n and is the first slot of (hash of its address under seed 0 + j * (1 + hash under seed 1 mod (M - 1))) mod M that no earlier claim took; host 0 owns the slot of its own offset, every slot holds an existing host, and host h has M/n slots, plus one if h < M mod n |
| Maglev.SlotsAreShares | crates/envoy-cluster/src/maglev.rs:64-71 | lookups follow the table: among any M consecutive key hashes a host gets exactly as many as it has slots, so after the build M/n of them, plus one if its index is below M mod n |
| Maglev.HitsOfPrefix | crates/envoy-cluster/src/maglev.rs:64-71 | the first k key hashes go to the hosts of the first k slots, for every k up to M |
| Budget.Linearizable | crates/envoy-cluster/src/budget.rs:110-259 | under every interleaving of loads, exchanges and releases by any number of threads: 0 <= active <= max, the effects replayed in order on a sequential bounded counter are legal and end at active, and each operation has one effect between its invocation and its return, which decides what it returns |
| Budget.Conservation | crates/envoy-cluster/src/budget.rs:110-259 | active is the number of outstanding guards and the overflow counter the number of rejections, up to operations in flight and exactly at rest |
| Budget.GaugesHonest | crates/envoy-cluster/src/budget.rs:183-219 | for some value the counter really held, between 0 and max, the breaker shows open exactly if that value is positive and max, and for some such value the other gauge shows max minus it |
| Budget.PublishedIsRecent | crates/envoy-cluster/src/budget.rs:183-219 | what a gauge write publishes is a value the counter held after the writing operation began |
| Budget.FailedExchangeMeansProgress | crates/envoy-cluster/src/budget.rs:110-140 | an exchange fails only if some other operation took effect since the load |
| Budget.SoloAcquire | crates/envoy-cluster/src/budget.rs:110-175 | from any reachable state, an acquire that runs alone finishes, succeeds exactly when a slot is free, and leaves both gauges exact however stale they were |
| Budget.SoloDrop | crates/envoy-cluster/src/budget.rs:232-259 | likewise for dropping a guard |
| BudgetGauges.StaleAtRest | crates/envoy-cluster/src/budget.rs:174-219 | for every positive cap and any two or more threads some run ends with every slot taken, nothing in flight and the breaker shown closed |
| BudgetGauges.ExactIffAloneOrNoSlots | crates/envoy-cluster/src/budget.rs:174-219 | every run that ends with nothing in flight ends with exact gauges, exactly when there is at most one thread or the cap is 0 |
| BudgetGauges.GaugesForetell | crates/envoy-cluster/src/budget.rs:183-219 | with exact gauges, the remaining gauge is the number of acquires that one thread completes before its first rejection, so remaining + active = max, and the breaker shows open exactly when a slot is in use and the next acquire is rejected |
| Budget.BudgetSide.TryAcquire | crates/envoy-cluster/src/budget.rs:110-136 | the acquire loop against any interference between load and exchange and before the gauge writes: success adds one to a value that was current, rejection only at the maximum; the gauges show the value decided on: open exactly if it is positive and max, remaining max minus it |
| Budget.BudgetSide.Release | crates/envoy-cluster/src/budget.rs:232-238 | dropping a guard frees one slot, and the gauges show the value that left (open, and max minus it), whatever others do meanwhile |
| Outlier.CapUnderOverlap | crates/envoy-cluster/src/cluster.rs:581-624 | in every run with at most T response compounds in flight, at most cap + T - 1 endpoints are ejected (so at most cap when they do not overlap, none when the cap is 0), although each compound reads the flags one at a time while they change |
| OutlierCap.BoundIsReached | crates/envoy-cluster/src/cluster.rs:597-623 | the bound is tight: for every configuration that detects anything, any thresholds, any n, cap > 0 and T up to the number of threads, some run with at most T compounds in flight ejects min(n, cap + T - 1) endpoints |
| OutlierCap.WithinCapIff | crates/envoy-cluster/src/cluster.rs:581-624 | no run ever exceeds the cap, exactly when no threshold is set, at most one thread responds, the cap is 0 or the cap is at least n |
| Outlier.AccountsExact | crates/envoy-cluster/src/ejection.rs:198-232 | over every run, up to operations in flight and exactly at rest: crossings = enforced + overflow, enforced = the sum of the two detector counters, the gauge = ejected endpoints = enforced - un-ejections |
| Outlier.EjectedIffStamped | crates/envoy-cluster/src/cluster.rs:597-623 | whenever an endpoint's lock is free it is ejected exactly when its timestamp is set |
| Outlier.NeverUnejectedEarly | crates/envoy-cluster/src/outlier.rs:70-89 | in every run, from the step that sets an endpoint's flag to the step that clears it the base ejection time passes |
| Outlier.SweepClearsTheDue | crates/envoy-cluster/src/outlier.rs:70-89 | when a sweep has passed every endpoint, no ejection stamped before it began and due by then is still in force |
| Outlier.CountersAreStreaks | crates/envoy-cluster/src/ejection.rs:152-192 | over every run the 5xx counter is the length of the all-5xx suffix since the last un-ejection modulo 2^32 and the gateway counter the number of 502 to 504 in it; exact, and the latter never larger, below 2^32 |
| Outlier.CrossesWhen | crates/envoy-cluster/src/ejection.rs:152-192 | a response to an endpoint that is not ejected is logged; below 2^32 it crosses 5xx exactly when the threshold is positive and that many of the last statuses, this one included, lie in 500 to 599, and crosses the gateway detector exactly when it is itself in 502 to 504 and an unbroken row of 5xx up to it holds at least the positive threshold of 502 to 504 |
| OutlierDetectors.DetectedExact | crates/envoy-cluster/src/ejection.rs:152-216 | over every run the detected counters are the numbers of responses that trip the detector, enforcements for 5xx are at most the 5xx crossings and the others at most the crossings of the gateway detector alone |
| OutlierDetectors.TripsMean | crates/envoy-cluster/src/ejection.rs:152-192 | below 2^32 a response in a run trips a detector exactly when the statuses the endpoint has seen say so |
| Outlier.StreakIsLongest | crates/envoy-cluster/src/ejection.rs:152-192 | the streak is the longest all-5xx suffix of the recorded statuses |
| Outlier.StreakGatewaysCounts | crates/envoy-cluster/src/ejection.rs:152-192 | the gateway streak is the number of gateway failures inside that suffix |
| Outlier.DeadlockFree | crates/envoy-cluster/src/outlier.rs:70-89 | in every reachable state with an operation in flight some thread can move |
| OutlierObject.OutlierDetection.RecordAt | crates/envoy-cluster/src/cluster.rs:597-623 | one compound: below 2^32 it ejects exactly when the endpoint is not ejected, its statuses trip a detector and fewer endpoints than the cap are ejected, overflows exactly when they trip one at the cap, ticks the detected counter of each detector tripped and the enforced counter of one (5xx on ties), logs the status, changes only that endpoint, and keeps the cap, the gauge and the stamps right |
| OutlierObject.OutlierDetection.RecordResponse | crates/envoy-cluster/src/cluster.rs:581-624 | that compound, with all its counters, on the first endpoint with the address, nothing for an unknown address |
| OutlierObject.OutlierDetection.CapMeans | crates/envoy-cluster/src/cluster.rs:602-607 | the cap is the configured percentage of the endpoints, rounded down |
| OutlierObject.OutlierDetection.Eject | crates/envoy-cluster/src/ejection.rs:198-216 | gauge and counters tick once per ejection edge, never for an endpoint already ejected |
| OutlierObject.OutlierDetection.TryUnEject | crates/envoy-cluster/src/ejection.rs:224-232 | reports whether the endpoint was ejected; if so both counters restart and the gauge drops, otherwise nothing changes |
| OutlierObject.OutlierDetection.SweepOnce | crates/envoy-cluster/src/outlier.rs:70-89 | exactly the endpoints stamped at least the base time ago get flag, counters, stamp and log cleared, all others are untouched, and the gauge stays exact |
| RingHash.Build | crates/envoy-cluster/src/ring_hash.rs:51-74 | the ring holds minimum size / n entries of every host, sorted by hash and in insertion order among equals, and every lookup answers with the host nearest clockwise |
| RingHash.ServedByNearest | crates/envoy-cluster/src/ring_hash.rs:51-88 | a key goes to the host h whose replica i, hashed as address, underscore, i, is at least distance (hash - key) mod 2^64, the first in configuration order on ties; to none exactly when no host has a replica |
| RingHash.LookupIsNearest | crates/envoy-cluster/src/ring_hash.rs:78-88 | the partition point search over the sorted ring returns the raw entry at least clockwise distance modulo 2^64, the first inserted on ties |
| RingHash.SortIsStable | crates/envoy-cluster/src/ring_hash.rs:51-74 | sorting keeps the entries of every hash value in insertion order |
| RingHash.StableSortUnique | crates/envoy-cluster/src/ring_hash.rs:51-74 | sorted and stable determines the ring, whatever the sorting algorithm |
| RingHash.RemovalKeepsOtherKeys | crates/envoy-cluster/src/ring_hash.rs:51-88 | with equal entries per host, dropping one host leaves every key of every other host where it was, for every hash |
| RingResize.KeysStayIff | crates/envoy-cluster/src/ring_hash.rs:51-88 | for every list of addresses and minimum ring size m: whatever the hash and whoever leaves, no key of a remaining host moves, exactly when n <= 2, all addresses are equal, m/n is 0, or m/n = m/(n - 1) |
| RingResize.SomeKeyMoves | crates/envoy-cluster/src/ring_hash.rs:51-88 | otherwise there are a hash and a leaving host for which a key moves between two hosts that both stay |
| Subset.KeySetCanonical | crates/envoy-cluster/src/subset.rs:34-66 | two selectors get the same key list exactly when they declare the same keys, in any order and with any repetition |
| Subset.Build | crates/envoy-cluster/src/subset.rs:34-66 | the index groups, for every selector, exactly the endpoints with each value tuple, in ascending order |
| Subset.LookupAgrees | crates/envoy-cluster/src/subset.rs:70-80 | lookup is the linear scan: with a selector of exactly the match's keys, all endpoints whose metadata contains the match, none if there is none |
| Subset.ResolveAgrees | crates/envoy-cluster/src/subset.rs:83-114 | resolution through the index is resolution by scanning, fallback policy included, for every request |
| Subset.ResolveMeans | crates/envoy-cluster/src/subset.rs:70-114 | resolution in full: everybody without selectors; exactly the endpoints carrying the match, ascending, when some selector declares exactly its keys and there are any; otherwise nobody, everybody or the default subset as the policy says |
| Pick.NobodyServedIff | crates/envoy-cluster/src/cluster.rs:368-486 | exactly when nobody is served: no endpoints, a subset that resolves to nobody or to no endpoint that is healthy and not ejected, or neither narrowing nor a usable hash host, a filter configured, no endpoint healthy and not ejected and no positive panic threshold |
| Pick.PanicsIff | crates/envoy-cluster/src/cluster.rs:469-474 | panic exactly when the percentage of endpoints that are healthy (if checked) and not ejected (if detected) is strictly below the threshold |
| Pick.HashHostIff | crates/envoy-cluster/src/cluster.rs:431-441 | the hash host counts exactly with a key, a structure, an answer from the ring or the table, and an endpoint at that index |
| Pick.ServedAreEligible | crates/envoy-cluster/src/cluster.rs:368-503 | a fixed host is served exactly without narrowing and with a hash host; a rotation holds, ascending, exactly the subset's endpoints that are healthy and not ejected, or without narrowing exactly the endpoints that are, or everybody when no filter is configured or in panic |
| Pick.PicksFollowTheCursor | crates/envoy-cluster/src/cluster.rs:409-486 | consecutive picks walk the candidates cyclically from the cursor, until the cursor wraps |
| Pick.PicksAreFair | crates/envoy-cluster/src/cluster.rs:409-486 | k picks in a row over n candidates serve an address k/n times, rounded down or up, for every candidate that has it |
| Pick.Picker.Select | crates/envoy-cluster/src/cluster.rs:368-486 | one selection over one snapshot makes that choice: nobody, the fixed endpoint, or the candidate at cursor mod n; the cursor moves, by one modulo 2^64, only when a list is rotated over |
| Pick.Picker.FilterEligible | crates/envoy-cluster/src/cluster.rs:401-410 | keeps exactly the listed endpoints that exist, are healthy if health is checked and not ejected if outliers are detected, in order |
| EdsReload.EdsCluster.Reload | crates/envoy-cluster/src/eds_reload.rs:97-176 | ticks attempt and exactly one outcome by the error: unreadable or malformed fails, no assignment at all is empty, no assignment of that name or a bad endpoint is rejected; succeeds exactly for an accepted file, whose endpoints then are the live set, and otherwise leaves it alone |
| EdsReload.AcceptedIff | crates/envoy-cluster/src/eds_reload.rs:120-164 | a file is accepted exactly when it parses, names the cluster, and every endpoint of the first such assignment parses; put in force are those endpoints, locality by locality |
| EdsReload.EdsCluster.Collect | crates/envoy-cluster/src/eds_reload.rs:148-164 | the candidate is every endpoint of every locality in order, or nothing if one does not parse |
| EdsReload.WatchTargets | crates/envoy-cluster/src/eds_reload.rs:194-236 | exactly the discovery clusters without health checking and outlier detection are watched, in order |
| EdsReload.RunsAreSafe | crates/envoy-cluster/src/eds_reload.rs:97-236 | from startup, over every interleaving of reloads, selections in progress, responses and flag changes: no index is used out of range, the live set is the last fully valid assignment, attempts equal the sum of outcomes, and a selection works on a set that was live |
| EdsReload.StartInv | crates/envoy-cluster/src/cluster.rs:368-503 | flags built in line with the endpoints at startup establish the invariant of those runs |
| Health.AgreesOnEveryHistory | crates/envoy-cluster/src/health.rs:65-84 | on probe histories of any length the machine with wrapping counters agrees with the unbounded one that flips after max(1, threshold) consecutive opposite results |
| Health.FlipsWhen | crates/envoy-cluster/src/health.rs:65-84 | the reference: starting unhealthy, an endpoint turns healthy exactly when the last max(1, threshold) results are successes, and unhealthy exactly when the last max(1, threshold) are failures |
| Health.EndpointHealth.RecordSuccess | crates/envoy-cluster/src/health.rs:65-72 | one more success in the history, the state that history gives, and the gauge up exactly on a flip |
| Health.EndpointHealth.RecordFailure | crates/envoy-cluster/src/health.rs:77-84 | one more failure in the history, the state that history gives, and the gauge down exactly on a flip |
| Health.EndpointHealth.IsHealthy | crates/envoy-cluster/src/health.rs:87-89 | answers as the unbounded reference does on the whole history |
| Health.ProbeAll | crates/envoy-cluster/src/health.rs:65-84 | after any sequence of probes over any endpoints the shared gauge is the number of healthy endpoints |
| Health.GaugeCountsHealthy | crates/envoy-cluster/src/health.rs:65-84 | from startup, with parallel probe tasks that write state and gauge in separate steps, the gauge is the number of endpoints that their probe histories make healthy, up to flips in flight and exactly so when there are none |
| CommandOperator.OperatorRoundTrip | crates/envoy-accesslog/src/command_operator.rs:306-553 | printing any canonical operator and parsing it gives it back |
| CommandOperator.ParsedIsCanonical | crates/envoy-accesslog/src/command_operator.rs:306-553 | every operator the parser returns is canonical: lower-case backed headers, nonempty alternate, length below 2^64, two-part metadata |
| OperatorGrammar.ParsesIffSpelled | crates/envoy-accesslog/src/command_operator.rs:306-553 | the parser accepts exactly the bodies that a grammar written without it spells, each as exactly that operator: the keywords and the one alias, empty parentheses, headers in any case with alternate and length, two-part metadata, the gRPC formats |
| OperatorGrammar.KeywordErrors | crates/envoy-accesslog/src/command_operator.rs:306-344 | a missing keyword, an unknown one, and an argument where none is taken each give their error |
| OperatorGrammar.HeaderErrors | crates/envoy-accesslog/src/command_operator.rs:423-500 | why a header operator is turned away: no argument, no closing parenthesis, trailing text, a bad length, an empty alternate, no backing field, in that order |
| OperatorGrammar.ArgumentErrors | crates/envoy-accesslog/src/command_operator.rs:384-419 | why a metadata or a gRPC operator is turned away: no closing parenthesis, a length, not namespace and key, an unknown format |
| FormatString.ParseFormat | crates/envoy-accesslog/src/command_operator.rs:252-303 | the loop computes the segments of the recursive definition, or the error of the first bad operator |
| FormatString.ParseShape | crates/envoy-accesslog/src/command_operator.rs:252-303 | results hold no empty and no adjacent literals, and canonical operators only |
| FormatString.ParseConcat | crates/envoy-accesslog/src/command_operator.rs:252-303 | if s parses, s + t parses to the coalesced concatenation, or fails exactly as t does |
| FormatString.JoinOfCoalesced | crates/envoy-accesslog/src/command_operator.rs:252-303 | coalesced concatenation is plain concatenation, except that two literals that meet become one |
| FormatString.PrintRoundTrip | crates/envoy-accesslog/src/command_operator.rs:252-553 | printing any coalesced list of canonical segments and parsing it gives the list back |
| FormatString.ParsePrintParse | crates/envoy-accesslog/src/command_operator.rs:252-553 | parse, print, parse equals parse |
| FormatString.EscapeRoundTrip | crates/envoy-accesslog/src/command_operator.rs:271-277 | text with its percent signs doubled parses to that text as one literal |
| FormatString.OneOperatorIff | crates/envoy-accesslog/src/command_operator.rs:252-303 | a format string is one operator exactly when it is that operator's body between two percent signs |
| FormatString.FirstErrorWins | crates/envoy-accesslog/src/command_operator.rs:279-296 | behind text that parses, an unclosed percent sign fails as unterminated and a bad body with its own error, whatever follows |
| Grpc.StatusCodeIff | crates/envoy-accesslog/src/command_operator.rs:134-140 | every header value reads as the number its digits spell, with optional sign, leading zeros and white space around them, if it fits 64 bits; every other value reads as -1 |
| Grpc.StatusCodeRoundTrip | crates/envoy-accesslog/src/command_operator.rs:138-140 | any 64-bit code in decimal, with any white space around it, is read back |
| Grpc.NumberKeepsTheCode | crates/envoy-accesslog/src/command_operator.rs:145-164 | the number format, and the fallback for codes without a name, print text that reads as the same code |
| Grpc.CodeNames | crates/envoy-accesslog/src/command_operator.rs:108-164 | the camel and snake names of the codes 0 to 16; every other code, and every code in the number format, prints as the number |
| Grpc.SpacesAndRange | crates/envoy-accesslog/src/command_operator.rs:134-140 | which code points count as white space, and the exact 64-bit range of readable codes |
| Rendering.TruncateIsLongest | crates/envoy-accesslog/src/command_operator.rs:758-763 | a cut to n bytes keeps the longest prefix of whole characters that fits |
| Rendering.TruncateAscii | crates/envoy-accesslog/src/command_operator.rs:752-763 | on ASCII text a cut to n bytes is the first n characters |
| Rendering.ReqBackedIffResolvable | crates/envoy-accesslog/src/command_operator.rs:725-738 | a request header is on the allow list exactly when some record has a value for it |
| Rendering.RespBackedIffResolvable | crates/envoy-accesslog/src/command_operator.rs:743-750 | likewise for response headers |
| Rendering.RenderOp | crates/envoy-accesslog/src/command_operator.rs:655-720 | appends the operator's value, or the mark of absence, cut to its limit |
| Rendering.PlainTexts | crates/envoy-accesslog/src/command_operator.rs:657-672 | what each operator of an always-present field prints, durations in whole milliseconds |
| Rendering.OptionalTexts | crates/envoy-accesslog/src/command_operator.rs:673-683 | what each operator of an optional field prints: the field, or the mark of absence, which is a dash or with omitted empty values nothing |
| Rendering.ArgumentTexts | crates/envoy-accesslog/src/command_operator.rs:684-695 | what the metadata and gRPC operators print |
| Rendering.HeaderFields | crates/envoy-accesslog/src/command_operator.rs:725-750 | the record field behind each header name |
| Rendering.HeaderTexts | crates/envoy-accesslog/src/command_operator.rs:696-720 | a header prints its value, else its alternate's, else the mark of absence, and a length cuts whichever it is |
| Rendering.RenderSegments | crates/envoy-accesslog/src/command_operator.rs:618-638 | the loop computes the concatenation of the segments' texts |
| Rendering.RenderConcat | crates/envoy-accesslog/src/command_operator.rs:618-638 | rendering a concatenation of two formats is the concatenation of their renderings, for every record |
| Rendering.EscapedTextRendersItself | crates/envoy-accesslog/src/command_operator.rs:252-303 | text with its percent signs doubled renders to itself, for every record |
| DefaultFormat.DefaultEqualsLegacy | crates/envoy-accesslog/src/default_format.rs:40-86 | the default format string parses, and for every record it renders to the line of the hand-written concatenation and a newline |
| Json.RoundTrip | crates/envoy-accesslog/src/json_format.rs:172-192 | every encoded tree decodes to itself under RFC 8259, alone or followed by a newline |
| Json.StringRoundTrip | crates/envoy-accesslog/src/json_format.rs:176-192 | every escaped string decodes to itself, whatever follows it |
| Json.EncodeNoNewline | crates/envoy-accesslog/src/json_format.rs:176-192 | no encoded tree contains a raw newline |
| Json.EscapesAre | crates/envoy-accesslog/src/json_format.rs:172-192 | escaping is minimal: printable characters but quote and backslash verbatim, seven short escapes, lower-case four-digit escapes for the other control characters |
| Json.AtomTexts | crates/envoy-accesslog/src/json_format.rs:217-243 | the exact text of null, booleans, integers and strings |
| Json.CompactArray | crates/envoy-accesslog/src/json_format.rs:76-85 | arrays are the items between brackets with one comma between two and nothing else |
| Json.CompactObject | crates/envoy-accesslog/src/json_format.rs:105-126 | objects likewise, with a colon between quoted key and value |
| JsonFormat.Compile | crates/envoy-accesslog/src/json_format.rs:47-60 | the result mirrors the configured tree with every format string parsed, or is the error of the first format string that does not parse |
| JsonFormat.CompileMap | crates/envoy-accesslog/src/json_format.rs:95-103 | likewise for an object, whose keys are kept |
| JsonFormat.EscapeInto | crates/envoy-accesslog/src/json_format.rs:176-192 | appends the escaped string |
| JsonFormat.EncodeSingleOp | crates/envoy-accesslog/src/json_format.rs:245-318 | appends the encoding of the operator's typed value: a number, a string, or null when absent |
| JsonFormat.EncodeJsonValue | crates/envoy-accesslog/src/json_format.rs:199-215 | appends the encoding of the leaf's intended value |
| JsonFormat.LeafMeans | crates/envoy-accesslog/src/json_format.rs:199-215 | that value is the operator's typed value for a list of exactly one operator, and for every other list the string the text format prints for all of it |
| JsonFormat.FormatDecodes | crates/envoy-accesslog/src/json_format.rs:199-215 | from the configured text: the line decodes to an operator's typed value exactly when the format string is one body between two percent signs, and otherwise to the string that the text format prints |
| JsonFormat.NumbersAre | crates/envoy-accesslog/src/json_format.rs:245-296 | which operators are JSON numbers (code, byte counts, duration in milliseconds, gRPC number when present), and which number |
| JsonFormat.TreeFollowsConfig | crates/envoy-accesslog/src/json_format.rs:47-126 | null and booleans as configured, arrays item by item, objects member by member under the configured keys in order |
| JsonFormat.RenderInto | crates/envoy-accesslog/src/json_format.rs:69-88 | appends the encoding of the intended tree |
| JsonFormat.RenderObjectInto | crates/envoy-accesslog/src/json_format.rs:109-126 | appends the encoding of the intended object |
| JsonFormat.RenderLine | crates/envoy-accesslog/src/json_format.rs:164-169 | the line decodes to exactly the intended tree, and its only raw newline is its last character |
| JsonFormat.LineDecodes | crates/envoy-accesslog/src/json_format.rs:69-169 | for every compiled value and record the rendered line decodes to exactly the intended tree |
| JsonFormat.KeysStaySorted | crates/envoy-accesslog/src/json_format.rs:105-126 | every object of that tree has its keys in ascending order |
| Lex.LessMeans | crates/envoy-accesslog/src/json_format.rs:105-126 | ascending means: at the first difference the smaller code point, or the end, comes first |
| JsonFormat.LeafAgreesWithText | crates/envoy-accesslog/src/json_format.rs:245-318 | a present operator has the same text in a JSON leaf as in a text format |
| JsonFormat.AbsentIsNull | crates/envoy-accesslog/src/json_format.rs:223-243 | a single operator is null exactly when it is absent |
| Calendar.EpochSecondsToYmdHms | crates/envoy-accesslog/src/default_format.rs:132-168 | a valid Gregorian date and time whose closed-form second count is the input, for every year that fits u32; the out-of-range month is never reached |
| Calendar.EpochOrder | crates/envoy-accesslog/src/default_format.rs:132-195 | epoch seconds order valid dates as the calendar does, so a date is determined by its second |
| Calendar.FormatIso8601 | crates/envoy-accesslog/src/default_format.rs:103-114 | the timestamp of the clock reading in milliseconds, readings before the epoch counting as the epoch |
| Calendar.TextOrderIsTimeOrder | crates/envoy-accesslog/src/default_format.rs:96-114 | through the year 9999 timestamps have 24 characters, compare as text as their times compare, and read back as the millisecond they were printed from |
| Calendar.TwentyFourCharacters | crates/envoy-accesslog/src/default_format.rs:96-114 | a timestamp has 24 characters exactly through the year 9999 |
| Calendar.StampChars | crates/envoy-accesslog/src/default_format.rs:103-114 | through the year 9999 it is digits with the separators of the RFC 3339 date-time shape at their places |
| Calendar.ReadingsMean | crates/envoy-accesslog/src/default_format.rs:103-107 | milliseconds are whole millions of nanoseconds, and readings before the epoch print as the epoch |
| Calendar.Gregorian | crates/envoy-accesslog/src/default_format.rs:170-195 | month lengths by the knuckle rule, the 4, 100, 400 leap rule, 146097 days in 400 years |
| Calendar.KnownDates | crates/envoy-accesslog/src/default_format.rs:132-168 | epoch second 0 is 1970-01-01T00:00:00, and six more dates around leap days and 2^31 |

## Left out

- The xxHash functions: parameters of the ring and of the Maglev table, so every result holds for any hash; the pinned oracle tables are not reproduced.
- Weak memory ordering and lock poisoning: every atomic operation is one sequentially consistent step.
- The two sides of the budget: one is modelled, the other is an identical copy on its own counter and gauges.
- Outlier steps: taking the lock, updating the streak and ticking the detected counters is one step, and so is the last statistics tick with the timestamp and the unlock; both touch only what the lock protects or counters nobody branches on.
- Health.GaugeCountsHealthy: a probe task updates its counters and its state in one step, because no other task writes them.
- Pick.Picker.Select: reads the health and ejection flags in one step, because a later flag change may or may not be seen by a running selection and both are allowed.
- Pick.Panics: the eligible percentage is an exact real, so rounding of the 64-bit float at the threshold is not modelled.
- Pick.PicksAreFair: is stated until the cursor wraps at 2^64.
- Counter overflow in builds with overflow checks: counters wrap as in a release build.
- Maglev.Build: tables are taken up to 2^32 slots, beyond the configured maximum of 5000011.
- Calendar.EpochSecondsToYmdHms: seconds past the last year that fits u32, where the source overflows.
- Hash-selected hosts are returned without an eligibility check, as in the source; no eligibility is claimed for them.
- Error texts of the format parser: errors carry a reason instead of the message.
- Endpoint parsing, file reading and YAML: a reload sees a file as unreadable, malformed, or a list of assignments, and address parsing is a parameter.
- Sorted maps: sequences of members with strictly ascending keys; the configuration's map type guarantees that order.
- Bootstrap wiring, statistics registration, DNS, sockets, TLS, tasks and cancellation, the admin interface, the binary, log sinks, and the log and network filters: plumbing or short structural recursions.
