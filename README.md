# go-replicate-local, modelled in Dafny

go-replicate-local runs several local replicas of each configured Go
service. It puts an HTTP load balancer in front of them that spreads
requests round-robin, and it drives everything from a terminal front end.
This project models the decision-making core of that system and proves
what it promises:

- `config.dfy` (module `Config`): the configuration record, `Validate` and `DefaultConfig`, and a corrected validation that also rejects a negative replica count.
- `runner.dfy` (module `Runner`): the replica supervisor, a `class Runner`.
  - Its state is the replica table, the captured log and the isolation filter.
  - It names, numbers and spawns replicas, captures and filters their output, isolates one replica, stops replicas and shuts everything down.
- `loadbalancer.dfy` (module `LoadBalancer`): the per-service balancer, a `class ServiceLB`.
  - Its round-robin counter wraps at 2^64.
  - The 503 branch for an empty pool.
  - The route registration loop: building pools, normalising patterns and de-duplicating prefixes.
- `ui.dfy` (module `Ui`): the front end's pure parts.
  - The replica listing, which sorts its argument array in place.
  - `max`, the header status text and the fixed help, error and success texts.
  - The three message cases of `Update`.
- `orchestrator.dfy` (module `Orchestrator`): the entry point.
  - `logWriter.Write`.
  - The start loop, which carries on after a service fails to start.
  - The parse and dispatch of one typed command, as a `class Driver` that records its effects.
- `text.dfy` (module `Text`): the Go string functions the core relies on: `strings.Fields`, `Split`, `TrimSpace`, `ToLower`, `HasSuffix` and `%d` formatting.
- `common.dfy` (module `Common`): `Option` and `Result`.

Operating-system processes are opaque `Pid`s. Spawning a replica is a
function parameter `spawn`: given the command line and environment of one
replica, it says whether its pipes were created and it started, and with
which process id. A pipe is the sequence of lines it yields. Whatever gets
printed is returned as a sequence of messages. The inherited environment is
a parameter. Go map iteration order, for the services and for a service's
env, is a sequence the caller supplies, and results are stated relative to
that order.

## Model

| member | source | states |
|---|---|---|
| Config.CheckService | internal/config/config.go:73-81 | the per-service checks, in source order: no error exactly when startPort > 0, endPort > startPort and the range holds at least `replicas` ports |
| Config.Validate | internal/config/config.go:69-71 | a load-balancer port of 0 or below is rejected, whatever the services |
| Config.FirstInvalidNone | internal/config/config.go:72-83 | scanning the services yields no error exactly when every service passes the three checks |
| Config.ValidateAccepts | internal/config/config.go:68-84 | Validate returns nil exactly when the port is positive and every service passes all three checks |
| Config.FirstNegativeNone | internal/config/config.go:72-83 | the check the corrected validation adds finds nothing exactly when no service asks for fewer than zero replicas |
| Config.ValidateCorrectedAccepts | internal/config/config.go:68-84 | the corrected validation accepts exactly what Validate accepts, less the configurations with a negative replica count |
| Config.ValidateRejectsInvalidService | internal/config/config.go:72-82 | one service failing any check makes the whole configuration fail |
| Config.ValidateOrderIndependent | internal/config/config.go:68-84 | acceptance is the same for any iteration order of the services |
| Config.ValidatedPortInRange | internal/config/config.go:79 | in a validated configuration, every port startPort+i with i < replicas is positive and at most endPort |
| Config.DefaultConfigValid | internal/config/config.go:26-48 | the default configuration passes Validate |
| Text.TrimSpace | internal/runner/process.go:69 | the result is the input with its leading and trailing white space removed and no more, so it neither starts nor ends with white space |
| Text.TrimSpaceIdempotent | internal/runner/process.go:69 | trimming twice is trimming once |
| Text.Split | internal/runner/process.go:90 | at least one piece, no piece contains the separator, and joining the pieces with it gives back the input |
| Text.Fields | cmd/orchestrator/main.go:97 | every field is non-empty and free of white space; input that starts with a non-space character has a first field starting with that character |
| Text.FieldsCover | cmd/orchestrator/main.go:97 | concatenating the fields gives the input with all white space removed |
| Text.FieldsEmpty | cmd/orchestrator/main.go:97-100 | there are no fields exactly when the input is all white space |
| Text.FieldsWord | cmd/orchestrator/main.go:97 | a non-empty run of non-white-space characters is exactly one field |
| Text.FieldsSplit | cmd/orchestrator/main.go:97 | a white-space character separates fields: the fields of a, then the character, then b are the fields of a followed by those of b. With FieldsWord this fixes the fields as the maximal runs of non-white-space characters |
| Text.DecNatRoundTrip | internal/interface/interface.go:202 | the decimal text of a natural number reads back as that number |
| Text.Dec | internal/runner/process.go:125 | the text is non-empty, has a minus sign exactly for negative numbers, and is all digits otherwise |
| Text.DecInjective | internal/runner/process.go:125 | different numbers have different decimal texts |
| Runner.SelectExact | internal/runner/process.go:212-233 | selecting by replica name keeps exactly the matching records (or exactly the non-matching ones) |
| Runner.SelectAppend | internal/runner/process.go:216-220 | selection preserves order: selecting from a concatenation concatenates the selections |
| Runner.SelectPartition | internal/runner/process.go:212-233 | the GetLogs selection and the IsolateLogs selection split the log between them: every record lands in exactly one |
| Runner.SelectPartitionStep | internal/runner/process.go:212-233 | the newest record lands in exactly one of the two selections, which differ from the older log's only by it |
| Runner.FirstFailure | internal/runner/process.go:124-147 | the first replica index at or after the start whose spawn fails, or the end: every attempt before it started and the attempt at it, if any, failed |
| Runner.Reached | internal/runner/process.go:124-158 | how many replicas StartService starts: at most the replica count, and every attempt below it started |
| Runner.StartOutcome | internal/runner/process.go:135-158 | StartService succeeds exactly when every replica starts; an error names the first replica that failed |
| Runner.AfterLastDashOf | internal/runner/process.go:125 | the text after the last dash of "name-d" is d when d has no dash, so the number at the end of a replica name is recovered from it |
| Runner.ReplicaNameInjective | internal/runner/process.go:125 | replica names "name-(i+1)" of one service are distinct for distinct i, and a name determines service name and index |
| Runner.LaunchedTable | internal/runner/process.go:124-149 | after the first k replicas start, each is in the table under its own name with its own process, and every other entry is unchanged |
| Runner.LaunchedHas | internal/runner/process.go:124-149 | a replica started before replica k is still in the table with its own process after replica k starts |
| Runner.LaunchedKeeps | internal/runner/process.go:124-149 | an entry whose name is none of the service's replica names keeps its process through the loop |
| Runner.Runner.constructor | internal/runner/process.go:39-44 | empty table, empty log, empty filter |
| Runner.Runner.AddCmd | internal/runner/process.go:46-52 | sets or overwrites exactly the entry for the name; log and filter unchanged |
| Runner.Runner.RemoveCmd | internal/runner/process.go:54-58 | deletes exactly that name, which changes nothing if it is absent |
| Runner.Runner.Isolate | internal/runner/process.go:64-81 | fewer than two pieces, or a trimmed name not in the table, gives the matching error and leaves the filter alone; otherwise the filter becomes the trimmed name and the log is replayed through IsolateLogs |
| Runner.Runner.ReadInputLine | internal/runner/process.go:89-105 | dispatch on the trimmed first space-separated piece, case-sensitively: "isolate" runs Isolate and either sets the filter to the named replica with its replay, or leaves it and reports the error printed to the user (no replica name, or the trimmed name not found); "showall" clears the filter; anything else changes no state |
| Runner.Runner.StartService | internal/runner/process.go:121-159 | the table gains exactly the replicas that started before the first failure, each under its name; the error is the one of the first failure; log and filter unchanged |
| Runner.Runner.WaitForExit | internal/runner/process.go:161-170 | removes the entry by name only, whichever process the name now stands for |
| Runner.Runner.OutputLogs | internal/runner/process.go:172-182 | each pipe line is appended, in read order, as "[STREAM][replica] line"; those lines are displayed exactly when the filter shows that replica |
| Runner.Runner.UpdateLatestLog | internal/runner/process.go:188-202 | the last record is displayed exactly when the filter is empty or names its replica; an empty log displays nothing |
| Runner.Runner.AddLog | internal/runner/process.go:203-210 | one record appended at the end, earlier records untouched |
| Runner.Runner.GetLogs | internal/runner/process.go:212-222 | exactly the records whose replica name equals the filter, in order, so an empty filter returns only records with an empty name |
| Runner.Runner.IsolateLogs | internal/runner/process.go:224-233 | prints, in order, exactly the messages of the records whose replica differs from the argument |
| Runner.Runner.StopReplica | internal/runner/process.go:235-250 | a present name is removed from the table and its process is the one killed; an absent name changes nothing and kills nothing |
| Runner.Runner.ReplicaNames | internal/runner/process.go:253-258 | the snapshot holds every name in the table, each exactly once |
| Runner.Runner.ShutdownAll | internal/runner/process.go:252-263 | every name of the snapshot is stopped once and its process killed; the table ends empty, so a second call stops nothing |
| Runner.Runner.StopEach | internal/runner/process.go:260-262 | stopping each name of a duplicate-free snapshot removes exactly those names, and the processes are killed in snapshot order, one per name |
| Runner.IsolateLogsReplaysOtherReplicas | internal/runner/process.go:224-233 | after isolating "a-1", the replay shows only the line of "a-2", although from then on only lines of "a-1" are displayed |
| Runner.IsolatedReplayMatchesLiveView | internal/runner/process.go:188-217 | for a non-empty name, the messages of the records selected for that replica are, one for one and in order, the messages the live view displays under that filter; the selection holds exactly the records that filter shows |
| Runner.DisplayedPipe | internal/runner/process.go:172-201 | the lines outputLogs displays for one pipe are exactly what the live view shows of that pipe's records under the current filter: all of their messages when the filter shows the replica, none otherwise |
| LoadBalancer.TargetURL | internal/lb/proxy.go:63-67 | parsing "http://localhost:port" fails exactly for a negative port |
| LoadBalancer.Pick | internal/lb/proxy.go:34 | the picked index is below the pool size |
| LoadBalancer.ServiceLB.constructor | internal/lb/proxy.go:58-60 | a fresh balancer holds the pool with the counter at 0 |
| LoadBalancer.ServiceLB.NextBackend | internal/lb/proxy.go:28-36 | an empty pool gives no backend and leaves the counter alone; otherwise the counter goes up by one, wrapping at 2^64, and the backend at the new counter modulo the size is returned; the pool never changes |
| LoadBalancer.ServiceLB.ServeHTTP | internal/lb/proxy.go:38-46 | an empty pool answers 503 and forwards nothing; otherwise the request goes to NextBackend's choice |
| LoadBalancer.Rotation | internal/lb/proxy.go:34 | k calls give k picks, each below the pool size |
| LoadBalancer.RotationNoWrap | internal/lb/proxy.go:34 | while the counter does not wrap, the j-th of successive calls picks (counter + j + 1) mod n |
| LoadBalancer.RotationSnoc | internal/lb/proxy.go:34 | one more call of NextBackend appends to the picks so far the pick at the counter they have reached |
| LoadBalancer.RotationVisitsEachOnce | internal/lb/proxy.go:34 | n successive calls on a pool of n pick every backend exactly once, if the counter does not wrap within the window |
| LoadBalancer.FreshPairAlternates | internal/lb/proxy_test.go:29-79 | four requests to a fresh two-replica pool go to replicas 1, 0, 1, 0 |
| LoadBalancer.ServiceLB.ServeRequests | internal/lb/proxy_test.go:69-78 | k requests in a row: on an empty pool each is answered 503 and the counter stays; otherwise the j-th request goes to the j-th pick of the rotation from the starting counter, and the counter has been bumped k times |
| LoadBalancer.PoolOf | internal/lb/proxy.go:58-75 | a negative replica count panics in `make` before any backend is built; otherwise building stops exactly when there are replicas and the start port's URL does not parse, reporting that port; a built pool has one backend per replica, in order, backend i targeting startPort + i |
| LoadBalancer.BuildPool | internal/lb/proxy.go:58-75 | sizing the pool and then the append loop give exactly that pool, URL failure or panic |
| LoadBalancer.RoutePattern | internal/lb/proxy.go:78-81 | the pattern always ends in "/": it is the prefix when that already ends in "/" and the prefix plus "/" otherwise |
| LoadBalancer.KeysAppend | internal/lb/proxy.go:84 | registering one more route adds exactly its key to the registered set |
| LoadBalancer.RegisterFailureSticks | internal/lb/proxy.go:64-67 | once a pool fails, StartLB has failed, whatever services follow |
| LoadBalancer.RegisterSucceeds | internal/lb/proxy.go:52-87 | the loop reaches the end when every service asks for no replicas, or for some replicas with a non-negative start port, and, when keys are raw prefixes as in the source, no two distinct prefixes share a pattern |
| LoadBalancer.FreshKeyFreshPattern | internal/lb/proxy.go:53-83 | a service whose key no earlier route has is handed to the mux under a pattern it does not hold yet, when keys are patterns or distinct prefixes have distinct patterns |
| LoadBalancer.RegisterRoutes | internal/lb/proxy.go:48-87 | the loop over the services, with the `registered` set and the set of patterns the mux holds, produces exactly the specified routes, URL failure, `make` panic or mux panic on a pattern already handled |
| LoadBalancer.RegisterStep | internal/lb/proxy.go:52-84 | one turn of the loop: a repeated prefix leaves the routes as they are; otherwise a pool failure ends registration, a pattern the mux holds ends it in the mux's panic, and any other service appends its route |
| LoadBalancer.RoutesWellFormed | internal/lb/proxy.go:58-84 | every route's pattern is the normalisation of its own raw prefix, which it keeps for stripping, and ends in "/" |
| LoadBalancer.RouteKeysDistinct | internal/lb/proxy.go:53-84 | registered keys are pairwise distinct |
| LoadBalancer.RouteKeysCover | internal/lb/proxy.go:52-84 | every service's key is among the registered keys, whether that service was registered or skipped |
| LoadBalancer.FirstServiceWins | internal/lb/proxy.go:52-56 | each route comes from the first service in iteration order that has its key |
| LoadBalancer.RouteFirstAt | internal/lb/proxy.go:52-56 | the m-th route is built, with its pool, from some service k, and no service before k has its key |
| LoadBalancer.RawPrefixKeyAllowsSharedPattern | internal/lb/proxy.go:53-84 | with a service at "/a" registered, a service at "/a/" passes the de-duplication, and StartLB then ends in the mux's panic on the pattern "/a/" it already holds |
| LoadBalancer.RegisterByPatternMuxSafe | internal/lb/proxy.go:53-84 | de-duplicating on the normalised pattern never reaches the mux's duplicate-pattern panic, and a completed registration covers every service's pattern |
| LoadBalancer.RegisterMuxAccepts | internal/lb/proxy.go:78-84 | every registration that completes, under either key, has handed the mux pairwise-distinct patterns |
| Ui.AtMostTotal | internal/interface/interface.go:200 | any two strings are ordered one way or the other |
| Ui.AtMostTransitive | internal/interface/interface.go:200 | the string order is transitive |
| Ui.AtMostReflexive | internal/interface/interface.go:200 | the string order is reflexive |
| Ui.AtMostAntisymmetric | internal/interface/interface.go:200 | the string order is antisymmetric |
| Ui.InsertKeeps | internal/interface/interface.go:200 | inserting into a sorted list keeps it sorted and adds exactly that element |
| Ui.SortedOfSorts | internal/interface/interface.go:200 | the reference sort is sorted and a permutation of its input |
| Ui.HeadIsLeast | internal/interface/interface.go:200 | the head of a sorted list is at most any of its elements |
| Ui.SortedTail | internal/interface/interface.go:200 | the tail of a sorted list is sorted and holds the rest of its elements |
| Ui.SortedUnique | internal/interface/interface.go:200 | two sorted permutations of the same names are equal, so any correct sort gives the same result |
| Ui.SwapDown | internal/interface/interface.go:200 | exchanges two neighbours, changes nothing else and keeps the elements |
| Ui.InsertDown | internal/interface/interface.go:200 | extends the sorted prefix by one, leaves every element after index i in place, and keeps the multiset of elements |
| Ui.SortStrings | internal/interface/interface.go:200 | sorts the array in place into the sorted permutation of its old contents |
| Ui.BulletsAppend | internal/interface/interface.go:203-205 | one more name adds exactly one bullet line at the end |
| Ui.FormatReplicaList | internal/interface/interface.go:195-207 | the caller's array ends sorted, and the text is the listing of the sorted names |
| Ui.WriteList | internal/interface/interface.go:201-206 | writing the header and then one bullet per element, in order, gives exactly the listing of the array's names |
| Ui.SplitLine | internal/interface/interface.go:202-204 | a line without a break, followed by a break, splits off as one line |
| Ui.BulletsLines | internal/interface/interface.go:203-205 | the bullet text is exactly one "  • name" line per name, in order, then the empty rest |
| Ui.ListTextLines | internal/interface/interface.go:201-206 | for n > 0 names, the lines are the header "Running replicas (n):", then one bullet per name, then the empty rest |
| Ui.ListTextEmpty | internal/interface/interface.go:196-198 | the listing is "No replicas running." exactly when there are no names |
| Ui.Max | internal/interface/interface.go:174-179 | the result is at least both arguments and equal to one of them |
| Ui.RuleWidth | internal/interface/interface.go:152 | the rule width is never negative, and is the width left over when there is any |
| Ui.HeaderStatus | internal/interface/interface.go:143-148 | "Showing: all" exactly when there is no filter, "Isolated: " and the filter otherwise |
| Ui.HeaderStatusInjective | internal/interface/interface.go:143-148 | different filters show different status texts |
| Ui.Update | internal/interface/interface.go:100-109 | a log message appends it and a line break to the content, a status message replaces the status, a filter message replaces the filter; nothing else changes |
| Ui.ApplyEffect | internal/interface/interface.go:100-109 | after a run of messages, the content has every log text appended in order and the filter is the last one set |
| Ui.ApplyConcat | internal/interface/interface.go:75-131 | applying two runs of messages one after the other is applying their concatenation |
| Orchestrator.Write | cmd/orchestrator/main.go:23-28 | reports every byte written and forwards the bytes with the trailing line break removed exactly when there is one |
| Orchestrator.WriteForwardsLine | cmd/orchestrator/main.go:23-28 | a line ending in a break is forwarded without it |
| Orchestrator.LaunchedAllStep | cmd/orchestrator/main.go:55-61 | one more service adds exactly that service's started replicas to the table |
| Orchestrator.StartServices | cmd/orchestrator/main.go:55-61 | every service is attempted in order whatever failed before, one notice each (failure or "Started service: name (n replicas)"), and the table gains every started replica |
| Orchestrator.StartedReplicaRegistered | cmd/orchestrator/main.go:55-61 | a replica that started stays registered after the loop, whatever later services do, unless a later service has the same name |
| Orchestrator.ValidatedReplicaWiring | internal/runner/process.go:133 | in a validated configuration, replica i's port lies in range, its PORT variable comes last in its environment, and the balancer's backend i targets that same port |
| Orchestrator.ValidatedRegistrationSucceeds | internal/lb/proxy.go:52-87 | a configuration the corrected validation accepts always completes StartLB's loop when keys are patterns; with raw-prefix keys, as in the source, it completes when moreover no two distinct prefixes share a pattern. Pools are assumed to be of a size Go can allocate |
| Orchestrator.NegativeReplicasPassValidation | internal/lb/proxy.go:59 | a service with ports 9000-9001 and replicas -1 passes Validate, and StartLB then panics sizing its pool, under either key |
| Orchestrator.ParseCommand | cmd/orchestrator/main.go:97-105 | no action exactly for input without fields; isolate and kill carry a name exactly when there is a second field; an unknown keyword is the lower-cased first field |
| Orchestrator.ParseBlank | cmd/orchestrator/main.go:97-100 | blank input, and only blank input, causes no action |
| Orchestrator.ParseReadsTwoFields | cmd/orchestrator/main.go:102-145 | the command depends only on the lower-cased first field and the second field |
| Orchestrator.KeywordIgnoresCase | cmd/orchestrator/main.go:102-152 | any spelling of "exit" in any case quits |
| Orchestrator.ContainsName | cmd/orchestrator/main.go:120-126 | the search loop finds the name exactly when it is in the listing |
| Orchestrator.Driver.constructor | cmd/orchestrator/main.go:40-45 | nothing isolated, a fresh front end, no effects |
| Orchestrator.Driver.Emit | cmd/orchestrator/main.go:107-159 | one effect recorded; a message also updates the front end |
| Orchestrator.Driver.IsolateCommand | cmd/orchestrator/main.go:113-133 | no name gives the usage error, an unlisted name the not-found error, both leaving the filter alone; a listed name becomes the filter |
| Orchestrator.Driver.SelectReplica | cmd/orchestrator/main.go:131-133 | the runner's and the front end's filter become the name, then a success notice |
| Orchestrator.Driver.ShowAllCommand | cmd/orchestrator/main.go:135-138 | both filters are cleared, then a success notice |
| Orchestrator.Driver.KillCommand | cmd/orchestrator/main.go:140-150 | no name gives the usage error and stops nothing; otherwise the replica is stopped and its error or a success is reported |
| Orchestrator.Driver.QuitCommand | cmd/orchestrator/main.go:152-156 | notice, shutdown of every replica, cancel, quit, in that order |
| Orchestrator.Driver.ListCommand | cmd/orchestrator/main.go:109-111 | sends the listing of the replica names in sorted order |
| Orchestrator.Driver.HandleCommand | cmd/orchestrator/main.go:96-161 | for each parsed command, exactly the effects of its case in order and the resulting filter; an unknown keyword only reports it |

## Left out

- Process execution is not modelled: `exec.Command`, the pipes, `Start`, `Wait` and `Kill` are behind the `spawn` parameter and opaque `Pid`s. `Kill`'s tolerance of an already finished process only affects logging.
- The operating-system error wrapped into StartService's errors is left out. The model keeps the replica name and the stage that failed (stdout pipe, stderr pipe, start).
- Concurrency is not modelled: the read-write lock, the atomic counter increment and the goroutines that pump pipes and wait for exits. Every operation is sequential, so the race in `isolate` reading the table without the lock is not represented.
- Line splitting by `bufio.Scanner` is not modelled: a pipe is the sequence of lines it yields.
- Terminal output is left out: clearing the screen, `printLogAboveInput`, `ReadCurrentCommand`, the stdin read loop around ReadInput, and the "[Sim]" log lines.
- The load balancer's "[LB]" log lines are left out: the warning for a skipped duplicate prefix (internal/lb/proxy.go:54), the registration notice (line 86) and the routing line (line 44). `main` sends `log` output to the front end, so they are visible there. The model keeps the skip itself, the registered routes and the chosen backend, but not the text.
- HTTP is left out: reverse-proxy forwarding, `http.StripPrefix` and `ServeMux` dispatch (the model keeps the pattern and strip prefix of each route), `ListenAndServe` and shutdown.
- Loading the YAML file in `LoadConfig` is left out; it is file I/O and a foreign library.
- Rendering with bubbletea and lipgloss is left out: viewport and text input, `Setup` and its channels, the key and window-size cases of `Update`, and the styling of the error and success texts. Only their "✗ " and "✓ " prefixes are kept.
- The signal handling and context wiring of `main` are left out.
- The programs under examples/ are left out; they are stand-alone health servers.
- `SetLogCallback`, `ListReplicas`, `SetIsolatedReplica` and `StopReplica` are called from cmd/orchestrator/main.go but are not part of this model, since internal/runner/process.go defines none of them. The command handler therefore takes the replica listing and the stop result as parameters and records the other calls as effects.
- Text.ToLower: lower-cases only the characters whose lower case is ASCII (A-Z, U+0130 and U+212A) and leaves every other character unchanged. The only keywords that matter are ASCII.
- Ui.SortStrings: uses insertion sort where Go uses pattern-defeating quicksort. Ui.SortedUnique shows both must give the same array.
- LoadBalancer.PoolOf: integers are unbounded, while Go's `int` is 64 bits, so `startPort + i` (internal/lb/proxy.go:63) does not wrap in the model. A validated configuration keeps every such port inside its range, so it cannot wrap there, but PoolOf accepts any service. Nor does the model bound the capacity of `make([]Backend, 0, svc.Replicas)` (line 59): Go panics when replicas times the 16-byte Backend exceeds the allocation limit (about 2^44 replicas on amd64), and memory runs out long before that. Validate bounds the replica count only by the port range, which it does not bound, so a validated configuration can reach either; PoolOf and everything built on it succeed there.
- LoadBalancer.Register: only an exact repeat of a pattern is modelled as the mux's panic. The pattern syntax `ServeMux` parses (a method, a host, wildcards) and its panics on invalid or conflicting patterns are not modelled.
- Runner.Runner.StartService: for the same reason, `startPort + i` (internal/runner/process.go:133) and `i+1` (line 125) do not wrap in the model; StartService also accepts any service.
- LoadBalancer.RotationVisitsEachOnce: holds only for windows in which the 64-bit counter does not wrap. NextBackend itself models the wrap.
- The balancer test (internal/lb/proxy_test.go) only prints responses, so it asserts nothing to carry over. LoadBalancer.FreshPairAlternates states the alternation it shows.
- Spawn is a function, so a replica's start outcome is fixed by its command line and environment. Real spawning is not deterministic.
- `stopReplica` (internal/runner/process.go:235-250) returns nothing and reports nothing for a name that is not in the table, so no "not found" error is modelled; StopReplica gives no process to kill and leaves the table as it is.

## Findings

| source | as written | input that shows it | evidently intended | confidence | as-written member | corrected member |
|---|---|---|---|---|---|---|
| internal/lb/proxy.go:53-84 | de-duplication is keyed on the raw route prefix, while the mux is keyed on the normalised pattern | services with prefixes "/a" and then "/a/": the second passes the check, and `ServeMux.Handle` panics on the pattern "/a/" it already holds, inside StartLB's goroutine | a prefix whose pattern is already registered is skipped like a repeated prefix | high, not executed | LoadBalancer.RawPrefixKeyAllowsSharedPattern | LoadBalancer.RegisterByPatternMuxSafe |
| internal/runner/process.go:224-233 | IsolateLogs replays the records whose replica is NOT the isolated one | log [("a-1","x"), ("a-2","y")], then `isolate a-1`: the replay shows "y", yet afterwards only "a-1" lines are displayed | the replay shows the isolated replica's own history, the selection the live view applies | medium, not executed | Runner.IsolateLogsReplaysOtherReplicas | Runner.IsolatedReplayMatchesLiveView |
| internal/lb/proxy.go:59 | Validate bounds the replica count only from above, and StartLB sizes each pool with `make([]Backend, 0, svc.Replicas)` | a service with start port 9000, end port 9001 and replicas -1 passes Validate; `make` then panics on the negative capacity inside StartLB's goroutine, which ends the program | validation rejects a negative replica count | high, not executed | Orchestrator.NegativeReplicasPassValidation | Orchestrator.ValidatedRegistrationSucceeds |

The members `LoadBalancer.RegisterRoutes`, `Runner.Runner.IsolateLogs` and `Config.Validate` model the code as written. The corrected behaviours are `LoadBalancer.Register` with de-duplication by pattern, which never reaches the mux's panic, the selection `Runner.Select(logs, name, true)`, which `Runner.Runner.GetLogs` also makes, and `Config.ValidateCorrected`, which also rejects a negative replica count. The intended properties are proved about those.
