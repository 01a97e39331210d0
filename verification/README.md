# A verified model of Sentinel's stateful cores

Sentinel is an endpoint-protection suite: a kernel minifilter that denies opens of blocked
files, sensors that publish events, detectors that turn events into scored signals, and
responses that quarantine files and notify the user. This project models the parts whose
correctness spans loops, heaps or whole runs, and proves what they promise.

Each component has a value-level specification (functions, predicates, runs as folds over
steps) and, where the program updates state in place, a class whose methods are proved to
make exactly the specified change. The theorems are about the specification, so they hold
for every run of the class. For each component some of them state outright, in the fields of
its inputs, when it does what: `Driver.CallbackLaw`, the `Encodings`, `Grammar.RuleLaw`,
`EventBuses.AlwaysPrompt`, `Scorers.RespondsIff`, `Beacon.ReportedIff`, `PeLayouts.RoundTrip`.

| file | what it models |
|---|---|
| `Paths.dfy`, `Blocklist.dfy`, `Driver.dfy` | the minifilter: path normalization and order, the sorted linked list on the heap, the command port and the pre-create callback |
| `Words.dfy`, `VirtualMemory.dfy`, `Emulator.dfy`, `Encoding.dfy`, `ShadowStack.dfy` | the sandbox: sparse paged memory against a flat map, the interpreter loop, what it makes of encoded instructions, and what its stack holds over whole runs |
| `Condition.dfy`, `Grammar.dfy` | rule conditions: the evaluating parser with its cursor, and the grammar it decides |
| `EventBus.dfy` | the event bus under every interleaving of a publisher and consumers |
| `Scoring.dfy`, `Scorer.dfy`, `Subjects.dfy`, `Consumer.dfy`, `DllLoads.dfy`, `Sets.dfy`, `Options.dfy` | scores per subject, process subjects, the respond-once loop, and image loads with their reputation cache |
| `Multiples.dfy`, `Beacon.dfy`, `TokenBucket.dfy`, `Windows.dfy` | beacon detection, the rate limiter, the sliding windows |
| `PeTriage.dfy`, `PeLayout.dfy` | the PE header parser, its 4096-byte caller and the Python fallback; the round trip from a file laid out to what is reported |
| `Quarantine.dfy`, `QuarantineStore.dfy`, `Throttle.dfy` | the quarantine vault and the alert throttle |

`dafny verify dfyconfig.toml` checks the whole project.

## Where the code and its description differ

The model follows the code in each case, and says exactly when the description holds.

- The pre-create callback says it lets opens without execute intent through, but its mask
  includes `FILE_GENERIC_EXECUTE`, which also holds SYNCHRONIZE, READ_CONTROL and
  FILE_READ_ATTRIBUTES; `Driver.DeniedWithoutExecute` gives an open without execute access that is denied.
- The name of an open is counted, but the lookup reads its buffer up to the first NUL, and
  outside the name exactly when the name is in limit and has no NUL in it
  (`Driver.ReadsOutsideIff`). The callback decides by the opened name if and only if memory
  delimits it and goes that far (`Driver.OpenedNameLaw`); `Driver.UnterminatedNameIsMisread` and
  `Driver.UnreadableFaults` are the two ways it does not.
- `alloc` maps as many pages as its size takes, from the page of its address on, so a range that
  starts inside a page can miss its last one: `VirtualMemories.MappedCovers` says when it does
  not, `VirtualMemories.AllocFallsShort` is an instance. A write maps what is missing.
- The `count == 0` fast exit is harmless as long as the 32-bit count has not come round to
  zero; `Driver.DenialLaw` states the exact condition, and that fewer than 2^32 events rule it
  out; `Driver.CountComesRound` is a history where it has.
- `fast_pe_triage` has two implementations, and the fallback leaves four fields of its result at
  zero. They recognize the same files. They agree on word size, section count and entry point
  except on two kinds of file (`PeTriage.FallbackAgreement`; `PeTriage.ShortPlusExists` and
  `PeTriage.CutOffExists` give one of each), and as a whole exactly when, besides, the parser has
  nothing to say about sections (`PeTriage.WholeAgreement`, `PeTriage.SilentIff`;
  `PeTriage.RawSizeDiffers` is a file where only that fails).
- Quarantine copies first "so a backup exists even if something fails mid-way". When the row
  cannot be inserted, the copy is removed after the original already was:
  `Quarantine.FileKeepsIff` has the exact condition, `Quarantine.FailedInsertLosesTheFile` an
  instance. What another program writes to the source after it was copied is lost with it
  exactly when it is not what was copied (`Quarantine.TakeLosesIff`, `Quarantine.LosesWriteIff`).
- `is_restored` is meant as feedback about a file's content. The source is hashed before it is
  copied, so a row's hash is that of its file exactly when the source still had that hash
  (`Quarantine.RowHashIff`). A source overwritten in between is filed under the hash of what was
  overwritten, and restoring it reports that hash although other bytes were put back
  (`Quarantine.SwappedSourceIsReported`); `Quarantine.RestoredMeansGivenBack` is what does hold.
- A restore is meant to be refused once its row is DELETED. It reads the row, copies and
  decides in separate steps, so a delete that completes in between is undone: DELETED is
  absorbing exactly when no such delete happens (`Quarantine.DeletedIsAbsorbingIff`), and every
  restore can be overtaken (`Quarantine.RestoreCanBeOvertaken`).
- A decay is meant to prune old signals, but it also drops every subject whose total is not
  positive, live signals and all. Earlier decays never matter exactly when all weights are
  positive or none is (`Scoring.DecaysImmaterialIff`); unknown kinds weigh zero. With weights
  not below zero the subjects and their totals survive (`Scoring.TotalsSurviveDecays`).
- `evict_stale` is meant to evict subjects without a new signal for too long. It goes by the
  update time, which a decay renews exactly when it prunes a signal (`Scoring.DecayRenewsIff`),
  so pruned subjects outlive the limit (`Scoring.DecayKeepsStale`).
- Whether a rule is rejected should be a property of the rule. An unsupported modifier is only
  noticed on events that reach it; `Grammar.RejectionFollowsRuleIff` says exactly when rejection
  ignores the event, and `Grammar.RejectionReadOffTheRule` reads it off rules with one criterion per field.
- `sustained_above` says its window spans at least the configured seconds. The code lets the
  window start up to a quarter of them late and asks for no sample near its end:
  `Windows.SpansAllIff` says when the promise is kept, `Windows.SustainedIsWorth` what an answer
  is worth, and `Windows.SustainedFallsShort` that it is worth no more.
- Duplicates of an alert are meant to be about one process. The key joins its parts with colons
  and falls back to the process id, so colons in names, and numbers as names, can make keys
  coincide (`Throttle.KeysCollide`); without them they do not (`Throttle.NamedDuplicates`,
  `Throttle.NumberedDuplicates`).
- A suppressed alert is reported with the next alert that passes the throttle, and lost with it
  when no channel takes that one (`Throttle.EveryAlertIsDeliveredPendingOrLost`, `Throttle.LostIff`).

## Model

| member | source | states |
|---|---|---|
| Paths.NormalizePath | driver/SentinelFilter/blocklist.c:32-59 | for readable buffers, one and the same included, succeeds exactly when the text fits, leaves the folded text in the destination and nothing beyond the text and its NUL changed, and looks at exactly the characters counted |
| Paths.ReadableIff | driver/SentinelFilter/blocklist.c:38-56 | a buffer is readable exactly when the scan stays in it |
| Paths.KeyIdempotent | driver/SentinelFilter/blocklist.c:32-59 | normalizing a normalized path changes nothing, whatever follows its NUL |
| Paths.KeyEquality | driver/SentinelFilter/blocklist.c:41-53 | two buffers share a key exactly when their texts agree up to ASCII case and slash direction |
| Paths.KeySpelling | driver/SentinelFilter/blocklist.c:41-53 | a key is the text up to ASCII case and slash direction, spelled without lower-case letters and forward slashes |
| Paths.Compare | driver/SentinelFilter/blocklist.c:66-77 | negative, zero, positive are exactly less, equal, greater on the NUL-terminated texts |
| Paths.LessIff | driver/SentinelFilter/blocklist.c:66-77 | one text is before another exactly when it has the smaller character at the first difference, or ends there |
| Paths.LessIrreflexive | driver/SentinelFilter/blocklist.c:66-77 | the order of the list is irreflexive |
| Paths.LessTransitive | driver/SentinelFilter/blocklist.c:66-77 | the order of the list is transitive |
| Paths.LessTotal | driver/SentinelFilter/blocklist.c:66-77 | the order of the list is total, equal texts being the same text |
| Paths.AscendingInsert | driver/SentinelFilter/blocklist.c:140-154 | inserting where the walk stops keeps the keys strictly ascending, and the early exit misses no equal key |
| Blocklists.KeysSeparate | driver/SentinelFilter/blocklist.c:140-171 | entries of a list with ascending keys are pairwise different, so the list is acyclic |
| Blocklists.ChainInsert | driver/SentinelFilter/blocklist.c:163-171 | rewriting one link puts a new entry into the chain at its position |
| Blocklists.ChainRemove | driver/SentinelFilter/blocklist.c:195-202 | rewriting one link takes one entry out of the chain |
| Blocklists.ElementsInsert | driver/SentinelFilter/blocklist.c:140-171 | insertion at the walk's position is set insertion and keeps the order |
| Blocklists.ElementsRemove | driver/SentinelFilter/blocklist.c:195-202 | removal at a position is set deletion and keeps the order |
| Blocklists.DistinctCount | driver/SentinelFilter/blocklist.c:246-255 | the list is as long as the set of keys is large |
| Blocklists.Blocklist.constructor | driver/SentinelFilter/blocklist.c:95-104 | a fresh list is valid, empty and unlocked |
| Blocklists.Blocklist.Locate | driver/SentinelFilter/blocklist.c:140-154 | the sorted walk with its early exit finds a key exactly when it is in the set, else its insertion point |
| Blocklists.Blocklist.Insert | driver/SentinelFilter/blocklist.c:140-175 | under the lock: set insertion, duplicate or allocation failure, the last two changing nothing |
| Blocklists.Blocklist.Delete | driver/SentinelFilter/blocklist.c:191-214 | under the lock: set deletion, not-found exactly when the key is absent |
| Blocklists.Blocklist.Add | driver/SentinelFilter/blocklist.c:127-176 | every error case exactly, set insertion on success only, lock released on every path, list still sorted and acyclic with the right count |
| Blocklists.Blocklist.Remove | driver/SentinelFilter/blocklist.c:178-215 | the same for removal: every error case exactly, set deletion, lock released |
| Blocklists.Blocklist.Contains | driver/SentinelFilter/blocklist.c:217-244 | membership of the normalized path, false for null and over-long paths, lock released |
| Blocklists.Blocklist.Count | driver/SentinelFilter/blocklist.c:246-255 | the size of the set modulo 2^32 |
| Blocklists.Blocklist.FreeAll | driver/SentinelFilter/blocklist.c:115-120 | leaves nothing allocated; every entry it frees is still allocated at that moment |
| Blocklists.Blocklist.Destroy | driver/SentinelFilter/blocklist.c:107-125 | leaves a valid empty list with nothing allocated, lock released |
| Driver.SealedFits | driver/SentinelFilter/communication.c:93-96 | the forced terminator makes every path from the port readable and in limit, so add never answers too-long |
| Driver.BlockedIsLastAdded | driver/SentinelFilter/communication.c:87-121 | after any history a key is blocked exactly when the last effective message about it added it |
| Driver.BlockedBound | driver/SentinelFilter/communication.c:87-121 | there are never more blocked keys than events |
| Driver.DenialLaw | driver/SentinelFilter/SentinelFilter.c:290-373 | for every history and open, about the text the lookup reads: denied exactly when screened, last added, and the 32-bit count is not zero; the last clause is void below 2^32 events |
| Driver.CallbackLaw | driver/SentinelFilter/SentinelFilter.c:286-341 | in the fields of messages and open, for every history and every further message before the lookup: denied exactly when the caller is user mode, access meets 0x001200A0, options lack 0x100, the name is resolved with its first NUL below 520, its text was added and not removed since, and the 32-bit count was not zero; faults exactly when instead memory ends first |
| Driver.AsksIff | driver/SentinelFilter/SentinelFilter.c:294-325 | exactly which opens get as far as the lookup |
| Driver.StatusLaw | driver/SentinelFilter/communication.c:67-144 | exactly when each status is answered, and what it tells: an add or removal that succeeded is in effect, any other message changed nothing |
| Driver.VerdictInBetween | driver/SentinelFilter/SentinelFilter.c:290-331 | with any messages between the look at the count and the lookup, the answer is the verdict of one of the two moments, except exactly when the name is denied as the count comes round to zero |
| Driver.ReadsOutsideIff | driver/SentinelFilter/SentinelFilter.c:327-331 | the lookup reads outside the counted name exactly when the name is in limit and has no NUL in it |
| Driver.OpenedNameLaw | driver/SentinelFilter/SentinelFilter.c:313-331 | about the counted name that was opened: over all histories the count can follow, the callback never faults and denies exactly when last added, if and only if memory goes as far as the scan and the first NUL ends the name, or the name is over-long and none is in range |
| Driver.UnreadableFaults | driver/SentinelFilter/SentinelFilter.c:327-331 | with anything blocked, a lookup in memory that ends too early faults |
| Driver.UnterminatedNameIsMisread | driver/SentinelFilter/SentinelFilter.c:327-331 | an instance: a blocked name with another character behind it in memory is not denied |
| Driver.CountComesRound | driver/SentinelFilter/SentinelFilter.c:290-292 | after 2^32 different additions the count reads zero and a blocked path is not denied |
| Driver.DeniedWithoutExecute | driver/SentinelFilter/SentinelFilter.c:299-303 | an open without execute access that is denied |
| Driver.SpellingIrrelevant | driver/SentinelFilter/SentinelFilter.c:327-331 | the verdict does not depend on ASCII case or slash direction of the opened name |
| Driver.RemoveUndoesAdd | driver/SentinelFilter/communication.c:89-121 | adding then removing any spelling of a path restores the state exactly when the path was not blocked before |
| Driver.DenialsCounted | driver/SentinelFilter/SentinelFilter.c:331-336 | the denial counter is the number of denied opens modulo 2^32 |
| Driver.Filter.PortMessage | driver/SentinelFilter/communication.c:67-144 | every status exactly, and the state change of the message, for null and short buffers, unknown kinds and failed allocations too; a query reports set size and denials |
| Driver.Filter.PreCreate | driver/SentinelFilter/SentinelFilter.c:278-377 | for any name and whatever lies behind it in memory, the answer is that of the count as first seen and of the list as looked up, after any messages of other threads; denials are counted; kernel mode, an oplock break, an access outside the mask or no name are let through and count nothing |
| Driver.Filter.Others | driver/SentinelFilter/communication.c:67-144 | any number of messages of other threads |
| Words.UnpackPack | sentinel/sandbox/emulator.py:168-180 | unpacking a packed value gives it modulo the word size, negative values included |
| Words.PackUnpack | sentinel/sandbox/emulator.py:168-180 | packing an unpacked word gives its bytes back |
| Words.PackDigits | sentinel/sandbox/emulator.py:168-180 | byte i of a packed word is its digit of weight 256^i |
| VirtualMemories.ReadAfterWrite | sentinel/sandbox/emulator.py:128-166 | reading any range after writing any other gives new bytes on the overlap and old ones elsewhere |
| VirtualMemories.FlatStore | sentinel/sandbox/emulator.py:139-141 | assigning a slice of one page is writing that range of the flat memory |
| VirtualMemories.FlatChunk | sentinel/sandbox/emulator.py:154-161 | a range inside one page reads as a slice of the page or as zeros |
| VirtualMemories.UntouchedStore | sentinel/sandbox/emulator.py:141-142 | outside the written pages memory stays zero |
| VirtualMemories.VirtualMemory.constructor | sentinel/sandbox/emulator.py:107-112 | all addresses read zero |
| VirtualMemories.VirtualMemory.Alloc | sentinel/sandbox/emulator.py:117-126 | maps exactly the page of the address and those that start less than `size` behind that page's start, keeps old permissions and never changes what memory holds |
| VirtualMemories.MappedCovers | sentinel/sandbox/emulator.py:117-126 | every page of the range is mapped exactly when its last byte stands no earlier in its page than its first one does |
| VirtualMemories.AllocFallsShort | sentinel/sandbox/emulator.py:117-126 | an instance: two bytes across a page border get one page |
| VirtualMemories.VirtualMemory.WriteChunk | sentinel/sandbox/emulator.py:134-145 | one round of the write loop writes its range of the flat memory; a page that was not there comes to be, for every use |
| VirtualMemories.VirtualMemory.WriteBytes | sentinel/sandbox/emulator.py:128-145 | any write, over any number of pages and at any integer address, is a write to the flat memory; exactly the pages it touches become written, and those not there before come to be with permission for every use |
| VirtualMemories.VirtualMemory.ReadBytes | sentinel/sandbox/emulator.py:147-166 | any read is a slice of the flat memory |
| VirtualMemories.VirtualMemory.WriteU32 | sentinel/sandbox/emulator.py:168-169 | writes the low four bytes, least significant first |
| VirtualMemories.VirtualMemory.ReadU32 | sentinel/sandbox/emulator.py:171-173 | the little-endian value of four bytes, below 2^32 |
| VirtualMemories.VirtualMemory.WriteU64 | sentinel/sandbox/emulator.py:175-176 | writes the low eight bytes, least significant first |
| VirtualMemories.VirtualMemory.ReadU64 | sentinel/sandbox/emulator.py:178-180 | the little-endian value of eight bytes, below 2^64 |
| VirtualMemories.VirtualMemory.GetModifiedBuffers | sentinel/sandbox/emulator.py:182-189 | exactly the written pages that are not all zero, in ascending address order |
| VirtualMemories.HarvestComplete | sentinel/sandbox/emulator.py:182-189 | laid out again, the harvested pages give back all of memory |
| Emulators.DynamicEmulator.RegisterStep | sentinel/sandbox/emulator.py:398-453 | the tests in program order, fall-through included, agree with decoding for every instruction that leaves memory alone |
| Emulators.DynamicEmulator.StoreStep | sentinel/sandbox/emulator.py:454-475 | STOSB and STOSD, on the paged memory, are the specified writes to the flat one |
| Emulators.DynamicEmulator.CallStep | sentinel/sandbox/emulator.py:480-489 | CALL pushes the return address and wraps the target to 64 bits |
| Emulators.DynamicEmulator.RetStep | sentinel/sandbox/emulator.py:491-497 | RET pops the target and stops on zero and beyond 48 bits |
| Emulators.DynamicEmulator.MemoryStep | sentinel/sandbox/emulator.py:454-497 | the branches that use memory, on pages, are one step on flat memory |
| Emulators.DynamicEmulator.StepOnce | sentinel/sandbox/emulator.py:388-532 | one round of the loop on paged memory is one step on flat memory |
| Emulators.DynamicEmulator.RunInterpreter | sentinel/sandbox/emulator.py:370-567 | the loop goes through a run of such steps, reports included, and ends by exhausting its budget, with a halting step, or in the first round that starts late; more than 64 written bytes make a payload |
| Encodings.CallGoes | sentinel/sandbox/emulator.py:480-489 | encoded bytes: a CALL to any target within 2^31 goes there modulo 2^64, pushes the address after it, and changes nothing else |
| Encodings.NearJumpGoes | sentinel/sandbox/emulator.py:511-514 | a near jump to any target in reach goes there and changes nothing else |
| Encodings.ShortJumpGoes | sentinel/sandbox/emulator.py:506-509 | so does a short one, within a signed byte |
| Encodings.RetGoes | sentinel/sandbox/emulator.py:491-497 | a RET goes to the word on the stack, takes it off, and stops at zero and from 2^48 on |
| Encodings.HaltsIff | sentinel/sandbox/emulator.py:391-497 | a round halts exactly at fifteen zero bytes and at such a RET |
| Encodings.MovSets | sentinel/sandbox/emulator.py:421-426 | 0xB8+k sets exactly register k, to the operand as an unsigned number |
| Encodings.MovByteSets | sentinel/sandbox/emulator.py:431-439 | 0xB0 and 0xB1 set exactly the low byte of EAX and ECX; the other byte moves set nothing |
| Encodings.XorClears | sentinel/sandbox/emulator.py:526-528 | an XOR clears EAX |
| Encodings.RdtscReads | sentinel/sandbox/emulator.py:401-406 | reading the time stamp counter is reported and answered from the clock |
| Encodings.PebWalkReads | sentinel/sandbox/emulator.py:411-417 | so is a look at the process environment block, in both encodings |
| Encodings.UnknownHash | sentinel/sandbox/emulator.py:444-452 | a rotation with no known hash in EAX is stepped over |
| Encodings.HashedCall | sentinel/sandbox/emulator.py:538-567 | one with a known hash is that API's call: its answer, what is reported and under which category, name by name |
| Encodings.OthersAreSkipped | sentinel/sandbox/emulator.py:502-532 | every other byte is stepped over by the length its first byte gives |
| Encodings.StoresInARow | sentinel/sandbox/emulator.py:454-475 | n STOSB or STOSD in a row write n consecutive units and nothing else, and count every byte, as long as they do not overwrite themselves or come to address zero |
| Encodings.NoStoreAtZero | sentinel/sandbox/emulator.py:457-475 | with EDI at zero nothing is stored |
| ShadowStacks.StackedFrame | sentinel/sandbox/emulator.py:457-475 | a write below or above the live stack words leaves them alone |
| ShadowStacks.StepKeepsStack | sentinel/sandbox/emulator.py:421-497 | a stack-safe step keeps memory and shadow stack in agreement |
| ShadowStacks.StackIsShadow | sentinel/sandbox/emulator.py:383-532 | over any safe run, the words from the stack pointer up are exactly the outstanding return addresses, modulo the word size |
| ShadowStacks.InsideCallShadow | sentinel/sandbox/emulator.py:480-497 | while a call has not returned, its return address is the oldest word and the depth counts the others |
| ShadowStacks.MatchedReturn | sentinel/sandbox/emulator.py:480-497 | the RET matching a CALL goes to the instruction after it, modulo the word size, and restores the stack pointer |
| Conditions.ValueFits | sentinel/engine/rule_engine.py:73-86 | on a present field, lower-cased: equals is equality, endswith a suffix, startswith a prefix, contains a part; an absent field is false; any other modifier raises |
| Conditions.HoldsIff | sentinel/engine/rule_engine.py:112-119 | a criterion holds exactly when its value fits, or one of its list does |
| Conditions.MatchesIff | sentinel/engine/rule_engine.py:106-120 | a selection matches exactly when it is no hook and all its criteria hold |
| Conditions.SupportedMatches | sentinel/engine/rule_engine.py:73-120 | a selection with supported modifiers is evaluated without error on every event |
| Conditions.AllRaises | sentinel/engine/rule_engine.py:106-120 | on an event, a selection raises exactly when an unsupported criterion with values has its field there and all criteria before it hold |
| Conditions.HarmlessIff | sentinel/engine/rule_engine.py:106-120 | with one criterion per field, some event makes a selection raise exactly when it has such a criterion with no empty list in front of it |
| Conditions.BadFirstRaises | sentinel/engine/rule_engine.py:106-120 | whatever the fields, an unsupported first criterion with values raises on some event |
| Conditions.Condition.Evaluate | sentinel/engine/rule_engine.py:149-154 | the answer depends on rule and event only, not on the cursor an earlier evaluation or error left behind |
| Conditions.Condition.EvalOr | sentinel/engine/rule_engine.py:156-162 | the or-loop returns the specified value and cursor, or a syntax error |
| Conditions.Condition.EvalAnd | sentinel/engine/rule_engine.py:164-170 | the same for and |
| Conditions.Condition.EvalNot | sentinel/engine/rule_engine.py:172-176 | the same for not |
| Conditions.Condition.EvalAtom | sentinel/engine/rule_engine.py:178-191 | the same for names and parentheses, with every error case |
| Grammar.EvalMeansDenote | sentinel/engine/rule_engine.py:149-191 | evaluating the printed tokens of any expression gives its truth value and uses them all: not over and over or |
| Grammar.SpellOr | sentinel/engine/rule_engine.py:156-191 | whatever the parser accepts is the print of an expression with the value it answered |
| Grammar.EvalDecidesGrammar | sentinel/engine/rule_engine.py:149-191 | a token list is answered with a value exactly when it is a sentence with that meaning; all others are rejected |
| Grammar.RuleLaw | sentinel/engine/rule_engine.py:106-191 | with supported modifiers, evaluation answers a value exactly when the tokens are a sentence about the selections, and then whether the sentence is true of the event |
| Grammar.Operators | sentinel/engine/rule_engine.py:156-184 | the spelling and precedence of not, and, or and parentheses |
| Grammar.SuffixRule | sentinel/config/rules/mshta_suspicious.yaml:12 | an instance: a suffix criterion fires on the suffix and not on the prefix |
| Grammar.FollowsOr | sentinel/engine/rule_engine.py:156-191 | a parse succeeds exactly when it does where nothing raises and every selection it looks up there evaluates without error, and then ends in the same place |
| Grammar.SameOr | sentinel/engine/rule_engine.py:156-191 | where nothing raises, the cursor after parsing is the same for every event |
| Grammar.AcceptedIff | sentinel/engine/rule_engine.py:149-191 | on any event a condition is accepted exactly when it is on the empty event and no selection it looks up raises |
| Grammar.RejectionFollowsRuleIff | sentinel/engine/rule_engine.py:149-191 | rejection is the same for every event exactly when the empty event is rejected already or no selection the condition looks up ever raises |
| Grammar.RejectionReadOffTheRule | sentinel/engine/rule_engine.py:149-191 | the same in terms of the rule's text, with one criterion per field |
| Grammar.RejectionIgnoresEvent | sentinel/engine/rule_engine.py:149-191 | in particular with supported modifiers only |
| Grammar.UnsupportedModifierDependsOnEvent | sentinel/engine/rule_engine.py:73-86 | an instance of the contrary: one rule, accepted on one event and rejected on another |
| Grammar.HookIsTransparent | sentinel/engine/rule_engine.py:209-230 | appending `and not hook` to any accepted condition does not change its answer |
| EventBuses.TakeKeepsOrder | sentinel/engine/event_bus.py:200-220 | moving the head of the queue to the taken side keeps the order of events |
| EventBuses.WorkConserves | sentinel/engine/event_bus.py:172-208 | every step of the lock holder keeps taken, queued and pending events equal to the published ones |
| EventBuses.StepKeepsInvariant | sentinel/engine/event_bus.py:124-226 | every atomic step of publisher or consumer keeps conservation, order and bounds |
| EventBuses.AlwaysInvariant | sentinel/engine/event_bus.py:124-226 | they hold at every point of every interleaving, for every queue size and threshold |
| EventBuses.ReceivedSubsequence | sentinel/engine/event_bus.py:210-220 | what consumers got is a subsequence of what left the queue, all of it when nothing was dropped |
| EventBuses.ConsumersSeePublishOrder | sentinel/engine/event_bus.py:124-226 | consumers see the published events in row order, a prefix when nothing was dropped, all when nothing is left |
| EventBuses.BufferingIsBounded | sentinel/engine/event_bus.py:172-208 | the queue never exceeds its size, the batch stays below its threshold between operations, nothing empty is delivered, an overflow drops at most one delivery and the second put never fails |
| EventBuses.AlwaysApart | sentinel/engine/event_bus.py:35-39 | over every interleaving, what waits and every batch delivered holds registry_write and image_load events only, and every single delivery is of another type |
| EventBuses.AlwaysPrompt | sentinel/engine/event_bus.py:172-183 | between operations of every interleaving, with an event of another type as the last row, nothing waits and that event is the last one queued or taken |
| EventBuses.PutLaw | sentinel/engine/event_bus.py:193-208 | a put with room appends; on a full queue it replaces the oldest delivery, and nothing else |
| EventBuses.BatchedWaits | sentinel/engine/event_bus.py:175-179 | a batched event below the threshold only waits: queue and taken stay as they are |
| EventBuses.BatchedAtThreshold | sentinel/engine/event_bus.py:175-179 | at the threshold the whole batch becomes one delivery |
| EventBuses.OthersGoAtOnce | sentinel/engine/event_bus.py:180-183 | any other event is delivered at once, on its own, right after what waited |
| EventBuses.EventBus.Consume | sentinel/engine/event_bus.py:210-220 | takes the oldest delivery, or nothing |
| EventBuses.EventBus.Publish | sentinel/engine/event_bus.py:124-132 | the row is appended and the machine is run on, from this publication to the end of the operation, consumers in between; a batched event below the threshold is all that is added to what waits, and after any other nothing waits |
| EventBuses.EventBus.PublishMany | sentinel/engine/event_bus.py:134-170 | the same for a list of events; nothing waits after one that ends with an event of another type |
| EventBuses.EventBus.DoEnqueue | sentinel/engine/event_bus.py:172-183 | works off one event as the machine does |
| EventBuses.EventBus.FlushBatch | sentinel/engine/event_bus.py:185-191 | works off a flush as the machine does and leaves no batch |
| EventBuses.EventBus.DoPut | sentinel/engine/event_bus.py:193-208 | works off a delivery as the machine does, with consumers before every step, extending the run so far |
| EventBuses.EventBus.DoFlush | sentinel/engine/event_bus.py:222-226 | extends the run by a flush, adds no rows and leaves no batch |
| Scoring.AddKeepsFiled | sentinel/engine/scoring.py:146-151 | adding keeps every total equal to the sum of its signals and the DLL components equal to their DLL kinds |
| Scoring.AddedIs | sentinel/engine/scoring.py:146-151 | adding puts the signal at the end of its subject's, which sets total and update time, and changes no other subject |
| Scoring.DllKindsAre | sentinel/engine/scoring.py:149-150 | the DLL components are exactly the kinds of DLL signals held |
| Scoring.DecayKeepsFiled | sentinel/engine/scoring.py:419-437 | so does decay |
| Scoring.DecayedIs | sentinel/engine/scoring.py:419-437 | a subject survives a decay exactly when its recent signals add up to more than zero, and then with those |
| Scoring.ActiveIsFilter | sentinel/engine/scoring.py:421-424 | exactly the signals not older than the cutoff stay, each as often as it was there |
| Scoring.DecayedFresh | sentinel/engine/scoring.py:418-437 | after a decay no subject holds a signal older than the cutoff |
| Scoring.RunFiled | sentinel/engine/scoring.py:339-456 | totals and components agree with the signals after any sequence of operations, resets, capacity eviction and stale eviction included |
| Scoring.DecayRenewsIff | sentinel/engine/scoring.py:425-431 | a decay renews a subject's update time exactly when it prunes a signal of it |
| Scoring.DecayKeepsStale | sentinel/engine/scoring.py:441-456 | an instance: a subject without a new signal outlives stale eviction because a decay pruned it |
| Scoring.StaleGoesWithoutDecay | sentinel/engine/scoring.py:441-456 | the same subject without that decay does not |
| Scoring.TotalsSurviveDecays | sentinel/engine/scoring.py:408-439 | with weights not below zero a decay leaves the same subjects, totals and positive signals whether or not earlier decays ran |
| Scoring.EarlierDecaysDoNotMatter | sentinel/engine/scoring.py:408-439 | with positive weights it leaves the same signals and DLL components too |
| Scoring.NothingSurvives | sentinel/engine/scoring.py:432-437 | with weights not above zero a decay leaves nothing |
| Scoring.MixedWeightsMakeDecaysMatter | sentinel/engine/scoring.py:432-437 | for every weight at most zero and every positive one there is a run in which an earlier decay changes what a later one leaves |
| Scoring.DecaysImmaterialIff | sentinel/engine/scoring.py:408-439 | without evictions, earlier decays never matter, over all runs with weights of a class, exactly when all of the class are positive or none is |
| Scorers.WeakDllNeverResponds | sentinel/engine/scoring.py:368-385 | any number of non-reflective DLL signals alone never triggers a response |
| Scorers.RespondsIff | sentinel/engine/scoring.py:368-385 | a response is due exactly when the subject is held, the signals held add up to at least the threshold, and one of them is no DLL signal or the reflective one |
| Scorers.FiresAlone | sentinel/engine/scoring.py:84 | an instance: one signal worth exactly the threshold is enough |
| Scorers.Scorer.constructor | sentinel/engine/scoring.py:327-337 | an empty valid scorer |
| Scorers.Scorer.Oldest | sentinel/engine/scoring.py:343-346 | a subject with the smallest update time |
| Scorers.Scorer.AddSignal | sentinel/engine/scoring.py:339-351 | adds the signal, evicting one least recently updated subject exactly when the table is full and the subject new; never more than max_subjects; raises exactly when there is room for none |
| Scorers.Scorer.ShouldRespond | sentinel/engine/scoring.py:368-385 | true exactly when the signals held add up to at least the threshold and one of them is no DLL signal or the reflective one |
| Scorers.Scorer.Reset | sentinel/engine/scoring.py:387-406 | purges everything, or exactly the subject and, for a process, its instances |
| Scorers.Scorer.DecayScores | sentinel/engine/scoring.py:418-439 | the loops of decay compute the specified table and name exactly the dropped subjects |
| Scorers.Scorer.Decay | sentinel/engine/scoring.py:408-439 | the same on the scorer, which stays valid |
| Scorers.Scorer.EvictStale | sentinel/engine/scoring.py:441-456 | keeps exactly the subjects updated since the age limit and counts the others |
| Subjects.DecimalInjective | sentinel/engine/scoring.py:125-132 | different process ids have different texts |
| Subjects.OwnsIsPurges | sentinel/engine/consumer.py:199-203 | the consumer's prefix test and the scorer's purge the same subjects |
| Subjects.OwnerUnique | sentinel/engine/consumer.py:199-203 | no subject belongs to two processes, not even when one id extends the other's digits |
| Subjects.OwnSubjects | sentinel/engine/scoring.py:125-132 | the subjects built for a process belong to it, with and without start time |
| Consumers.SafeEverywhere | sentinel/engine/consumer.py:300-305 | every response of a run was at or above threshold with a corroborating signal, to a subject not answered since its process last exited |
| Consumers.AnsweredIff | sentinel/engine/consumer.py:200-203 | a subject is answered exactly when it was responded to and no process that owns it exited since |
| Consumers.ExitBetweenResponses | sentinel/engine/consumer.py:193-204 | between two responses to one subject lies an exit of the process that owns it |
| Consumers.OnlyProcessesTwice | sentinel/engine/consumer.py:193-204 | folders and sources are responded to at most once |
| Consumers.DueIsAnswered | sentinel/engine/consumer.py:299-307 | completeness: with responses enabled, every signal of a batch that left its subject with a response due has it answered at the end, since its process last exited |
| Consumers.DetectionConsumer.ProcessExit | sentinel/engine/consumer.py:193-204 | an exit clears exactly that process's subjects, responses, beacon streams, CPU flag and start time |
| Consumers.DetectionConsumer.HandleSignal | sentinel/engine/consumer.py:300-305 | scores the signal and responds exactly when allowed, enabled and not yet answered; changes nothing when scoring raises |
| Consumers.DetectionConsumer.HandleSignals | sentinel/engine/consumer.py:299-307 | scores the signals one after the other and answers exactly those that are due, as many as it gets to, all of which are answered in the end; it stops early only when scoring raises or the response to the last one does |
| Consumers.DetectionConsumer.PeriodicChecks | sentinel/engine/consumer.py:309-327 | handles the CPU signals the same way and leaves exactly the decayed subjects updated within the hour, with no signal older than ten minutes; clears no responded subject |
| DllLoads.ScoreDllLoad | sentinel/engine/scoring.py:212-312 | one signal of each kind the rules call for, in order, all about the target, exactly when the load is neither trusted nor reputable and crosses processes; otherwise the clean loads it teaches |
| DllLoads.JudgedIff | sentinel/engine/scoring.py:227-251 | a load contributes signals exactly when it comes from another process and neither allowlist nor reputation vouches for its hash or publisher |
| DllLoads.JudgedKinds | sentinel/engine/scoring.py:253-310 | which kinds: cross-process always, reflective by its mapping, abnormal host by its host, unsigned only with an anomaly |
| DllLoads.InOrder | sentinel/engine/scoring.py:253-310 | in that order, each at most once, all about the process loaded into |
| DllLoads.LearnedIs | sentinel/engine/scoring.py:230-251 | a load raises the counts of its own hash and publisher only, each by one, exactly when the allowlist vouches for it or it is a self-load that counts |
| DllLoads.LearnsOrJudges | sentinel/engine/scoring.py:230-251 | a load adds to the reputation or contributes signals, never both |
| DllLoads.ReputationLasts | sentinel/engine/scoring.py:172-178 | over any run clean loads are only added to, so what is reputable stays so |
| DllLoads.CleanLoadsCount | sentinel/engine/scoring.py:230-251 | the cache never runs behind the clean self-loads of a hash until the hash, or the publisher of one of its loads, is trusted or reputable |
| DllLoads.CleanLoadsEarnSilence | sentinel/engine/scoring.py:163-178 | after enough clean self-loads of a hash no later load of it contributes anything |
| DllLoads.PublisherLoadsCount | sentinel/engine/scoring.py:230-251 | the same for publishers: the cache never runs behind their clean self-loads until the publisher, or the hash of one of its loads, is trusted or reputable |
| DllLoads.PublisherEarnsSilence | sentinel/engine/scoring.py:163-178 | after enough clean self-loads from a publisher no later load from it contributes anything |
| DllLoads.LoadsAloneNeverRespond | sentinel/engine/scoring.py:212-312 | however many images are loaded, without a reflective mapping they never lead to a response by themselves |
| Beacon.CountedIs | sentinel/engine/heuristics_c2.py:85-90 | exactly the intervals between a tenth of a second and 900 seconds count, each as often as it occurs |
| Beacon.LowVariationIff | sentinel/engine/heuristics_c2.py:94-102 | with the mean and the square root of the mean squared deviation, the test passes exactly when their quotient is at most the threshold |
| Beacon.MeanIsBest | sentinel/engine/heuristics_c2.py:94-98 | the mean minimizes the squared deviations |
| Beacon.VarianceBound | sentinel/engine/heuristics_c2.py:94-98 | Popoviciu's inequality for the measured variance |
| Beacon.TightIntervalsVaryLittle | sentinel/engine/heuristics_c2.py:94-102 | intervals in [a, b] with b - a at most 2 theta a have variance at most theta squared times mean squared |
| Beacon.SteadyStreamIsPeriodic | sentinel/engine/heuristics_c2.py:78-102 | four or more arrivals at such steady intervals always pass the test |
| Beacon.PerfectPeriod | sentinel/engine/heuristics_c2.py:94-102 | equal intervals have no variation |
| Beacon.DequeIsNewest | sentinel/engine/heuristics_c2.py:72-76 | over any run the bounded deque holds exactly the newest arrivals |
| Beacon.SteadyRunIsReported | sentinel/engine/heuristics_c2.py:131-148 | a steady run of arrivals, however long, is reported at exactly its fourth arrival and later ones outside the cooldown |
| Beacon.ReportedIff | sentinel/engine/heuristics_c2.py:131-148 | over any run, an arrival is reported exactly when it is at least the fourth, three of the intervals among the last twenty arrivals count, deviation over mean is at most the threshold, and the last report is a cooldown ago |
| Beacon.LastSignalIs | sentinel/engine/heuristics_c2.py:138-148 | the last report is that of the newest reported arrival, or the epoch |
| Beacon.IrregularIsNot | sentinel/engine/heuristics_c2.py:94-147 | an instance: arrivals 1, 1 and 10 seconds apart are not reported at the default threshold |
| Beacon.ReportsAreSpaced | sentinel/engine/heuristics_c2.py:138-148 | two reports of one stream are at least the cooldown apart unless its process was reset between them |
| Beacon.C2BeaconDetector.Periodic | sentinel/engine/heuristics_c2.py:78-102 | the test passes exactly when enough intervals count and their squared variation is low |
| Beacon.C2BeaconDetector.ProcessConnection | sentinel/engine/heuristics_c2.py:118-166 | one watched connection is one arrival of its stream, others change nothing; reports are logged |
| Beacon.C2BeaconDetector.ResetPid | sentinel/engine/heuristics_c2.py:168-173 | forgets exactly the process's streams |
| TokenBuckets.GrantsIff | sentinel/intel/virustotal_client.py:67-75 | a request is granted exactly when the bucket can hold so much and has it by then, with elapsed time times rate added |
| TokenBuckets.AttemptIs | sentinel/intel/virustotal_client.py:67-75 | what is left is that supply, at most a full bucket, less what was granted |
| TokenBuckets.WaitIsExact | sentinel/intel/virustotal_client.py:76-82 | undisturbed, a request the bucket can hold is granted from the moment on that the wait the loop computes has passed, and not before |
| TokenBuckets.RefillsCompose | sentinel/intel/virustotal_client.py:69-71 | capped refills compose: observing the bucket on the way changes nothing |
| TokenBuckets.RunBalance | sentinel/intel/virustotal_client.py:66-78 | over any run the balance stays within zero and capacity, and grants plus balance come from the start and the refill |
| TokenBuckets.RateBound | sentinel/intel/virustotal_client.py:66-78 | in any window of any run at most capacity plus the supply over its duration is granted |
| TokenBuckets.RefusalsLeaveNoTrace | sentinel/intel/virustotal_client.py:66-82 | refused attempts change neither later balances nor later grants |
| TokenBuckets.TokenBucket.constructor | sentinel/intel/virustotal_client.py:52-57 | starts full |
| TokenBuckets.TokenBucket.TryAcquire | sentinel/intel/virustotal_client.py:67-75 | the critical section is one attempt of the run; granted exactly when the capacity and the balance with what was supplied meanwhile allow it |
| TokenBuckets.TokenBucket.AvailableTokens | sentinel/intel/virustotal_client.py:85-89 | the balance a caller would find now, with nothing stored |
| TokenBuckets.TokenBucket.Poll | sentinel/intel/virustotal_client.py:66-78 | one poll of a call ends the history, granted or added to its refused ones |
| TokenBuckets.TokenBucket.Acquire | sentinel/intel/virustotal_client.py:59-82 | among any number of other threads: acquired only for the bypass or a granted attempt that ends the history; timed out only when every attempt of the call was refused and the missing tokens would come after the deadline |
| Windows.PoppedIsRecent | sentinel/engine/heuristics_bruteforce.py:73-75 | popping old times from the left is filtering, under nondecreasing times |
| Windows.RecentIsFilter | sentinel/engine/heuristics_bruteforce.py:73-75 | exactly the times from the cutoff on are kept, as often as they were recorded |
| Windows.RecentTwice | sentinel/engine/heuristics_bruteforce.py:73-75 | pruning early loses nothing a later cutoff would keep |
| Windows.AlwaysPruned | sentinel/engine/heuristics_bruteforce.py:71-75 | the deque of a key is everything recorded for it inside the window of its last event |
| Windows.EmittedIsFired | sentinel/engine/heuristics_bruteforce.py:79-82 | a key is flagged exactly when it fired since it was last cleared |
| Windows.EmitsExactly | sentinel/engine/heuristics_bruteforce.py:59-94 | a burst is reported at exactly the events the full history calls for |
| Windows.BurstLaw | sentinel/engine/heuristics_bruteforce.py:59-94 | in the events alone: one emits exactly when at least the threshold of its key, itself included, lie in the window up to it, and each that emitted before was followed by a clearing |
| Windows.CurrentCount | sentinel/engine/heuristics_bruteforce.py:96-104 | a later count reads the full history's count |
| Windows.ClearBetweenEmissions | sentinel/engine/heuristics_bruteforce.py:106-108 | after a report the key stays flagged until it is cleared |
| Windows.BruteForceHeuristic.ProcessLoginEvent | sentinel/engine/heuristics_bruteforce.py:59-94 | one failed login is one step of the machine; events without a source change nothing |
| Windows.BruteForceHeuristic.CurrentCount | sentinel/engine/heuristics_bruteforce.py:96-104 | counts the recent times of the deque |
| Windows.BruteForceHeuristic.ClearSourceFlag | sentinel/engine/heuristics_bruteforce.py:106-108 | one clearing step of the machine |
| Windows.RansomwareHeuristic.ProcessFsEvent | sentinel/engine/heuristics_ransomware.py:71-142 | canary, entropy and rate signals exactly, in order; the rate is the same machine over 60 seconds |
| Windows.RansomwareHeuristic.CurrentRate | sentinel/engine/heuristics_ransomware.py:148-157 | writes per minute in the window |
| Windows.RansomwareHeuristic.ClearScopeFlag | sentinel/engine/heuristics_ransomware.py:144-146 | one clearing step of the machine |
| Windows.CpuWindow.Add | sentinel/engine/heuristics_cryptomining.py:49-52 | the samples kept are those of the full history inside twice the window |
| Windows.CpuWindow.Sustained | sentinel/engine/heuristics_cryptomining.py:54-64 | the answer on pruned samples is that of the full history |
| Windows.CpuWindow.Observe | sentinel/engine/heuristics_cryptomining.py:136-140 | a process is reported exactly when sustained and not yet reported, and then high for at least three quarters of the time |
| Windows.SpansAllIff | sentinel/engine/heuristics_cryptomining.py:54-64 | the promised span is kept exactly when the answer is true and samples stand at both ends of the window |
| Windows.SustainedIff | sentinel/engine/heuristics_cryptomining.py:54-64 | in the samples alone: true exactly when the first one in the window lies in its first quarter and every one in it is high |
| Windows.SustainedIsWorth | sentinel/engine/heuristics_cryptomining.py:54-64 | with the newest sample taken now, a true answer spans three quarters of the time and every sample in the window is high |
| Windows.SustainedFallsShort | sentinel/engine/heuristics_cryptomining.py:54-64 | instances: 45 of 60 seconds pass, and so does a single stale sample |
| PeTriage.ParsePeFast | crates/sentinel_core/src/pe_fast.rs:52-190 | every index in bounds on every input; each header-derived field as declared by the headers, and the count, sum, maximum and average of the entropies of the sections scanned |
| PeTriage.ScanSections | crates/sentinel_core/src/pe_fast.rs:117-174 | the loop stops at the declared count or the end of the buffer with the right count, minimum and entropy statistics |
| PeTriage.IsKnownPacker | crates/sentinel_core/src/pe_fast.rs:136-142 | the inner loop finds a packer name exactly when there is one |
| PeTriage.MinRawAt | crates/sentinel_core/src/pe_fast.rs:158-160 | the minimum is below every raw size scanned |
| PeTriage.IsPeOfPrefix | crates/sentinel_core/src/parallel_scanner.rs:110-117 | a prefix is recognized exactly when the file is and its signature lies inside the prefix |
| PeTriage.StableUnderTruncation | crates/sentinel_core/src/parallel_scanner.rs:106-117 | a prefix with the whole section table gives the six header-derived fields of the file |
| PeTriage.PackedIff | crates/sentinel_core/src/parallel_scanner.rs:118-121 | the packer verdict is the existence of a scanned section with a packer name or entropy above 7.85 |
| PeTriage.ScanHeader | crates/sentinel_core/src/parallel_scanner.rs:106-127 | a file is taken for a PE exactly when it is one and its signature lies in the bytes read |
| PeLayouts.RoundTrip | crates/sentinel_core/src/pe_fast.rs:52-187 | of a file laid out from headers, optional header and section table, the parser reports exactly what was put in: word size, entry point, section count, packers' names counted, smallest raw size |
| PeLayouts.SectionRead | crates/sentinel_core/src/pe_fast.rs:117-155 | each section's name, raw size and pointer are read as they were put in |
| PeLayouts.EntropyRead | crates/sentinel_core/src/pe_fast.rs:162-174 | a section's entropy is that of its bytes, cut off at the end of the file; one without any has none |
| PeLayouts.PackerNames | crates/sentinel_core/src/pe_fast.rs:8-21 | a packer's name is one of twelve, in any spelling |
| PeLayouts.AverageBetween | crates/sentinel_core/src/pe_fast.rs:177-181 | the average lies between the smallest and the largest entropy, so of equal ones it is that one |
| PeLayouts.CountIs | crates/sentinel_core/src/pe_fast.rs:162-174 | as many are counted as sections have one |
| PeTriage.SameRecognition | sentinel/engine/native_core.py:246-274 | the fallback recognizes exactly the same files |
| PeTriage.FallbackAgreement | sentinel/engine/native_core.py:270-297 | both agree on word size, section count and entry point exactly when the file is not of one of two kinds |
| PeTriage.WholeAgreement | sentinel/engine/native_core.py:246-297 | the whole results agree exactly when the file is of neither kind and the parser's suspicious count, minimum raw size and entropy figures are zero |
| PeTriage.SilentIff | crates/sentinel_core/src/pe_fast.rs:117-187 | those are zero exactly when no section scanned has a packer's name, some has no raw data or none is scanned, and no section data has any entropy |
| PeTriage.RawSizeDiffers | sentinel/engine/native_core.py:288-297 | a file of neither kind on which the minimum raw sizes differ |
| PeTriage.ShortPlusExists | sentinel/engine/native_core.py:280-286 | a file of the first kind: a PE32+ magic in a two-byte optional header |
| PeTriage.CutOffExists | sentinel/engine/native_core.py:276-278 | a file of the second kind: cut off after its section count |
| Quarantine.RunKeepsRow | sentinel/response/quarantine_store.py:186-434 | over any interleaving, whatever the environment does, rows stay and keep their identity |
| Quarantine.DeletedIsAbsorbingIff | sentinel/response/quarantine_store.py:331-434 | over any interleaving DELETED is absorbing for a row exactly when no DELETED decision on it falls between a restore's reading and that restore's decision |
| Quarantine.RestoreCanBeOvertaken | sentinel/response/quarantine_store.py:397-434 | in every state with a restore about to decide, a delete that completes now is undone: the row ends up RESTORED without a file |
| Quarantine.StoredInjective | sentinel/response/quarantine_store.py:205-206 | no two ids share a vault file |
| Quarantine.StoredIs | sentinel/response/quarantine_store.py:205-206 | a vault file is named after its id and the last component of the path it came from |
| Quarantine.CopyStays | sentinel/response/quarantine_store.py:205-240 | an add's copy in the vault is left alone by everybody else until its row is filed |
| Quarantine.StepKeepsVault | sentinel/response/quarantine_store.py:186-434 | a row's file changes in one way only: it is removed by a delete of that row |
| Quarantine.StepKeepsInv | sentinel/response/quarantine_store.py:186-434 | every step of an add, a restore, a delete or another program keeps ids, files and rows in order |
| Quarantine.StepKeepsBytes | sentinel/response/quarantine_store.py:186-434 | a step keeps a row's bytes accounted for, except exactly a failing table update of a delete and a decision of an overtaken restore, with no other delete at work |
| Quarantine.RunKeepsBytes | sentinel/response/quarantine_store.py:186-434 | over any interleaving with fresh ids, sources outside the vault and no outside tampering, the vault file never holds anything else, and without such a step the row is DELETED, has its file, or is being deleted |
| Quarantine.NeverLosesIf | sentinel/response/quarantine_store.py:331-434 | with table updates that succeed and no overtaken restore there is no such step |
| Quarantine.AddLeavesSource | sentinel/response/quarantine_store.py:200-220 | until it removes the source, an add never changes it, whatever fails |
| Quarantine.FailedAddLeaves | sentinel/response/quarantine_store.py:209-220 | a failed copy ends the add; of the vault only its own file is touched, which is gone if it could be removed |
| Quarantine.FailedRestoreLeaves | sentinel/response/quarantine_store.py:352-395 | a restore whose copy fails ends; only the original path is touched |
| Quarantine.TakeLosesIff | sentinel/response/quarantine_store.py:211-213 | removing the source loses what it holds by then exactly when that is not what was copied |
| Quarantine.CopiesMade | sentinel/response/quarantine_store.py:211 | over any interleaving, the copy in the vault is what the source held at the step the add copied it |
| Quarantine.LosesWriteIff | sentinel/response/quarantine_store.py:211-213 | that happens exactly when some step changed the source after it was copied, and the last to do so made it something else |
| Quarantine.FileKeepsIff | sentinel/response/quarantine_store.py:222-249 | filing the row leaves bytes in the vault under it exactly when it is inserted and they are the ones copied; a failed insertion leaves the table as it was and, cleaned up, no copy |
| Quarantine.AddMovesOrLeaves | sentinel/response/quarantine_store.py:200-249 | with nothing in between, adding moves the file or leaves it with no row; the bytes become unrecoverable exactly when the insert fails after copy and unlink |
| Quarantine.FailedInsertLosesTheFile | sentinel/response/quarantine_store.py:236-240 | an instance: no file and no row left |
| Quarantine.RunSourced | sentinel/response/quarantine_store.py:205-235 | from an empty table, over any interleaving, every row has the hash of what was hashed and a file of what was copied |
| Quarantine.RowHashIff | sentinel/response/quarantine_store.py:207-211 | a row's hash is its file's hash exactly when the source still had that hash when it was copied; with a hash that tells files apart, when it held the same bytes |
| Quarantine.RestoreGivesBack | sentinel/response/quarantine_store.py:343-359 | after any interleaving, a restore that gets to copy puts exactly the bytes the add copied at the original path |
| Quarantine.RestoreUndoesAdd | sentinel/response/quarantine_store.py:331-399 | after any run without losses, restoring a row that is neither DELETED nor being deleted gives those bytes back and keeps the vault's copy |
| Quarantine.RestoredRowGivenBack | sentinel/response/quarantine_store.py:331-399 | over any interleaving, a RESTORED row's copied bytes were put back, and they have its hash exactly when its source was not swapped |
| Quarantine.RestoredMeansGivenBack | sentinel/response/quarantine_store.py:294-303 | a hash counts as restored only if the file of a RESTORED row of that hash was put back; a file of that hash was, if one such row's source was not swapped |
| Quarantine.SwappedSourceIsReported | sentinel/response/quarantine_store.py:207-211 | whenever the source is overwritten between hashing and copying, restoring reports the hash of the overwritten bytes and puts the others back |
| Quarantine.DeleteWithdraws | sentinel/response/quarantine_store.py:401-434 | a DELETED decision withdraws a row's feedback exactly when no other row of that hash is restored |
| QuarantineStores.QuarantineStore.FindSource | sentinel/response/quarantine_store.py:200-206 | the first step of an add, refused exactly when the source is no file |
| QuarantineStores.QuarantineStore.HashSource | sentinel/response/quarantine_store.py:131-137 | the second: the hash of the source as it is then, or none |
| QuarantineStores.QuarantineStore.CopySource | sentinel/response/quarantine_store.py:209-220 | the third: a copy of the source as it is then, cleaned up when it fails |
| QuarantineStores.QuarantineStore.RemoveSource | sentinel/response/quarantine_store.py:213-220 | the fourth: the source goes, whatever it is then |
| QuarantineStores.QuarantineStore.InsertRow | sentinel/response/quarantine_store.py:222-240 | the fifth: the row, or the cleanup; done exactly when inserted under a fresh id |
| QuarantineStores.QuarantineStore.Add | sentinel/response/quarantine_store.py:186-249 | with any steps of other callers and programs in between: exactly these steps, in order, as far as it gets, and the answer they call for |
| QuarantineStores.QuarantineStore.Get | sentinel/response/quarantine_store.py:255-260 | reads the row as it is now and goes on unless it is missing or, for a restore, DELETED |
| QuarantineStores.QuarantineStore.PutBack | sentinel/response/quarantine_store.py:343-395 | copies the vault's file back, or ends the call when it is missing or the copy fails |
| QuarantineStores.QuarantineStore.Remove | sentinel/response/quarantine_store.py:411-421 | removes the vault's file if it is there, or ends the call when that fails |
| QuarantineStores.QuarantineStore.Restore | sentinel/response/quarantine_store.py:331-399 | with any steps of others in between: exactly its own steps, in order, and the answer they call for |
| QuarantineStores.QuarantineStore.Delete | sentinel/response/quarantine_store.py:401-426 | the same for a deletion |
| QuarantineStores.QuarantineStore.CheckRestored | sentinel/response/quarantine_store.py:294-303 | true exactly for a non-empty hash with a RESTORED row |
| Throttle.RecentIsLastShown | sentinel/response/notifier.py:117-139 | the table remembers, per key, exactly when it was last shown, so keys never interfere |
| Throttle.EveryAlertIsAccountedFor | sentinel/response/notifier.py:117-139 | per key, alerts submitted are those shown, those reported with one shown, and those pending |
| Throttle.EveryAlertIsDeliveredPendingOrLost | sentinel/response/notifier.py:117-161 | per key, alerts submitted are those delivered, with the ones they report, those pending, and those lost |
| Throttle.LostIff | sentinel/response/notifier.py:141-161 | nothing is lost exactly when a channel took every alert that was passed on |
| Throttle.ShownReportsAll | sentinel/response/notifier.py:128-139 | right after an alert is shown nothing is pending for its key |
| Throttle.ShownAreSpread | sentinel/response/notifier.py:122-139 | between any two points of a run the clock moved on by a cooldown for each alert shown |
| Throttle.ShownAreApart | sentinel/response/notifier.py:122-139 | two shown alerts of one key are at least a cooldown apart, with no clock assumption |
| Throttle.SuppressedIff | sentinel/response/notifier.py:122-128 | an alert is suppressed exactly when one of its key was shown less than a cooldown before, or the clock is that close to the epoch |
| Throttle.OneSubject | sentinel/response/notifier.py:121 | alerts with one title about one process are duplicates exactly when their bodies begin alike, in 40 characters or as a whole |
| Throttle.NamedDuplicates | sentinel/response/notifier.py:121 | alerts about named processes are duplicates exactly when title, name and beginning agree, whatever the process id |
| Throttle.NumberedDuplicates | sentinel/response/notifier.py:121 | alerts without a name, exactly when title, id and beginning agree |
| Throttle.KeysCollide | sentinel/response/notifier.py:121 | instances of keys that coincide for different processes |
| Throttle.ReportTells | sentinel/response/notifier.py:132 | the text tells how many alerts were suppressed |
| Throttle.Notifier.Send | sentinel/response/notifier.py:112-161 | an alert is passed on exactly when the reference says so, with the number of suppressed ones it reports spelled out in its text; other kinds always pass and change nothing |

## Left out

- Page buffers: `pages` maps addresses to values, so the identity of the bytearrays and their update in place are not captured. The same goes for `SubjectScore` and `BeaconStream`, which are values in a map here.
- Iteration order of dictionaries: ties of `min` in `add_signal` are broken arbitrarily.
- Blocklists.Blocklist.Insert: the critical sections of add and remove are methods of their own with one release after them, where the program releases on each exit.
- Driver.Filter.PreCreate: other threads' messages come between the read of `count` and the lookup; their opens do not, since they change nothing but the denial counter.
- Driver.Filter.PreCreate: the block event sent to user mode is not part of the model.
- Null list handles and null hooks at initialization.
- Emulators.DynamicEmulator.RunInterpreter: which rounds start late and what the time stamp counter reads are parameters, and so is the hash table of API names.
- `_emulate_pe`, `_emulate_elf`, `_emulate_shellcode`, risk scoring and `ror13`: loading depends on foreign parsers, and the rest is settled by reading one function.
- Tokenizing conditions by regular expression, field aliases, `field|modifier` keys and YAML loading; lower-casing is a parameter, and values are already text.
- Conditions.HarmlessIff: with several criteria on one field, whether they can hold together is left to the semantic condition of `Conditions.AllRaises`.
- EventBuses.EventBus.Publish: persistence always succeeds, and the row ids it returns are not modelled; one publisher holds the lock at a time, which is what the lock gives.
- The weights table and the texts of explanations: signals carry their effective weight.
- Consumers.DetectionConsumer.HandleSignals: what a response does is left out except that it may raise; detectors are represented by the signals they return, and start times are cleared but not recorded.
- `C2Blocklist`, stratum ports and process enumeration.
- TokenBuckets.TokenBucket.Acquire: `polls` bounds the rounds of the polling loop; sleeping is any advance of the clock.
- TokenBuckets.RateBound: for non-negative rates, capacities and amounts; the methods take any.
- The clock: nondecreasing for the rate limiter and the sliding windows; the throttle and the quarantine need no assumption.
- Floating point: reals throughout, and squares are compared instead of taking a root.
- PeTriage.ParsePeFast: entropy is a parameter over ranges of the buffer; nothing is said about the numbers themselves. Truncation keeps the header-derived fields only.
- The parallel directory walk, hashing, cancellation and the native call of `fast_pe_triage`.
- QuarantineStores.QuarantineStore.Add: file metadata, permissions and access lists, links between paths, the kernel unblock and listing queries are left out; paths are taken as resolved, and a path names one file. A failed copy or removal and its cleanup are one step: nothing else touches that file of the vault.
- Throttle.NamedDuplicates: for titles and names without colons; `Throttle.OneSubject` is for any.
- Throttle.Notifier.Send: the toast and balloon channels are represented by their answers.
