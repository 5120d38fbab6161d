# Verified model of the eBPF policy system

The repository filters packets in an XDP program, drives that program from an agent that counts
packets per source address every ten seconds, and steers many agents from a policy server: rules
travel over a message bus, an adaptive scaler publishes load-dependent limits, and a classifier
whitelists or restricts single addresses. This project models those parts in Dafny and proves what
they keep, over every input and every run. `dafny verify dfyconfig.toml` checks all of it.

## Files

| file | models |
|---|---|
| `Word.dfy` | 64-bit wrap-around, Go's signed conversions and truncating division |
| `TokenBucket.dfy` | the token bucket of the XDP program and its admission bounds |
| `Kernel.dfy` | the BPF maps, the per-packet program, the agent's map helpers (class `PolicyProgram`) |
| `Rules.dfy` | rules and `Match`, for every iteration order of the rule map |
| `RuleStore.dfy` | the agent's rule store and its cache file (class `RuleStore`) |
| `Agent.dfy` | the ten-second loop (class `Enforcer`) |
| `EnforcementRuns.dfy`, `BlockRuns.dfy`, `LimitRuns.dfy`, `PacketRuns.dfy`, `ReportRuns.dfy` | packets, ticks and bypass changes of one address, over whole runs: their ledger and latencies, the blocks, the rate limit, the fate of each packet, the reported records |
| `Scaler.dfy`, `ScalerRuns.dfy` | the load index, the controller (class `AgentState`), and its runs |
| `Bus.dfy`, `Replication.dfy`, `ReplicationNodes.dfy` | subjects and subscriptions; server table, inbox and agent store as a protocol; the handlers and the listener (classes `PolicyServer`, `AgentNode`) |
| `Classifier.dfy` | the per-address classifier (class `Engine`) and the bypass list it maintains |
| `Hostname.dfy` | the host name scanner against a label grammar |

Classes update their state in place; each method's contract equates the new state with a function of
the old one. `PolicyFilter` and `Tick` act on every source address separately, so the run theorems are
stated for one address, with the rule store arbitrary at every tick. Counters and times are unsigned
64-bit words with explicit wrap-around; Go's `float64` is `real`.

## Where code and documentation differ

The model follows the code.

- The README's row "Block extended" says that a client that is still high has its block extended. Blocked packets are not counted, so a tick sees only the packets that the bypass list let past since the last tick: the block is extended exactly when a block decides on those (`BlockRuns.ExtensionExactly`, `BlockRuns.NeverOverlapIff`). Without bypassed packets and negative thresholds it never is (`BlockRuns.BlocksNeverOverlap`); an address that was in the list and has left it can be extended (`BlockRuns.BypassedBlockIsExtended`).
- The comment above `Match` and the README say the highest threshold wins within an action and a block wins over a rate limit. The first exceeded rule visited fixes the action, unless it is not spelled "ratelimit" and some block is exceeded: then a block decides (`Rules.MatchOutcome`): the guard tests a spelling no documented rule has (`Rules.BlockBeatsRestIff`), and among blocks the one visited last wins (`Rules.HighestBlockWinsIff`). Among rate limits the highest wins in every order exactly when no rule with an undocumented action is exceeded (`Rules.HighestLimitWinsIff`). A threshold must be exceeded strictly, not met.
- A rate-limit threshold of 0 that replaces another limit stays in the kernel until a rate-limit rule with another threshold matches; no tick removes it (`LimitRuns.ZeroLimitRememberedIff`, `LimitRuns.ZeroThresholdLeaksConfig`, `LimitRuns.ZeroLimitStays`, `LimitRuns.ZeroLimitIsReached`).
- The README's "2 consecutive stable reports" before a step-down need not be consecutive: one or two reports above the level between them do not reset the count (`ScalerRuns.FallsIff`, `ScalerRuns.FallWithoutConsecutiveCalm`).
- The scaler does not step down one level per two calm reports: step-downs to a nonzero level are suppressed when the index moved less than 10, so constant idle load can leave a limit in place for ever (`ScalerRuns.IdleRecoversIff`, `ScalerRuns.IdleAfterSpikeStaysLimited`).
- A reload loses the rules that are heard live but not fetched: for an agent with a topic the rules tagged with its own ID only, for an agent without one every tagged rule, although the README says that it receives all rules. An update that moves a rule away from an agent's topics leaves the old rule there (`Replication.DrainedReloadIff`, `Replication.ChangeKeepsSyncIff`).
- The comment in `listener.go` says that targeted rules reach only their agent. An agent without a topic, or whose topic is another agent's ID, also hears the adaptive rule -1 meant for the other agent and takes it for its own (`Replication.ElsewhereKeepsSyncIff`).
- A z-score of 5 or more on a whitelisted address clears the flag without a removal (`Classifier.BypassFollowsFlag`, `Classifier.LeakIsReached`), an address that is already suspicious is never blocked later (`Classifier.SuspicionNeverEscalates`), and the z-score is two-sided (`Classifier.SilenceIsSuspiciousIff`). The package comment's 0.5 times mean is 0.8 in the code.
- The scanner's "max 63" holds for the first label only; later labels may have 62 (`Hostname.RejectsOnlyFullLaterLabels`).

## Model

| member | source | states |
|---|---|---|
| Kernel.PolicyProgram.PolicyFilter | ebpf/policy.c:235-291 | one packet changes the maps of its own source only, by the bypass, block, count, rate-limit and latency steps in that order; an unprotected port changes nothing |
| Kernel.PolicyProgram.CheckRateLimit | ebpf/policy.c:127-163 | passes without a configured rate; otherwise the bucket and the verdict are those of one 64-bit token-bucket step |
| Kernel.PolicyProgram.UpdateLatency | ebpf/policy.c:165-188 | total, count, minimum and maximum after one more sample |
| Kernel.PolicyProgram.BlockIP | internal/agent/ebpf/loader.go:90-100 | the block list holds now plus the duration as a 64-bit word, for that address only |
| Kernel.PolicyProgram.IsBlocked | internal/agent/ebpf/loader.go:104-119 | true exactly while the entry lies in the future |
| Kernel.PolicyProgram.RemoveRateLimit | internal/agent/ebpf/loader.go:137-143 | removes the configured rate and the bucket together |
| TokenBucket.EnvelopeFromCreation | ebpf/policy.c:127-163 | from the creating packet on, at most one burst plus the tokens the elapsed time is worth get through, wrap-around included |
| TokenBucket.EnvelopeHoldsIffBurstNonzero | ebpf/policy.c:133-145 | that bound holds for a rate exactly when twice the rate is not 0 as a word, that is for every rate but 0 and 2^63 |
| TokenBucket.EnvelopeAnyWindow | ebpf/policy.c:147-162 | from any bucket and after any idle time, wrapped products included, a window of packets lets through what the bucket holds or one burst, the tokens of the window, and one packet |
| TokenBucket.EnvelopeOfEveryWindow | ebpf/policy.c:127-163 | every window of a source after its creating packet lets through at most one burst, the tokens of the window, and one packet |
| TokenBucket.RunKeepsPotential | ebpf/policy.c:147-162 | packets passed, tokens held and credit still to come, wrapped products included, together never outrun a clock of rate tokens per second |
| TokenBucket.AdmitServesExactly | ebpf/policy.c:147-162 | with products that fit a word, a packet finds the held tokens and those of the elapsed time up to one burst, takes one if there is any, and leaves the rest |
| TokenBucket.BurstPasses | ebpf/policy.c:147-162 | of a burst at one moment exactly as many packets pass as are available by then |
| TokenBucket.WholeBurstPasses | ebpf/policy.c:133-162 | a new source, or one idle for two seconds, gets exactly twice its rate through at once |
| TokenBucket.ServiceAtLeastHalf | ebpf/policy.c:147-155 | while the burst cap does not bite, floor division loses at most half of the credited tokens |
| TokenBucket.SpacedSourceNeverDropped | ebpf/policy.c:127-162 | a source whose packets are at least one token's time apart is never dropped, after idle times whose product wraps too, for every rate at which a full bucket and one refill fit a word |
| TokenBucket.SpacedSourceDroppedAtHugeRate | ebpf/policy.c:127-162 | at the rate 2^63 + 1, whose burst wraps to 2, the third packet of a spaced source is dropped |
| TokenBucket.AdmitBounded | ebpf/policy.c:133-155 | under changing rates a bucket never exceeds the largest burst configured |
| Rules.MatchFindsExceeded | internal/agent/config/store.go:79-110 | the result is a rule that is strictly exceeded, and nil only when there is none |
| Rules.MatchOutcome | internal/agent/config/store.go:75-110 | for any actions and every iteration order: the last exceeded block if a block is exceeded and the first exceeded rule is not spelled "ratelimit", otherwise the first rule with the highest exceeded threshold of the first exceeded rule's action |
| Rules.MatchMeaning | internal/agent/config/store.go:75-110 | for every iteration order, if no rule with an undocumented action is exceeded: a block exactly when a block is exceeded, otherwise the highest exceeded limit |
| Rules.SeverityMonotoneIff | internal/agent/config/store.go:79-110 | more traffic never gets a milder action, in any two iteration orders, exactly when no exceeded rule with an undocumented action can shadow the stricter one |
| Rules.LastBlockWins | internal/agent/config/store.go:97-101 | the exceeded block visited last is the result, whatever its threshold, exactly when the first exceeded rule is not spelled "ratelimit" |
| Rules.HighestBlockWinsIff | internal/agent/config/store.go:75-101 | for any store, the promised highest threshold wins among blocks in every order exactly when the exceeded blocks share one threshold |
| Rules.BlockBeatsRestIff | internal/agent/config/store.go:97-107 | a block beats every other rule in every order exactly when no exceeded rule is spelled "ratelimit" |
| Rules.HighestLimitWinsIff | internal/agent/config/store.go:97-107 | with no block exceeded, the highest exceeded limit wins in every order exactly when only limits are exceeded |
| RuleStoreModel.RuleStore.Upsert | internal/agent/config/store.go:30-37 | stores the rule under its ID and leaves the cache file listing exactly the store |
| RuleStoreModel.RuleStore.Delete | internal/agent/config/store.go:49-62 | removes the ID; the file mirrors the store afterwards exactly when the ID was known or it did before |
| RuleStoreModel.RuleStore.Clear | internal/agent/config/store.go:113-119 | empty store, no file |
| RuleStoreModel.RuleStore.SaveToDisk | internal/agent/config/store.go:148-164 | the file lists every rule once, in some order |
| RuleStoreModel.RuleStore.LoadFromDisk | internal/agent/config/store.go:122-145 | inserts the listed rules in file order; a missing or unreadable file changes nothing |
| RuleStoreModel.RuleStore.Match | internal/agent/config/store.go:79-110 | the loop returns what its order gives: nil exactly when nothing is exceeded, a stored exceeded rule otherwise, and, unless a rule spelled "ratelimit" is exceeded, a block exactly when one is |
| RuleStoreModel.LastEntryWins | internal/agent/config/store.go:122-145 | of several entries of the file with one ID the last is kept, over what was there before; other IDs stay |
| RuleStoreModel.LoadMirror | internal/agent/config/store.go:122-164 | loading a saved file into an empty store reproduces the store, whatever order it was written in |
| RuleStoreModel.MirrorRestores | internal/agent/config/store.go:112-145 | a mirroring file determines the store, a missing one meaning empty |
| Agent.Enforcer.Tick | internal/agent/agent.go:121-191 | every counted address takes one step with some iteration order of the rules; every other address stays as it was |
| Agent.Enforcer.TickOne | internal/agent/agent.go:133-190 | the loop body for one address: remembered counter and flag, enforcement, reported record |
| Agent.Enforcer.Enforce | internal/agent/agent.go:146-174 | the block, re-evaluate, set and remove branches |
| EnforcementRuns.PacketsConserved | internal/agent/agent.go:133-190 | in every run the latency count is passed plus block-dropped plus rate-dropped packets, the request counter is the same without block drops, and the Passed fields of the reported records telescope to the counter of the last tick |
| EnforcementRuns.TimesAreRecorded | ebpf/policy.c:165-188 | in every run the latency entry holds total, number, least and greatest of the times of the protected packets, totals as words, and every such packet is on one pile |
| PacketRuns.PacketFate | ebpf/policy.c:240-291 | after any run a protected packet is blocked exactly if it is not bypassed and a block's end is ahead; else it passes if bypassed or no limit is remembered; else the bucket decides; all but blocked ones are counted, at their time |
| PacketRuns.RateDropNeedsEmptyBucket | ebpf/policy.c:127-162 | a rate drop needs a remembered limit and an existing, empty bucket; with products that fit a word it happens exactly if no token is held and less than one is earned |
| PacketRuns.NoLimitNoRateDrops | ebpf/policy.c:279-291 | in a run whose ticks match no rate limit every protected packet passes unless a block drops it |
| PacketRuns.BlockLastsItsDuration | internal/agent/ebpf/loader.go:90-100 | after a tick that matched a block a packet that is not bypassed is dropped exactly for the seconds of the rule |
| BlockRuns.ExtensionExactly | internal/agent/agent.go:146-151 | in every run a tick extends a live block exactly when a block decides on the packets let past by the bypass list since the last tick |
| BlockRuns.NeverOverlapIff | internal/agent/agent.go:146-163 | in every run the blocks of an address follow one another without overlap exactly when no tick extends one |
| BlockRuns.RunsAreBooked | internal/agent/agent.go:133-163 | in every run the block list holds the end of the latest block, and while it lies ahead the counter has moved by the bypassed packets only |
| BlockRuns.BlocksNeverOverlap | internal/agent/agent.go:133-163 | without bypass and negative block thresholds no block is ever extended and none overlap |
| BlockRuns.BlockRunsItsCourse | ebpf/policy.c:260-265 | in every run, until a block's end nothing is installed exactly when no tick extends it, and then only bypassed packets get past it |
| BlockRuns.BlockDropsExactlyUntilEnd | ebpf/policy.c:240-265 | in every run a packet is block-dropped exactly when the address is not bypassed and the end fixed at the latest install is ahead |
| BlockRuns.QuietNeverExtends | internal/agent/agent.go:146-151 | without bypassed packets only a negative block threshold can extend a block |
| BlockRuns.BypassedBlockIsExtended | internal/agent/agent.go:146-151 | a possible run, ticking every ten seconds, in which the hour-long live block of an address that has left the bypass list is extended |
| LimitRuns.ShadowAgrees | internal/agent/agent.go:164-174 | after every event the kernel's rate equals the remembered limit, and a bucket exists only with a rate |
| LimitRuns.StepShadows | internal/agent/ebpf/loader.go:130-143 | one event keeps that agreement, and losing the rate means losing the bucket |
| LimitRuns.ConfiguredIffNonzero | internal/agent/agent.go:165-172 | the kernel has a rate exactly when the remembered limit is nonzero, unless a 0 is remembered |
| LimitRuns.ZeroLimitRememberedIff | internal/agent/agent.go:164-169 | a tick remembers a 0 exactly when a threshold of 0 replaces another limit |
| LimitRuns.ZeroThresholdLeaksConfig | internal/agent/agent.go:164-173 | with a 0 remembered, a tick leaves it and the kernel entry exactly unless it sets another limit |
| LimitRuns.ZeroLimitStays | internal/agent/agent.go:164-173 | from then on both stay in every run without a nonzero rate-limit threshold |
| LimitRuns.ZeroLimitIsReached | internal/agent/agent.go:164-173 | a run from the start gets there, with a threshold lowered from 1 to 0 between two ticks |
| LimitRuns.LimitsStayBounded | internal/agent/agent.go:164-174 | with positive thresholds the kernel's rates are exactly the remembered limits and no bucket exceeds twice the largest |
| LimitRuns.TickEnforcesRules | internal/agent/agent.go:144-174 | for an unblocked address, any rules and any order, one tick enforces the last exceeded block if a block decides, else the highest limit if the first exceeded rule is one, else no limit, a remembered 0 excepted; setting or keeping a limit keeps the bucket |
| LimitRuns.BlockedTickLeavesLimit | internal/agent/agent.go:146-159 | while blocked and at the first tick after, for any rules, the limit stays and the block list changes exactly when a block decides |
| LimitRuns.LimitedAddressEnvelope | ebpf/policy.c:244-283 | however packets, ticks, blocks and bypass changes interleave under a kept limit, at most one burst plus rate tokens per second pass besides the bypassed packets |
| LimitRuns.LimitedAddressAnyWindow | ebpf/policy.c:244-283 | in any window of any run under a kept limit, whatever came before, at most what the bucket holds or one burst, rate tokens per second, and one packet pass besides the bypassed packets |
| LimitRuns.LimitedAddressEveryWindow | ebpf/policy.c:244-283 | every later window of a kept limit obeys one burst, rate tokens per second, and one packet, besides the bypassed packets |
| EnforcementRuns.LatencyStaysSound | ebpf/policy.c:165-188 | minimum times count, total and maximum times count stay ordered over every run whose sums fit the 64-bit words |
| ReportRuns.RecordIsTruthful | internal/agent/agent.go:133-182 | the record of a tick reports the rate the rules were matched against, a whole tenth of its Passed field; blocked exactly if a block's end was ahead; rate limited exactly if the kernel has a nonzero rate |
| ReportRuns.ReportsAddUp | internal/agent/agent.go:133-182 | under 2^63 counted packets the reported Passed fields add up, at every tick, to the packets that passed or were rate-dropped |
| ReportRuns.ReportedLatenciesOrdered | internal/agent/ebpf/loader.go:216-231 | the latencies of the record are the whole microseconds of the least, mean and greatest time of all protected packets so far, in this order |
| Scaler.LevelMonotone | internal/server/metrics/adaptive_scaler.go:62-112 | more load on any resource never lowers the index or the level |
| Scaler.IndexIsCappedSum | internal/server/metrics/adaptive_scaler.go:97-112 | the index is the sum of what the four resources add alone, capped at 100 |
| Scaler.ResourceIndexIff | internal/server/metrics/adaptive_scaler.go:77-95 | a resource adds 25 for every deviation it is over its mean, a deviation being at least a tenth of the mean, exactly; at or under the mean it adds nothing |
| Scaler.AnyResourceRaises | internal/server/metrics/adaptive_scaler.go:62-112 | any one resource over its mean raises the index, and more than 1.2 deviations leave level 0 whatever the others do |
| Scaler.RaisedLevelMeansExcess | internal/server/metrics/adaptive_scaler.go:77-112 | a nonzero level needs the resources together to exceed their means by more than 12 percent |
| Scaler.BandsPartition | internal/server/metrics/adaptive_scaler.go:62-75 | the bands end at 30, 50, 70 and 90 |
| Scaler.MoreLoadNeverLooser | internal/server/metrics/adaptive_scaler.go:54-75 | more load never gets a looser limit, and a stricter one exactly when its index lies in a higher band: half for the next band, from 400 on |
| Scaler.AgentState.ProcessAdaptive | internal/server/metrics/adaptive_scaler.go:173-313 | one report moves level, counters and last index, and publishes, as the hysteresis says, early returns included |
| Scaler.AgentState.Reanchor | internal/server/metrics/adaptive_scaler.go:195-216 | the deviation counter and the re-anchored index |
| ScalerRuns.ChurnBound | internal/server/metrics/adaptive_scaler.go:221-313 | three reports per published rise and two per published fall, plus what the counters hold, never exceed the reports seen |
| ScalerRuns.RunsStaySettled | internal/server/metrics/adaptive_scaler.go:221-313 | both counters stay at most 2 and the last published index is never above the level's band |
| ScalerRuns.DecideKeepsSettled | internal/server/metrics/adaptive_scaler.go:263-312 | a publication is a level change: a rise to the report's level, or a fall by exactly one |
| ScalerRuns.RiseNeedsThree | internal/server/metrics/adaptive_scaler.go:226-239 | a rise comes after three consecutive reports above an unchanged level |
| ScalerRuns.RisesIff | internal/server/metrics/adaptive_scaler.go:225-273 | a report makes the level rise, to its own level, exactly when it is above, is the third (or sixth, ninth) high one without a break, and is at least 10 from the last published index |
| ScalerRuns.FallsIff | internal/server/metrics/adaptive_scaler.go:241-273 | a report makes the level fall exactly when it is calm, an earlier calm report is pending, and the level is 1 or the index at least 10 from the last published one; only an equal report, the third high one in a row or a level change ends the wait |
| ScalerRuns.FallWithoutConsecutiveCalm | internal/server/metrics/adaptive_scaler.go:241-258 | a concrete run in which the level falls although a high report lies between the calm ones |
| ScalerRuns.SustainedLoadRaises | internal/server/metrics/adaptive_scaler.go:225-273 | from any reachable state three reports at least 10 above the band raise the level within those three |
| ScalerRuns.SustainedReportsRaise | internal/server/metrics/adaptive_scaler.go:173-273 | the same for raw reports after any history: re-anchoring the baseline cannot hide them |
| ScalerRuns.CalmClearsLevelOne | internal/server/metrics/adaptive_scaler.go:241-273 | at level 1 two calm reports always clear the rule |
| ScalerRuns.ConstantLoadFixedPoint | internal/server/metrics/adaptive_scaler.go:225-313 | under constant load the level changes at most twice, within four reports, and ends at a closed form |
| ScalerRuns.IdleRecoversIff | internal/server/metrics/adaptive_scaler.go:241-273 | constant idle load recovers to level 0 exactly from levels 0 and 1 and from level 2 with a distant last index |
| ScalerRuns.IdleAfterSpikeStaysLimited | internal/server/metrics/adaptive_scaler.go:241-273 | a concrete spike after which an idle machine stays at level 3 for ever |
| ScalerRuns.PublicationsAreSpaced | internal/server/metrics/adaptive_scaler.go:267-273 | a publication ending at a nonzero level differs by at least 10 from the publication before it |
| ScalerRuns.ReanchorNeedsEleven | internal/server/metrics/adaptive_scaler.go:191-216 | the baseline is re-anchored only at the eleventh or later of consecutive calm positive reports at level 0, reports with a failed baseline query aside |
| ScalerRuns.EveryEleventhReanchors | internal/server/metrics/adaptive_scaler.go:191-216 | every eleventh of the calm positive reports that follow back to back is judged by the two-hour baseline, and the count starts again; the others are judged by the one-day baseline |
| ScalerRuns.UnreadableReportsChangeNothing | internal/server/metrics/adaptive_scaler.go:173-180 | a run of reports leads to the same state without the reports whose baseline query failed |
| ScalerRuns.ReportsAreIndices | internal/server/metrics/adaptive_scaler.go:173-219 | runs of reports are runs of effective indices up to the deviation counter |
| Bus.CopiesActOnce | internal/agent/config/listener.go:50-89 | an agent hears a subject exactly when a subscription matches, and duplicate deliveries act as one |
| Bus.ReplayForgetsStart | internal/agent/agent.go:223-231 | what a run of messages leaves at an ID they touch does not depend on the starting store |
| Replication.AgentStaysInSync | internal/server/api/handlers.go:60-181 | an agent in agreement stays so in every run of handlers, reports of this and other agents, classifier rules, deliveries and safe reloads, without hiding updates and intruding reports: the drained store is exactly the heard database rules plus the scaler's rule |
| Replication.ChangeKeepsSyncIff | internal/server/api/handlers.go:112-142 | an update keeps the agreement exactly when it does not hide the rule from the agent |
| Replication.ElsewhereKeepsSyncIff | internal/server/metrics/adaptive_scaler.go:278-335 | another agent's report keeps the agreement exactly when its rule -1 is not heard, or is a removal at level 0; heard are the others of an empty topic and the one named like the topic |
| Replication.ReloadSyncsIff | internal/agent/agent.go:223-231 | a reload over any store content, with any messages pending, restores the agreement exactly when those are true and nothing heard is neither fetched nor pending |
| Replication.InboxStaysTruthful | internal/agent/config/listener.go:61-89 | what is pending stays true in every run, reloads included, whatever the store holds |
| Replication.ReloadRecoversFromAnything | internal/agent/agent.go:223-271 | from any stale store, after any such run, a reload brings the agent in sync exactly when it is safe |
| Replication.DrainedReloadIff | internal/agent/agent.go:283-291 | with nothing pending, exactly when no adaptive rule is in force and every heard rule is fetched: none tagged with the agent's own ID only, or, for an empty topic, none tagged at all |
| Replication.ReportLeavesRules | internal/server/metrics/adaptive_scaler.go:275-335 | the agent's own escalations, step-downs and clears leave every database rule at the agent as it was |
| Replication.RestoringIsIdempotent | internal/server/metrics/adaptive_scaler.go:341-375 | republishing rules the agent has changes nothing |
| Replication.TableHoldsLastWrites | internal/server/api/handlers.go:60-181 | in every run the table holds under each ID exactly the body last written there, and nothing after a deletion |
| Replication.AgentHoldsLastWrites | internal/server/api/handlers.go:60-181 | end to end: with its inbox handled an agent in agreement holds under each database ID the rule last written, if it should hear it |
| Replication.ClearingRestores | internal/server/metrics/adaptive_scaler.go:281-291 | a clearing report, whatever the agent held, removes rule -1 and puts every restored rule back as sent |
| Replication.AdaptiveRuleFollowsLevel | internal/server/metrics/adaptive_scaler.go:278-308 | in such a run, drained, the agent has rule -1 exactly at a nonzero level, with that level's limit |
| Replication.ClassifierRuleReaches | internal/server/classifier/classifier.go:434-463 | a classifier rule reaches exactly agents without a topic or named like the address, and becomes their rule -2 |
| ReplicationNodes.PolicyServer.CreateRule | internal/server/api/handlers.go:60-83 | inserts under a fresh ID and publishes to the rule's subject |
| ReplicationNodes.PolicyServer.UpdateRule | internal/server/api/handlers.go:112-142 | overwrites and publishes, or reports not found and does neither |
| ReplicationNodes.PolicyServer.DeleteRule | internal/server/api/handlers.go:147-181 | deletes and publishes under the row's topic, or reports not found |
| ReplicationNodes.PolicyServer.Fetch | internal/server/policy/publisher.go:45-99 | lists exactly the rows of the topic and the untagged ones, all rows for an empty topic |
| ReplicationNodes.AgentNode.Start | internal/agent/config/listener.go:50-59 | the subjects an agent subscribes to |
| ReplicationNodes.AgentNode.Receive | internal/agent/config/listener.go:61-89 | one copy per matching subscription |
| ReplicationNodes.AgentNode.HandleNext | internal/agent/agent.go:49-52 | handles the oldest message without changing where the inbox leads |
| ReplicationNodes.AgentNode.Reload | internal/agent/agent.go:223-231 | clear and refill leaves exactly the fetched view, mirrored on disk |
| ReplicationNodes.FilterRules | internal/agent/agent.go:283-291 | keeps exactly the untagged rules and those of the topic |
| ReplicationNodes.FetchFilterLoad | internal/agent/agent.go:237-245 | the server's filter, the agent's filter and the inserts compose to the fetched view |
| Classifier.TrustedMeansClose | internal/server/classifier/classifier.go:257-267 | a trusted verdict forces the current rate into 0.25 to 1.75 times the mean |
| Classifier.SmallDeviationNotSuspicious | internal/server/classifier/classifier.go:465-481 | a deviation under 30 percent of the mean is never suspicious |
| Classifier.CapRoundsUp | internal/server/classifier/classifier.go:243-250 | a cap is the scaled mean rounded up, never 0, and the tight one no looser than the lenient one |
| Classifier.SilenceIsSuspiciousIff | internal/server/classifier/classifier.go:235-255 | a silent address is suspicious exactly when three spreads fit under its mean |
| Classifier.Engine.ClassifyIP | internal/server/classifier/classifier.go:175-223 | one cycle changes the row of its address only and publishes on transitions only |
| Classifier.CyclePublishes | internal/server/classifier/classifier.go:175-281 | exactly when a cycle publishes the 60-second block, a rate limit (with its scaled and rounded threshold), an addition or a removal, from samples, deviations and the row |
| Classifier.DecideIsVerdict | internal/server/classifier/classifier.go:225-281 | the category from the numbers: samples, and the deviation against multiples of the standard deviation and of a tenth of the mean |
| Classifier.CycleAnnounces | internal/server/classifier/classifier.go:192-222 | every change of the whitelisted flag is published, except the one a blocking verdict makes |
| Classifier.BypassFollowsFlag | internal/server/classifier/classifier.go:329-335 | in every run trusted implies whitelisted, whitelisted implies trusted or unknown and bypassed, and bypass equals the flag exactly when no blocking verdict leaked |
| Classifier.LeakIsReached | internal/server/classifier/classifier.go:175-223 | a run from the start in which a whitelisted address loses the flag and stays bypassed |
| Classifier.LeakFreeAlternates | internal/server/classifier/classifier.go:206-215 | without such a verdict the sets are equal and additions and removals strictly alternate |
| Classifier.BlockPublishedIff | internal/server/classifier/classifier.go:198-222 | a blocking verdict publishes a block exactly when the address was not suspicious already |
| Classifier.SuspicionNeverEscalates | internal/server/classifier/classifier.go:198-222 | an address that stays suspicious gets no further rule |
| Classifier.BlockRuleMatchesEveryAddress | internal/server/classifier/classifier.go:449-463 | in a store the classifier's block rule makes every address with traffic match a block exactly when the first exceeded rule is not spelled "ratelimit" |
| Hostname.IsHostname | internal/cert/autocert.go:76-132 | the scanner accepts exactly the grammar of dot-separated labels |
| Hostname.ScannedMeansLabels | internal/cert/autocert.go:95-130 | the per-character checks are equivalent to well-formed labels so far |
| Hostname.LabelsSplit | internal/cert/autocert.go:95-130 | the labels are the split at the dots: joining them gives the name back |
| Hostname.RejectsOnlyFullLaterLabels | internal/cert/autocert.go:116-119 | of names within 63 per label exactly those with a later label of 63 are rejected |
| Hostname.GrammarMeetsStandards | internal/cert/autocert.go:73-132 | accepted names meet section 2.3.4 of RFC 1035 and section 2.1 of RFC 1123 |

## Left out

- Packet parsing, interface attachment and the BPF loader: a packet is a source, a port and three clock readings.
- LRU eviction and map capacity: maps never drop or refuse an entry.
- The difference between `/proc/uptime` and the kernel clock, and the time that passes inside one tick: all times come from one monotone clock and a tick is one moment.
- Failing map, file and clock calls in the agent, except an unreadable cache file.
- Rounding of `float64`: indices, means and deviations are real numbers.
- SQL, TimescaleDB and JSON: tables are maps, statistics are arbitrary non-negative inputs; a failed baseline query is modelled, other failed queries and undecodable requests change nothing and are not.
- Message loss, the gap between the first fetch and the subscription, and reordering between subscriptions: each agent handles what it hears in publication order, and a reload is one step.
- Server restarts during a run of the scaler: its level is kept in memory only.
- Several agents at once: the protocol is stated for one agent; other agents appear by what the scaler publishes for them, and keep inboxes and maps of their own.
- Whitelist notices are assumed to parse at the agent: the address is read as `ip::text` from an `INET` column (`internal/server/classifier/classifier.go:117`, `internal/server/classifier/classifier.go:147`), which PostgreSQL renders with a `/32` that `net.ParseIP` refuses (`internal/agent/agent.go:54-57`).
- `created_at`, rule names and reason texts of generated rules: nothing modelled reads them.
- Agents that start or stop seeing an address while it is classified: the set of agents told about an address is fixed, except for restarts.
- Configuration, certificates and host policies around `IsHostname`, the web interface, metrics queries, and the system monitor: plumbing without state of their own, or a simpler telescoping sum.
- `IsHostname` reads bytes: a character of the model stands for one byte, so a multi-byte character is several characters, each refused.
- Kernel.PolicyProgram.PolicyFilter: sequential packets; the non-atomic bucket update by packets on several processors is not modelled.
- TokenBucket.SpacedSourceNeverDropped: is stated for rates up to about 2^63 - 10^10; a larger rate comes only from a negative threshold or one of that size. It fails at such rates as `TokenBucket.SpacedSourceDroppedAtHugeRate` shows, but which of them fail is not characterised, because it depends on how multiples of the rate wrap modulo 2^64.
