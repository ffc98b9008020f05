# A verified model of the honeypot's core

This project models, in Dafny, the parts of the honeypot platform whose correctness cannot be read
off one function: campaign clustering, the detection engine and its alert table, the sensor's write
path, the wire formats, the dashboard's fast aggregates, and the bounded scores. Each `.dfy` file is
one module, named after what it models. Verify everything with `dafny verify dfyconfig.toml`.

Conventions. Times are whole microseconds since the epoch; weights, scores, logarithms and entropy
are exact reals; bytes are integers from 0 to 255; tables are maps or sequences. Code that updates
fields or loops over variables is a class or a method, proved equal to a specification function;
the lemmas then say what that specification promises. Python exceptions are outcomes of their own.

How the modules build on each other:

- `Similarity`, `SimilarityLaws`, `UnionFind`, `Profiles`, `Campaigns`, `CampaignLaws`, `CampaignFigures`: weighted
  Jaccard scores and their closed form, union-find with path halving, what a campaign shows of its sources, the
  clustering loop, and what its report means.
- `SlidingPeak`, `Detection`, `DetectionLaws`, `ConditionLaws`, `Alerts`: the two-pointer window, rules, what a growing
  log changes, what each condition means for an event's columns and which keys a rule then reports, and the alert
  table over whole histories of runs.
- `Writer`, `Session`, `SessionLaws`, `Storage`, `LostBatches`, `ClosedSessions`, `LostOpening`, `Admission`: the
  bounded queue and its writer thread as a state machine over atomic steps, one connection's life, what the database
  keeps of it, also after batches were lost, and the registry.
- `Bytes`, `Decimal`, `DecimalLaws`, `Resp`, `SshWire`, `Telnet`: parsers and the encoders they invert.
- `Timeseries`, `Charts`, `ChartLaws`, `Attackers`, `AttackerLaws`: database and Python bucketing, charts, and batched
  aggregation, with what each point and each column says.
- `EventRows`, `Scoring`, `ScoreLaws`, `Entropy`: rows of the events table, the threat score, its components in figures,
  and Shannon entropy. `AsnTable`, `ElfScan`, `ElfLaws`: table scans, and the file layout they read.
- `Sequences`, `Rounding`, `Wrappers`: filtering, sums, stable sorting, rounding and optional values.

## Where the code and its promises differ

Properties that one might expect, or that the documentation states, and that the code does not meet
on all inputs. The code is modelled as it is; each item names a lemma with a concrete failing input and a
lemma with the exact condition.

- `stop` is documented to drain the queue (honeypot/logger.py:83-84). The writer tests `_running` some
  time after it saw an empty queue; an event accepted in between is lost when `stop` clears the flag
  before that test (`Writer.StopCanLoseAnEvent`). Everything accepted is flushed if and only if the
  writer was not in that gap with something queued when the flag was cleared
  (`Writer.StopFlushesEverything`).
- A batch is one transaction, and only a session's opening carries the columns its row must have
  (storage/models.py:198-199). When a full queue drops an opening but accepts a later item of the session, the
  batch with that item is rolled back with everything in it, while `written` still counts its events. The openings
  of other sessions in it are lost as well, and every later batch with an item of one of those sessions fails in
  turn (`LostOpening.OpeningCanBeLost`). A batch is stored if and only if each of its items finds its session's row
  (`Storage.FlushSucceedsIff`); over whole runs, if and only if no chain of such failures leads to it from a
  session whose opening was not accepted (`LostBatches.HandledBatchFailsIff`); and a session has a row if and only
  if the batch with its opening was stored (`LostBatches.HandledRowIff`).
- A rule whose condition raises on one event reports nothing at all (`DetectionLaws.RaisingSilencesRule`): a key
  that a match, threshold or distinct rule reported is still reported on a larger log if and only if no
  condition raises there (`DetectionLaws.FiringSurvivesGrowth`).
- The hit count of a distinct rule is the length of its evidence span and can be smaller on a larger log
  (`DetectionLaws.DistinctHitCountCanFall`), so that the stored maximum over several runs differs from what one
  run over the last log stores (`Alerts.DistinctHistoryDiffers`). The incoming count falls if and only if on the
  larger log the first window to reach the peak is shorter than the old evidence
  (`DetectionLaws.DistinctHitCountFallsIff`), and the stored counts agree if and only if that happened to no run's
  evidence (`Alerts.DistinctHistoryIff`).
- A ratio rule stops reporting a key when events outside its numerator arrive
  (`DetectionLaws.RatioCanStopReporting`); it reports a key on a log with added events if and only if nothing raises
  and the matches of both parts together reach the threshold's share (`DetectionLaws.RatioReportsIff`).
- Before the epoch the database and Python can put an event into different buckets: Python truncates towards zero,
  SQLite truncates after dropping the fraction of a second, PostgreSQL floors. A SQLite that first rounds to the
  millisecond differs on any day, in the last half millisecond of a bucket (`Timeseries.IndicesCanDiffer`). They
  agree on one time if and only if a simple condition on it holds (`Timeseries.IndexAgreement`), on a whole tally if
  and only if they agree on every event (`Timeseries.TalliesAgreeIff`), and on the chart if and only if they agree on
  every event that it can show (`Charts.ChartsAgreeIff`).
- The doubling of 255 that RFC 855 prescribes inside a telnet subnegotiation is not undone, and can end it early
  (`Telnet.DoubledIacEndsEarly`); a subnegotiation is consumed exactly if and only if its payload contains no
  255, 240 pair (`Telnet.SubnegotiationConsumedIff`).

## Model

| member | source | states |
|---|---|---|
| `Similarity.Jaccard` | pipeline/analysis/campaigns.py:128-133 | the overlap lies in [0, 1], is 1 exactly for equal non-empty sets and 0 exactly for disjoint ones |
| `Similarity.ComputeSimilarity` | pipeline/analysis/campaigns.py:136-151 | the accumulating loop that skips unobserved facets computes the quotient of weighted overlap and observed weight, which `SimilarityLaws.ScoreClosedForm` gives in figures |
| `Similarity.ScoreSymmetric` | pipeline/analysis/campaigns.py:136-151 | similarity is symmetric |
| `Similarity.ScoreBounds` | pipeline/analysis/campaigns.py:136-151 | similarity lies in [0, 1]; it is 1 exactly when all six facets agree and some facet is non-empty, and 0 exactly when no facet shares an element |
| `SimilarityLaws.ScoreClosedForm` | pipeline/analysis/campaigns.py:136-151 | the score is the weighted sum of shared over seen elements, with the weights 3, 2.5, 1.5, 1, 1 and 0.25 of the six facets, over the weights of the facets that were observed, and 0 without any |
| `SimilarityLaws.FullyObservedScore` | pipeline/analysis/campaigns.py:48-55 | when every facet was observed on some side, the score times 9.25 is the weighted sum of shared over seen elements |
| `SimilarityLaws.UsableIff` | pipeline/analysis/campaigns.py:82-91 | a source is compared if and only if a credential, path, payload or user name was seen |
| `SimilarityLaws.AmbientScore` | pipeline/analysis/campaigns.py:45-55 | two usable sources that share nothing but services score at most 0.2 |
| `SimilarityLaws.AmbientSourcesNeverCluster` | pipeline/analysis/campaigns.py:45-57 | sources of which no two share anything but services form no campaign at the default threshold of 0.35 |
| `UnionFind.HalvingKeepsRoots` | pipeline/analysis/campaigns.py:160-163 | one path-halving assignment keeps the forest well-formed and leaves every root unchanged |
| `UnionFind.LinkMergesRoots` | pipeline/analysis/campaigns.py:166-169 | linking one root below a smaller one redirects exactly the class of the larger root |
| `UnionFind.DisjointSets.constructor` | pipeline/analysis/campaigns.py:157-158 | initially every index is its own root |
| `UnionFind.DisjointSets.Find` | pipeline/analysis/campaigns.py:160-164 | returns the root, terminates because parents never exceed their children, and changes no root although it rewrites the parents |
| `UnionFind.DisjointSets.Union` | pipeline/analysis/campaigns.py:166-169 | merges the two classes under the smaller root and changes no other class |
| `Campaigns.CompareRow` | pipeline/analysis/campaigns.py:251-256 | one turn of the outer loop joins exactly the pairs that reach the threshold and records their scores in order |
| `Campaigns.CompareAll` | pipeline/analysis/campaigns.py:248-256 | after all comparisons two sources have the same root if and only if a path of pairs that reach the threshold connects them |
| `Campaigns.RootsAreLeast` | pipeline/analysis/campaigns.py:166-169 | each root is the least index of its component |
| `Campaigns.GroupIndices` | pipeline/analysis/campaigns.py:258-260 | the grouping dictionary holds one entry per component, keyed by its least source, in that order, with the component's indices ascending |
| `Campaigns.SummaryFromTable` | pipeline/analysis/campaigns.py:262-268 | the scores picked from the global edge table are exactly the pair scores inside the component |
| `Campaigns.Cluster` | pipeline/analysis/campaigns.py:233-271 | the whole function, on the union-find above, equals the specification in terms of path-connected components |
| `CampaignLaws.CampaignsAreComponents` | pipeline/analysis/campaigns.py:244-271 | a campaign is reported if and only if it is the summary of a component of at least min_size usable sources, and exactly as often as there are such components |
| `CampaignLaws.EverySourceHasOneComponent` | pipeline/analysis/campaigns.py:258-260 | every usable source lies in the component of exactly one least source |
| `CampaignLaws.CampaignContents` | pipeline/analysis/campaigns.py:218-229 | a campaign's members are exactly its component's addresses, sorted, its event count is their sum, and its profile is that of the component |
| `CampaignFigures.CampaignDescribes` | pipeline/analysis/campaigns.py:218-229 | a campaign lists the addresses of its sources in ascending order, its events add up to theirs, and its cohesion is the average score of the pairs among them that reach the threshold |
| `Profiles.Shared` | pipeline/analysis/campaigns.py:211-213 | the intersection holds exactly what every source of the group has |
| `Profiles.ProfileMeaning` | pipeline/analysis/campaigns.py:211-229 | the shared artefacts shown are the first twenty in order of those all sources have, the origins are exactly those that occur, and the times are the extremes |
| `CampaignLaws.CohesionBounds` | pipeline/analysis/campaigns.py:227 | cohesion lies between the threshold and 1 for every campaign of at least two sources, and is 0 for one of a single source |
| `CampaignLaws.RaisingThresholdRefines` | pipeline/analysis/campaigns.py:251-268 | the members of every campaign at a higher threshold lie together in one campaign at a lower one |
| `CampaignLaws.OrderIrrelevant` | pipeline/analysis/campaigns.py:233-271 | permuting the input yields the same campaigns with the same members, event counts and cohesion |
| `CampaignLaws.ReportIsSorted` | pipeline/analysis/campaigns.py:270-271 | larger campaigns come first, equally large ones by event count |
| `CampaignFigures.LargestFirst` | pipeline/analysis/campaigns.py:270-271 | of two campaigns the earlier one has no fewer members, and for equally many no fewer events |
| `SlidingPeak.CountRight` | pipeline/detection/rules.py:246-249 | after admitting an event the counter is exactly the multiset of non-null values of the span |
| `SlidingPeak.DropLeft` | pipeline/detection/rules.py:254-259 | after dropping the leftmost event, with deletion at zero, the counter is again exactly that multiset |
| `SlidingPeak.Shrink` | pipeline/detection/rules.py:252-259 | the inner loop stops at the first position whose event fits in the window |
| `SlidingPeak.CounterSize` | pipeline/detection/rules.py:261 | the counter's length is the number of distinct non-null values in the span |
| `SlidingPeak.FindPeak` | pipeline/detection/rules.py:225-266 | the two-pointer scan returns the first best window of the time-ordered events |
| `SlidingPeak.PeakOptimal` | pipeline/detection/rules.py:225-266 | the returned span fits in the window and attains the peak, and no sub-collection of the events that fits in one window counts more |
| `SlidingPeak.PeakMonotone` | pipeline/detection/rules.py:225-266 | more events never lower the peak |
| `SlidingPeak.PeakIsFirstBest` | pipeline/detection/rules.py:261-264 | the returned span is the first window to reach the peak |
| `SlidingPeak.PeakAfterGrowth` | pipeline/detection/rules.py:261-264 | after later events the peak either stays together with its span, or its span is the first window that reaches the new peak |
| `Detection.GroupCandidates` | pipeline/detection/rules.py:207-212 | groups are filled in order of first appearance, hold exactly the candidates with their key, and null keys are skipped |
| `Detection.ComputeTest` | pipeline/detection/rules.py:269-292 | the four rule types, with the optimal window as evidence for threshold and distinct rules and the ratio shown to four digits |
| `Detection.EvaluateRule` | pipeline/detection/rules.py:181-222 | filtering, grouping and testing produce the alerts of all keys in order, or the exception that a condition raises |
| `DetectionLaws.MatchesIff` | pipeline/detection/rules.py:132-173 | a where block holds if and only if all its conditions hold, and raises if and only if the first one that does not hold raises; the laws of `ConditionLaws` below say when each operator holds |
| `ConditionLaws.InTagsIff` | pipeline/detection/rules.py:153-156 | in_tags holds if and only if some tag of the list equals the text, and never raises |
| `ConditionLaws.ContainsIff` | pipeline/detection/rules.py:149-151 | contains holds if and only if the column is there and its lowered text is the lowered expectation between two other texts |
| `ConditionLaws.ComparisonIff` | pipeline/detection/rules.py:158-164 | gte and lte hold if and only if both sides are numbers in that order, both together exactly for equal numbers; they raise if and only if the column is there and a side is no number |
| `ConditionLaws.IsNullIff` | pipeline/detection/rules.py:166-168 | isnull holds for an absent column, or for a present one when the expectation is one of the five false values |
| `ConditionLaws.EqIff` | pipeline/detection/rules.py:142-147 | eq is equality with a scalar and membership in a list, where null stands for an absent column, and never raises |
| `ConditionLaws.UnknownOperatorRaises` | pipeline/detection/rules.py:170-171 | any other operator raises |
| `ConditionLaws.GroupIs` | pipeline/detection/rules.py:203-212 | a group holds, as often as the log does, exactly the events that meet all conditions and have the key |
| `ConditionLaws.CountingRuleReportsIff` | pipeline/detection/rules.py:181-222 | a threshold rule that does not raise reports a key if and only if the log has that many events within the minutes of the rule that meet its conditions and have the key; a distinct rule if and only if they have that many different values |
| `ConditionLaws.MatchRuleReportsIff` | pipeline/detection/rules.py:181-222 | a match rule that does not raise reports exactly the non-null keys of the events that meet its conditions |
| `ConditionLaws.TagRuleReportsIff` | pipeline/detection/rules.py:181-222 | a match rule for one tag reports exactly the non-null keys that have an event with the tag |
| `ConditionLaws.AlertDescribesEvidence` | pipeline/detection/rules.py:295-354 | an alert carries the id and severity of its rule and the count and extreme times of its evidence, which is drawn from the group |
| `ConditionLaws.ObservedMeaning` | pipeline/detection/rules.py:269-292 | the observed value is the size of the group, of its largest burst, the most different values in a burst, or the share of events that meet the numerator rounded to the nearest 1/10000 |
| `ConditionLaws.DedupeKeysDiffer` | pipeline/detection/rules.py:353 | for rule ids without a bar, two dedupe keys are equal if and only if the rules and the printed keys are |
| `DetectionLaws.OneAlertPerFiringGroup` | pipeline/detection/rules.py:203-222 | a rule that does not raise reports exactly the non-null keys whose group fires, each once |
| `DetectionLaws.RaisesIff` | pipeline/detection/rules.py:203-222 | a rule raises if and only if a condition raises on the log, or a numerator condition of a ratio rule on some key's group |
| `DetectionLaws.EvidenceFitsWindow` | pipeline/detection/rules.py:295-354 | a windowed alert spans at most the window, its first and last times are times of its group's events, and a threshold alert's hit count is the observed peak |
| `DetectionLaws.GroupMonotone` | pipeline/detection/rules.py:203-212 | a larger log gives every key a larger group |
| `DetectionLaws.FiringSurvivesGrowth` | pipeline/detection/rules.py:181-222 | a match, threshold or distinct rule that fired for a key still fires for it on a larger log if and only if no condition raises there |
| `DetectionLaws.RaisingSilencesRule` | pipeline/detection/rules.py:158-160 | a concrete log on which a rule reports a source, and an extension on which it raises |
| `DetectionLaws.AlertGrows` | pipeline/detection/rules.py:269-279 | on a larger log the observed value does not fall, nor, for match and threshold rules, the hit count; a match alert's time span only widens |
| `DetectionLaws.DistinctHitCountCanFall` | pipeline/detection/rules.py:352 | a concrete group and extension on which a distinct rule's hit count falls from 4 to 3 |
| `DetectionLaws.DistinctHitCountFallsIff` | pipeline/detection/rules.py:281-283 | on any larger log the hit count falls if and only if the first window to reach the peak there is shorter than the old evidence |
| `DetectionLaws.LaterEventsHitCount` | pipeline/detection/rules.py:281-283 | when only later events arrive that window ends with one of them, and while the peak stays, so does the whole alert |
| `DetectionLaws.RatioFiresIff` | pipeline/detection/rules.py:285-290 | a group with additions triggers a ratio rule if and only if nothing raises and the matches of both reach the threshold's share of the events of both |
| `DetectionLaws.RatioReportsIff` | pipeline/detection/rules.py:203-222 | the same for a key on a whole log, where a numerator condition that raises on any key's group silences the rule |
| `DetectionLaws.RatioCanStopReporting` | pipeline/detection/rules.py:285-290 | a ratio rule that reported a key no longer does after one event outside its numerator |
| `Alerts.AlertTable.PersistAlerts` | pipeline/detection/rules.py:389-430 | the upsert loop leaves the table of the specification, and its counts and notify list say which payloads created rows |
| `Alerts.ComputeAlerts` | pipeline/detection/rules.py:367-381 | a rule that raises is skipped and the others still report |
| `Alerts.RecentEvents` | pipeline/detection/rules.py:442-444 | exactly the events from the window start on are evaluated, oldest first, equal times in the order of the log |
| `Alerts.RunDetection` | pipeline/detection/rules.py:433-476 | exactly the alerts that created a row are notified |
| `Alerts.RowsSummarise` | pipeline/detection/rules.py:418-422 | one row per dedupe key ever persisted, holding the maximum hit count, the earliest first and the latest last time of all its payloads |
| `Alerts.RowShowsLatest` | pipeline/detection/rules.py:407-426 | the row keeps the payload that created it and shows the latest one, and keys that do not occur keep their rows |
| `Alerts.RunsAreOneBatch` | pipeline/detection/rules.py:389-430 | any history of batches leaves the table that one batch of all payloads would leave |
| `Alerts.HistoryOrderIrrelevant` | pipeline/detection/rules.py:407-422 | histories with the same payloads, in any order, split and repetition, store the same keys and the same three fields |
| `Alerts.ReplayChangesNothing` | pipeline/detection/rules.py:418-422 | persisting already stored payloads again changes no key and none of the three fields |
| `Alerts.CreatedOnce` | pipeline/detection/rules.py:407-411 | within a batch, duplicates included, a key creates at most one row, and exactly one if it was absent and occurs |
| `Alerts.NotifiedExactlyOnce` | pipeline/detection/rules.py:448-456 | over any history a key is notified exactly once if any payload carried it, otherwise never |
| `Alerts.HistoryEqualsLastRun` | pipeline/detection/rules.py:413-422 | for keys of match and threshold rules that do not raise, the hit count stored after any runs over growing logs is that of one run over the last log; for match rules so are the first and last times |
| `Alerts.DistinctHistoryIff` | pipeline/detection/rules.py:413-418 | for the key of a distinct rule and growing logs they agree if and only if on the last log the first window to reach the peak is not shorter than any run's evidence |
| `Alerts.DistinctHistoryDiffers` | pipeline/detection/rules.py:413-418 | a concrete history that stores 4 hits where one run over its last log stores 3 |
| `Writer.EventLogger.constructor` | honeypot/logger.py:41-76 | the initial state of the protocol |
| `Writer.EventLogger.Offer` | honeypot/logger.py:115-144 | emit and emit_session: enqueue, or count a drop when the queue is full |
| `Writer.EventLogger.BeginStop` | honeypot/logger.py:87 | stop clears the running flag |
| `Writer.EventLogger.OfferSentinel` | honeypot/logger.py:88-92 | stop posts the sentinel unless the queue is full |
| `Writer.EventLogger.TakeNext` | honeypot/logger.py:180-196 | one get: a time-out only on an empty queue, the sentinel, or an item that may fill the batch |
| `Writer.EventLogger.FlushBatch` | honeypot/logger.py:212-229 | a flush hands on the batch, empties it and adds its events to written |
| `Writer.EventLogger.TestRunning` | honeypot/logger.py:185-187 | after a time-out the writer exits if and only if the flag is cleared |
| `Writer.EventLogger.DrainNext` | honeypot/logger.py:200-210 | the final drain collects everything but sentinels until the queue is empty |
| `Writer.CountEvents` | honeypot/logger.py:213-229 | written grows by the number of event items only |
| `Writer.ReachableInvariant` | honeypot/logger.py:115-229 | in every interleaving: accepted items are, in order, the flushed batches, the current batch and the queue; calls are accepted or dropped; written counts flushed events; the queue keeps its bound and a batch its 100 items except in the final drain; the sentinel comes only after stop began |
| `Writer.StopFlushesEverything` | honeypot/logger.py:83-93 | with no emit after stop began, a writer that exited has flushed every accepted item if and only if it was not between an empty-queue time-out and its test of the flag with something queued |
| `Writer.StopCanLoseAnEvent` | honeypot/logger.py:180-187 | a concrete run in which an accepted event is never flushed |
| `Writer.ShutdownStep` | honeypot/logger.py:176-210 | the safe and the doomed condition are each kept by every later step |
| `Writer.WriterTerminates` | honeypot/logger.py:176-210 | after stop began and without emits the writer takes at most a computed number of further steps, and some step is enabled until it exits |
| `Storage.Database.WriteDb` | honeypot/logger.py:240-263 | sessions are upserted, then events inserted, and a failure rolls back the whole batch and is counted; `Storage.FlushSucceedsIff` says what the tables then hold |
| `Storage.FlushSucceedsIff` | honeypot/logger.py:243-260 | a batch is stored if and only if every closing finds its session's row or an opening before it, and every event a row or an opening anywhere in the batch; then exactly the sessions that had or got an opening have rows, and those that were or got closed are marked as ended |
| `Storage.WrittenIsStoredAndLost` | honeypot/logger.py:226-229 | the events counted as written are those stored plus those of the batches that were rolled back, and no stored event lacks its session's row |
| `Storage.SuccessStoresAll` | honeypot/logger.py:240-260 | while every flush succeeds, exactly the flushed events are stored, in order, and exactly the flushed openings have rows |
| `Storage.AllSucceedIff` | honeypot/logger.py:240-260 | every flush succeeds if and only if in each batch every item has an opening of its session in that batch or an earlier one |
| `LostBatches.RowExistsIff` | honeypot/logger.py:240-263 | after any flushes a session has a row if and only if a batch with its opening was stored |
| `LostBatches.BatchSucceedsIff` | honeypot/logger.py:240-263 | a batch is stored if and only if every event and every closing in it finds an opening in the batch, for a closing earlier in it, or in an earlier batch that was stored |
| `LostBatches.EventStoredIff` | honeypot/logger.py:259-263 | an event is stored if and only if a batch with it was stored |
| `ClosedSessions.RowClosedIff` | honeypot/logger.py:246-257 | after any flushes a session is marked as ended if and only if a batch with its closing was stored; no later opening and no lost batch changes that |
| `LostBatches.FlushKeepsReferences` | honeypot/logger.py:240-260 | if the batches with a session's openings are stored and its items arrive opening first, every item finds the session's row |
| `Storage.HandledOpeningsPrecedeIff` | honeypot/services/base.py:93-130 | in every reachable state each flushed item of a handled session, finished or not, has its opening in its batch or an earlier one if and only if the opening was accepted or nothing of the session was flushed |
| `LostBatches.HandledSessionResolvesIff` | honeypot/services/base.py:93-130 | every flushed item of a handled session finds the session's row if and only if nothing of it was flushed, or its opening was, in a batch that was stored or after which nothing of the session was flushed |
| `LostBatches.HandledRowIff` | honeypot/logger.py:240-263 | a handled session whose opening was flushed has a row if and only if the batch of its opening was stored |
| `ClosedSessions.HandledClosedIff` | honeypot/logger.py:246-257 | the row of a handled session says that it ended if and only if the batch of its closing was stored, and no row says so before |
| `LostBatches.HandledBatchSucceedsIff` | honeypot/logger.py:240-263 | a batch of handled sessions is stored if and only if each session with an item in it that needs a row was opened in it or in an earlier batch that was stored |
| `LostBatches.HandledBatchFailsIff` | honeypot/logger.py:240-263 | a batch is lost if and only if it ends a chain of failures: a session whose opening was not accepted, then sessions each opened in the batch that the one before brought down |
| `Storage.EveryFlushSucceedsIff` | honeypot/logger.py:212-263 | in every reachable state of handled connections every flush succeeded if and only if each session of which anything was flushed had its opening accepted, and then written counts exactly the stored events |
| `LostOpening.OpeningCanBeLost` | honeypot/logger.py:137-144 | a reachable state of handled connections within the default limits in which a full queue dropped one opening, and another session, whose opening was accepted, has no row and lost its event |
| `LostOpening.CatchUp` | honeypot/logger.py:176-198 | a writer that nobody stopped can always flush everything accepted |
| `Session.HoneypotSession.RecordEvent` | honeypot/session.py:97-155 | emits if and only if the event budget is not exhausted, and keeps the counters equal to the emitted events of each kind |
| `Session.HoneypotSession.CountBytes` | honeypot/session.py:157-163 | raises if and only if the received bytes exceed the budget |
| `Session.HoneypotSession.Open` | honeypot/session.py:59-72 | the session row is handed over before the connect event |
| `Session.HoneypotSession.Close` | honeypot/session.py:74-93 | the closing row reports exactly the events emitted, the disconnect event included |
| `Session.HoneypotSession.Converse` | honeypot/services/base.py:105-109 | a conversation records exactly what its turns ask for, and counts exactly the bytes they receive, up to the point where the byte budget is exceeded |
| `Session.HandleClient` | honeypot/services/base.py:93-130 | for every conversation and every way it ends the logger receives the opening row, the first events that were asked for as far as the event budget goes, and one closing row whose totals of events and of bytes are exact |
| `SessionLaws.BudgetCuts` | honeypot/session.py:157-163 | with the byte budget lasting for the first n turns, exactly their events are asked for, and the bytes counted are theirs and those of the turn that exceeds it |
| `SessionLaws.BudgetLasts` | honeypot/session.py:157-163 | there is exactly one such n |
| `SessionLaws.WantedMeaning` | honeypot/services/base.py:93-130 | a connection asks to record its opening, the events of those turns, an error if the handler failed within the budget, and its end |
| `SessionLaws.ReasonMeaning` | honeypot/services/base.py:105-127 | each closing reason is given exactly for its way of ending, limit exactly when the byte budget was exceeded |
| `SessionLaws.KindCount` | honeypot/session.py:97-155 | the counters of the closing row are the numbers of positions with an event of the kind |
| `Admission.SessionRegistry.CanAccept` | honeypot/session.py:181-190 | the decision, in the source's order of tests, and which rejection it counts |
| `Admission.SessionRegistry.Register` | honeypot/session.py:192-195 | the registered state |
| `Admission.SessionRegistry.Unregister` | honeypot/session.py:197-203 | the unregistered state, dropping the source's entry at zero |
| `Admission.SessionRegistry.HandleConnect` | honeypot/services/base.py:81-102 | check and registration as one step, as nothing is awaited between them |
| `Admission.SessionRegistry.HandleClose` | honeypot/services/base.py:128-130 | closing unregisters the session |
| `Admission.RunKeeps` | honeypot/session.py:181-203 | every run keeps the counts consistent and both limits, and accounts for every accepted connection |
| `Admission.EveryRunConsistent` | honeypot/session.py:170-203 | in every run each per-source count is the number of active sessions from it with no zero entry, both limits hold, no ignored source is admitted, and accepted equals active plus closed |
| `Admission.EveryAttemptCounted` | honeypot/session.py:181-195 | every attempt is counted once: accepted, rejected by one limit, or ignored |
| `Admission.ConnectOutcome` | honeypot/session.py:181-195 | in every reachable registry a connection is registered if and only if its source is not ignored, there is room, and fewer of its own sessions than the limit are active; a refusal moves exactly the counter of the limit that was reached |
| `Admission.CloseOutcome` | honeypot/session.py:197-203 | a close removes its session and moves no counter |
| `Decimal.ParsePrint` | honeypot/services/redis_service.py:127 | parsing inverts decimal printing |
| `DecimalLaws.StripIff` | honeypot/services/redis_service.py:119 | stripping removes exactly the blanks at both ends |
| `DecimalLaws.ParseIff` | honeypot/services/redis_service.py:127 | a text is read as a number if and only if, blanks at its ends aside, it is an optional sign and at most 4300 digits in groups joined by single underscores, and the number is the one the digits denote |
| `Resp.Reader.NextLine` | honeypot/services/base.py:155-184 | a line is what reaches to the first line feed or the end; exactly it is consumed and charged, and its text is its first bytes up to the limit without the line end |
| `Resp.ReadWrittenLine` | honeypot/services/base.py:155-184 | reading a written line returns its text and consumes exactly its bytes, or trips the budget |
| `Resp.Reader.NextCommand` | honeypot/services/redis_service.py:112-146 | the reading loop equals the recursive specification and leaves the stream and budget it says |
| `Resp.CommandRoundTrip` | honeypot/services/redis_service.py:112-146 | reading an encoded command returns its arguments, whatever bytes they hold, and consumes exactly its bytes, if and only if the budget suffices |
| `Resp.StreamRoundTrip` | tests/unit/test_redis_service.py:18-23 | reading concatenated encodings command by command returns exactly the commands and what follows them, if and only if the budget suffices |
| `Resp.BadHeaderRefused` | honeypot/services/redis_service.py:126-131 | an array header whose count is no number, not positive or over the cap yields no arguments, and only the header is consumed |
| `Resp.BadCountRefused` | honeypot/services/redis_service.py:130-131 | so does every printed count outside 1 to 1024, negative ones included |
| `Resp.BadBulkRefused` | honeypot/services/redis_service.py:135-143 | a line that is no usable string header ends the command with what came before it, and nothing after it is read |
| `Resp.OversizedBulkRefused` | honeypot/services/redis_service.py:142-143 | so does every printed length outside 0 to 65536, negative ones included |
| `Resp.CommandOnAnyInput` | honeypot/services/redis_service.py:112-146 | on arbitrary bytes a command consumes a non-empty prefix that is charged byte for byte, and an array yields at most 1024 strings of at most 65536 bytes |
| `Resp.InlineRoundTrip` | honeypot/services/redis_service.py:123-124 | an inline command yields its words and consumes exactly its line |
| `Resp.WordsConcat` | honeypot/services/redis_service.py:124 | on any bytes the words are what stands between blanks |
| `Resp.AnyInlineLine` | honeypot/services/redis_service.py:119-124 | every line that does not start with a star is a command of its words, a blank one an empty command |
| `SshWire.ParseKexinit` | honeypot/services/ssh_service.py:69-104 | the loop over ten fields equals the recursive specification; every read is inside the payload |
| `SshWire.KexinitIffWellFormed` | honeypot/services/ssh_service.py:75-104 | on arbitrary bytes parsing succeeds if and only if the type is 20 and ten complete strings fit after the cookie, and returns their names |
| `SshWire.NamesRoundTrip` | honeypot/services/ssh_service.py:102 | splitting a comma-joined list of proper names returns the list |
| `SshWire.NamesConcat` | honeypot/services/ssh_service.py:102 | on any bytes the names are what stands between commas, empty pieces left out |
| `SshWire.KexinitRoundTrip` | attacker/run.py:286-289 | parsing inverts encoding for any ten lists of non-empty comma-free names |
| `SshWire.FrameShape` | attacker/run.py:291-296 | a framed packet is a multiple of 8 bytes with 4 to 11 bytes of padding |
| `SshWire.FakeKexinit` | attacker/run.py:270-296 | the encoder's loop and padding adjustment build the framed payload |
| `SshWire.PacketReader.ReadExactly` | honeypot/services/ssh_service.py:245-249 | all n bytes or nothing |
| `SshWire.PacketReader.NextPacket` | honeypot/services/ssh_service.py:240-274 | the reading steps equal the specification, and a packet consumes exactly the bytes it is charged for |
| `SshWire.FrameRoundTrip` | honeypot/services/ssh_service.py:251-274 | unframing inverts framing for every payload within the cap and the budget; a larger packet is refused as oversized |
| `SshWire.PacketIsFramed` | honeypot/services/ssh_service.py:251-274 | on arbitrary bytes a returned payload lies between a length, a padding count and that padding |
| `SshWire.PacketIff` | honeypot/services/ssh_service.py:240-274 | reading succeeds if and only if the stream is a length from 8 to 35000, a padding count, a payload, that padding and the rest, within the budget |
| `SshWire.WhyNoPacket` | honeypot/services/ssh_service.py:245-270 | each of the other outcomes for its own defect |
| `SshWire.ServerSeesClientLists` | attacker/run.py:270-296 | the client's framed packet, read and parsed by the server, yields the client's lists |
| `SshWire.DisconnectRoundTrip` | honeypot/services/ssh_service.py:459-475 | the disconnect packet unframes to its payload |
| `Telnet.StripTelnetControl` | honeypot/services/telnet_service.py:55-78 | the loop equals the turn-by-turn specification |
| `Telnet.StripStream` | honeypot/services/telnet_service.py:55-78 | for every stream of well-formed units exactly the data bytes remain, whatever follows |
| `Telnet.StripInvertsEscape` | honeypot/services/telnet_service.py:55-78 | stripping inverts the doubling of 255 |
| `Telnet.NegotiationInvisible` | honeypot/services/telnet_service.py:65-77 | inserting a negotiation, subnegotiation or command between any two units changes nothing |
| `Telnet.EveryInputDecomposes` | honeypot/services/telnet_service.py:55-78 | every byte string is a stream of well-formed units and one unit cut short, and the result is the units' data |
| `Telnet.SubnegotiationConsumedIff` | honeypot/services/telnet_service.py:70-72 | a subnegotiation is consumed exactly if and only if its payload has no 255, 240 pair |
| `Telnet.DoubledIacEndsEarly` | honeypot/services/telnet_service.py:70-72 | a concrete subnegotiation, doubled as RFC 855 says, of which one byte passes as typed input |
| `Timeseries.IndexAgreement` | storage/queries.py:80-109 | for each dialect the SQL bucket index equals the Python one if and only if the time satisfies a simple condition, which without rounding every time since the epoch does |
| `Timeseries.IndicesCanDiffer` | storage/queries.py:80-109 | for each dialect a time that it and Python put into different buckets |
| `Timeseries.FloorProperties` | storage/queries.py:61-71 | the floor is an idempotent multiple of the width within one width of the time |
| `Timeseries.FloorMonotone` | storage/queries.py:61-71 | flooring is monotone |
| `Timeseries.TallyEvents` | storage/queries.py:379-387 | counting row by row yields the exact count of every cell and every series name once |
| `Timeseries.TallyRows` | storage/queries.py:367-378 | merging the grouped rows, whatever their order, yields the exact tally of the events in the database's buckets |
| `Timeseries.TalliesAgreeIff` | storage/queries.py:80-109 | the two paths' tallies agree cell by cell if and only if no event is put into a different bucket |
| `Charts.EventsTimeseries` | storage/queries.py:338-404 | either path draws the chart of the selected events as it buckets them |
| `Charts.ChartsAgreeIff` | storage/queries.py:338-404 | for every clock since the epoch both paths draw the same chart if and only if no event in a bucket up to the last one shown is put into a different bucket |
| `Charts.PointsGapFree` | storage/queries.py:389-402 | the points are consecutive multiples of the width from the first to the last bucket |
| `Charts.TotalsAddUp` | storage/queries.py:389-402 | the totals sum to the number of selected events if and only if no event lies after the last bucket |
| `Charts.PointLimit` | api/routes/stats.py:48-58 | the guard leaves at most 5001 points, plus the bucket boundaries crossed between the two clock readings |
| `ChartLaws.ChartMeaning` | storage/queries.py:389-404 | each point shows how many events fall into its bucket, in all and by series; the points are one width apart and reach from the bucket of the start to that of the present |
| `ChartLaws.PointMeaning` | storage/queries.py:379-402 | totals and counts of a point are the numbers of events whose time and series it stands for, null and empty values counted as unknown |
| `ChartLaws.SeriesMeaning` | storage/queries.py:391 | the series are exactly those that an event belongs to, once each and in ascending order |
| `Attackers.AggregateOrderIrrelevant` | storage/queries.py:663-681 | a source's aggregate does not depend on the order of its events |
| `Attackers.AggregateDescribes` | storage/queries.py:663-681 | the nine columns of a row: numbers of events, login attempts and commands by position, numbers of different sessions, user names and passwords, attained first and last times, and the services in ascending order |
| `Attackers.DescriptionIsUnique` | storage/queries.py:663-681 | these statements leave nothing about a row open |
| `AttackerLaws.FirstEventRow` | storage/queries.py:663-681 | all nine columns after a source was seen once |
| `AttackerLaws.OneMoreEvent` | storage/queries.py:663-681 | what one more event of the source changes, column by column |
| `AttackerLaws.OtherSourceChangesNothing` | storage/queries.py:657-660 | an event of another source leaves the row as it is |
| `Attackers.RebuildGroup` | storage/queries.py:655-704 | one pass over a stream ordered by source gives each source the fold over exactly its events, counts the sources, and leaves other rows alone; `Attackers.AggregateDescribes` says what the fold holds |
| `Attackers.RefreshChunk` | storage/queries.py:638-649 | a chunk's query and pass refresh exactly the chunk's sources that have events |
| `Attackers.RebuildSome` | storage/queries.py:623-652 | deduplication and chunks of 500 refresh exactly the requested sources with events, leave all other rows unchanged, return how many those are, and leave a row for each whose columns describe its events |
| `Attackers.RebuildAll` | storage/queries.py:620-652 | the full path refreshes every source with events, and leaves a row for each whose columns describe its events |
| `Attackers.IncrementalEqualsFull` | storage/queries.py:611-617 | an incremental refresh and a full rebuild agree on every refreshed source |
| `Scoring.BreakdownGrows` | pipeline/detection/scoring.py:56-124 | each of the seven components lies between 0 and its ceiling and never falls when events are added; the laws of `ScoreLaws` below give each in figures |
| `ScoreLaws.VolumeIs` | pipeline/detection/scoring.py:66 | 5 times the decimal logarithm of one more than the number of events, up to 15 |
| `ScoreLaws.PersistenceIs` | pipeline/detection/scoring.py:70-74 | 3·log1p of the hours between first and last event and 2·log1p of the number of sessions, up to 12 |
| `ScoreLaws.CredentialBreadthIs` | pipeline/detection/scoring.py:77-82 | 4·log1p of the number of user names and 2.5·log1p of the number of passwords, up to 18 |
| `ScoreLaws.ServiceBreadthIs` | pipeline/detection/scoring.py:85-86 | 0, 3, 6 and 8 for one, two, three and four or more protocols |
| `ScoreLaws.NewServiceStep` | pipeline/detection/scoring.py:85-86 | a protocol not seen before adds 3 up to 8, the first one nothing |
| `ScoreLaws.SeverityIs` | pipeline/detection/scoring.py:90-93 | 5 times the worst rank and 3·log1p of the number of high or critical events, up to 25 |
| `ScoreLaws.PostExploitationIs` | pipeline/detection/scoring.py:97-108 | 8 for each login, 10 for each fetch, 6 for each upload and 6·log1p of the commands, up to 30 |
| `ScoreLaws.PostExploitationStep` | pipeline/detection/scoring.py:97-108 | one more event adds exactly 8, 6 or 10 for what it is, until 30 is reached |
| `ScoreLaws.CommandStep` | pipeline/detection/scoring.py:97-108 | a command moves it through the logarithm only |
| `ScoreLaws.ThreatIntelIs` | pipeline/detection/scoring.py:112-114 | 0.4 of the greatest threat score of an event, up to 20 |
| `Scoring.ScoreGrows` | pipeline/detection/scoring.py:198-217 | at a fixed clock adding events never lowers the score, through all components, the decay and the rounding |
| `ScoreLaws.ScoreIs` | pipeline/detection/scoring.py:198-217 | the sum of the seven contributions, at most 100, times the exponential of the age over 30 days or 0.4, rounded to two digits |
| `ScoreLaws.Ageing` | pipeline/detection/scoring.py:211-217 | a fresh source keeps its full score, and after 30 days the exponent is -1 |
| `Scoring.ScoreOrderIrrelevant` | pipeline/detection/scoring.py:198-217 | the order of the events does not matter |
| `Scoring.ScoreBounds` | pipeline/detection/scoring.py:198-217 | the score lies in [0, 100], at least the rounded 40% of the clamped total and at most that total rounded |
| `Rounding.RoundMonotone` | pipeline/detection/scoring.py:217 | rounding half to even at two digits is monotone |
| `Rounding.RoundNearest` | pipeline/detection/scoring.py:217 | rounding gives exactly the nearest multiple, and the even one of two |
| `Entropy.EntropyNonNegative` | pipeline/analysis/static.py:220-231 | entropy is never negative, and 0 exactly when at most one distinct byte occurs |
| `Entropy.EntropyAtMostLog` | pipeline/analysis/static.py:220-231 | entropy is at most the logarithm of the number of distinct bytes, with equality exactly for equal counts |
| `Entropy.EntropyRange` | pipeline/analysis/static.py:220-231 | entropy lies in [0, 8], and is 8 exactly when all 256 bytes occur equally often |
| `AsnTable.PrefixTable.GetPrefixTable` | pipeline/enrichment/asn.py:124-160 | the table is sorted once, by descending prefix length, and reused |
| `AsnTable.PrefixTable.Lookup` | pipeline/enrichment/asn.py:163-190 | the scan returns the longest-prefix match, or nothing exactly when nothing matches |
| `AsnTable.MatchesIff` | pipeline/enrichment/asn.py:186-187 | an address matches if and only if it is of the version of the network and lies in its block of addresses |
| `AsnTable.LeadingBitsCompared` | pipeline/enrichment/asn.py:186-187 | exactly the leading bits of the prefix are compared, of 32 or 128 |
| `AsnTable.FirstMatchIsLongest` | pipeline/enrichment/asn.py:155-156 | the first match of the sorted table has the longest matching prefix, ties going to the earlier line of the file |
| `ElfScan.ScanTable` | pipeline/analysis/static.py:323-330 | the early-exit loop finds the wanted type if and only if some entry inside the buffer has it, and gives up exactly when none has and the table is cut off |
| `ElfScan.Linkage` | pipeline/analysis/static.py:305-330 | dynamic, static or unknown, each exactly characterised over the untrusted header table |
| `ElfScan.Stripped` | pipeline/analysis/static.py:333-354 | stripped, not stripped or unknown, each exactly characterised |
| `ElfLaws.FieldIff` | pipeline/analysis/static.py:312-318 | a field is the number whose bytes stand there, in either byte order |
| `ElfLaws.HeaderRoundTrip` | pipeline/analysis/static.py:312-318 | from a file that begins with an encoded 32-bit or 64-bit header, both tables are read as the header gives them |
| `ElfLaws.LinkageOfFile` | pipeline/analysis/static.py:305-330 | dynamic if and only if some entry inside the file has the type 3 of an interpreter in its first four bytes, static if and only if the whole table is inside and none has |
| `ElfLaws.StrippedOfFile` | pipeline/analysis/static.py:333-354 | not stripped if and only if some entry inside the file has the type 2 of a symbol table in its second four bytes, stripped if and only if the whole table is inside and none has |
| `Sequences.SortStable` | pipeline/detection/rules.py:236 | sorting keeps elements that the order does not separate in input order |
| `Sequences.StringLeMeaning` | storage/queries.py:391 | strings are in order when one is a prefix of the other or has the smaller character where they first differ |

## Left out

- Timeseries.IndexAgreement: quotients are exact where Python divides durations as floats.
- Session.HandleClient: the conversation is a list of recorded events and received byte counts, not the protocol replies; a cancelled or timed-out conversation is a shorter list.
- Writer.StopFlushesEverything: `stop` waits for the writer without its 10-second limit, and the logger is not started a second time.
- Writer.ReachableInvariant: a flush is one step of the writer.
- Storage.EveryFlushSucceedsIff: missing session rows and missing columns are the only failures of the database; event ids are distinct, the tables start empty, and the JSONL sink and enrichment are not modelled.
- Attackers.RebuildGroup: the top-10 lists, the geographic and ASN fields, score, classification and tags of a row are not modelled; rows of sources without events stay as they are.
- Campaigns.Cluster: the table of scores is the list of its entries in insertion order.
- Detection.EvaluateRule: the key of a condition is already split into field and operator; grouping by or counting a list-valued column, which Python refuses as unhashable, is not an error in the model, and numbers are reals, so that NaN does not occur.
- Alerts.DistinctHistoryIff: for a key that only one rule and one of the group keys in the last log produce; `DistinctHitCountFallsIff` needs no such condition.
- Alerts.RunDetection: the start of the recent window is a parameter; `HistoryEqualsLastRun` speaks of growing logs, `RowsSummarise` of any logs.
- Alerts.AlertTable.PersistAlerts: alert ids are not modelled; titles, descriptions and evidence are functions of the payload's rule, key, events and observed value, which the row keeps; rows are never deleted.
- AsnTable.PrefixTable.Lookup: private addresses, invalid addresses and the MaxMind reader are handled before the modelled scan; the table's file does not change after it was loaded.
- Resp.Reader.NextLine: time-outs and a line longer than the stream's own buffer are not modelled; text is bytes, so that replacement decoding, Unicode whitespace and Unicode digits do not occur.
- SshWire.ParseKexinit: names stay bytes and are not decoded; the ten fields are a list in the order of the source.
- Scoring.ScoreGrows: the base-10 logarithm, `log1p` and the exponential are parameters of which only monotonicity and exp(0) = 1 are assumed.
- ScoreLaws.PostExploitationStep: assumes besides that log1p(0) = 0.
- Entropy.EntropyRange: the base-2 logarithm is a parameter that is 1 at 2, turns products into sums and lies below its tangent at 1, strictly except at 1.
- Floating-point rounding: scores, cohesion, decay and entropy are exact reals; only the explicit `round` calls of the score and of the observed ratio are modelled.
- SQLAlchemy, transactions beyond one batch, and dialects beyond the bucket expression: tables are maps and sequences, and GROUP BY is what it means.
- asyncio, sockets and time-outs as such: the write path and the registry are modelled by their atomic steps, and the parsers on fully buffered streams with an explicit cursor or budget.
- Tag, persona and severity lookups, HASSH and payload hashes, GeoIP, feeds, webhooks, digests, exports, the API schemas and the dashboard: lookups, I/O or thin wrappers.
