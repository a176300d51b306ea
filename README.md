# use-street-fighter command engine, in Dafny

This project models the command-recognition core of the use-street-fighter
React hooks library and proves properties of it.

- Keyboard edges become input events. Each event holds one of nine
  directions, the punch and kick flags and a timestamp.
- Three matchers decide, event by event, whether a special move has just
  been completed:
  - a motion matcher: ordered directions, then a button, within a time
    window;
  - a charge matcher: hold a direction, then release with a button;
  - a button-sequence matcher: a chain of steps with a rolling timeout.
- A priority dispatcher runs the commands that have a callback over one
  shared input buffer and fires at most one of them per event.
- The Street Fighter command table supplies seven commands to the
  dispatcher, with priorities 1 to 7 and a 1P and a 2P variant of each.
- Four single-command hooks work on their own: the motion hook, the charge
  hook, the Shun Goku Satsu sequence hook and the Hadouken hook.

A callback becomes a returned flag, or the name of the command that fired.
`Date.now()` becomes the timestamp carried by the event.

Where the hooks keep state in refs, the model has a class:
- `KeyboardInput`, `CommandHook`, `ChargeHook`, `ShunGokuSatsu`, `Hadoken`
  and `UnifiedCommandDetector.Detector`;
- their handlers are methods that update fields;
- each handler is proved against a pure function of the old state;
- the properties are proved about those functions.

The three matchers of the unified detector are pure functions. In the
source they also work on a copy of the state.

Main results:
- The greedy subsequence scan of the motion matcher succeeds exactly when
  an order-preserving embedding exists (`Motion.GreedyIffEmbeds`).
- A charge fires only after a completed charge of at least `chargeTime`
  that ended within the window (`Charge.FireNeedsCompletedCharge`).
- A button sequence fires only on a full chain of its steps, each within
  the window of the one before (`Sequence.FireNeedsFullChain`). An
  uninterrupted entry fires on its last event (`Sequence.ConsecutiveStepsFire`).
- A charge held long enough, left, and released with the button within
  the window fires (`Charge.HeldChargeFires`).
- A matching command of any kind is preempted only by a command of higher
  or equal priority (`UnifiedCommandDetector.FirstMatchFires`,
  `StreetFightingCommand.MatchingCommandPreemptsLower`). Once a command
  fires the rest are not tried, so their charge states are kept
  (`UnifiedCommandDetector.FiredStopsTrying`).
- Only a command with a callback fires (`UnifiedCommandDetector.FiredHasCallback`).
- A 2P player who enters the mirror image of a 1P player's inputs fires the
  same command and leaves the same states behind
  (`StreetFightingCommand.MirroredPlayerFiresSameCommand`).

Module by file:
- `types.dfy`: `Types`
- `keyboard_input.dfy`: `KeyboardInput`
- `motion.dfy`: `Motion`
- `charge.dfy`: `Charge`
- `sequence.dfy`: `Sequence`
- `dispatcher.dfy`: `UnifiedCommandDetector`
- `command_hook.dfy`: `CommandHook`
- `charge_hook.dfy`: `ChargeHook`
- `shun_goku_satsu.dfy`: `ShunGokuSatsu`
- `hadoken.dfy`: `Hadoken`
- `command_table.dfy`: `StreetFightingCommand`

Three behaviours of the code are easy to misread, and the model keeps them
as written:
- A noisy event that misses its step restarts the sequence at step 1 only
  when step 0 is a punch step and punch is held. It does not restart
  whenever the event satisfies step 0.
- A key-up of a mapped key always emits an event, even when its flag was
  already clear. It is not limited to edges that flip a flag.
- A 1P trace fails to fire a 2P command only for particular traces, not in
  general (`StreetFightingCommand.Side2PIgnores1PHadouken`).

## Model

| member | source | states |
|---|---|---|
| KeyboardInput.GetDirection | src/useKeyboardInput.ts:25-37 | the vertical component is up if up is held, else down if down is held; the horizontal component is left if left is held, else right; neutral exactly when no direction flag is held; diagonal exactly when a vertical and a horizontal flag are held |
| KeyboardInput.Step | src/useKeyboardInput.ts:66-132 | a key-down emits exactly when it flips a flag (a newly pressed mapped key); a key-up emits exactly when the code is mapped; an unmapped code changes nothing and emits nothing; the event carries the direction and buttons of the updated flags |
| KeyboardInput.RepeatedKeyDownSilent | src/useKeyboardInput.ts:66-98 | a second key-down of the same code emits nothing and changes nothing |
| KeyboardInput.FirstKeyUpIsNeutral | src/useKeyboardInput.ts:44-63 | from the initial all-released state, a key-up of a mapped key emits a neutral event with no button |
| KeyboardInput.KeyboardInput.constructor | src/useKeyboardInput.ts:44-51 | all six flags start released |
| KeyboardInput.KeyboardInput.HandleKeyDown | src/useKeyboardInput.ts:66-98 | sets the flags the code maps to, and emits the new state's event exactly when some flag changed |
| KeyboardInput.KeyboardInput.HandleKeyUp | src/useKeyboardInput.ts:100-132 | clears the flags the code maps to, and emits the new state's event exactly when the code is mapped |
| Motion.RecentMembers | src/useUnifiedCommandDetector.ts:67-68 | the window filter keeps exactly the records with `now - t <= window` (inclusive) |
| Motion.RecentIsSubsequence | src/useUnifiedCommandDetector.ts:67-68 | the filter keeps the buffer's order |
| Motion.RecentAppend | src/useUnifiedCommandDetector.ts:67-68 | filtering a concatenation filters each part |
| Motion.RecentWiden | src/useUnifiedCommandDetector.ts:67-68 | filtering again with a window at least as wide changes nothing |
| Motion.MatchAfterFilter | src/useUnifiedCommandDetector.ts:59-87 | matching a buffer already filtered to window w1, with any window w2 >= w1, is matching the unfiltered buffer with w1 |
| Motion.GreedySound | src/useUnifiedCommandDetector.ts:76-86 | the prefix of the sequence that the greedy scan reaches occurs in order in the scanned directions |
| Motion.GreedyComplete | src/useUnifiedCommandDetector.ts:76-86 | if the first k steps occur in order, the greedy scan reaches at least k |
| Motion.GreedyIffEmbeds | src/useUnifiedCommandDetector.ts:76-86 | the scan reaches the end of the sequence exactly when the sequence is a subsequence of the directions |
| Motion.GreedyMonotone | src/useUnifiedCommandDetector.ts:76-86 | scanning a prefix of the input never gets further than scanning all of it |
| Motion.MotionMatchesMeaning | src/useUnifiedCommandDetector.ts:59-87 | a motion match is: a non-empty buffer, at least \|sequence\|+1 records in the window of the newest, the button on the newest, a non-empty sequence, and that sequence as a subsequence of the other windowed directions |
| Motion.MatchNeedsEachDirection | src/useUnifiedCommandDetector.ts:76-86 | every direction of a matched motion occurs in the buffer |
| Motion.MatchesMotionCommand | src/useUnifiedCommandDetector.ts:59-87 | the loop returns exactly the motion-match predicate whose meaning MotionMatchesMeaning states, with false on an empty buffer, on too few windowed records and on a missing button |
| Motion.GreedyMirror | src/useStreetFightingCommand.ts:117-125 | mirroring both the sequence and the directions leaves the greedy scan's progress unchanged |
| Motion.RecentMirror | src/useUnifiedCommandDetector.ts:67-68 | the window filter commutes with mirroring the records |
| Motion.WindowMatchesMirrored | src/useUnifiedCommandDetector.ts:70-86 | the windowed test holds for mirrored records and mirrored sequence exactly when it holds for the originals |
| Motion.MotionMatchesMirrored | src/useUnifiedCommandDetector.ts:250-258 | a 2P motion that mirrors a 1P motion matches the mirrored buffer exactly when the 1P motion matches the buffer |
| Charge.ChargeTransition | src/useUnifiedCommandDetector.ts:108-122 | inside the charge set an ongoing charge keeps its start and a new one starts now; outside it the charge ends, and the completion time becomes now exactly when a charge was held at least `chargeTime`, else it is unchanged |
| Charge.CheckChargeCommand | src/useUnifiedCommandDetector.ts:95-137 | matches exactly when, after the transition, the event is the release direction with the button and a completion lies at most `inputWindow` back; a match clears the completion, a miss keeps it |
| Charge.ExplainedStep | src/useUnifiedCommandDetector.ts:108-122 | each transition keeps the charge state explained by the events so far: an ongoing charge started at an event from which the charge set was held, and a recorded completion ends a completed charge |
| Charge.RunExplained | src/useUnifiedCommandDetector.ts:95-137 | after any run from no charge, the state is explained by the run |
| Charge.FireNeedsCompletedCharge | src/useUnifiedCommandDetector.ts:95-137 | a firing last event is the release direction with the button, and the run holds a charge of at least `chargeTime` that ended at most `inputWindow` before it; a short charge never fires |
| Charge.RunAppend | src/useUnifiedCommandDetector.ts:95-137 | a run over two lists of events is the run over the second from the state the first leaves |
| Charge.RunHolding | src/useUnifiedCommandDetector.ts:110-136 | holding directions of the charge set, with no completion recorded, keeps an ongoing charge's start or starts one at the first event, and records no completion |
| Charge.RunAway | src/useUnifiedCommandDetector.ts:114-136 | with no charge ongoing, events outside the charge set that are not the release direction with the button change nothing |
| Charge.HeldChargeFires | src/useUnifiedCommandDetector.ts:95-137 | the converse of FireNeedsCompletedCharge: from no charge, a hold that leaves the set at least `chargeTime` after it began, then only events outside the set that are not a release with the button, then the release direction with the button within `inputWindow` of leaving, fires on the release (also when the release itself leaves the set) |
| Charge.RunSnoc | src/useUnifiedCommandDetector.ts:95-137 | a run over one more event is the previous run's state stepped once |
| Charge.CheckChargeMirrored | src/useUnifiedCommandDetector.ts:259-285 | with a charge set that mirrors another, the mirrored event steps the state exactly as the original event does with the original set and release direction |
| Sequence.CheckButtonSequence | src/useUnifiedCommandDetector.ts:145-198 | the index resets to 0 after a timeout; a matching step advances with the time of now, completing on the last step (state back to (0,0) and a match); a non-idle miss restarts at (1, now) with punch on a punch-first sequence, else (0,0); an idle miss changes nothing; the index stays inside the sequence |
| Sequence.RestartOnlyMidSequence | src/useUnifiedCommandDetector.ts:187-195 | the restart to step 1 after a miss happens only from a later step of a sequence with at least two steps |
| Sequence.Run | src/useUnifiedCommandDetector.ts:145-198 | from an index inside the sequence, any run of events keeps the index inside it |
| Sequence.RunSnoc | src/useUnifiedCommandDetector.ts:145-198 | a run over one more event is the previous run's state stepped once |
| Sequence.RunThrough | src/useUnifiedCommandDetector.ts:145-198 | a run ends in the last of a list of states when each follows from the one before by one step |
| Sequence.ChainExtend | src/useUnifiedCommandDetector.ts:178-186 | a chain of entered steps grows by an event that matches the next step within the window |
| Sequence.ChainWiden | src/useUnifiedCommandDetector.ts:145-198 | a chain stays a chain when later events are added |
| Sequence.ExplainedStep | src/useUnifiedCommandDetector.ts:155-195 | each step keeps a non-zero index backed by a chain of that many entered steps ending at the recorded time; a completing step ends a full-length chain at the new event |
| Sequence.RunExplained | src/useUnifiedCommandDetector.ts:145-198 | after any run from the start with positive times, the state is explained by the run |
| Sequence.FireNeedsFullChain | src/useUnifiedCommandDetector.ts:145-198 | a completing last event ends a chain of every step in order, each within `inputWindow` of the previous |
| Sequence.ConsecutiveStepsFire | src/useUnifiedCommandDetector.ts:162-186 | events entering the remaining steps one after another, each within the window, complete the sequence on the last one |
| Sequence.CheckButtonSequenceMirrored | src/useUnifiedCommandDetector.ts:286-303 | the mirrored event against the mirrored steps gives exactly the original result and state |
| UnifiedCommandDetector.WithCallback | src/useUnifiedCommandDetector.ts:222-223 | keeps exactly the commands that have a callback |
| UnifiedCommandDetector.WithCallbackOnlyLast | src/useUnifiedCommandDetector.ts:222-223 | when only the last command has a callback, it alone is kept |
| UnifiedCommandDetector.Insert | src/useUnifiedCommandDetector.ts:224 | insertion adds exactly the one command |
| UnifiedCommandDetector.InsertSorted | src/useUnifiedCommandDetector.ts:224 | insertion into a priority-sorted list keeps it sorted |
| UnifiedCommandDetector.SortByPriority | src/useUnifiedCommandDetector.ts:224 | the sort gives a list sorted by ascending priority that is a permutation of its input |
| UnifiedCommandDetector.SortIsStable | src/useUnifiedCommandDetector.ts:224 | commands of equal priority keep their relative order (the sort is stable) |
| UnifiedCommandDetector.SortedCommands | src/useUnifiedCommandDetector.ts:221-224 | the tried list is sorted by priority and holds exactly the commands that have a callback |
| UnifiedCommandDetector.SortedListTriedInOrder | src/useUnifiedCommandDetector.ts:221-224 | a list already in priority order is tried in its own order, less the commands without a callback |
| UnifiedCommandDetector.TryCommand | src/useUnifiedCommandDetector.ts:248-304 | trying one command keeps every stored sequence state inside its step list |
| UnifiedCommandDetector.TryCommandFrame | src/useUnifiedCommandDetector.ts:248-304 | trying a command writes only the state under its own name (a charge command its charge state, a sequence command its sequence state); a motion command stores nothing and matches exactly when its motion matches the buffer |
| UnifiedCommandDetector.EvaluateFrom | src/useUnifiedCommandDetector.ts:244-314 | with no match the buffer is unchanged; a match empties the buffer and all sequence states, fires a command's name, and keeps every charge state; a name no command carries keeps its states |
| UnifiedCommandDetector.MatchingMotionFiresOrIsPreempted | src/useUnifiedCommandDetector.ts:244-313 | when a motion command further on matches, some command fires, and it is tried no later than the matching one |
| UnifiedCommandDetector.EvaluateStep | src/useUnifiedCommandDetector.ts:244-313 | ahead of a matching motion command, a match fires the command tried, and otherwise evaluation goes on at the next command with the stored states |
| UnifiedCommandDetector.MatchingMotionPreemptsLower | src/useUnifiedCommandDetector.ts:221-313 | when a motion command with a callback matches, a command with a callback of the same or higher priority fires |
| UnifiedCommandDetector.MatchingMotionPreemptsLowerAt | src/useUnifiedCommandDetector.ts:244-313 | on a priority-sorted list, the command that fires sits at or before the matching motion command and has no larger priority number |
| UnifiedCommandDetector.FiredHasCallback | src/useUnifiedCommandDetector.ts:222-223 | whatever fires is a command with a callback, by its own name |
| UnifiedCommandDetector.TryCommandLocal | src/useUnifiedCommandDetector.ts:248-304 | whether a command matches depends only on the charge and sequence states stored under its own name |
| UnifiedCommandDetector.FirstMatchStep | src/useUnifiedCommandDetector.ts:244-313 | ahead of a command of any kind that matches against states left alone under its name, a match fires the command tried, and otherwise evaluation goes on at the next command with those states still untouched |
| UnifiedCommandDetector.FirstMatchFiresFrom | src/useUnifiedCommandDetector.ts:244-313 | when a command of any kind further on matches against the states it will find, some command fires, and it is tried no later than the matching one |
| UnifiedCommandDetector.FirstMatchFires | src/useUnifiedCommandDetector.ts:244-313 | when names identify commands and any command (motion, charge or sequence) matches against the states the event finds, some command fires, tried no later than it |
| UnifiedCommandDetector.FiredStopsTrying | src/useUnifiedCommandDetector.ts:244-314 | once a command fires the rest are not tried: the fired command is one of the list, and a name carried by no command up to it keeps its charge state |
| UnifiedCommandDetector.SingleMotionCommand | src/useUnifiedCommandDetector.ts:250-258 | a lone motion command fires exactly when its motion matches the buffer |
| UnifiedCommandDetector.SequencesFitMirrored | src/useUnifiedCommandDetector.ts:286-303 | mirrored command lists have equally long step lists, so stored sequence states fit both |
| UnifiedCommandDetector.TryMirrored | src/useUnifiedCommandDetector.ts:248-304 | a mirrored command on side 2P, fed mirrored records, gives exactly the result of the original on side 1P |
| UnifiedCommandDetector.MirroredStep | src/useUnifiedCommandDetector.ts:244-313 | at each position both evaluations match together or go on together with the same states |
| UnifiedCommandDetector.EvaluateMirrored | src/useUnifiedCommandDetector.ts:244-314 | a 2P evaluation of mirrored commands on mirrored inputs fires the same name and leaves the same states, with the mirrored buffer |
| UnifiedCommandDetector.PairwiseCons | src/useUnifiedCommandDetector.ts:221-224 | prefixing related commands keeps two lists related |
| UnifiedCommandDetector.WithCallbackPairwise | src/useUnifiedCommandDetector.ts:222-223 | filtering keeps two related lists related |
| UnifiedCommandDetector.InsertPairwise | src/useUnifiedCommandDetector.ts:224 | inserting related commands keeps related lists related |
| UnifiedCommandDetector.SortPairwise | src/useUnifiedCommandDetector.ts:224 | sorting keeps related lists related |
| UnifiedCommandDetector.SortedCommandsPairwise | src/useUnifiedCommandDetector.ts:221-224 | two related command lists, with equal priorities and callbacks, are tried in step |
| UnifiedCommandDetector.Detector.constructor | src/useUnifiedCommandDetector.ts:205-224 | side 1P by default, an empty buffer and no stored states; the tried list is the commands with a callback sorted by priority |
| UnifiedCommandDetector.Detector.HandleInput | src/useUnifiedCommandDetector.ts:226-317 | pushes the event, keeps the records at most 2000 older than it, and ends with the outcome EvaluateFrom gives: the name fired, the buffer and both state maps |
| UnifiedCommandDetector.Detector.TryAt | src/useUnifiedCommandDetector.ts:248-304 | one loop iteration: matched and the stored states are as TryCommand says; the buffer is untouched |
| CommandHook.SequenceFor | src/useCommand.ts:69 | side 1P uses `sequence1P`, any other side `sequence2P` |
| CommandHook.Prune | src/useCommand.ts:84-87 | keeps exactly the records with `t > now - inputWindow` (strict) |
| CommandHook.PruneKeepsOrder | src/useCommand.ts:84-87 | pruning keeps the buffer's order |
| CommandHook.PruneKeepsNewest | src/useCommand.ts:82-87 | with a positive window the event just pushed survives, as the newest record |
| CommandHook.StrictWindowInEffect | src/useCommand.ts:82-95 | the strict prune before the inclusive matcher makes the window strict: the hook matches as the matcher with `inputWindow - 1` |
| CommandHook.CommandHook.constructor | src/useCommand.ts:58-69 | defaults side 1P, window 500, enabled; the side's sequence; empty buffer |
| CommandHook.CommandHook.HandleInput | src/useCommand.ts:20-102 | disabled: nothing changes, nothing fires; enabled: push, prune strictly, fire exactly on a motion match (its matchesSequence is the unified matcher's procedure, run by Motion.MatchesMotionCommand); a match empties the buffer, a miss keeps the pruned buffer |
| ChargeHook.ChargeHook.constructor | src/useChargeCommand.ts:25-41 | defaults side 1P, charge time 800, window 500, enabled; the side's charge and release directions; no charge |
| ChargeHook.ChargeHook.HandleInput | src/useChargeCommand.ts:43-92 | disabled: nothing changes, nothing fires; enabled: the step is the unified charge matcher's with the one-element charge set, so it inherits FireNeedsCompletedCharge |
| ShunGokuSatsu.Forward | src/useShunGokuSatsu.ts:57 | forward is right for 1P and left for 2P |
| ShunGokuSatsu.Steps | src/useShunGokuSatsu.ts:59-69 | the five steps punch, punch, forward, kick, punch |
| ShunGokuSatsu.ShunGokuSatsu.constructor | src/useShunGokuSatsu.ts:45-69 | defaults side 1P, window 1000, enabled; the side's steps; index 0 and no advance |
| ShunGokuSatsu.ShunGokuSatsu.HandleInput | src/useShunGokuSatsu.ts:71-131 | disabled: nothing changes, nothing fires; enabled: the step is the unified sequence matcher's on the five steps, so the index stays below 5 (the inner branch at line 117 is unreachable) |
| ShunGokuSatsu.FullCommandFires | src/useShunGokuSatsu.ts:71-131 | the press-and-release trace of P, P, forward, K, P, each press within the window of the one before, fires on its last event, on either side |
| ShunGokuSatsu.PunchPunchAloneDoesNotFire | src/useShunGokuSatsu.ts:71-131 | P, P alone never fires and leaves the sequence at its third step |
| ShunGokuSatsu.PauseAfterPunchPunchDoesNotFire | src/useShunGokuSatsu.ts:83-128 | P, P, a pause longer than the window, then forward, K, P does not fire; the last punch only restarts the sequence |
| Hadoken.Lift | src/useHadoken.ts:5-9 | a Hadouken record stands for a full record with kick not held, element by element |
| Hadoken.Recent | src/useHadoken.ts:24 | the filter on Hadouken records agrees with the filter on full records |
| Hadoken.WindowMatchesOnRecords | src/useHadoken.ts:26-39 | the windowed test on records reads as the count, the punch on the newest record and the greedy scan |
| Hadoken.MatchesSequence | src/useHadoken.ts:16-42 | the hook's matcher is the unified motion matcher with the button fixed to punch |
| Hadoken.ScanInOrder | src/useHadoken.ts:31-41 | the loop finds the sequence exactly when the greedy scan reaches its end and it is not empty |
| Hadoken.StripKickSnoc | src/useHadoken.ts:116-119 | dropping the kick flag distributes over appending an event |
| Hadoken.RecentWithoutKick | src/useHadoken.ts:24 | filtering commutes with dropping the kick flag |
| Hadoken.PunchMatchIgnoresKick | src/useHadoken.ts:16-42 | a punch motion matches whether or not the kick flags are dropped |
| Hadoken.PunchWindowIgnoresKick | src/useHadoken.ts:26-39 | the windowed punch test ignores the kick flags |
| Hadoken.Hadoken.constructor | src/useHadoken.ts:103-113 | defaults side 1P and window 500; down, down-right, right for 1P and down, down-left, left for 2P; empty buffer |
| Hadoken.Hadoken.HandleInput | src/useHadoken.ts:115-132 | pushes the event without kick, prunes strictly and fires exactly on a punch motion match; a match empties the buffer |
| StreetFightingCommand.Commands | src/useStreetFightingCommand.ts:97-201 | seven commands with priorities 1 to 7 in table order |
| StreetFightingCommand.SortedTable | src/useStreetFightingCommand.ts:97-206 | the list the detector tries always meets its requirement |
| StreetFightingCommand.NewDetector | src/useStreetFightingCommand.ts:74-206 | the detector gets the side (1P by default) and the table with window 500 and charge time 800 by default, and starts empty and valid |
| StreetFightingCommand.TableWellFormed | src/useStreetFightingCommand.ts:89-109 | the one button sequence has steps, so every sequence lookup stays in range |
| StreetFightingCommand.NamesDistinct | src/useStreetFightingCommand.ts:97-201 | the seven names are pairwise distinct |
| StreetFightingCommand.TriedInTableOrder | src/useStreetFightingCommand.ts:12-19 | the commands with a callback are tried in table order |
| StreetFightingCommand.ShunGokuSatsuMirrored | src/useStreetFightingCommand.ts:86-95 | the 2P steps are the 1P steps mirrored |
| StreetFightingCommand.ShinkuHadoukenMirrored | src/useStreetFightingCommand.ts:117-125 | the 2P motion is the 1P motion mirrored |
| StreetFightingCommand.SonicBoomMirrored | src/useStreetFightingCommand.ts:137-140 | the 2P charge set and release direction mirror the 1P ones |
| StreetFightingCommand.SpinningBirdKickMirrored | src/useStreetFightingCommand.ts:153-156 | the charge set is closed under mirroring and up is its own mirror, so both sides agree |
| StreetFightingCommand.ShoryukenMirrored | src/useStreetFightingCommand.ts:169-170 | the 2P motion is the 1P motion mirrored |
| StreetFightingCommand.TatsumakiMirrored | src/useStreetFightingCommand.ts:182-183 | the 2P motion is the 1P motion mirrored |
| StreetFightingCommand.HadoukenMirrored | src/useStreetFightingCommand.ts:195-196 | the 2P motion is the 1P motion mirrored |
| StreetFightingCommand.TableMirrored | src/useStreetFightingCommand.ts:97-201 | every 2P command mirrors its 1P counterpart |
| StreetFightingCommand.MirroredPlayerFiresSameCommand | src/useStreetFightingCommand.ts:86-201 | a 2P player entering the mirror image of a 1P player's inputs fires the same command and leaves the same states |
| StreetFightingCommand.ShinkuHadoukenPreemptsHadouken | src/useStreetFightingCommand.ts:110-128 | with its callback and its motion in the buffer, Shinku Hadouken fires unless Shun Goku Satsu does; the Hadouken inside its motion never fires instead |
| StreetFightingCommand.TableHead | src/useStreetFightingCommand.ts:97-129 | Shun Goku Satsu heads the table and Shinku Hadouken follows |
| StreetFightingCommand.TopTwoPreemptAll | src/useUnifiedCommandDetector.ts:244-313 | when the second command of a table numbered 1, 2, 3, ... is a matching motion with a callback, the first or the second fires |
| StreetFightingCommand.FirstTwoByPriority | src/useStreetFightingCommand.ts:97-201 | in a table numbered 1, 2, 3, ..., a priority of at most 2 is one of the first two |
| StreetFightingCommand.TableNamesIdentify | src/useStreetFightingCommand.ts:97-201 | in the list the detector tries, a name identifies one command |
| StreetFightingCommand.MatchingCommandPreemptsLower | src/useUnifiedCommandDetector.ts:221-313 | when any command of the tried table matches against the states the event finds (a completed Sonic Boom charge as much as a motion), some command fires, no later in the table and of the same or higher priority |
| StreetFightingCommand.OnlyHadoukenTable | src/useStreetFightingCommand.ts:188-201 | with only the Hadouken callback, the detector tries Hadouken alone |
| StreetFightingCommand.OnlyHadoukenTried | src/useStreetFightingCommand.ts:188-201 | with only the Hadouken callback, Hadouken fires exactly when the side's Hadouken motion matches, and nothing else fires (a Tatsumaki motion fires nothing) |
| StreetFightingCommand.Side2PIgnores1PHadouken | src/useStreetFightingCommand.ts:193-196 | on side 2P with only the Hadouken callback, a buffer that never holds left (as the 1P Hadouken trace) fires nothing |

## Left out

- React plumbing is not modelled. This covers `useRef`, `useCallback`, `useMemo`, `useEffect` and the listener subscription. Ref state is class fields; handlers are methods.
- `Date.now()` is not modelled. The timestamp is a parameter of every event. The model needs no ordering of timestamps, except that the sequence soundness lemmas assume positive times, since a time of 0 means "no advance".
- Callbacks and `callbackRefs` are not modelled. A callback is a flag in the command definition, and firing returns the name.
  - The `continue` for a missing callback at src/useUnifiedCommandDetector.ts:245-246 is unreachable: the tried list holds only commands with a callback, and each of them has registered one.
  - Callbacks that change between renders are not modelled.
- The default key map and key aliasing are not modelled. The key map is a parameter from code to flag, and src/types.ts defines no key map.
- The wrapper hooks that only supply configuration are not modelled: useTatsumaki, useShoryuken, useSonicBoom, useShinkuHadouken and useStreetFighter. useStreetFighter composes independent hooks without arbitration.
- useSpinningBirdKick is not modelled. It passes `chargeDirections1P`/`chargeDirections2P`, but useChargeCommand reads `chargeDirection1P`/`chargeDirection2P`. The single-command charge hook here takes one charge direction per side, as useChargeCommand reads.
- The unused `backDirection` at src/useStreetFightingCommand.ts:87 is not modelled.
- UnifiedCommandDetector.EvaluateFrom and its callers require `WellFormed`. Every button-sequence command must have a step on the active side, and commands sharing a name must have equally many steps.
  - The source reads `sequence[sequenceIndex]` and `sequence[0]` without a guard, so an empty step list, or a shared name whose stored index exceeds the other list, would fail at run time.
  - The requirement is slightly stronger than "never fails": it also constrains names that are never evaluated together.
  - The Street Fighter table meets it (`StreetFightingCommand.TableWellFormed`).
- Sequence.CheckButtonSequence requires the index to lie inside the sequence, for the same unguarded read. Every state the model reaches keeps it there (`Sequence.Run`).
- Numbers are unbounded integers. JavaScript's floating-point timestamps are not modelled, and neither is `sort` on NaN priorities.
- The test traces of the single-command hooks are not replayed event by event. The one that says a punch 150 after a down with window 100 does not fire follows from the count condition in `Motion.MotionMatchesMeaning`: only one record lies in the window.
- Hadoken.Hadoken has no `enabled` option, because useHadoken has none.
- UnifiedCommandDetector.FirstMatchFires requires that a name identify one command. When two different commands share a name, the earlier one can change the state the later one would have matched on. `FirstMatchFiresFrom` states the general case: no command tried before the matching one may carry its name.
- Charge.HeldChargeFires covers one shape of firing trace: hold, leave, events that neither charge nor release, then the release. A trace that starts a second, shorter charge between leaving and releasing also fires, but no lemma here states it.
