# ao_dashboard session tracker, modelled in Dafny

The ao_dashboard backend tails the chat, system and loot logs of the game
and keeps a session record. The record holds:

- XP and credits;
- the current zone;
- the last 50 chat lines and the last 20 loot items;
- the biggest and latest crit;
- a combat window with a damage history pruned to the last 4 seconds;
- burst and session DPS readings;
- the DPS of finished encounters.

This project models the core of that backend: the line classifier of
`backend/tracker.go` and the locked state methods of `backend/state.go`.
It proves what each of them does to the record.

The model has three layers:

- **Pure functions on values** (`Text`, `Classify`, `Session`, `Dispatch`):
  - Go's string primitives: `strings.Index`, `Trim`, `TrimSpace`.
  - The regular expressions, written out as matchers: `<[^>]+>`, `\s+`,
    `\d+`, the chat metadata pattern and the loot link pattern.
  - The session record as a datatype `Session.View`.
  - One function per state method.
  - The effect of a chat, system or loot line on the record.
  - The zone the tracker starts in.
- **The state object** (`State.TrackerState`): a class whose fields the
  methods update in place.
  - The damage history is an array with a count of slots in use. The hit
    method appends to it, growing it when full, and then compacts it in
    place, as the Go slice code does.
  - Every method ensures that its new `View()` is the session function
    applied to the old one.
- **The tracker** (`Tracker`): the three line handlers, the last-lines
  reader and the initial zone scan. They are imperative methods proved
  against the `Dispatch` functions.

The end-of-combat step runs in a goroutine in the source. Here it is the
method `State.TrackerState.Finalize(remainsTime)`, taken as atomic.
`ProcessChatLine` returns the time at which it would schedule that step.

Decisions where the source is incomplete or inconsistent:

- The finalize code uses `LastHitTime`, `CombatDPSHistory` and `maxCombats`
  (tracker.go:133-148), but `state.go` declares none of them.
  - The model adds `lastHitTime` and `combatDpsHistory`, with a cap of 30.
  - `UpdateCrit` records `lastHitTime := now`. The source never assigns the
    field, and without the assignment the "no hit since the trigger" check
    would always pass.
- Time is one integer unit throughout: the unit of `now` in `state.go`
  (seconds, which the constants 60 and 4 are counted in). The trigger time
  passed to `Finalize` is taken in that same unit.
- The encounter DPS keeps the code's literal `/ 1000.0`: the window's damage
  divided by the clamped duration over 1000 (`Session.EncounterDpsScaled`).
  The code names the duration `durMs` and divides it by 1000 to get seconds
  (tracker.go:135-139), so it reads the clock as milliseconds. With the
  clock in seconds that `state.go` uses, the value is 1000 times the damage
  per second of the window. The model keeps the code's arithmetic.
- The session DPS follows `calculateSessionDPSLocked` (state.go:218-227):
  the window's damage over the time since the window opened. It is not a
  mean over the encounter history, which no code computes.

## Model

| member | source | states |
|---|---|---|
| `Text.IndexFrom` | ao_dashboard/backend/tracker.go:84 | the result is -1 or a position at or after `from` where `sub` occurs, and no earlier position from `from` on has an occurrence (the first match of `strings.Index`) |
| `Text.TrimLeftRun` | ao_dashboard/backend/tracker.go:87 | everything `TrimLeft` drops is in the cut set, and what it keeps does not start with a cut character |
| `Text.TrimRightRun` | ao_dashboard/backend/tracker.go:87 | everything `TrimRight` drops is in the cut set, and what it keeps does not end with a cut character |
| `Text.TrimEnds` | ao_dashboard/backend/tracker.go:87 | the result of `strings.Trim` neither starts nor ends with a cut character |
| `Text.TrimPadded` | ao_dashboard/backend/tracker.go:87 | a word that neither starts nor ends with a cut character, padded on both sides with cut characters, trims to exactly that word |
| `Classify.ParseZoneShape` | ao_dashboard/backend/tracker.go:83-89 | a line without "Entering" names no zone, and a zone never starts or ends with a quote, space or period |
| `Classify.ParseZoneOfEntering` | ao_dashboard/backend/tracker.go:83-89 | a line whose first "Entering" is followed by a name padded with quotes, spaces and periods yields exactly that name |
| `Classify.SplitLine` | ao_dashboard/backend/tracker.go:113-121 | with no `]` the body is the whole line and there is no metadata; otherwise the metadata is the prefix up to and including the first `]`, and the body is the trimmed rest |
| `Classify.SplitLineRoundTrip` | ao_dashboard/backend/tracker.go:115-117 | a prefix ending in its only `]`, a space and a trimmed body split back into that prefix and that body |
| `Classify.DecimalRoundTrip` | ao_dashboard/backend/tracker.go:209 | reading the decimal digits of `n` gives back `n` |
| `Classify.NoDigitNoNumber` | ao_dashboard/backend/tracker.go:206-213 | a string without a digit yields 0 |
| `Classify.FirstNumberIsFirstRun` | ao_dashboard/backend/tracker.go:206-213 | the number is the value of the maximal digit run that starts at the first digit |
| `Classify.PositiveNumberHasDigit` | ao_dashboard/backend/tracker.go:208-212 | a positive result implies that the string has a digit |
| `Classify.ExtractWrittenNumber` | ao_dashboard/backend/tracker.go:206-213 | a number written after digit-free text, and not followed by a digit, is read back exactly |
| `Classify.StripTags` | ao_dashboard/backend/tracker.go:217-218 | the result has no match of `<[^>]+>` left, adds no character, and keeps a leading character that is not `<` |
| `Classify.CollapseSpace` | ao_dashboard/backend/tracker.go:219-220 | every `\s` character left is a single space with no `\s` next to it, no character is added except spaces, and the first character is kept or becomes a space |
| `Classify.CollapseKeepsNoTag` | ao_dashboard/backend/tracker.go:218-220 | collapsing whitespace in tag-free text leaves it tag-free |
| `Classify.TrimSpaceKeeps` | ao_dashboard/backend/tracker.go:220 | `strings.TrimSpace` keeps a collapsed, tag-free text collapsed and tag-free |
| `Classify.CleanHTML` | ao_dashboard/backend/tracker.go:216-221 | the cleaned text has no whitespace at either end, every `\s` character in it is a single space, and no tag is left in it |
| `Classify.StripTagsOfNoTag` | ao_dashboard/backend/tracker.go:217-218 | text without tags is left unchanged by tag stripping |
| `Classify.CollapseOfCollapsed` | ao_dashboard/backend/tracker.go:219-220 | collapsed text is left unchanged by whitespace collapsing |
| `Classify.CleanHTMLIdempotent` | ao_dashboard/backend/tracker.go:216-221 | cleaning twice is cleaning once |
| `Classify.StripTagsOfPlain` | ao_dashboard/backend/tracker.go:216-217 | text without `<` comes through tag stripping unchanged, followed by the stripping of what comes after it |
| `Classify.StripTagsOfTag` | ao_dashboard/backend/tracker.go:216-217 | a tag `<t>` (non-empty, no `>` inside) after text without `<` is removed whole, and stripping goes on right after its `>` |
| `Classify.StripTagsOfTagged` | ao_dashboard/backend/tracker.go:216-217 | text without `<` between an opening and a closing tag is exactly what stripping leaves |
| `Classify.CollapseOfWord` | ao_dashboard/backend/tracker.go:218-219 | characters other than `\s` come through collapsing unchanged, followed by the collapsing of what comes after them |
| `Classify.CollapseOfRun` | ao_dashboard/backend/tracker.go:218-219 | a whole maximal run of `\s` characters becomes exactly one space |
| `Classify.CleanHTMLOfTagged` | ao_dashboard/backend/tracker.go:215-219 | collapsed, trimmed text without `<` wrapped in a pair of tags cleans to exactly that text (`<font>Heavy Armor</font>` gives "Heavy Armor") |
| `Classify.RunEndBefore` | ao_dashboard/backend/tracker.go:107 | a `[^c]*` run from `i` holds no `c` and stops at a `c` or at the end |
| `Classify.Step` | ao_dashboard/backend/tracker.go:107-108 | when a piece of a pattern matches at `i`, the text it spans fits the piece |
| `Classify.StepUnambiguous` | ao_dashboard/backend/tracker.go:108 | the text a lazy `.*?` run matches ahead of its closer holds no earlier occurrence of that closer |
| `Classify.MatchSeqSound` | ao_dashboard/backend/tracker.go:107-108 | what the sequential matcher returns fits the pattern piece by piece, with no shorter lazy match, and spells the matched slice |
| `Classify.MatchSeqComplete` | ao_dashboard/backend/tracker.go:107-108 | a slice spelled by texts that fit a chained pattern is matched back into exactly those texts |
| `Classify.MatchMetaIsRendering` | ao_dashboard/backend/tracker.go:107 | the metadata matcher at `p` accepts exactly the slices that render well-formed fields, and captures those fields |
| `Classify.MetaStart` | ao_dashboard/backend/tracker.go:118 | the result is the leftmost position where the metadata pattern matches, or -1 when it matches nowhere |
| `Classify.Speaker` | ao_dashboard/backend/tracker.go:118-120 | no match gives the empty name, and a captured name holds no double quote |
| `Classify.SpeakerOfRenderedMeta` | ao_dashboard/backend/tracker.go:118-120 | a rendered metadata bracket yields its third field, the sender |
| `Classify.MatchLootSound` | ao_dashboard/backend/tracker.go:108 | what the loot pattern matches is a well-shaped item link, and the slice it spans is that link's rendering |
| `Classify.MatchLootComplete` | ao_dashboard/backend/tracker.go:108 | a rendered item link whose text is on one line and holds no `</a>` (it may hold other tags) is matched back exactly where it lies |
| `Classify.MatchLootIsRendering` | ao_dashboard/backend/tracker.go:108 | the loot matcher at `p` accepts exactly the slices that render well-shaped item links, and captures those links |
| `Classify.LootTextsSkip` | ao_dashboard/backend/tracker.go:195 | the scan for all matches passes over characters other than `<` |
| `Classify.LootTextsAtMatch` | ao_dashboard/backend/tracker.go:195 | a match contributes its captured text, and the scan resumes after it (non-overlapping matches) |
| `Classify.LootTextsOfAnchor` | ao_dashboard/backend/tracker.go:195 | a line with an item link after text without `<` yields that link's text first, then what the rest of the line holds |
| `Classify.LootTextsOfLinks` | ao_dashboard/backend/tracker.go:195 | a line of well-shaped item links separated by text without `<` yields exactly the links' texts, in order, and nothing else |
| `Session.PushCapped` | ao_dashboard/backend/state.go:233-236 | the new entry is last, the length grows by one up to the cap, and the entries before it are the newest of the old ones, in order |
| `Session.NewestAppend` | ao_dashboard/backend/state.go:246-249 | keeping the newest `n`, appending and keeping the newest `n` again is the same as keeping the newest `n` of everything |
| `Session.NewestSnoc` | ao_dashboard/backend/tracker.go:73-77 | one step of the line window (append, then drop the oldest when over `n`) keeps the newest `n` lines |
| `Session.Prune` | ao_dashboard/backend/state.go:182-190 | pruning never lengthens the history, and every hit kept is at or after the cutoff |
| `Session.PruneMembers` | ao_dashboard/backend/state.go:182-190 | a hit survives pruning exactly when it was in the history and is at or after the cutoff |
| `Session.PruneAppend` | ao_dashboard/backend/state.go:184-189 | pruning works hit by hit: pruning a concatenation is concatenating the pruned parts, so relative order is kept |
| `Session.PruneAllRecent` | ao_dashboard/backend/state.go:184-189 | a history whose hits are all recent enough is kept as it is |
| `Session.RecordHitCrit` | ao_dashboard/backend/state.go:168-171 | after a hit the latest crit is the damage, and the biggest crit is the larger of the old biggest and the damage |
| `Session.RecordHitWindow` | ao_dashboard/backend/state.go:173-178 | a hit with no open window, or more than 60 after the window opened, starts a window at `now` with only its damage; otherwise the damage is added and the start is kept |
| `Session.RecordHitHistory` | ao_dashboard/backend/state.go:180-190 | the new history is the old one pruned to the last 4 units, followed by the new hit |
| `Session.RecordHitMembers` | ao_dashboard/backend/state.go:180-190 | the hits after a hit are the new one and the old ones inside the window |
| `Session.PruneRecentLast` | ao_dashboard/backend/state.go:181-190 | a recent enough hit appended last survives pruning, in last place |
| `Session.TruncDivOdd` | ao_dashboard/backend/state.go:214 | the `int(float64/float64)` quotient rounds toward zero: negating the dividend negates the quotient |
| `Session.TruncDivBounds` | ao_dashboard/backend/state.go:214 | for a non-negative dividend the quotient is the largest `q` with `q * b <= a` |
| `Session.Earliest` | ao_dashboard/backend/state.go:198-205 | the earliest time is at most the start value, at most every in-window hit time, and is the start value or the time of an in-window hit |
| `Session.BurstSpanBounds` | ao_dashboard/backend/state.go:210-213 | with no hit in the future, the burst divisor is between 1 and the 4-unit window |
| `Session.WindowTotalPrune` | ao_dashboard/backend/state.go:199-206 | pruning to the window leaves the window's damage total unchanged |
| `Session.EarliestPrune` | ao_dashboard/backend/state.go:199-206 | pruning to the window leaves the window's earliest hit time unchanged |
| `Session.BurstDpsIgnoresPrune` | ao_dashboard/backend/state.go:182-215 | a burst reading taken at the time of a hit is the same with or without that hit's pruning |
| `Session.WindowTotalNonNegative` | ao_dashboard/backend/state.go:199-206 | with no negative amounts, the window total is never negative |
| `Session.BurstAfterHit` | ao_dashboard/backend/state.go:194-215 | right after a positive hit, the burst reading is a fresh quotient (total at least the damage, span between 1 and 4), never the previous reading |
| `Session.PruneKeepsPast` | ao_dashboard/backend/state.go:184-189 | pruning keeps amounts non-negative and times not in the future |
| `Session.WindowWithNewHit` | ao_dashboard/backend/state.go:199-213 | with a positive hit at `now` appended to past, non-negative hits, the window total is at least that damage and the span is between 1 and 4 |
| `Session.SessionDpsFallback` | ao_dashboard/backend/state.go:218-227 | an idle window, or one opened less than one unit ago, keeps the previous session reading; otherwise the reading lies between 0 and the window's damage |
| `Session.FinalizeEffect` | ao_dashboard/backend/tracker.go:133-148 | finalizing changes nothing unless a window is open and no hit came after the trigger; otherwise it appends exactly the encounter DPS (newest 30 kept, in order), zeroes the window and leaves every other field alone |
| `Session.EncounterDpsScaled` | ao_dashboard/backend/tracker.go:135-139 | the encounter DPS times the clamped duration is 1000 times the window's damage |
| `Session.ApplyKeepsInv` | ao_dashboard/backend/state.go:130-250 | every locked method keeps chat at most 50, loot at most 20, encounter history at most 30, a non-empty zone, and a biggest crit no smaller than the latest |
| `Session.RunKeepsInv` | ao_dashboard/backend/state.go:130-250 | every sequence of locked-method calls from a valid record ends in a valid record |
| `Session.InitialInv` | ao_dashboard/backend/state.go:54-62 | the default record is valid |
| `Session.RunCountersGrow` | ao_dashboard/backend/state.go:131-142 | calls that never add a negative amount never decrease XP or credits |
| `State.TrackerState.constructor` | ao_dashboard/backend/state.go:54-62 | the defaults: level 1, zone "Unknown", started at `now`, everything else zero or empty |
| `State.TrackerState.UpdateXP` | ao_dashboard/backend/state.go:131-135 | XP grows by the amount and nothing else changes |
| `State.TrackerState.UpdateCredits` | ao_dashboard/backend/state.go:138-142 | credits grow by the amount and nothing else changes |
| `State.TrackerState.UpdateZone` | ao_dashboard/backend/state.go:145-151 | a non-empty name becomes the zone, and an empty one changes nothing |
| `State.TrackerState.UpdateLatency` | ao_dashboard/backend/state.go:154-160 | a non-negative latency is recorded, and a negative one changes nothing |
| `State.TrackerState.AppendHit` | ao_dashboard/backend/state.go:181 | the history is the old one followed by the hit, in the same array or a fresh larger one |
| `State.TrackerState.Grow` | ao_dashboard/backend/state.go:181 | the history moves to a fresh array with room for one more hit, and the record is unchanged |
| `State.TrackerState.CompactHistory` | ao_dashboard/backend/state.go:182-190 | in the same array, the history becomes the old one pruned at the cutoff |
| `State.TrackerState.UpdateCrit` | ao_dashboard/backend/state.go:163-191 | the new record is the hit recorded at `now`: crit, combat window and pruned history; the history array is the old one or a fresh one, never one shared with other objects |
| `State.TrackerState.RecordCrit` | ao_dashboard/backend/state.go:168-178 | the crit and combat-window fields change as for a hit, and the history is untouched |
| `State.TrackerState.UpdateCritValues` | ao_dashboard/backend/state.go:168-171 | the latest crit is the damage, and the biggest becomes the damage when the damage is larger |
| `State.TrackerState.UpdateCombatWindow` | ao_dashboard/backend/state.go:173-178 | the window restarts at `now` when none is open or it timed out; the damage is added and the last hit time is `now` |
| `State.TrackerState.CalculateBurstDps` | ao_dashboard/backend/state.go:194-215 | the loop's total and earliest time are those of the hits in the last 4 units, so the reading is the burst DPS of the record |
| `State.TrackerState.CalculateSessionDps` | ao_dashboard/backend/state.go:218-227 | the reading is the session DPS of the record |
| `State.TrackerState.UpdateDps` | ao_dashboard/backend/state.go:123-128 | both readings are refreshed at `now` and nothing else changes |
| `State.TrackerState.AddChatMessage` | ao_dashboard/backend/state.go:230-237 | the message is appended and only the newest 50 are kept |
| `State.TrackerState.AddLoot` | ao_dashboard/backend/state.go:240-250 | "Lootable Corpse" changes nothing; any other item is appended and only the newest 20 are kept |
| `State.TrackerState.Finalize` | ao_dashboard/backend/tracker.go:133-148 | the new record is the end-of-combat step applied at the trigger time |
| `State.TrackerState.PushCombatDps` | ao_dashboard/backend/tracker.go:141-144 | the value is appended to the encounter history and only the newest 30 are kept |
| `State.TrackerState.ResetCombat` | ao_dashboard/backend/tracker.go:146-148 | the window start, last hit time and damage total become 0 and nothing else changes |
| `State.PruneStep` | ao_dashboard/backend/state.go:184-189 | one more hit read extends the pruned prefix by that hit exactly when it is recent enough |
| `State.CompactInPlace` | ao_dashboard/backend/state.go:182-190 | after the in-place filter loop, the first `kept` slots hold the old first `n` hits pruned at the cutoff, in order |
| `Dispatch.SaidShape` | ao_dashboard/backend/tracker.go:154-162 | a message changes the zone only to a non-empty name it announces; it adds exactly one entry, "[sender] text", when it has a sender (newest 50 kept), none otherwise; nothing else changes |
| `Dispatch.UnbracketedChatNotLogged` | ao_dashboard/backend/tracker.go:113-121 | a chat line with no `]` has no sender and is never logged |
| `Dispatch.RenderMetaBracket` | ao_dashboard/backend/tracker.go:115-116 | a rendered metadata prefix with no `]` in its fields ends with its only `]` |
| `Dispatch.ChatOfRenderedLine` | ao_dashboard/backend/tracker.go:112-162 | a chat line written as metadata, a space and a message reads as the metadata's sender saying the cleaned message |
| `Dispatch.AwardsShape` | ao_dashboard/backend/tracker.go:171-189 | XP and credits grow by their awards; a hit is recorded (latest crit, last in the history) exactly when its damage is positive; nothing else changes |
| `Dispatch.XpGainIff` | ao_dashboard/backend/tracker.go:172-177 | XP is awarded exactly when the body says "You received" and "xp" and has a positive first number |
| `Dispatch.BothAwardsSameNumber` | ao_dashboard/backend/tracker.go:172-182 | a body that awards both XP and credits awards the same first number for each |
| `Dispatch.HitDamageIff` | ao_dashboard/backend/tracker.go:185-189 | a hit is recorded exactly when the body starts with "You hit" or "You critically hit" and has a positive first number |
| `Dispatch.OthersHitsIgnored` | ao_dashboard/backend/tracker.go:184-189 | a body that does not start with 'Y' ("X hit you …") records no damage |
| `Dispatch.XpOfWrittenAward` | ao_dashboard/backend/tracker.go:172-177 | "You received N xp." with a positive N awards N XP |
| `Dispatch.DamageOfWrittenHit` | ao_dashboard/backend/tracker.go:185-189 | "You hit T for N points of damage." with a digit-free target records a hit of N |
| `Dispatch.LootItems` | ao_dashboard/backend/tracker.go:195-196 | every item is plain text: no tag left, `\s` collapsed to single spaces, no whitespace at either end |
| `Dispatch.LootItemsOfLinks` | ao_dashboard/backend/tracker.go:195-196 | a line of item links separated by text without `<` yields one item per link, in order, each the link's cleaned text |
| `Dispatch.Kept` | ao_dashboard/backend/state.go:241-243 | no corpse among the items kept, and never more items than given |
| `Dispatch.AddLootsNewest` | ao_dashboard/backend/tracker.go:195-198 | adding items one by one leaves the newest 20 of the old loot followed by the non-corpse items, in order, and nothing else changes |
| `Dispatch.LootEffectBounded` | ao_dashboard/backend/tracker.go:193-203 | a loot line keeps at most 20 items, changes nothing but the loot, and records no corpse it lists |
| `Dispatch.LootOfAnchor` | ao_dashboard/backend/tracker.go:195-196 | the first item of a line whose first `<` starts an item link is that link's cleaned text, whatever follows |
| `Dispatch.LatestZoneStep` | ao_dashboard/backend/tracker.go:95-96 | one more line at the end of a scan decides the zone exactly when it names one |
| `Dispatch.LatestZoneAt` | ao_dashboard/backend/tracker.go:95-101 | the zone found is that of the newest line naming one, or "" when no line does |
| `Dispatch.InitialZone` | ao_dashboard/backend/tracker.go:92-104 | a non-empty start zone is the chat log's or the system log's, and an empty one means neither names a zone |
| `Dispatch.ChatLogFirst` | ao_dashboard/backend/tracker.go:93-103 | a zone found in the chat log wins over the system log |
| `Dispatch.OldLinesIgnored` | ao_dashboard/backend/tracker.go:94 | lines older than the last 50 of a log never decide the zone |
| `Tracker.ReadLastLines` | ao_dashboard/backend/tracker.go:64-80 | an unreadable file gives no lines; a readable one gives exactly its newest `n` lines, in order |
| `Tracker.NewestZone` | ao_dashboard/backend/tracker.go:95-101 | the backward scan returns the zone of the newest line that names one, or "" |
| `Tracker.ZoneFromLog` | ao_dashboard/backend/tracker.go:94-101 | the zone named by the last 50 lines of a readable log, or "" |
| `Tracker.Tracker.constructor` | ao_dashboard/backend/tracker.go:22-24 | the tracker works on the given state |
| `Tracker.Tracker.ProcessChatLine` | ao_dashboard/backend/tracker.go:112-163 | the new record is the chat line's effect (zone, then sender's entry), and the finalize time is returned exactly when the line holds the remains message while a window is open |
| `Tracker.Tracker.ProcessSystemLine` | ao_dashboard/backend/tracker.go:166-190 | the new record is the system line's effect: XP, credits, then the player's hit; the history array is the old one or a fresh one |
| `Tracker.Tracker.ReceiveAwards` | ao_dashboard/backend/tracker.go:171-183 | XP and credits grow by the body's awards, each only when positive |
| `Tracker.Tracker.CountHit` | ao_dashboard/backend/tracker.go:184-189 | a positive player hit is recorded at `now`, and nothing changes otherwise; the history array is the old one or a fresh one |
| `Tracker.Tracker.ProcessLootLine` | ao_dashboard/backend/tracker.go:193-203 | the new record is the loot line's effect: each matched item added in order |
| `Tracker.Tracker.InitZoneFromLog` | ao_dashboard/backend/tracker.go:92-104 | the zone becomes the start zone (chat log first, then system log) when one is found, and nothing changes otherwise |

## Left out

- Tailing the logs (`Start`, `tailFile`, tracker.go:26-60): the goroutines, seeking to the end, sleeps and re-opens are I/O. The handlers take one line as given. The `strings.TrimSpace` the tailer applies before calling them is not part of this model. The chat log is tailed twice, once for `processChatLine` and once for `processSystemLine` (tracker.go:32-33), so a chat line can also award XP and credits and record a hit; the model covers this only in that either handler can be applied to any line.
- The end-of-combat goroutine and its 6-second sleep (tracker.go:126-130): the step is the atomic method `Finalize`, taking the trigger time as a parameter.
- The mutex, and the unlocked read of `CombatStartTime` in `processChatLine` (tracker.go:126): concurrency is not modelled; each locked method is one atomic step.
- The clock: `time.Now()` is the parameter `now`. The trigger time, which the source reads in milliseconds, is taken in the same unit as `now`.
- Loading and saving the state as JSON (`LoadTrackerState`, `SaveToFile`, `StartAutoSave`, state.go:70-120), including the save after each loot item (tracker.go:199-201). The constructor models only the defaults of a state that could not be loaded, not the start-time fix of a loaded one.
- Logging with `fmt.Printf`.
- File access in `readLastLines`: a log is given as its lines, or as `None` when it cannot be opened or read to the end. Scanner token limits are not modelled.
- `Classify.ExtractFirstNumber`: numbers are unbounded, so the range clamping `strconv.Atoi` applies to numbers too large for `int` is not modelled.
- `State.TrackerState.UpdateXP`, `State.TrackerState.UpdateCredits`, `Session.RunCountersGrow`: Go's `int` is 64 bits, and the sums `XP += xp`, `Credits += c` (state.go:134, 141), `TotalDamage += damage` (state.go:178) and the window total `total += hit.Amount` (state.go:201) wrap around on overflow. The model's integers are unbounded, so these sums never wrap (`Session.RecordHit`, `Session.WindowTotal` likewise). An award near 2^63 on a line with positive XP makes XP negative in the source; "never decrease" holds only without wrap-around.
- `State.TrackerState.CalculateBurstDps`, `State.TrackerState.CalculateSessionDps`, `Session.SessionDps`: the `int(float64/float64)` division (state.go:214, 226) is modelled as exact division rounded toward zero. The rounding of `float64` for values beyond 2^53 is not modelled.
- `Session.EncounterDps`: the `float64` encounter DPS is a real number, without floating-point rounding.
- Strings are sequences of code points. UTF-8 decoding and invalid bytes are not modelled.
- `Dispatch.DamageOfWrittenHit`: states the damage only for targets without digits. As in the source, a digit in the target name is read as the damage.
- `Dispatch.LootOfAnchor`, `Dispatch.LootItemsOfLinks`, `Classify.LootTextsOfAnchor` and `Classify.LootTextsOfLinks` describe lines whose text outside the item links holds no `<`. A line with other markup between links is still handled by the same definition (`Classify.LootTexts`), but no lemma lists its items.
- `Classify.CleanHTML`: RE2's `\s` is `[\t\n\f\r ]`, so a vertical tab, U+0085 or U+00A0 inside the text survives collapsing and may sit next to a space. The contract states single spacing for `\s` characters only, as the source does; only the two ends are free of every Unicode space.
- The pinger, the configuration, the HTTP server and the frontend are not part of this model.
