# Reaction-time buzzer: a Dafny model of the game engine

The buzzer game runs rounds. A trigger lights up, and each player presses a button as fast as they can. Every player keeps a ring of their ten most recent reaction times. A player who lets a round pass without pressing is charged a fixed forfeit of two seconds. After every score and after every trigger, the game lights the indicator of the player with the lowest total; among equal totals, the player earliest in the roster wins.

This project models that engine from `game.go` and proves what it does.

## Project layout

- `history.dfy` (module `History`) holds the ring's mathematics as pure values.
  - `Ring(h)` is the content of the ten slots after the writes `h`, starting from zeros with the cursor at slot 0.
  - `Window(h)` is the ten most recent writes, padded in front with zeros.
  - The lemmas prove three things:
    - a write lands under the cursor, and the cursor wraps from 9 back to 0;
    - an eleventh write overwrites the oldest entry;
    - the sum of the ring, which is the ranking key, is the sum of the ten most recent writes.
- `game.dfy` (module `Buzzer`) holds the imperative model.
  - `Player` is a class over a 10-element `array<int>`, with:
    - the source's fields `pressed`, `responded` and `scoreIndex`;
    - a ghost history `Recorded`.

    Its invariant `Valid()` ties the array to `Ring(Recorded)` and the index to `|Recorded| % 10`.
  - `Game` holds the roster, the indicator levels `outputs` and a ghost `Standings`. `Standings` is each player's state as a value, of type `Standing`.
  - The two case bodies of the coordinator loop are methods:
    - `Tick` handles the 50 ms polling tick;
    - `Trigger` handles a trigger.

    Each is specified by a pure function of the old standings (`TickedUpTo` and `EndedUpTo`). Lemmas say what those functions do to each player.
  - Arbitration, `PickWinner`, is specified by `LeaderIndex`. This is a left-to-right scan with a strict `>`. `LeaderIsLowest` proves that the scan picks a minimal total, and the earliest one among equal totals.

Other conventions:

- Times and durations are integer nanoseconds.
- A button level or an indicator level is a `bool`, with true meaning high.
- The time of the most recent trigger is an `Option<int>`, where `None` stands for Go's zero `time.Time`.

## Model

| member | source | states |
|---|---|---|
| Buzzer.Player.constructor | game.go:58-70 | A new player has its button released, has not responded, has every one of the ten slots zero, and has its cursor at slot 0. |
| Buzzer.Player.StateChanged | game.go:72-78 | Reports exactly whether the sampled level differs from the stored one, and stores the sampled level. A second call with the same level therefore reports no change. |
| Buzzer.Player.Score | game.go:88-95 | Writes `d` into the slot under the old cursor and leaves every other slot unchanged. Advances the cursor by one modulo ten and marks the player as responded. Keeps the ring invariant. |
| Buzzer.Player.Reset | game.go:80-86 | A player who had not responded gets exactly one 2-second entry, under the old cursor, and the cursor advances. A player who had responded keeps every slot and the cursor. Either way the player is armed again (`responded` is false). |
| Buzzer.Player.Total | game.go:97-103 | The loop's result is the sum of all ten slots, zero-initialised ones included. |
| Buzzer.RankingKey | game.go:97-103 | For a valid player, the total equals the sum of the ten most recent durations recorded for it, with zeros in front when fewer than ten exist. |
| History.RingAt | game.go:88-95 | Every slot holds the write of the current window whose number is congruent to it modulo ten. |
| History.OldestUnderCursor | game.go:90-94 | The slot under the cursor holds the oldest entry of the window, which is the one the next write replaces. |
| History.WindowShift | game.go:88-95 | A write drops the oldest of the ten most recent entries and appends the new one, so an eleventh write overwrites the oldest. |
| History.WindowFull | game.go:88-95 | From the tenth write on, the window is exactly the last ten writes. |
| History.RingSum | game.go:97-103 | The sum of the ring is the sum of the window of the ten most recent writes. |
| History.EarlySum | game.go:97-103 | Before ten writes, the total is the sum of everything written, because the untouched slots stay zero. |
| History.LateSum | game.go:97-103 | From ten writes on, the total is the sum of exactly the last ten writes. |
| History.FasterRanksLower | game.go:142 | A history no slower write for write, and strictly faster in the latest write, has a strictly smaller total. |
| Buzzer.Scored | game.go:88-95 | Recording a duration appends it to the player's history and marks the player as responded; the button level is kept. |
| Buzzer.RoundEnded | game.go:80-86 | A player who had not responded is charged one 2-second forfeit; then every player is armed again. |
| Buzzer.Qualifies | game.go:117-121 | A sample scores exactly when the level changed, the button is now pressed, the player has not responded and a trigger has happened. |
| Buzzer.Ticked | game.go:116-124 | A sample stores the new level, and when it qualifies it records `now - lastTrigger`. |
| Buzzer.ScanLeader | game.go:139-145 | The scan over the first `n` totals keeps the running best and replaces it only when the running best is strictly greater; its result is an index below `n`. |
| Buzzer.LeaderIndex | game.go:139-145 | The scan over all totals; its result is a roster index. |
| Buzzer.ScanIsLowest | game.go:140-145 | The scan over the first `n` totals settles on a minimal one, and every earlier entry is strictly greater. |
| Buzzer.LeaderIsLowest | game.go:138-147 | The leader has a minimal total, and every player before it has a strictly greater one, so ties go to the earliest player. |
| Buzzer.KeysAt | game.go:140-142 | The key list used by arbitration holds, at index `k`, the total of player `k`. |
| Buzzer.FasterLeads | game.go:138-147 | Of two players, the one that always responded no slower, and strictly faster last time, has the lower total and is the leader in either roster order. |
| Buzzer.Game.constructor | game.go:27-33 | The game starts with the given players, their standings, and every indicator low. |
| Buzzer.Game.Slower | game.go:142 | The comparison is true exactly when the running best's total exceeds the candidate's. |
| Buzzer.Game.PickWinner | game.go:138-148 | Returns `LeaderIndex` of the players' totals. Afterwards exactly the winner's indicator is high and all others are low. No player's state changes. |
| Buzzer.Game.Sample | game.go:117 | Samples one player's button. Only that player's stored level changes, and the edge is reported exactly. |
| Buzzer.Game.ScorePlayer | game.go:122 | Only player `i`'s standing changes, and it gains the duration `d`. |
| Buzzer.Game.TickPlayer | game.go:116-124 | Player `i` scores exactly when the level changed, the button is now pressed, the player has not responded and a trigger has happened. The stored duration is exactly `now - lastTrigger`. No other player's standing changes. After a score, exactly the leader's indicator is high; otherwise the indicators and every total are unchanged. |
| Buzzer.Game.Tick | game.go:115-125 | The new standings are the old ones with every player ticked, in roster order. If anyone scored, the indicators show the new leader; otherwise they are unchanged. |
| Buzzer.QuietTickKeepsKey | game.go:121-124 | A tick that does not score leaves a player's total unchanged. |
| Buzzer.AnyScoresExactly | game.go:116-124 | `AnyScores` holds exactly when some player qualifies on this tick. |
| Buzzer.TickedUpTo | game.go:115-125 | The standings after the tick loop has sampled the first `n` players in roster order; the length of the roster is kept. |
| Buzzer.TickedUpToAt | game.go:116-124 | After `n` players are ticked, entry `k` is ticked when `k < n` and is untouched otherwise. |
| Buzzer.TickEffect | game.go:116-124 | Over a whole tick, a qualifying player gets exactly `now - lastTrigger` appended and becomes responded. Any other player keeps its history and its `responded` flag. Each player's stored level becomes its sampled level. |
| Buzzer.TickIdempotent | game.go:72-78 | Ticking a second time with the same level is not an edge: it never scores and changes nothing. |
| Buzzer.Game.ResetPlayer | game.go:130 | Only player `i`'s standing changes, and the round ends for it. |
| Buzzer.Game.EndRound | game.go:129-131 | Ends the round for every player in roster order. The new standings are `EndedUpTo` of the old ones. |
| Buzzer.EndedUpTo | game.go:129-131 | The standings after the trigger loop has reset the first `n` players in roster order; the length of the roster is kept. |
| Buzzer.EndedUpToAt | game.go:129-131 | After `n` players are reset, entry `k` has had its round ended when `k < n` and is untouched otherwise. |
| Buzzer.TriggerEffect | game.go:80-86 | After a trigger, every player is armed and keeps its level. Exactly one 2-second forfeit is appended to its history if it had not responded, and nothing otherwise. |
| Buzzer.Game.Trigger | game.go:126-132 | Returns `Some(now)` as the new trigger time. Ends the round for every player in roster order, then lights exactly the leader of the new standings. |

## Left out

- The trigger scheduler in `main` (game.go:17-47) is left out: opening GPIO, the random 4–9 s delay, `time.Sleep`, and the pulse on the trigger pin. This is I/O and timing driven by floating-point randomness.
- The `select` over the ticker and the trigger channel (game.go:110-115, 126) is left out because it is concurrency. Its two case bodies are the methods `Tick` and `Trigger`. `lastTrigger` is a local of the loop in Go. Here `Trigger` returns it, and `Tick` takes it as a parameter.
- Pin configuration in `newPlayer` (game.go:65-68) is left out because it calls into the hardware library.
  - The pins themselves are not modelled.
  - A button read becomes a `bool` level passed to `Tick`.
  - An indicator is an entry of `Game.outputs`. So `p.out.Low()` in `newPlayer` appears as the game's initial all-low `outputs`, not as a field of `Player`.
- `fmt.Printf`/`fmt.Println` logging is left out.
- `time.Now()` is left out. The time is the parameter `now`.
- Buzzer.Game.Tick: Go reads the clock separately for each scoring player (game.go:122), after the previous scorer's arbitration has run. The model gives the whole tick one time `now`, so two players who score in the same tick get equal durations here, where Go gives the later one in roster order a slightly longer duration.
- Durations and totals are mathematical integers, so the int64 overflow of `time.Duration` and of `total()` is not modelled.
- Buzzer.Game.PickWinner: Go drives the indicators low one by one, then drives the winner's indicator high. The model assigns the final levels in one step, so it does not capture the brief moment when every indicator is low.
- Buzzer.Game.Tick: Go reads each pin inside the loop. The model takes all levels up front, as `levels`. The levels a tick sees are the same either way, because nothing in the loop writes an input pin.
- All roster operations require a roster with distinct players and distinct score arrays, as `main` builds it. Arbitration also requires a non-empty roster, because Go dereferences a nil winner otherwise.
- Before the first trigger no player has responded, so the first trigger charges every player one forfeit. The model keeps this behaviour as written.
