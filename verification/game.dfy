/** The reaction-time buzzer game: players with a ring of recent reaction
    times, the coordinator's two step bodies (a polling tick and a trigger),
    and the arbitration that lights the leader's indicator.

    Times and durations are integer nanoseconds. The level of a player's
    button is passed in as a boolean (true = high = pressed); the levels
    the game drives on the players' indicator lines are the sequence
    `outputs` of a game (true = high). */
module Buzzer {
  import opened History

  datatype Option<T> = None | Some(value: T)

  /** One second, in nanoseconds. */
  const Second: int := 1_000_000_000

  /** The duration charged to a player who let a round pass unanswered. */
  const ForfeitPenalty: int := 2 * Second

  /** What the game knows of a player apart from its indicator and the
      layout of its ring: the last button level seen, whether it has
      scored since the most recent trigger, and every duration recorded
      for it, oldest first. */
  datatype Standing = Standing(pressed: bool, responded: bool, recorded: seq<int>)

  /** The standing after recording the duration `d`. */
  function Scored(s: Standing, d: int): Standing
  {
    s.(responded := true, recorded := s.recorded + [d])
  }

  /** The standing after a trigger ends the round: a player who did not
      respond is charged the forfeit penalty, then everyone is armed. */
  function RoundEnded(s: Standing): Standing
  {
    var charged := if s.responded then s else Scored(s, ForfeitPenalty);
    charged.(responded := false)
  }

  /** Whether sampling `level` scores: the level changed, the button is now
      pressed, the player has not yet responded this round, and a trigger
      has happened. */
  predicate Qualifies(s: Standing, level: bool, lastTrigger: Option<int>)
  {
    s.pressed != level && level && !s.responded && lastTrigger.Some?
  }

  /** The standing after a polling tick samples `level` at time `now`. */
  function Ticked(s: Standing, level: bool, lastTrigger: Option<int>, now: int): Standing
  {
    var seen := s.(pressed := level);
    if Qualifies(s, level, lastTrigger) then Scored(seen, now - lastTrigger.value) else seen
  }

  class Player {
    const name: string
    /** Last observed level of the player's button. */
    var pressed: bool
    /** Whether the player has scored since the most recent trigger. */
    var responded: bool
    /** The ring of the ten most recent reaction durations. */
    const scores: array<int>
    /** The slot the next duration is written to. */
    var scoreIndex: nat
    /** Every duration ever written to the ring, oldest first. */
    ghost var Recorded: seq<int>

    ghost predicate Valid()
      reads this`scoreIndex, this`Recorded, scores
    {
      scores.Length == Slots &&
      scoreIndex == |Recorded| % 10 &&
      scores[..] == Ring(Recorded)
    }

    ghost function State(): Standing
      reads this`pressed, this`responded, this`Recorded
    {
      Standing(pressed, responded, Recorded)
    }

    /** A new player: button released, not responded, every slot zero. */
    constructor (name: string)
      ensures Valid() && fresh(scores)
      ensures this.name == name
      ensures State() == Standing(false, false, [])
      ensures scores[..] == Zeros() && scoreIndex == 0
    {
      this.name := name;
      pressed, responded := false, false;
      scores := new int[Slots](_ => 0);
      scoreIndex := 0;
      Recorded := [];
    }

    /** Edge detection: stores the sampled button level and reports whether
        it differs from the level seen last time. */
    method StateChanged(level: bool) returns (changed: bool)
      modifies this`pressed
      ensures changed == (old(pressed) != level)
      ensures pressed == level
    {
      var newPressed := level;
      changed := pressed != newPressed;
      pressed := newPressed;
    }

    /** Records the duration `d`: it overwrites the slot under the cursor,
        the cursor moves on by one, wrapping from the last slot to the
        first, and the player counts as having responded. */
    method Score(d: int)
      requires Valid()
      modifies this, scores
      ensures Valid()
      ensures scores[..] == old(scores[..])[old(scoreIndex) := d]
      ensures scoreIndex == (old(scoreIndex) + 1) % 10
      ensures State() == Scored(old(State()), d)
    {
      RingStep(Recorded, d);
      NextSlot(|Recorded|);
      scores[scoreIndex] := d;
      var next := scoreIndex + 1;
      if next >= Slots {
        next := 0;
      }
      responded, scoreIndex, Recorded := true, next, Recorded + [d];
      assert scores[..] == Ring(Recorded);
    }

    /** Ends a round for this player: one who did not respond is charged
        the forfeit penalty, and every player is armed again. */
    method Reset()
      requires Valid()
      modifies this, scores
      ensures Valid()
      ensures State() == RoundEnded(old(State()))
      ensures old(responded) ==> scores[..] == old(scores[..]) && scoreIndex == old(scoreIndex)
      ensures !old(responded) ==>
        scores[..] == old(scores[..])[old(scoreIndex) := ForfeitPenalty] &&
        scoreIndex == (old(scoreIndex) + 1) % 10
    {
      if !responded {
        Score(ForfeitPenalty);
      }
      responded := false;
    }

    /** The ranking key: the sum of all ten slots, zero-initialised ones
        included (see RankingKey for what that sum means). */
    method Total() returns (t: int)
      ensures t == Sum(scores[..])
    {
      t := 0;
      for i := 0 to scores.Length
        invariant t == Sum(scores[..i])
      {
        assert scores[..i + 1][..i] == scores[..i];
        t := t + scores[i];
      }
      assert scores[..scores.Length] == scores[..];
    }
  }

  /** What a player's total means: the sum of the ten most recent
      durations recorded for it, zero-initialised slots included. */
  lemma RankingKey(p: Player)
    requires p.Valid()
    ensures Sum(p.scores[..]) == Sum(Window(p.Recorded))
  {
    RingSum(p.Recorded);
  }

  /** The index a left-to-right scan of the first `n` totals settles on:
      it takes a later entry only when the running best is strictly
      greater. LeaderIsLowest states what that index is. */
  function ScanLeader(totals: seq<int>, n: nat): (w: nat)
    requires 0 < n <= |totals|
    ensures w < n
  {
    if n == 1 then 0
    else
      var best := ScanLeader(totals, n - 1);
      if totals[best] > totals[n - 1] then n - 1 else best
  }

  /** The index the scan of all totals settles on. */
  function LeaderIndex(totals: seq<int>): (w: nat)
    requires |totals| > 0
    ensures w < |totals|
  {
    ScanLeader(totals, |totals|)
  }

  /** The scan settles on a lowest total among the first `n`, and on the
      earliest one among equal lowest totals: every entry before it is
      strictly greater. */
  lemma {:induction false} ScanIsLowest(totals: seq<int>, n: nat)
    requires 0 < n <= |totals|
    ensures var w := ScanLeader(totals, n);
      (forall j :: 0 <= j < n ==> totals[w] <= totals[j]) &&
      (forall j :: 0 <= j < w ==> totals[w] < totals[j])
  {
    if n > 1 {
      ScanIsLowest(totals, n - 1);
    }
  }

  /** The leader has a lowest total, and every player before it has a
      strictly greater one: ties go to the earliest player. */
  lemma LeaderIsLowest(totals: seq<int>)
    requires |totals| > 0
    ensures var w := LeaderIndex(totals);
      (forall j :: 0 <= j < |totals| ==> totals[w] <= totals[j]) &&
      (forall j :: 0 <= j < w ==> totals[w] < totals[j])
  {
    ScanIsLowest(totals, |totals|);
  }

  /** The ranking key of a standing: the sum of the ring its recorded
      durations leave behind. */
  function Key(s: Standing): int
  {
    Sum(Ring(s.recorded))
  }

  /** The ranking key of every player, in roster order. */
  function Keys(standings: seq<Standing>): (keys: seq<int>)
    ensures |keys| == |standings|
    decreases |standings|
  {
    if standings == [] then []
    else Keys(standings[..|standings| - 1]) + [Key(standings[|standings| - 1])]
  }

  /** Entry `k` of the keys is the key of player `k`'s standing. */
  lemma {:induction false} KeysAt(standings: seq<Standing>, k: nat)
    requires k < |standings|
    ensures Keys(standings)[k] == Key(standings[k])
    decreases |standings|
  {
    var n := |standings| - 1;
    if k < n {
      KeysAt(standings[..n], k);
    }
  }

  /** Replacing one standing by another with the same key leaves every
      key unchanged. */
  lemma {:induction false} KeysUpdate(standings: seq<Standing>, i: nat, s: Standing)
    requires i < |standings| && Key(s) == Key(standings[i])
    ensures Keys(standings[i := s]) == Keys(standings)
    decreases |standings|
  {
    var n := |standings| - 1;
    if i < n {
      KeysUpdate(standings[..n], i, s);
      assert standings[i := s][..n] == standings[..n][i := s];
    } else {
      assert standings[i := s][..n] == standings[..n];
    }
  }

  /** A tick that does not score leaves the ranking key alone. */
  lemma QuietTickKeepsKey(s: Standing, level: bool, lastTrigger: Option<int>, now: int)
    requires !Qualifies(s, level, lastTrigger)
    ensures Key(Ticked(s, level, lastTrigger, now)) == Key(s)
  {
  }

  /** Updating the same index twice keeps only the second value. */
  lemma UpdateTwice<T>(s: seq<T>, i: nat, a: T, b: T)
    requires i < |s|
    ensures s[i := a][i := b] == s[i := b]
  {
  }

  /** Whether some player among the first `n` scores when a tick samples
      `levels`. */
  predicate AnyScores(standings: seq<Standing>, levels: seq<bool>, lastTrigger: Option<int>, n: nat)
    requires n <= |standings| && n <= |levels|
  {
    n > 0 && (AnyScores(standings, levels, lastTrigger, n - 1) || Qualifies(standings[n - 1], levels[n - 1], lastTrigger))
  }

  /** AnyScores holds exactly when one of the first `n` players scores. */
  lemma {:induction false} AnyScoresExactly(standings: seq<Standing>, levels: seq<bool>, lastTrigger: Option<int>, n: nat)
    requires n <= |standings| && n <= |levels|
    ensures AnyScores(standings, levels, lastTrigger, n) <==>
      exists k :: 0 <= k < n && Qualifies(standings[k], levels[k], lastTrigger)
  {
    if n > 0 {
      AnyScoresExactly(standings, levels, lastTrigger, n - 1);
    }
  }

  /** What a whole tick does to player `k`: the level is stored; a player
      who qualifies gets exactly `now - lastTrigger` appended to its
      history and counts as responded; anyone else keeps its history and
      its responded flag. No entry depends on another player. */
  lemma TickEffect(standings: seq<Standing>, levels: seq<bool>, lastTrigger: Option<int>, now: int, k: nat)
    requires |levels| == |standings| && k < |standings|
    ensures var before, after := standings[k], TickedUpTo(standings, levels, lastTrigger, now, |standings|)[k];
      after.pressed == levels[k] &&
      (Qualifies(before, levels[k], lastTrigger) ==>
        after.responded && after.recorded == before.recorded + [now - lastTrigger.value]) &&
      (!Qualifies(before, levels[k], lastTrigger) ==>
        after.responded == before.responded && after.recorded == before.recorded)
  {
    TickedUpToAt(standings, levels, lastTrigger, now, |standings|, k);
  }

  /** Sampling the same level a second time is not an edge: it never
      scores and changes nothing. */
  lemma TickIdempotent(s: Standing, level: bool, lastTrigger: Option<int>, now: int, later: int)
    ensures var once := Ticked(s, level, lastTrigger, now);
      !Qualifies(once, level, lastTrigger) && Ticked(once, level, lastTrigger, later) == once
  {
  }

  /** What a trigger does to player `k`: it is armed again and its button
      level is kept; exactly one forfeit penalty is appended to its
      history if it had not responded, and nothing otherwise. */
  lemma TriggerEffect(standings: seq<Standing>, k: nat)
    requires k < |standings|
    ensures var before, after := standings[k], EndedUpTo(standings, |standings|)[k];
      !after.responded && after.pressed == before.pressed &&
      after.recorded == before.recorded + (if before.responded then [] else [ForfeitPenalty])
  {
    EndedUpToAt(standings, |standings|, k);
  }

  /** Two players with histories of equal length, the first no slower in
      any round and strictly faster in the latest one (say, one who always
      responds against one who always forfeits): the first has the lower
      key and is the leader, whatever the roster order. */
  lemma FasterLeads(a: Standing, b: Standing)
    requires |a.recorded| == |b.recorded| > 0
    requires forall i :: 0 <= i < |a.recorded| ==> a.recorded[i] <= b.recorded[i]
    requires a.recorded[|a.recorded| - 1] < b.recorded[|b.recorded| - 1]
    ensures Key(a) < Key(b)
    ensures LeaderIndex(Keys([a, b])) == 0 && LeaderIndex(Keys([b, a])) == 1
  {
    FasterRanksLower(a.recorded, b.recorded);
    KeysAt([a, b], 0);
    KeysAt([a, b], 1);
    KeysAt([b, a], 0);
    KeysAt([b, a], 1);
    LeaderIsLowest(Keys([a, b]));
    LeaderIsLowest(Keys([b, a]));
  }

  /** Whether the indicator of player `w` is the only one driven high. */
  predicate OnlyLit(outputs: seq<bool>, w: nat)
  {
    forall k :: 0 <= k < |outputs| ==> outputs[k] == (k == w)
  }

  /** The standings after a tick has sampled the first `n` players: those
      are ticked with their levels, the rest are as they were. */
  function TickedUpTo(standings: seq<Standing>, levels: seq<bool>, lastTrigger: Option<int>, now: int, n: nat): (r: seq<Standing>)
    requires n <= |standings| && n <= |levels|
    ensures |r| == |standings|
  {
    if n == 0 then standings
    else
      var prev := TickedUpTo(standings, levels, lastTrigger, now, n - 1);
      prev[n - 1 := Ticked(standings[n - 1], levels[n - 1], lastTrigger, now)]
  }

  /** Entry `k` of TickedUpTo is player `k` ticked when `k < n`, and
      untouched otherwise. */
  lemma {:induction false} TickedUpToAt(standings: seq<Standing>, levels: seq<bool>, lastTrigger: Option<int>, now: int, n: nat, k: nat)
    requires n <= |standings| && n <= |levels| && k < |standings|
    ensures TickedUpTo(standings, levels, lastTrigger, now, n)[k] ==
      if k < n then Ticked(standings[k], levels[k], lastTrigger, now) else standings[k]
  {
    if n > 0 {
      TickedUpToAt(standings, levels, lastTrigger, now, n - 1, k);
    }
  }

  /** The standings after a trigger has ended the round for the first `n`
      players. */
  function EndedUpTo(standings: seq<Standing>, n: nat): (r: seq<Standing>)
    requires n <= |standings|
    ensures |r| == |standings|
  {
    if n == 0 then standings
    else EndedUpTo(standings, n - 1)[n - 1 := RoundEnded(standings[n - 1])]
  }

  /** Entry `k` of EndedUpTo is player `k` after the round ends when
      `k < n`, and untouched otherwise. */
  lemma {:induction false} EndedUpToAt(standings: seq<Standing>, n: nat, k: nat)
    requires n <= |standings| && k < |standings|
    ensures EndedUpTo(standings, n)[k] == if k < n then RoundEnded(standings[k]) else standings[k]
  {
    if n > 0 {
      EndedUpToAt(standings, n - 1, k);
    }
  }

  /** Ending the round for player `n` after the first `n` extends
      EndedUpTo by one. */
  lemma EndedStep(standings: seq<Standing>, n: nat)
    requires n < |standings|
    ensures var prev := EndedUpTo(standings, n);
      EndedUpTo(standings, n + 1) == prev[n := RoundEnded(prev[n])]
  {
    EndedUpToAt(standings, n, n);
  }

  class Game {
    /** The roster, in the fixed order every step scans it. */
    const players: seq<Player>
    /** The level driven on each player's indicator line, in roster order
        (true = high). */
    var outputs: seq<bool>

    /** The standing of every player, in roster order. */
    ghost var Standings: seq<Standing>
    /** The objects a step may update: every player and its score ring. */
    ghost const Repr: set<object>

    /** No two players share an object or a score ring. */
    predicate Distinct()
    {
      forall i, j :: 0 <= i < j < |players| ==>
        players[i] != players[j] && players[i].scores != players[j].scores
    }

    ghost predicate Valid()
      reads this`Standings
      reads (set p | p in players)`scoreIndex, (set p | p in players)`Recorded
      reads (set p | p in players)`pressed, (set p | p in players)`responded
      reads set p | p in players :: p.scores
    {
      |Standings| == |players| &&
      Distinct() &&
      forall k {:trigger players[k]} :: 0 <= k < |players| ==>
        players[k] in Repr && players[k].scores in Repr &&
        players[k].Valid() && players[k].State() == Standings[k]
    }

    constructor (players: seq<Player>)
      requires forall i, j :: 0 <= i < j < |players| ==>
        players[i] != players[j] && players[i].scores != players[j].scores
      requires forall k :: 0 <= k < |players| ==> players[k].Valid()
      ensures Valid() && this.players == players && |outputs| == |players|
      ensures forall k :: 0 <= k < |players| ==> Standings[k] == players[k].State() && !outputs[k]
      ensures Repr == (set p: Player | p in players :: p as object) + (set p: Player | p in players :: p.scores as object)
    {
      this.players := players;
      outputs := seq(|players|, _ => false);
      Standings := seq(|players|, k requires 0 <= k < |players| reads players => players[k].State());
      Repr := (set p: Player | p in players :: p as object) + (set p: Player | p in players :: p.scores as object);
    }

    /** The comparison arbitration makes: whether `a`'s total exceeds
        `b`'s, that is, whether `b` takes the lead from `a`. */
    static method Slower(a: Player, b: Player) returns (slower: bool)
      requires a.Valid() && b.Valid()
      ensures slower == (Key(a.State()) > Key(b.State()))
    {
      var ta := a.Total();
      var tb := b.Total();
      slower := ta > tb;
    }

    /** Arbitration: drives every indicator low, picks the player with the
        lowest total (the earliest one among equals) and drives its
        indicator high. Nothing but the indicators changes. */
    method PickWinner() returns (winner: nat)
      requires Valid() && |players| > 0
      modifies this`outputs
      ensures Valid()
      ensures winner == LeaderIndex(Keys(Standings))
      ensures |outputs| == |players| && OnlyLit(outputs, winner)
    {
      ghost var keys := Keys(Standings);
      var levels: seq<bool> := [];
      var best: Option<nat> := None;
      for i := 0 to |players|
        invariant |levels| == i
        invariant best.None? <==> i == 0
        invariant best.Some? ==> best.value == ScanLeader(keys, i)
        invariant forall k :: 0 <= k < i ==> !levels[k]
      {
        levels := levels + [false];
        if best.None? {
          best := Some(i);
        } else {
          KeysAt(Standings, best.value);
          KeysAt(Standings, i);
          var slower := Slower(players[best.value], players[i]);
          if slower {
            best := Some(i);
          }
        }
      }
      winner := best.value;
      outputs := levels[winner := true];
    }

    /** Samples player `i`'s button: stores `level` as the last level seen
        and reports whether it differs from the previous one. */
    method Sample(i: nat, level: bool) returns (changed: bool)
      requires Valid() && i < |players|
      modifies (players[i] as Player)`pressed, this`Standings
      ensures Valid()
      ensures Standings == old(Standings)[i := old(Standings)[i].(pressed := level)]
      ensures changed == (old(Standings)[i].pressed != level)
    {
      changed := players[i].StateChanged(level);
      Standings := Standings[i := players[i].State()];
    }

    /** Records the duration `d` for player `i`. */
    method ScorePlayer(i: nat, d: int)
      requires Valid() && i < |players|
      modifies players[i], players[i].scores, this`Standings
      ensures Valid()
      ensures Standings == old(Standings)[i := Scored(old(Standings)[i], d)]
    {
      players[i].Score(d);
      Standings := Standings[i := players[i].State()];
    }

    /** One iteration of the polling tick, for player `i` whose button reads
        `level` at time `now`, with `lastTrigger` the time of the most recent
        trigger (None before the first): the level is stored, and a rising
        edge from a player who has not yet responded since a trigger scores
        the time since that trigger and re-runs arbitration. */
    method TickPlayer(i: nat, level: bool, now: int, lastTrigger: Option<int>) returns (scored: bool)
      requires Valid() && i < |players|
      modifies players[i], players[i].scores, this`Standings, this`outputs
      ensures Valid()
      ensures Standings == old(Standings)[i := Ticked(old(Standings)[i], level, lastTrigger, now)]
      ensures scored == Qualifies(old(Standings)[i], level, lastTrigger)
      ensures scored ==> |outputs| == |players| && OnlyLit(outputs, LeaderIndex(Keys(Standings)))
      ensures !scored ==> outputs == old(outputs) && Keys(Standings) == Keys(old(Standings))
    {
      var changed := Sample(i, level);
      var p := players[i];
      scored := changed && p.pressed && !p.responded && lastTrigger.Some?;
      ghost var seen := Standings[i];
      assert p.State() == seen;
      assert scored == Qualifies(old(Standings)[i], level, lastTrigger);
      if scored {
        var d := now - lastTrigger.value;
        UpdateTwice(old(Standings), i, seen, Scored(seen, d));
        ghost var before := old(Standings)[i];
        assert seen == before.(pressed := level);
        assert Ticked(before, level, lastTrigger, now) == Scored(seen, d);
        ScorePlayer(i, d);
        var winner := PickWinner();
      } else {
        QuietTickKeepsKey(old(Standings)[i], level, lastTrigger, now);
        KeysUpdate(old(Standings), i, Standings[i]);
      }
    }

    /** The polling tick: samples every player's button, in roster order,
        `levels[k]` being the level read for player `k`. Every player is
        ticked once; if anyone scored, the indicators show the leader of
        the new standings, and otherwise they are left as they were. */
    method Tick(levels: seq<bool>, now: int, lastTrigger: Option<int>)
      requires Valid() && |levels| == |players|
      modifies Repr, this`Standings, this`outputs
      ensures Valid()
      ensures Standings == TickedUpTo(old(Standings), levels, lastTrigger, now, |players|)
      ensures AnyScores(old(Standings), levels, lastTrigger, |players|) ==>
        |outputs| == |players| && OnlyLit(outputs, LeaderIndex(Keys(Standings)))
      ensures !AnyScores(old(Standings), levels, lastTrigger, |players|) ==> outputs == old(outputs)
    {
      ghost var start := Standings;
      ghost var any := false;
      for i := 0 to |players|
        invariant Valid()
        invariant Standings == TickedUpTo(start, levels, lastTrigger, now, i)
        invariant any == AnyScores(start, levels, lastTrigger, i)
        invariant any ==> |outputs| == |players| && OnlyLit(outputs, LeaderIndex(Keys(Standings)))
        invariant !any ==> outputs == old(outputs)
      {
        TickedUpToAt(start, levels, lastTrigger, now, i, i);
        var scored := TickPlayer(i, levels[i], now, lastTrigger);
        any := any || scored;
      }
    }

    /** Ends the round for player `i`. */
    method ResetPlayer(i: nat)
      requires Valid() && i < |players|
      modifies players[i], players[i].scores, this`Standings
      ensures Valid()
      ensures Standings == old(Standings)[i := RoundEnded(old(Standings)[i])]
    {
      var p := players[i];
      p.Reset();
      Standings := Standings[i := p.State()];
    }

    /** Ends the round for every player, in roster order. */
    method EndRound()
      requires Valid()
      modifies Repr, this`Standings
      ensures Valid()
      ensures Standings == EndedUpTo(old(Standings), |players|)
    {
      ghost var start := Standings;
      for i := 0 to |players|
        invariant Valid()
        invariant Standings == EndedUpTo(start, i)
      {
        EndedStep(start, i);
        ResetPlayer(i);
      }
    }

    /** The trigger: records `now` as the time of the trigger, ends the
        round for every player in roster order, and re-runs arbitration.
        Returns the new time of the most recent trigger. */
    method Trigger(now: int) returns (lastTrigger: Option<int>)
      requires Valid() && |players| > 0
      modifies Repr, this`Standings, this`outputs
      ensures Valid()
      ensures lastTrigger == Some(now)
      ensures Standings == EndedUpTo(old(Standings), |players|)
      ensures |outputs| == |players| && OnlyLit(outputs, LeaderIndex(Keys(Standings)))
    {
      lastTrigger := Some(now);
      EndRound();
      var winner := PickWinner();
    }
  }
}
