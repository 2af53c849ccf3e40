/**
 * The tracker state object. Its fields are updated in place by one atomic
 * method per locked method of Go's `TrackerState`; the damage history is a slice,
 * here an array with a count of the hits in use, that the hit method appends
 * to and then compacts in place. Every method is proved against the value
 * model of the session: its new `View()` is the session function applied
 * to the old one.
 */
module State {
  import opened Session

  class TrackerState {
    var xp: int
    var level: int
    var credits: int
    var zone: string
    var chatHistory: seq<string>
    var recentLoot: seq<string>
    var biggestCrit: int
    var latestCrit: int
    var latencyMs: int
    var playersOnline: int
    var startTime: int

    /** The damage history: its first `hitCount` slots, oldest first. */
    var hits: array<TimedHit>
    var hitCount: nat
    /** The hits in use, as a sequence. */
    ghost var history: seq<TimedHit>
    var totalDamage: int
    var combatStartTime: int
    var lastHitTime: int
    var combatDpsHistory: seq<real>

    var lastBurstDps: int
    var lastSessionDps: int

    ghost predicate Valid()
      reads this, hits
    {
      hitCount <= hits.Length && hits[..hitCount] == history
    }

    /** The state as a value. */
    ghost function View(): Session.View
      reads this
    {
      Session.View(xp, level, credits, zone, chatHistory, recentLoot, biggestCrit, latestCrit,
        latencyMs, playersOnline, startTime, history, totalDamage, combatStartTime,
        lastHitTime, combatDpsHistory, lastBurstDps, lastSessionDps)
    }

    /** The defaults of a state that could not be loaded, started at `now`. */
    constructor (now: int)
      ensures Valid() && fresh(hits)
      ensures View() == Initial(now)
    {
      xp, level, credits, zone := 0, 1, 0, UnknownZone;
      chatHistory, recentLoot := [], [];
      biggestCrit, latestCrit, latencyMs, playersOnline := 0, 0, 0, 0;
      startTime := now;
      hits := new TimedHit[0];
      hitCount := 0;
      history := [];
      totalDamage, combatStartTime, lastHitTime := 0, 0, 0;
      combatDpsHistory := [];
      lastBurstDps, lastSessionDps := 0, 0;
    }

    method UpdateXP(amount: int)
      requires Valid()
      modifies this
      ensures Valid() && hits == old(hits)
      ensures View() == AddXP(old(View()), amount)
    {
      xp := xp + amount;
    }

    method UpdateCredits(amount: int)
      requires Valid()
      modifies this
      ensures Valid() && hits == old(hits)
      ensures View() == AddCredits(old(View()), amount)
    {
      credits := credits + amount;
    }

    method UpdateZone(name: string)
      requires Valid()
      modifies this
      ensures Valid() && hits == old(hits)
      ensures View() == SetZone(old(View()), name)
    {
      if name != [] {
        zone := name;
      }
    }

    method UpdateLatency(ms: int)
      requires Valid()
      modifies this
      ensures Valid() && hits == old(hits)
      ensures View() == SetLatency(old(View()), ms)
    {
      if ms >= 0 {
        latencyMs := ms;
      }
    }

    /** Appends a hit to the history, moving it to a larger array when the current one is full. */
    method AppendHit(hit: TimedHit)
      requires Valid()
      modifies this, hits
      ensures Valid() && (hits == old(hits) || fresh(hits))
      ensures View() == old(View()).(hits := old(history) + [hit])
    {
      if hitCount == hits.Length {
        Grow();
      }
      hits[hitCount] := hit;
      hitCount := hitCount + 1;
      history := history + [hit];
    }

    /** Moves the history to an array with room for one more hit. */
    method Grow()
      requires Valid()
      modifies this
      ensures Valid() && hitCount < hits.Length && fresh(hits)
      ensures View() == old(View())
    {
      var bigger := new TimedHit[2 * hits.Length + 1];
      forall k | 0 <= k < hitCount {
        bigger[k] := hits[k];
      }
      hits := bigger;
    }

    /** Keeps, in place and in order, the hits at or after `cutoff`. */
    method CompactHistory(cutoff: int)
      requires Valid()
      modifies this, hits
      ensures Valid() && hits == old(hits)
      ensures View() == old(View()).(hits := Prune(old(history), cutoff))
    {
      hitCount := CompactInPlace(hits, hitCount, cutoff);
      history := Prune(history, cutoff);
    }

    /**
     * `UpdateCrit`: records the crit, opens a new combat window when none
     * is open or the open one is older than the timeout, appends the hit
     * and compacts the history in place to the hits of the last window.
     */
    method UpdateCrit(damage: int, now: int)
      requires Valid()
      modifies this, hits
      ensures Valid() && (hits == old(hits) || fresh(hits))
      ensures View() == RecordHit(old(View()), damage, now)
    {
      RecordCrit(damage, now);
      AppendHit(TimedHit(now, damage));
      CompactHistory(now - BurstWindow);
    }

    /** The crit and combat-window part of `UpdateCrit`. */
    method RecordCrit(damage: int, now: int)
      requires Valid()
      modifies this
      ensures Valid() && hits == old(hits)
      ensures View() == TrackCrit(old(View()), damage, now)
    {
      UpdateCritValues(damage);
      UpdateCombatWindow(damage, now);
    }

    method UpdateCritValues(damage: int)
      requires Valid()
      modifies this
      ensures Valid() && hits == old(hits)
      ensures View() == NoteCrit(old(View()), damage)
    {
      latestCrit := damage;
      if damage > biggestCrit {
        biggestCrit := damage;
      }
    }

    method UpdateCombatWindow(damage: int, now: int)
      requires Valid()
      modifies this
      ensures Valid() && hits == old(hits)
      ensures View() == ExtendWindow(old(View()), damage, now)
    {
      var start, total := combatStartTime, totalDamage;
      if start == 0 || now - start > CombatTimeout {
        start, total := now, 0;
      }
      combatStartTime, totalDamage, lastHitTime := start, total + damage, now;
    }

    /** `calculateBurstDPSLocked`: reads the history once, summing the window and finding its earliest hit. */
    method CalculateBurstDps(now: int) returns (dps: int)
      requires Valid()
      ensures dps == BurstDps(View(), now)
    {
      var lo := now - BurstWindow;
      var total := 0;
      var earliest := now;
      var j := 0;
      while j < hitCount
        invariant 0 <= j <= hitCount
        invariant total == WindowTotal(hits[..j], lo)
        invariant earliest == Earliest(hits[..j], lo, now)
      {
        var hit := hits[j];
        assert hits[..j + 1][..j] == hits[..j];
        if hit.time >= lo {
          total := total + hit.amount;
          if hit.time < earliest {
            earliest := hit.time;
          }
        }
        j := j + 1;
      }
      assert hits[..j] == history;
      if total == 0 {
        return lastBurstDps;
      }
      var duration := now - earliest;
      if duration < 1 {
        duration := 1;
      }
      dps := TruncDiv(total, duration);
    }

    /** `calculateSessionDPSLocked`: the window's damage over the time since it opened. */
    method CalculateSessionDps(now: int) returns (dps: int)
      ensures dps == SessionDps(View(), now)
    {
      if combatStartTime == 0 {
        return lastSessionDps;
      }
      var elapsed := now - combatStartTime;
      if elapsed < 1 {
        return lastSessionDps;
      }
      dps := TruncDiv(totalDamage, elapsed);
    }

    /** `UpdateDPS`: both readings refreshed at `now`. */
    method UpdateDps(now: int)
      requires Valid()
      modifies this
      ensures Valid() && hits == old(hits)
      ensures View() == RefreshDps(old(View()), now)
    {
      var burst := CalculateBurstDps(now);
      var session := CalculateSessionDps(now);
      lastBurstDps := burst;
      lastSessionDps := session;
    }

    method AddChatMessage(msg: string)
      requires Valid()
      modifies this
      ensures Valid() && hits == old(hits)
      ensures View() == AddChat(old(View()), msg)
    {
      chatHistory := chatHistory + [msg];
      if |chatHistory| > MaxChatLines {
        chatHistory := chatHistory[|chatHistory| - MaxChatLines..];
      }
    }

    method AddLoot(item: string)
      requires Valid()
      modifies this
      ensures Valid() && hits == old(hits)
      ensures View() == Session.AddLoot(old(View()), item)
    {
      if item == LootableCorpse {
        return;
      }
      recentLoot := recentLoot + [item];
      if |recentLoot| > MaxLootItems {
        recentLoot := recentLoot[|recentLoot| - MaxLootItems..];
      }
    }

    /**
     * The end-of-combat step: when a window is open and no hit came after
     * the remains message, appends the encounter DPS to the capped history
     * and closes the window.
     */
    method Finalize(remainsTime: int)
      requires Valid()
      modifies this
      ensures Valid() && hits == old(hits)
      ensures View() == FinalizeCombat(old(View()), remainsTime)
    {
      if combatStartTime != 0 && lastHitTime <= remainsTime {
        var durMs := lastHitTime - combatStartTime;
        if durMs < 1 {
          durMs := 1;
        }
        var encounterDps := totalDamage as real / (durMs as real / 1000.0);
        assert encounterDps == EncounterDps(totalDamage, combatStartTime, lastHitTime);
        PushCombatDps(encounterDps);
        ResetCombat();
      }
    }

    /** Appends an encounter DPS to the history, keeping the newest 30. */
    method PushCombatDps(dps: real)
      requires Valid()
      modifies this
      ensures Valid() && hits == old(hits)
      ensures View() == old(View()).(combatDps := PushCapped(old(combatDpsHistory), dps, MaxCombats))
    {
      var history := combatDpsHistory + [dps];
      if |history| > MaxCombats {
        history := history[|history| - MaxCombats..];
      }
      combatDpsHistory := history;
    }

    /** Closes the combat window. */
    method ResetCombat()
      requires Valid()
      modifies this
      ensures Valid() && hits == old(hits)
      ensures View() == old(View()).(combatStart := 0, lastHitTime := 0, totalDamage := 0)
    {
      combatStartTime, lastHitTime, totalDamage := 0, 0, 0;
    }
  }

  /** One more hit of the read window: kept when recent enough. */
  lemma PruneStep(all: seq<TimedHit>, j: nat, cutoff: int)
    requires j < |all|
    ensures Prune(all[..j + 1], cutoff) == Prune(all[..j], cutoff) + (if all[j].time >= cutoff then [all[j]] else [])
  {
    assert all[..j + 1][..j] == all[..j];
  }

  /**
   * The filter loop of `UpdateCrit`: moves the hits of `a[..n]` at or after
   * `cutoff` to the front of `a`, in order, with a write index that never
   * passes the read index. Returns how many were kept.
   */
  method CompactInPlace(a: array<TimedHit>, n: nat, cutoff: int) returns (kept: nat)
    requires n <= a.Length
    modifies a
    ensures kept <= n
    ensures a[..kept] == Prune(old(a[..n]), cutoff)
  {
    ghost var all := a[..n];
    var i, j := 0, 0;
    while j < n
      invariant 0 <= i <= j <= n
      invariant a[..i] == Prune(all[..j], cutoff)
      invariant forall k :: j <= k < n ==> a[k] == all[k]
    {
      var hit := a[j];
      PruneStep(all, j, cutoff);
      if hit.time >= cutoff {
        ghost var front := a[..i];
        a[i] := hit;
        assert a[..i + 1] == front + [hit];
        i := i + 1;
      }
      j := j + 1;
    }
    assert all[..j] == all;
    kept := i;
  }
}
