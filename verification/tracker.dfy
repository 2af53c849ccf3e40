/**
 * The tracker: the handlers that turn chat, system and loot log lines into
 * updates of the tracker state, the initial zone scan, and the reader of a
 * log file's last lines. Each handler is proved against the effect its line
 * has on the session value.
 */
module Tracker {
  import opened Text
  import opened Classify
  import opened Session
  import opened State
  import opened Dispatch

  /**
   * `readLastLines`: reads the lines of a file keeping a window of the last
   * `n`. The file is given as its lines, or `None` when it cannot be opened
   * or read to the end; the result is `None` exactly then.
   */
  method ReadLastLines(file: Option<seq<string>>, n: nat) returns (lines: Option<seq<string>>)
    ensures file.None? ==> lines.None?
    ensures file.Some? ==> lines == Some(Newest(file.value, n))
  {
    if file.None? {
      return None;
    }
    var all := file.value;
    var kept: seq<string> := [];
    var j := 0;
    while j < |all|
      invariant 0 <= j <= |all|
      invariant kept == Newest(all[..j], n)
    {
      NewestSnoc(all[..j], all[j], n);
      assert all[..j + 1] == all[..j] + [all[j]];
      kept := kept + [all[j]];
      if |kept| > n {
        kept := kept[1..];
      }
      j := j + 1;
    }
    assert all[..j] == all;
    return Some(kept);
  }

  /** The newest of `lines` that names a zone, scanned from the end; "" when none does. */
  method NewestZone(lines: seq<string>) returns (z: string)
    ensures z == LatestZone(lines)
  {
    var i := |lines| - 1;
    while i >= 0
      invariant -1 <= i < |lines|
      invariant forall k :: i < k < |lines| ==> ParseZone(lines[k]) == []
    {
      z := ParseZone(lines[i]);
      if z != [] {
        LatestZoneAt(lines, i);
        return;
      }
      i := i - 1;
    }
    LatestZoneAt(lines, -1);
    z := [];
  }

  /** The zone the last 50 lines of a log name, read as `initZoneFromLog` reads them. */
  method ZoneFromLog(log: Option<seq<string>>) returns (z: string)
    ensures z == LogZone(log)
  {
    var read := ReadLastLines(log, ZoneScanLines);
    z := [];
    if read.Some? {
      z := NewestZone(read.value);
    }
  }

  class Tracker {
    const state: TrackerState

    constructor (state: TrackerState)
      ensures this.state == state
    {
      this.state := state;
    }

    /**
     * `processChatLine`: reads the sender from the metadata before the first
     * `]`, cleans the body, applies a zone it announces and logs it when it
     * has a sender. Returns the time at which the end-of-combat step is
     * scheduled: `now`, when the line is the remains message and a combat
     * window is open.
     */
    method ProcessChatLine(line: string, now: int) returns (finalizeAt: Option<int>)
      requires state.Valid()
      modifies state
      ensures state.Valid() && state.hits == old(state.hits)
      ensures finalizeAt == if SchedulesFinalize(old(state.View()), line) then Some(now) else None
      ensures state.View() == ChatEffect(old(state.View()), line)
    {
      ghost var v := state.View();
      var name, cleaned := ChatSpeaker(line), ChatText(line);
      finalizeAt := None;
      if Contains(cleaned, RemainsMessage) {
        if state.combatStartTime != 0 {
          finalizeAt := Some(now);
        }
      }
      var z := ParseZone(cleaned);
      if z != [] {
        state.UpdateZone(z);
      }
      assert state.View() == SetZone(v, z);
      if name != [] {
        state.AddChatMessage("[" + name + "] " + cleaned);
      }
    }

    /**
     * `processSystemLine`: adds the XP and credits a "You received" line
     * awards and records the damage of the player's own hits.
     */
    method ProcessSystemLine(line: string, now: int)
      requires state.Valid()
      modifies state, state.hits
      ensures state.Valid() && (state.hits == old(state.hits) || fresh(state.hits))
      ensures state.View() == SystemEffect(old(state.View()), line, now)
    {
      var body := SystemBody(line);
      ReceiveAwards(body);
      CountHit(body, now);
    }

    /** The "You received" block of `processSystemLine`. */
    method ReceiveAwards(body: string)
      requires state.Valid()
      modifies state
      ensures state.Valid() && state.hits == old(state.hits)
      ensures state.View() == Receive(old(state.View()), XpGain(body), CreditGain(body))
    {
      if Contains(body, Received) {
        if Contains(body, "xp") {
          var xp := ExtractFirstNumber(body);
          if xp > 0 {
            state.UpdateXP(xp);
          }
        }
        if Contains(body, "credits") {
          var cr := ExtractFirstNumber(body);
          if cr > 0 {
            state.UpdateCredits(cr);
          }
        }
      }
    }

    /** The damage block of `processSystemLine`. */
    method CountHit(body: string, now: int)
      requires state.Valid()
      modifies state, state.hits
      ensures state.Valid() && (state.hits == old(state.hits) || fresh(state.hits))
      ensures state.View() == if HitDamage(body) > 0 then RecordHit(old(state.View()), HitDamage(body), now) else old(state.View())
    {
      if HasPrefix(body, HitPrefix) || HasPrefix(body, CritPrefix) {
        var dmg := ExtractFirstNumber(body);
        if dmg > 0 {
          state.UpdateCrit(dmg, now);
        }
      }
    }

    /** `processLootLine`: adds the cleaned text of each item link, left to right. */
    method ProcessLootLine(line: string)
      requires state.Valid()
      modifies state
      ensures state.Valid() && state.hits == old(state.hits)
      ensures state.View() == LootEffect(old(state.View()), line)
    {
      var texts := LootTexts(line, 0);
      ghost var items := LootItems(line);
      for k := 0 to |texts|
        invariant state.Valid() && state.hits == old(state.hits)
        invariant AddLoots(state.View(), items[k..]) == LootEffect(old(state.View()), line)
      {
        var item := CleanHTML(texts[k]);
        assert items[k..][1..] == items[k + 1..];
        state.AddLoot(item);
      }
    }

    /**
     * `initZoneFromLog`: scans the last 50 lines of the chat log, then of the
     * system log, newest first, and applies the first zone a line names.
     */
    method InitZoneFromLog(chatLog: Option<seq<string>>, systemLog: Option<seq<string>>)
      requires state.Valid()
      modifies state
      ensures state.Valid() && state.hits == old(state.hits)
      ensures state.View() == SetZone(old(state.View()), InitialZone(chatLog, systemLog))
    {
      var logs := [chatLog, systemLog];
      for p := 0 to |logs|
        invariant unchanged(state)
        invariant forall q :: 0 <= q < p ==> LogZone(logs[q]) == []
      {
        var z := ZoneFromLog(logs[p]);
        if z != [] {
          assert z == InitialZone(chatLog, systemLog) by {
            if p == 1 {
              assert LogZone(logs[0]) == [];
            }
          }
          state.UpdateZone(z);
          return;
        }
      }
      assert LogZone(logs[0]) == [] && LogZone(logs[1]) == [];
    }
  }
}
