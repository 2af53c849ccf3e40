/**
 * The session record of the tracker as a value: XP and credit counters,
 * the current zone, bounded chat and loot lists, crit tracking, the combat
 * window with its pruned damage history, the burst and session DPS readings
 * and the history of finished encounters. Each locked method of the state
 * object is one function from the old record to the new one; the clock is
 * the parameter `now`, in one integer time unit throughout.
 */
module Session {

  /** A timestamped damage event. */
  datatype TimedHit = TimedHit(time: int, amount: int)

  const MaxChatLines := 50
  const MaxLootItems := 20
  const MaxCombats := 30
  /** A hit more than this long after the window opened starts a new window. */
  const CombatTimeout := 60
  /** Hits older than this are pruned, and the burst reading looks back this far. */
  const BurstWindow := 4
  const LootableCorpse := "Lootable Corpse"
  const UnknownZone := "Unknown"

  /** Every field of the tracker state. */
  datatype View = View(
    xp: int,
    level: int,
    credits: int,
    zone: string,
    chat: seq<string>,
    loot: seq<string>,
    biggestCrit: int,
    latestCrit: int,
    latencyMs: int,
    playersOnline: int,
    startTime: int,
    hits: seq<TimedHit>,
    totalDamage: int,
    combatStart: int,
    lastHitTime: int,
    combatDps: seq<real>,
    burstDps: int,
    sessionDps: int)

  /** A fresh state: level 1 in zone "Unknown", started at `now`, everything else zero or empty. */
  function Initial(now: int): View {
    View(0, 1, 0, UnknownZone, [], [], 0, 0, 0, 0, now, [], 0, 0, 0, [], 0, 0)
  }

  /** What every operation keeps: the list bounds, a known zone, and the biggest crit at least the latest. */
  predicate Inv(v: View) {
    && |v.chat| <= MaxChatLines
    && |v.loot| <= MaxLootItems
    && |v.combatDps| <= MaxCombats
    && v.zone != []
    && v.biggestCrit >= v.latestCrit
  }

  // ---------------------------------------------------------------------
  // Bounded FIFO lists
  // ---------------------------------------------------------------------

  /** The last `n` entries of `s` (all of them when there are no more than `n`). */
  function Newest<T>(s: seq<T>, n: nat): seq<T> {
    if |s| <= n then s else s[|s| - n..]
  }

  /** Appends `x` and keeps only the newest `cap` entries. */
  function PushCapped<T>(s: seq<T>, x: T, cap: nat): (r: seq<T>)
    requires cap >= 1
    ensures |r| == if |s| + 1 <= cap then |s| + 1 else cap
    ensures r[|r| - 1] == x
    ensures r[..|r| - 1] == s[|s| - (|r| - 1)..]
  {
    var t := s + [x];
    if |t| > cap then
      assert t[|t| - cap..][..cap - 1] == s[|s| - (cap - 1)..];
      Newest(t, cap)
    else
      assert t[..|t| - 1] == s;
      Newest(t, cap)
  }

  /** Keeping the newest entries, then appending more and keeping the newest again, is keeping the newest of everything. */
  lemma NewestAppend<T>(s: seq<T>, t: seq<T>, n: nat)
    ensures Newest(Newest(s, n) + t, n) == Newest(s + t, n)
  {
    if |s| > n {
      var s' := s[|s| - n..];
      var u, w := s' + t, s + t;
      assert |u| >= n;
      assert s == s[..|s| - n] + s';
      assert w == s[..|s| - n] + u;
      SuffixOfAppend(s[..|s| - n], u, n);
    }
  }

  lemma SuffixOfAppend<T>(p: seq<T>, u: seq<T>, n: nat)
    requires n <= |u|
    ensures (p + u)[|p + u| - n..] == u[|u| - n..]
  {
  }

  /** One step of the line window: append, then drop the oldest when over `n`. */
  lemma NewestSnoc<T>(s: seq<T>, x: T, n: nat)
    ensures var t := Newest(s, n) + [x];
      (if |t| > n then t[1..] else t) == Newest(s + [x], n)
  {
    NewestAppend(s, [x], n);
  }

  // ---------------------------------------------------------------------
  // Counters, zone and latency
  // ---------------------------------------------------------------------

  function AddXP(v: View, amount: int): View {
    v.(xp := v.xp + amount)
  }

  function AddCredits(v: View, amount: int): View {
    v.(credits := v.credits + amount)
  }

  /** An empty zone name is ignored. */
  function SetZone(v: View, zone: string): View {
    if zone != [] then v.(zone := zone) else v
  }

  /** A negative latency is ignored. */
  function SetLatency(v: View, ms: int): View {
    if ms >= 0 then v.(latencyMs := ms) else v
  }

  // ---------------------------------------------------------------------
  // Damage history
  // ---------------------------------------------------------------------

  /** The hits at or after `cutoff`, in their order. */
  function Prune(hs: seq<TimedHit>, cutoff: int): (r: seq<TimedHit>)
    ensures |r| <= |hs|
    ensures forall k :: 0 <= k < |r| ==> r[k].time >= cutoff
  {
    if hs == [] then []
    else
      var last := hs[|hs| - 1];
      Prune(hs[..|hs| - 1], cutoff) + (if last.time >= cutoff then [last] else [])
  }

  /** A hit survives pruning exactly when it was there and is recent enough. */
  lemma {:induction false} PruneMembers(hs: seq<TimedHit>, cutoff: int)
    ensures forall h :: h in Prune(hs, cutoff) <==> h in hs && h.time >= cutoff
  {
    if hs != [] {
      var init, last := hs[..|hs| - 1], hs[|hs| - 1];
      PruneMembers(init, cutoff);
      assert hs == init + [last];
    }
  }

  /** Pruning works hit by hit, so it keeps the relative order of what it keeps. */
  lemma {:induction false} PruneAppend(a: seq<TimedHit>, b: seq<TimedHit>, cutoff: int)
    decreases |b|
    ensures Prune(a + b, cutoff) == Prune(a, cutoff) + Prune(b, cutoff)
  {
    if b == [] {
      assert a + b == a;
    } else {
      var init, last := b[..|b| - 1], b[|b| - 1];
      var tail := if last.time >= cutoff then [last] else [];
      PruneAppend(a, init, cutoff);
      assert (a + b)[..|a + b| - 1] == a + init && (a + b)[|a + b| - 1] == last;
      calc {
        Prune(a + b, cutoff);
        Prune(a + init, cutoff) + tail;
        Prune(a, cutoff) + Prune(init, cutoff) + tail;
        Prune(a, cutoff) + (Prune(init, cutoff) + tail);
        Prune(a, cutoff) + Prune(b, cutoff);
      }
    }
  }

  /** Hits that are all recent enough are kept as they are. */
  lemma {:induction false} PruneAllRecent(hs: seq<TimedHit>, cutoff: int)
    requires forall k :: 0 <= k < |hs| ==> hs[k].time >= cutoff
    ensures Prune(hs, cutoff) == hs
  {
    if hs != [] {
      PruneAllRecent(hs[..|hs| - 1], cutoff);
      assert hs[..|hs| - 1] + [hs[|hs| - 1]] == hs;
    }
  }

  // ---------------------------------------------------------------------
  // Recording a hit
  // ---------------------------------------------------------------------

  /** Whether a hit at `now` opens a new combat window: none is open, or the open one began more than the timeout ago. */
  predicate Restarts(v: View, now: int) {
    v.combatStart == 0 || now - v.combatStart > CombatTimeout
  }

  /** The crit part of `UpdateCrit`: the latest crit, and the biggest one so far. */
  function NoteCrit(v: View, damage: int): View {
    v.(latestCrit := damage, biggestCrit := if damage > v.biggestCrit then damage else v.biggestCrit)
  }

  /** The combat-window part of `UpdateCrit`: a new window when none is open or the open one timed out, then the damage added. */
  function ExtendWindow(v: View, damage: int, now: int): View {
    var restart := Restarts(v, now);
    v.(combatStart := if restart then now else v.combatStart,
       totalDamage := (if restart then 0 else v.totalDamage) + damage,
       lastHitTime := now)
  }

  /** The crit and combat-window part of `UpdateCrit`. */
  function TrackCrit(v: View, damage: int, now: int): View {
    ExtendWindow(NoteCrit(v, damage), damage, now)
  }

  /** `UpdateCrit`: crit tracking, the combat window, and the history with the new hit, pruned to the window. */
  function RecordHit(v: View, damage: int, now: int): View {
    TrackCrit(v, damage, now).(hits := Prune(v.hits + [TimedHit(now, damage)], now - BurstWindow))
  }

  /** The latest crit is the new damage, and the biggest crit is the larger of the old one and it. */
  lemma RecordHitCrit(v: View, damage: int, now: int)
    ensures var r := RecordHit(v, damage, now);
      r.latestCrit == damage && r.biggestCrit >= damage && r.biggestCrit >= v.biggestCrit &&
      (r.biggestCrit == damage || r.biggestCrit == v.biggestCrit)
  {
  }

  /** The combat window restarts with this hit's damage, or keeps its start and adds the damage. */
  lemma RecordHitWindow(v: View, damage: int, now: int)
    ensures var r := RecordHit(v, damage, now);
      (Restarts(v, now) ==> r.combatStart == now && r.totalDamage == damage) &&
      (!Restarts(v, now) ==> r.combatStart == v.combatStart && r.totalDamage == v.totalDamage + damage)
  {
  }

  /**
   * The new history is the old one pruned to the window, followed by the
   * new hit: the old hits keep their order and the new hit comes last.
   */
  lemma RecordHitHistory(v: View, damage: int, now: int)
    ensures RecordHit(v, damage, now).hits == Prune(v.hits, now - BurstWindow) + [TimedHit(now, damage)]
  {
    PruneRecentLast(v.hits, TimedHit(now, damage), now - BurstWindow);
  }

  /** The hits after a hit are the new one and those of the old ones inside the window. */
  lemma RecordHitMembers(v: View, damage: int, now: int)
    ensures forall h :: h in RecordHit(v, damage, now).hits <==>
      (h in v.hits && h.time >= now - BurstWindow) || h == TimedHit(now, damage)
  {
    RecordHitHistory(v, damage, now);
    PruneMembers(v.hits, now - BurstWindow);
  }

  /** A recent enough hit appended last survives pruning, last. */
  lemma PruneRecentLast(hs: seq<TimedHit>, hit: TimedHit, cutoff: int)
    requires hit.time >= cutoff
    ensures Prune(hs + [hit], cutoff) == Prune(hs, cutoff) + [hit]
  {
    assert (hs + [hit])[..|hs|] == hs;
  }

  // ---------------------------------------------------------------------
  // Burst and session DPS
  // ---------------------------------------------------------------------

  /** `int(float64(a) / float64(b))` for a positive divisor: the quotient rounded toward zero. */
  function TruncDiv(a: int, b: int): int
    requires b > 0
  {
    if a >= 0 then a / b else -((-a) / b)
  }

  /** Rounding toward zero is symmetric: a negated dividend gives the negated quotient. */
  lemma TruncDivOdd(a: int, b: int)
    requires b > 0
    ensures TruncDiv(-a, b) == -TruncDiv(a, b)
  {
  }

  /** For a non-negative dividend the quotient is the largest `q` with `q * b <= a`. */
  lemma TruncDivBounds(a: int, b: int)
    requires a >= 0 && b > 0
    ensures var q := TruncDiv(a, b); 0 <= q && q * b <= a < q * b + b
  {
    var q, r := a / b, a % b;
    assert a == q * b + r && 0 <= r < b;
  }

  /** The damage of the hits at or after `lo`. */
  function WindowTotal(hs: seq<TimedHit>, lo: int): int {
    if hs == [] then 0
    else
      var last := hs[|hs| - 1];
      WindowTotal(hs[..|hs| - 1], lo) + (if last.time >= lo then last.amount else 0)
  }

  /** The earliest time of a hit at or after `lo`, starting the search from `start`. */
  function Earliest(hs: seq<TimedHit>, lo: int, start: int): (e: int)
    ensures e <= start
    ensures forall k :: 0 <= k < |hs| && hs[k].time >= lo ==> e <= hs[k].time
    ensures e == start || exists k :: 0 <= k < |hs| && hs[k].time >= lo && hs[k].time == e
  {
    if hs == [] then start
    else
      var init, last := hs[..|hs| - 1], hs[|hs| - 1];
      var e := Earliest(init, lo, start);
      assert forall k :: 0 <= k < |init| ==> init[k] == hs[k];
      if last.time >= lo && last.time < e then last.time else e
  }

  /** The burst divisor: the time since the earliest hit in the window, at least 1. */
  function BurstSpan(hs: seq<TimedHit>, now: int): int {
    var d := now - Earliest(hs, now - BurstWindow, now);
    if d < 1 then 1 else d
  }

  /** `calculateBurstDPSLocked`: the damage of the last window over its span, or the previous reading when there is none. */
  function BurstDps(v: View, now: int): int {
    var total := WindowTotal(v.hits, now - BurstWindow);
    if total == 0 then v.burstDps else TruncDiv(total, BurstSpan(v.hits, now))
  }

  /** `calculateSessionDPSLocked`: the window's damage over the time since it opened, or the previous reading. */
  function SessionDps(v: View, now: int): int {
    if v.combatStart == 0 || now - v.combatStart < 1 then v.sessionDps
    else TruncDiv(v.totalDamage, now - v.combatStart)
  }

  /** `UpdateDPS`: both readings refreshed. */
  function RefreshDps(v: View, now: int): View {
    v.(burstDps := BurstDps(v, now), sessionDps := SessionDps(v, now))
  }

  /** The burst divisor never exceeds the window when no hit lies in the future. */
  lemma BurstSpanBounds(hs: seq<TimedHit>, now: int)
    requires forall k :: 0 <= k < |hs| ==> hs[k].time <= now
    ensures 1 <= BurstSpan(hs, now) <= BurstWindow
  {
    var e := Earliest(hs, now - BurstWindow, now);
    if e != now {
      var k :| 0 <= k < |hs| && hs[k].time >= now - BurstWindow && hs[k].time == e;
    }
  }

  /** Hits outside the window add nothing to its total, so pruning to the window leaves the total alone. */
  lemma {:induction false} WindowTotalPrune(hs: seq<TimedHit>, cutoff: int, lo: int)
    requires cutoff <= lo
    ensures WindowTotal(Prune(hs, cutoff), lo) == WindowTotal(hs, lo)
  {
    if hs != [] {
      var init, last := hs[..|hs| - 1], hs[|hs| - 1];
      WindowTotalPrune(init, cutoff, lo);
      var p := Prune(init, cutoff);
      if last.time >= cutoff {
        assert (p + [last])[..|p|] == p;
      } else {
        assert p + [] == p;
      }
    }
  }

  /** Hits outside the window do not move its earliest time, so pruning to the window leaves it alone. */
  lemma {:induction false} EarliestPrune(hs: seq<TimedHit>, cutoff: int, lo: int, start: int)
    requires cutoff <= lo
    ensures Earliest(Prune(hs, cutoff), lo, start) == Earliest(hs, lo, start)
  {
    if hs != [] {
      var init, last := hs[..|hs| - 1], hs[|hs| - 1];
      EarliestPrune(init, cutoff, lo, start);
      var p := Prune(init, cutoff);
      if last.time >= cutoff {
        assert (p + [last])[..|p|] == p;
      } else {
        assert p + [] == p;
      }
    }
  }

  /** Pruning at a hit never changes a burst reading taken at the same time. */
  lemma BurstDpsIgnoresPrune(v: View, now: int)
    ensures BurstDps(v.(hits := Prune(v.hits, now - BurstWindow)), now) == BurstDps(v, now)
  {
    WindowTotalPrune(v.hits, now - BurstWindow, now - BurstWindow);
    EarliestPrune(v.hits, now - BurstWindow, now - BurstWindow, now);
  }

  /** With no negative amounts the window total is never negative. */
  lemma {:induction false} WindowTotalNonNegative(hs: seq<TimedHit>, lo: int)
    requires forall k :: 0 <= k < |hs| ==> hs[k].amount >= 0
    ensures WindowTotal(hs, lo) >= 0
  {
    if hs != [] {
      WindowTotalNonNegative(hs[..|hs| - 1], lo);
    }
  }

  /**
   * Right after a positive hit (and with no negative amounts before it),
   * the burst reading is a fresh quotient over a span between 1 and the
   * window, never the previous reading.
   */
  lemma BurstAfterHit(v: View, damage: int, now: int)
    requires damage > 0
    requires forall k :: 0 <= k < |v.hits| ==> v.hits[k].amount >= 0 && v.hits[k].time <= now
    ensures var r := RecordHit(v, damage, now);
      var total := WindowTotal(r.hits, now - BurstWindow);
      total >= damage && 1 <= BurstSpan(r.hits, now) <= BurstWindow &&
      BurstDps(r, now) == TruncDiv(total, BurstSpan(r.hits, now))
  {
    RecordHitHistory(v, damage, now);
    PruneKeepsPast(v.hits, now - BurstWindow, now);
    WindowWithNewHit(Prune(v.hits, now - BurstWindow), damage, now);
  }

  /** Pruning keeps amounts non-negative and times not in the future. */
  lemma PruneKeepsPast(hs: seq<TimedHit>, cutoff: int, now: int)
    requires forall k :: 0 <= k < |hs| ==> hs[k].amount >= 0 && hs[k].time <= now
    ensures var p := Prune(hs, cutoff);
      forall k :: 0 <= k < |p| ==> p[k].amount >= 0 && p[k].time <= now
  {
    var p := Prune(hs, cutoff);
    PruneMembers(hs, cutoff);
    forall k | 0 <= k < |p| ensures p[k].amount >= 0 && p[k].time <= now {
      assert p[k] in hs;
    }
  }

  /** A positive hit at `now` appended to past, non-negative hits. */
  lemma WindowWithNewHit(p: seq<TimedHit>, damage: int, now: int)
    requires damage > 0
    requires forall k :: 0 <= k < |p| ==> p[k].amount >= 0 && p[k].time <= now
    ensures var hs := p + [TimedHit(now, damage)];
      WindowTotal(hs, now - BurstWindow) >= damage && 1 <= BurstSpan(hs, now) <= BurstWindow
  {
    var hs := p + [TimedHit(now, damage)];
    WindowTotalNonNegative(p, now - BurstWindow);
    assert hs[..|p|] == p;
    BurstSpanBounds(hs, now);
  }

  /** An idle window, or one that opened less than one unit ago, keeps the previous session reading. */
  lemma SessionDpsFallback(v: View, now: int)
    ensures v.combatStart == 0 || now - v.combatStart < 1 ==> SessionDps(v, now) == v.sessionDps
    ensures v.combatStart != 0 && now - v.combatStart >= 1 && v.totalDamage >= 0 ==>
      0 <= SessionDps(v, now) <= v.totalDamage
  {
  }

  // ---------------------------------------------------------------------
  // Chat and loot
  // ---------------------------------------------------------------------

  function AddChat(v: View, msg: string): View {
    v.(chat := PushCapped(v.chat, msg, MaxChatLines))
  }

  /** "Lootable Corpse" is not an item. */
  function AddLoot(v: View, item: string): View {
    if item == LootableCorpse then v else v.(loot := PushCapped(v.loot, item, MaxLootItems))
  }

  // ---------------------------------------------------------------------
  // End of combat
  // ---------------------------------------------------------------------

  /**
   * The encounter DPS of the finalize step: the window's damage over its
   * duration, clamped to at least 1 and divided by 1000 as milliseconds.
   */
  function EncounterDps(total: int, start: int, lastHit: int): real {
    var dur := if lastHit - start < 1 then 1 else lastHit - start;
    total as real / (dur as real / 1000.0)
  }

  /** Whether the finalize step acts: a window is open and no hit came after the remains message. */
  predicate Finishes(v: View, remainsTime: int) {
    v.combatStart != 0 && v.lastHitTime <= remainsTime
  }

  /** The finalize step: record the encounter DPS (newest 30 kept) and close the window. */
  function FinalizeCombat(v: View, remainsTime: int): View {
    if Finishes(v, remainsTime) then
      v.(combatDps := PushCapped(v.combatDps, EncounterDps(v.totalDamage, v.combatStart, v.lastHitTime), MaxCombats),
         combatStart := 0,
         lastHitTime := 0,
         totalDamage := 0)
    else v
  }

  /**
   * Finalizing either changes nothing, or appends exactly the encounter
   * DPS (keeping the newest earlier entries in order, 30 at most), closes
   * the window and leaves every other field alone.
   */
  lemma FinalizeEffect(v: View, remainsTime: int)
    ensures var r := FinalizeCombat(v, remainsTime);
      (!Finishes(v, remainsTime) ==> r == v) &&
      (Finishes(v, remainsTime) ==>
        && |r.combatDps| == (if |v.combatDps| < MaxCombats then |v.combatDps| + 1 else MaxCombats)
        && r.combatDps[|r.combatDps| - 1] == EncounterDps(v.totalDamage, v.combatStart, v.lastHitTime)
        && r.combatDps[..|r.combatDps| - 1] == v.combatDps[|v.combatDps| - (|r.combatDps| - 1)..]
        && r.combatStart == 0 && r.lastHitTime == 0 && r.totalDamage == 0
        && r.(combatDps := v.combatDps, combatStart := v.combatStart,
              lastHitTime := v.lastHitTime, totalDamage := v.totalDamage) == v)
  {
  }

  /** The encounter DPS times the duration in thousands is the window's damage. */
  lemma EncounterDpsScaled(total: int, start: int, lastHit: int)
    ensures var dur := if lastHit - start < 1 then 1 else lastHit - start;
      EncounterDps(total, start, lastHit) * (dur as real) == 1000.0 * total as real
  {
  }

  // ---------------------------------------------------------------------
  // Runs of operations
  // ---------------------------------------------------------------------

  /** One call of a locked method of the state. */
  datatype Op =
    | GainXP(xpAmount: int)
    | GainCredits(creditAmount: int)
    | EnterZone(name: string)
    | Ping(ms: int)
    | Hit(damage: int, at: int)
    | Refresh(clock: int)
    | Say(msg: string)
    | Loot(item: string)
    | EndCombat(remainsTime: int)

  function Apply(v: View, op: Op): View {
    match op
    case GainXP(n) => AddXP(v, n)
    case GainCredits(n) => AddCredits(v, n)
    case EnterZone(z) => SetZone(v, z)
    case Ping(ms) => SetLatency(v, ms)
    case Hit(d, now) => RecordHit(v, d, now)
    case Refresh(now) => RefreshDps(v, now)
    case Say(msg) => AddChat(v, msg)
    case Loot(item) => AddLoot(v, item)
    case EndCombat(t) => FinalizeCombat(v, t)
  }

  /** The calls in order. */
  function Run(v: View, ops: seq<Op>): View
    decreases |ops|
  {
    if ops == [] then v else Run(Apply(v, ops[0]), ops[1..])
  }

  lemma ApplyKeepsInv(v: View, op: Op)
    requires Inv(v)
    ensures Inv(Apply(v, op))
  {
  }

  /** Every run from a valid state, the initial one included, ends in a valid state. */
  lemma {:induction false} RunKeepsInv(v: View, ops: seq<Op>)
    requires Inv(v)
    decreases |ops|
    ensures Inv(Run(v, ops))
  {
    if ops != [] {
      ApplyKeepsInv(v, ops[0]);
      RunKeepsInv(Apply(v, ops[0]), ops[1..]);
    }
  }

  lemma InitialInv(now: int)
    ensures Inv(Initial(now))
  {
  }

  /** Calls that never add a negative amount never decrease XP or credits. */
  lemma {:induction false} RunCountersGrow(v: View, ops: seq<Op>)
    requires forall k :: 0 <= k < |ops| ==>
      (ops[k].GainXP? ==> ops[k].xpAmount >= 0) && (ops[k].GainCredits? ==> ops[k].creditAmount >= 0)
    decreases |ops|
    ensures Run(v, ops).xp >= v.xp && Run(v, ops).credits >= v.credits
  {
    if ops != [] {
      RunCountersGrow(Apply(v, ops[0]), ops[1..]);
    }
  }
}
