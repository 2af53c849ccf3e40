/**
 * What one log line does to the session: the effect of a chat line, of a
 * system line and of a loot line, and the zone the tracker starts in, each
 * as a function on the session value. The tracker's handlers are proved
 * against these.
 */
module Dispatch {
  import opened Text
  import opened Classify
  import opened Session

  const RemainsMessage := "You can loot these remains."
  const Received := "You received"
  const HitPrefix := "You hit"
  const CritPrefix := "You critically hit"

  /** How many lines of each log the initial zone scan looks at. */
  const ZoneScanLines := 50

  // ---------------------------------------------------------------------
  // Chat lines
  // ---------------------------------------------------------------------

  /** The sender of a chat line: read from the metadata prefix when the line has one. */
  function ChatSpeaker(line: string): string {
    if ']' in line then Speaker(SplitLine(line).meta) else []
  }

  /** The body of a chat line with tags stripped and whitespace normalised. */
  function ChatText(line: string): string {
    CleanHTML(SplitLine(line).body)
  }

  /** The chat log entry for a message from `name`. */
  function ChatEntry(name: string, text: string): string {
    "[" + name + "] " + text
  }

  /** What a message does: a zone change it announces, then the message itself when it has a sender. */
  function Said(v: View, name: string, text: string): View {
    var z := SetZone(v, ParseZone(text));
    if name != [] then AddChat(z, ChatEntry(name, text)) else z
  }

  /** The effect of a chat line. */
  function ChatEffect(v: View, line: string): View {
    Said(v, ChatSpeaker(line), ChatText(line))
  }

  /** Whether a chat line schedules the end-of-combat step: the remains message while a window is open. */
  predicate SchedulesFinalize(v: View, line: string) {
    Contains(ChatText(line), RemainsMessage) && v.combatStart != 0
  }

  /**
   * A message changes the zone only to a non-empty name it announces
   * after "Entering", adds exactly one entry, "[sender] text", when it has
   * a sender and none otherwise, and changes nothing else.
   */
  lemma SaidShape(v: View, name: string, text: string)
    ensures var r := Said(v, name, text);
      && (ParseZone(text) != [] ==> r.zone == ParseZone(text))
      && (ParseZone(text) == [] ==> r.zone == v.zone)
      && (v.zone != [] ==> r.zone != [])
      && (!Contains(text, Entering) ==> r.zone == v.zone)
      && (name == [] ==> r.chat == v.chat)
      && (name != [] ==>
            && |r.chat| == (if |v.chat| < MaxChatLines then |v.chat| + 1 else MaxChatLines)
            && r.chat[|r.chat| - 1] == ChatEntry(name, text)
            && r.chat[..|r.chat| - 1] == v.chat[|v.chat| - (|r.chat| - 1)..])
      && r.(zone := v.zone, chat := v.chat) == v
  {
    ParseZoneShape(text);
  }

  /** A line with no closing bracket has no sender and is never logged. */
  lemma UnbracketedChatNotLogged(v: View, line: string)
    requires ']' !in line
    ensures ChatEffect(v, line).chat == v.chat
  {
  }

  /** The metadata of a chat line from `m`, with no `]` inside its fields. */
  predicate BracketFree(m: Meta) {
    Avoids(m.channelId, ']') && Avoids(m.channel, ']') && Avoids(m.sender, ']')
  }

  lemma {:induction false} ConcatSnoc(ts: seq<string>, t: string)
    decreases |ts|
    ensures Concat(ts + [t]) == Concat(ts) + t
  {
    if ts != [] {
      assert (ts + [t])[1..] == ts[1..] + [t];
      ConcatSnoc(ts[1..], t);
    }
  }

  lemma {:induction false} ConcatAvoids(ts: seq<string>, c: char)
    requires forall k :: 0 <= k < |ts| ==> Avoids(ts[k], c)
    decreases |ts|
    ensures Avoids(Concat(ts), c)
  {
    if ts != [] {
      ConcatAvoids(ts[1..], c);
      var r := Concat(ts[1..]);
      assert Avoids(ts[0], c);
      forall k | 0 <= k < |ts[0] + r| ensures (ts[0] + r)[k] != c {
        if k >= |ts[0]| {
          assert (ts[0] + r)[k] == r[k - |ts[0]|];
        }
      }
    }
  }

  /** A rendered metadata prefix ends with its only `]`. */
  lemma RenderMetaBracket(m: Meta)
    requires WellFormedMeta(m) && BracketFree(m)
    ensures var s := RenderMeta(m);
      |s| >= 1 && s[|s| - 1] == ']' && ']' !in s[..|s| - 1]
  {
    var ts := MetaTexts(m);
    var head := ts[..8];
    assert ts == head + ["]"];
    ConcatSnoc(head, "]");
    forall k | 0 <= k < |head| ensures Avoids(head[k], ']') {
      if k == 7 {
        assert forall j :: 0 <= j < |m.stamp| ==> IsDigit(m.stamp[j]);
      }
    }
    ConcatAvoids(head, ']');
    var s := RenderMeta(m);
    assert s[..|s| - 1] == Concat(head);
  }

  /**
   * A chat line written as its metadata, a space and a message reads as
   * the metadata's sender saying the message, cleaned of tags and extra
   * spaces.
   */
  lemma ChatOfRenderedLine(v: View, m: Meta, body: string)
    requires WellFormedMeta(m) && BracketFree(m)
    requires body == [] || (body[0] !in UnicodeSpace && body[|body| - 1] !in UnicodeSpace)
    ensures ChatEffect(v, RenderMeta(m) + " " + body) == Said(v, m.sender, CleanHTML(body))
  {
    var line := RenderMeta(m) + " " + body;
    RenderMetaBracket(m);
    SplitLineRoundTrip(RenderMeta(m), body);
    assert line[|RenderMeta(m)| - 1] == ']';
    SpeakerOfRenderedMeta(m);
  }

  // ---------------------------------------------------------------------
  // System lines
  // ---------------------------------------------------------------------

  /** The body of a system line: the text after its first `]`, trimmed, or the whole line. */
  function SystemBody(line: string): string {
    SplitLine(line).body
  }

  /** The XP a body awards: its first number, when it says "You received" and "xp" and the number is positive. */
  function XpGain(body: string): nat {
    var n := ExtractFirstNumber(body);
    if Contains(body, Received) && Contains(body, "xp") && n > 0 then n else 0
  }

  /** The credits a body awards, by the same rule with "credits". */
  function CreditGain(body: string): nat {
    var n := ExtractFirstNumber(body);
    if Contains(body, Received) && Contains(body, "credits") && n > 0 then n else 0
  }

  /** The damage of a hit the player made: the first number of a body that starts "You hit" or "You critically hit". */
  function HitDamage(body: string): nat {
    var n := ExtractFirstNumber(body);
    if (HasPrefix(body, HitPrefix) || HasPrefix(body, CritPrefix)) && n > 0 then n else 0
  }

  /** XP, then credits, then a hit, each applied only when positive. */
  function Awards(v: View, xp: nat, credits: nat, damage: nat, now: int): View {
    var b := Receive(v, xp, credits);
    if damage > 0 then RecordHit(b, damage, now) else b
  }

  /** XP, then credits, each applied only when positive. */
  function Receive(v: View, xp: nat, credits: nat): View {
    var a := if xp > 0 then AddXP(v, xp) else v;
    if credits > 0 then AddCredits(a, credits) else a
  }

  /** The effect of a system line. */
  function SystemEffect(v: View, line: string, now: int): View {
    var body := SystemBody(line);
    Awards(v, XpGain(body), CreditGain(body), HitDamage(body), now)
  }

  /**
   * The awards add to the counters; a hit of the given damage at `now` is
   * recorded exactly when the damage is positive, and otherwise nothing but
   * the counters changes.
   */
  lemma AwardsShape(v: View, xp: nat, credits: nat, damage: nat, now: int)
    ensures var r := Awards(v, xp, credits, damage, now);
      && r.xp == v.xp + xp
      && r.credits == v.credits + credits
      && (damage == 0 ==> r == v.(xp := r.xp, credits := r.credits))
      && (damage > 0 ==>
            && r == RecordHit(v, damage, now).(xp := r.xp, credits := r.credits)
            && r.latestCrit == damage
            && |r.hits| > 0 && r.hits[|r.hits| - 1] == TimedHit(now, damage))
  {
    if damage > 0 {
      var b := Receive(v, xp, credits);
      assert b == v.(xp := b.xp, credits := b.credits);
      RecordHitCrit(b, damage, now);
      RecordHitHistory(b, damage, now);
    }
  }

  /** XP is awarded exactly when the body says "You received" and "xp" and has a positive number. */
  lemma XpGainIff(body: string)
    ensures XpGain(body) > 0 <==>
      Contains(body, Received) && Contains(body, "xp") && ExtractFirstNumber(body) > 0
    ensures XpGain(body) > 0 ==> exists k :: 0 <= k < |body| && IsDigit(body[k])
  {
    if XpGain(body) > 0 {
      PositiveNumberHasDigit(body);
    }
  }

  /** A line that awards both XP and credits awards the same number of each: the first number of the line. */
  lemma BothAwardsSameNumber(body: string)
    requires XpGain(body) > 0 && CreditGain(body) > 0
    ensures XpGain(body) == CreditGain(body) == ExtractFirstNumber(body)
  {
  }

  /** A hit is recorded exactly when the body starts with a player hit prefix and has a positive number. */
  lemma HitDamageIff(body: string)
    ensures HitDamage(body) > 0 <==>
      (HasPrefix(body, HitPrefix) || HasPrefix(body, CritPrefix)) && ExtractFirstNumber(body) > 0
    ensures HitDamage(body) > 0 ==> HasPrefix(body, HitPrefix) || HasPrefix(body, "You critically")
  {
  }

  /** A message about someone else's hit ("X hit you ...") is never counted as damage. */
  lemma OthersHitsIgnored(body: string)
    requires body == [] || body[0] != 'Y'
    ensures HitDamage(body) == 0
  {
    assert HitPrefix[0] == 'Y' && CritPrefix[0] == 'Y';
  }

  /** "You received N xp." with a positive N awards N XP. */
  lemma XpOfWrittenAward(n: nat)
    requires n > 0
    ensures XpGain(Received + " " + Decimal(n) + " xp.") == n
  {
    var pre := Received + " ";
    var body := pre + Decimal(n) + " xp.";
    assert forall k :: 0 <= k < |pre| ==> !IsDigit(pre[k]);
    ExtractWrittenNumber(pre, n, " xp.");
    assert OccursAt(body, Received, 0) by {
      assert body[..|Received|] == Received;
    }
    var at := |pre| + |Decimal(n)| + 1;
    assert OccursAt(body, "xp", at) by {
      assert body[at..at + 2] == "xp";
    }
  }

  /** "You hit T for N points of damage." with a positive N and a target without digits records a hit of N. */
  lemma DamageOfWrittenHit(target: string, n: nat)
    requires n > 0 && forall k :: 0 <= k < |target| ==> !IsDigit(target[k])
    ensures HitDamage(HitPrefix + " " + target + " for " + Decimal(n) + " points of damage.") == n
  {
    var pre := HitPrefix + " " + target + " for ";
    var body := pre + Decimal(n) + " points of damage.";
    assert HitPrefix + " " + target + " for " + Decimal(n) + " points of damage." == body;
    forall k | 0 <= k < |pre| ensures !IsDigit(pre[k]) {
      if 8 <= k < 8 + |target| {
        assert pre[k] == target[k - 8];
      }
    }
    ExtractWrittenNumber(pre, n, " points of damage.");
    assert body[..|HitPrefix|] == HitPrefix;
  }

  // ---------------------------------------------------------------------
  // Loot lines
  // ---------------------------------------------------------------------

  /**
   * The items of a loot line: the cleaned text of each item link, left to
   * right. Each item is plain text: no tag, single spaces, trimmed.
   */
  function LootItems(line: string): (items: seq<string>)
    ensures forall k :: 0 <= k < |items| ==> NoTag(items[k]) && Collapsed(items[k])
    ensures forall k :: 0 <= k < |items| && items[k] != [] ==>
      items[k][0] !in UnicodeSpace && items[k][|items[k]| - 1] !in UnicodeSpace
  {
    seq(|LootTexts(line, 0)|, k requires 0 <= k < |LootTexts(line, 0)| => CleanHTML(LootTexts(line, 0)[k]))
  }

  /** Adds the items in order. */
  function AddLoots(v: View, items: seq<string>): View
    decreases |items|
  {
    if items == [] then v else AddLoots(Session.AddLoot(v, items[0]), items[1..])
  }

  /** The effect of a loot line. */
  function LootEffect(v: View, line: string): View {
    AddLoots(v, LootItems(line))
  }

  /** The items that are not corpses. */
  function Kept(items: seq<string>): (r: seq<string>)
    ensures forall k :: 0 <= k < |r| ==> r[k] != LootableCorpse
    ensures |r| <= |items|
  {
    if items == [] then []
    else (if items[0] == LootableCorpse then [] else [items[0]]) + Kept(items[1..])
  }

  /**
   * Adding items one by one leaves the newest 20 of the old loot followed
   * by the items that are not corpses, in order, and changes nothing else.
   */
  lemma {:induction false} AddLootsNewest(v: View, items: seq<string>)
    requires |v.loot| <= MaxLootItems
    decreases |items|
    ensures AddLoots(v, items) == v.(loot := Newest(v.loot + Kept(items), MaxLootItems))
  {
    if items == [] {
      assert v.loot + [] == v.loot;
    } else {
      var x, rest := items[0], items[1..];
      var w := Session.AddLoot(v, x);
      AddLootsNewest(w, rest);
      if x == LootableCorpse {
        assert Kept(items) == Kept(rest);
      } else {
        assert Kept(items) == [x] + Kept(rest);
        assert w.loot == Newest(v.loot + [x], MaxLootItems);
        NewestAppend(v.loot + [x], Kept(rest), MaxLootItems);
        assert v.loot + [x] + Kept(rest) == v.loot + Kept(items);
      }
    }
  }

  /** A loot line keeps at most 20 items and never records a corpse it lists. */
  lemma LootEffectBounded(v: View, line: string)
    requires |v.loot| <= MaxLootItems
    ensures |LootEffect(v, line).loot| <= MaxLootItems
    ensures LootEffect(v, line).(loot := v.loot) == v
    ensures forall k :: 0 <= k < |LootEffect(v, line).loot| && LootEffect(v, line).loot[k] == LootableCorpse ==>
      k < |v.loot| && LootableCorpse in v.loot
  {
    var items := LootItems(line);
    AddLootsNewest(v, items);
    var all := v.loot + Kept(items);
    var r := Newest(all, MaxLootItems);
    forall k | 0 <= k < |r| && r[k] == LootableCorpse ensures k < |v.loot| && LootableCorpse in v.loot {
      var i := |all| - |r| + k;
      assert r[k] == all[i];
      assert v.loot[i] == LootableCorpse;
    }
  }

  /** The first item of a loot line that starts with an item link is that link's cleaned text. */
  lemma LootOfAnchor(v: View, pre: string, a: Anchor, post: string)
    requires Avoids(pre, '<')
    requires AnchorShape(a)
    ensures var items := LootItems(pre + RenderAnchor(a) + post);
      items != [] && items[0] == CleanHTML(a.text)
  {
    LootTextsOfAnchor(pre, a, post);
  }

  /**
   * A loot line made of item links separated by text without '<' yields
   * exactly the cleaned texts of those links, in order.
   */
  lemma LootItemsOfLinks(seps: seq<string>, links: seq<Anchor>, tail: string)
    requires |seps| == |links| && Avoids(tail, '<')
    requires forall k :: 0 <= k < |links| ==> Avoids(seps[k], '<') && AnchorShape(links[k])
    ensures var items := LootItems(RenderLinks(seps, links, tail));
      |items| == |links| && forall k :: 0 <= k < |links| ==> items[k] == CleanHTML(links[k].text)
  {
    LootTextsOfLinks(seps, links, tail);
  }

  // ---------------------------------------------------------------------
  // The initial zone
  // ---------------------------------------------------------------------

  /** The zone named by the newest line that names one, or "" when none does. */
  function LatestZone(lines: seq<string>): string
    decreases |lines|
  {
    if lines == [] then []
    else
      var z := ParseZone(lines[|lines| - 1]);
      if z != [] then z else LatestZone(lines[..|lines| - 1])
  }

  /** One more line at the end of a scan: it decides the zone when it names one. */
  lemma LatestZoneStep(lines: seq<string>, i: nat)
    requires i < |lines|
    ensures LatestZone(lines[..i + 1]) == if ParseZone(lines[i]) != [] then ParseZone(lines[i]) else LatestZone(lines[..i])
  {
    assert lines[..i + 1][..i] == lines[..i];
  }

  /**
   * The zone found is that of the line at `i` when it names one and no
   * later line does; it is "" (`i` = -1) when no line names one.
   */
  lemma {:induction false} LatestZoneAt(lines: seq<string>, i: int)
    requires -1 <= i < |lines|
    requires i >= 0 ==> ParseZone(lines[i]) != []
    requires forall k :: i < k < |lines| ==> ParseZone(lines[k]) == []
    decreases |lines|
    ensures LatestZone(lines) == if i < 0 then [] else ParseZone(lines[i])
  {
    if lines != [] && i < |lines| - 1 {
      var init := lines[..|lines| - 1];
      forall k | i < k < |init|
        ensures ParseZone(init[k]) == []
      {
        assert init[k] == lines[k];
      }
      if i >= 0 {
        assert init[i] == lines[i];
      }
      LatestZoneAt(init, i);
    }
  }

  /** The zone the last 50 lines of a log name, or "" when they name none or the log could not be read. */
  function LogZone(log: Option<seq<string>>): string {
    if log.Some? then LatestZone(Newest(log.value, ZoneScanLines)) else []
  }

  /** The zone the tracker starts in: the chat log's, else the system log's; "" when neither names one. */
  function InitialZone(chatLog: Option<seq<string>>, systemLog: Option<seq<string>>): (z: string)
    ensures z != [] ==> z == LogZone(chatLog) || z == LogZone(systemLog)
    ensures z == [] ==> LogZone(chatLog) == [] && LogZone(systemLog) == []
  {
    if LogZone(chatLog) != [] then LogZone(chatLog) else LogZone(systemLog)
  }

  /** A zone found in the chat log wins over the system log. */
  lemma ChatLogFirst(chatLog: seq<string>, systemLog: Option<seq<string>>)
    requires LogZone(Some(chatLog)) != []
    ensures InitialZone(Some(chatLog), systemLog) == LogZone(Some(chatLog))
  {
  }

  /** Lines older than the last 50 of a log never decide the zone. */
  lemma {:induction false} OldLinesIgnored(olderLines: seq<string>, recent: seq<string>)
    requires |recent| >= ZoneScanLines
    ensures LatestZone(Newest(olderLines + recent, ZoneScanLines)) == LatestZone(Newest(recent, ZoneScanLines))
  {
    var all := olderLines + recent;
    assert Newest(all, ZoneScanLines) == Newest(recent, ZoneScanLines) by {
      SuffixOfAppend(olderLines, recent, ZoneScanLines);
    }
  }
}
