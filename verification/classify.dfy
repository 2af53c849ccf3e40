/**
 * The pure text functions of the log tracker: splitting a line into its
 * bracketed metadata prefix and its body, reading the speaker out of the
 * metadata, the zone name after "Entering", the first decimal number of a
 * body, the HTML/whitespace normaliser and the loot anchors of a loot line.
 * Each regular expression of the tracker is written out by hand, following
 * Go's leftmost-first matching.
 */
module Classify {
  import opened Text

  datatype Option<T> = None | Some(value: T)

  // ---------------------------------------------------------------------
  // Zone names
  // ---------------------------------------------------------------------

  const Entering := "Entering"

  /** The cut set of the zone trim: double quote, single quote, space and period. */
  const ZoneCut: set<char> := {'"', '\'', ' ', '.'}

  /** The text after the first "Entering", trimmed of quotes, spaces and periods; "" when there is none. */
  function ParseZone(line: string): string {
    var idx := IndexOf(line, Entering);
    if idx == -1 then [] else Trim(line[idx + |Entering|..], ZoneCut)
  }

  /** A line without "Entering" names no zone; a zone never starts or ends with a quote, space or period. */
  lemma ParseZoneShape(line: string)
    ensures IndexOf(line, Entering) == -1 ==> ParseZone(line) == []
    ensures var z := ParseZone(line); z == [] || (z[0] !in ZoneCut && z[|z| - 1] !in ZoneCut)
  {
    var idx := IndexOf(line, Entering);
    if idx != -1 {
      var z := Trim(line[idx + |Entering|..], ZoneCut);
      TrimEnds(line[idx + |Entering|..], ZoneCut);
      assert ParseZone(line) == z;
    }
  }

  /**
   * A line whose first "Entering" is followed by a name padded with quotes,
   * spaces and periods yields exactly that name.
   */
  lemma ParseZoneOfEntering(prefix: string, left: string, name: string, right: string)
    requires forall j :: 0 <= j < |prefix| ==> !OccursAt(prefix + Entering, Entering, j)
    requires forall k :: 0 <= k < |left| ==> left[k] in ZoneCut
    requires forall k :: 0 <= k < |right| ==> right[k] in ZoneCut
    requires name == [] || (name[0] !in ZoneCut && name[|name| - 1] !in ZoneCut)
    ensures ParseZone(prefix + Entering + left + name + right) == name
  {
    var line := prefix + Entering + left + name + right;
    var head := prefix + Entering;
    assert line == head + (left + name + right);
    assert line[..|head|] == head;
    forall j | 0 <= j < |prefix| ensures !OccursAt(line, Entering, j) {
      assert line[j..j + |Entering|] == line[..|head|][j..j + |Entering|];
      assert !OccursAt(head, Entering, j);
    }
    assert OccursAt(line, Entering, |prefix|) by {
      assert line[|prefix|..|prefix| + |Entering|] == Entering;
    }
    assert IndexOf(line, Entering) == |prefix|;
    assert line[|prefix| + |Entering|..] == left + name + right;
    TrimPadded(left, name, right, ZoneCut);
  }

  // ---------------------------------------------------------------------
  // Metadata prefix and body
  // ---------------------------------------------------------------------

  /** A line cut at its first ']': the prefix up to and including it, and the trimmed rest. */
  datatype Split = Split(meta: string, body: string)

  function SplitLine(line: string): (r: Split)
    ensures ']' !in line ==> r == Split([], line)
    ensures ']' in line ==> 1 <= |r.meta| <= |line| && r.meta[|r.meta| - 1] == ']' && ']' !in r.meta[..|r.meta| - 1]
    ensures ']' in line ==> 1 <= |r.meta| <= |line| && r.meta == line[..|r.meta|] && r.body == TrimSpace(line[|r.meta|..])
  {
    var idx := IndexOf(line, "]");
    CharIndex(line, ']', 0);
    assert "]" == [']'];
    if idx == -1 then
      Split([], line)
    else
      assert line[..idx + 1][..idx] == line[..idx];
      Split(line[..idx + 1], TrimSpace(line[idx + 1..]))
  }

  /** A prefix ending in its only ']', followed by a space and a trimmed body, splits back into the two. */
  lemma SplitLineRoundTrip(meta: string, body: string)
    requires |meta| >= 1 && meta[|meta| - 1] == ']' && ']' !in meta[..|meta| - 1]
    requires body == [] || (body[0] !in UnicodeSpace && body[|body| - 1] !in UnicodeSpace)
    ensures SplitLine(meta + " " + body) == Split(meta, body)
  {
    var line := meta + " " + body;
    var idx := |meta| - 1;
    assert line[..|meta|] == meta;
    assert OccursAt(line, "]", idx) by {
      assert line[idx..idx + 1] == [meta[idx]];
    }
    forall j | 0 <= j < idx ensures !OccursAt(line, "]", j) {
      assert line[j] == meta[..idx][j];
      assert line[j..j + 1] == [line[j]];
    }
    assert IndexOf(line, "]") == idx;
    assert line[idx + 1..] == [' '] + body + [];
    TrimPadded([' '], body, [], UnicodeSpace);
  }

  // ---------------------------------------------------------------------
  // Decimal numbers
  // ---------------------------------------------------------------------

  /** The end of the run of digits that starts at `i`. */
  function DigitRunEnd(s: string, i: nat): (e: nat)
    requires i <= |s|
    decreases |s| - i
    ensures i <= e <= |s|
    ensures forall k :: i <= k < e ==> IsDigit(s[k])
    ensures e == |s| || !IsDigit(s[e])
  {
    if i < |s| && IsDigit(s[i]) then DigitRunEnd(s, i + 1) else i
  }

  /** The value of a string of decimal digits, most significant first (`strconv.Atoi` on `\d+`). */
  function DigitsValue(d: string): nat {
    if d == [] then 0
    else 10 * DigitsValue(d[..|d| - 1]) + DigitValue(d[|d| - 1])
  }

  function DigitValue(c: char): nat {
    if IsDigit(c) then (c - '0') as nat else 0
  }

  /** The decimal rendering of `n`, the inverse of DigitsValue. */
  function Decimal(n: nat): (d: string)
    ensures d != [] && forall k :: 0 <= k < |d| ==> IsDigit(d[k])
  {
    if n < 10 then [('0' as int + n) as char]
    else Decimal(n / 10) + [('0' as int + n % 10) as char]
  }

  lemma {:induction false} DecimalRoundTrip(n: nat)
    ensures DigitsValue(Decimal(n)) == n
  {
    var d := Decimal(n);
    if n >= 10 {
      DecimalRoundTrip(n / 10);
      assert d[..|d| - 1] == Decimal(n / 10);
    }
  }

  /** The value of the first maximal run of decimal digits at or after `i`; 0 when there is no digit. */
  function NumberFrom(s: string, i: nat): nat
    decreases |s| - i
  {
    if i >= |s| then 0
    else if IsDigit(s[i]) then DigitsValue(s[i..DigitRunEnd(s, i)])
    else NumberFrom(s, i + 1)
  }

  /** `extractFirstNumber`: the first integer in the string, 0 when there is none. */
  function ExtractFirstNumber(s: string): nat {
    NumberFrom(s, 0)
  }

  /** Without a digit there is no number. */
  lemma {:induction false} NoDigitNoNumber(s: string, i: nat)
    requires forall k :: i <= k < |s| ==> !IsDigit(s[k])
    decreases |s| - i
    ensures NumberFrom(s, i) == 0
  {
    if i < |s| {
      NoDigitNoNumber(s, i + 1);
    }
  }

  /** With a first digit at `i`, the number is the value of the run of digits starting there. */
  lemma {:induction false} FirstNumberIsFirstRun(s: string, j: nat, i: nat)
    requires j <= i < |s| && IsDigit(s[i])
    requires forall k :: j <= k < i ==> !IsDigit(s[k])
    decreases i - j
    ensures NumberFrom(s, j) == DigitsValue(s[i..DigitRunEnd(s, i)])
  {
    if j < i {
      FirstNumberIsFirstRun(s, j + 1, i);
    }
  }

  /** A positive result means the string has a digit. */
  lemma PositiveNumberHasDigit(s: string)
    requires ExtractFirstNumber(s) > 0
    ensures exists k :: 0 <= k < |s| && IsDigit(s[k])
  {
    if forall k :: 0 <= k < |s| ==> !IsDigit(s[k]) {
      NoDigitNoNumber(s, 0);
    }
  }

  /**
   * Round trip: a number written in decimal after text without digits, and
   * not followed directly by another digit, is read back exactly.
   */
  lemma ExtractWrittenNumber(prefix: string, n: nat, suffix: string)
    requires forall k :: 0 <= k < |prefix| ==> !IsDigit(prefix[k])
    requires suffix == [] || !IsDigit(suffix[0])
    ensures ExtractFirstNumber(prefix + Decimal(n) + suffix) == n
  {
    var d := Decimal(n);
    var s := prefix + d + suffix;
    var i := |prefix|;
    assert s[i] == d[0];
    forall k | 0 <= k < i ensures !IsDigit(s[k]) {
      assert s[k] == prefix[k];
    }
    FirstNumberIsFirstRun(s, 0, i);
    var e := DigitRunEnd(s, i);
    assert e == i + |d| by {
      forall k | i <= k < i + |d| ensures IsDigit(s[k]) {
        assert s[k] == d[k - i];
      }
      if i + |d| < |s| {
        assert s[i + |d|] == suffix[0];
      }
    }
    assert s[i..e] == d;
    DecimalRoundTrip(n);
  }

  // ---------------------------------------------------------------------
  // HTML stripping and whitespace collapsing
  // ---------------------------------------------------------------------

  /**
   * No match of the tag pattern `<[^>]+>` starts at `p`: either `s[p]` is not
   * '<', or the '>' that would close it follows at once, or there is none.
   */
  predicate TagFreeAt(s: string, p: nat)
    requires p < |s|
  {
    s[p] == '<' ==> (p + 1 < |s| && s[p + 1] == '>') || '>' !in s[p + 1..]
  }

  /** The tag pattern has no match anywhere in `s`. */
  predicate NoTag(s: string) {
    forall p :: 0 <= p < |s| ==> TagFreeAt(s, p)
  }

  /** Every `\s` character is a plain space and no two of them are adjacent. */
  predicate Collapsed(s: string) {
    && (forall i :: 0 <= i < |s| && s[i] in RegexSpace ==> s[i] == ' ')
    && (forall i :: 0 <= i < |s| - 1 ==> !(s[i] in RegexSpace && s[i + 1] in RegexSpace))
  }

  /** Reading a one-character search result. */
  lemma CharIndex(s: string, c: char, i: nat)
    ensures var j := IndexFrom(s, [c], i);
      (j == -1 ==> forall k :: i <= k < |s| ==> s[k] != c) &&
      (j != -1 ==> i <= j < |s| && s[j] == c && forall k :: i <= k < j ==> s[k] != c)
  {
    var j := IndexFrom(s, [c], i);
    forall k | i <= k < |s| && (j == -1 || k < j) ensures s[k] != c {
      assert !OccursAt(s, [c], k);
      assert s[k..k + 1] == [s[k]];
    }
    if j != -1 {
      assert s[j..j + 1] == [c];
    }
  }

  lemma NoTagCons(c: char, rest: string)
    requires NoTag(rest)
    requires c == '<' ==> (rest != [] && rest[0] == '>') || '>' !in rest
    ensures NoTag([c] + rest)
  {
    var s := [c] + rest;
    assert s[1..] == rest;
    forall p | 0 <= p < |s| ensures TagFreeAt(s, p) {
      if p > 0 {
        assert TagFreeAt(rest, p - 1);
        assert s[p + 1..] == rest[p..];
      }
    }
  }

  lemma NoTagSuffix(s: string, k: nat)
    requires NoTag(s) && k <= |s|
    ensures NoTag(s[k..])
  {
    var t := s[k..];
    forall p | 0 <= p < |t| ensures TagFreeAt(t, p) {
      assert TagFreeAt(s, k + p);
      assert t[p + 1..] == s[k + p + 1..];
    }
  }

  lemma CollapsedSuffix(s: string, k: nat)
    requires Collapsed(s) && k <= |s|
    ensures Collapsed(s[k..])
  {
    var t := s[k..];
    forall i | 0 <= i < |t| - 1 ensures !(t[i] in RegexSpace && t[i + 1] in RegexSpace) {
      assert t[i] == s[k + i] && t[i + 1] == s[k + i + 1];
    }
  }

  /** `<[^>]+>` replaced by "" throughout, scanning left to right. */
  function StripTags(s: string): (r: string)
    decreases |s|
    ensures forall c :: c in r ==> c in s
    ensures s != [] && s[0] != '<' ==> r != [] && r[0] == s[0]
    ensures NoTag(r)
  {
    if s == [] then []
    else if s[0] == '<' && IndexFrom(s, ">", 1) >= 2 then StripTags(s[IndexFrom(s, ">", 1) + 1..])
    else
      var rest := StripTags(s[1..]);
      CharIndex(s, '>', 1);
      assert s[0] == '<' && IndexFrom(s, ">", 1) == -1 ==> '>' !in s[1..];
      NoTagCons(s[0], rest);
      [s[0]] + rest
  }

  /** Each run of `\s` characters replaced by one space (`\s+` replaced by " "). */
  function CollapseSpace(s: string): (r: string)
    decreases |s|
    ensures s != [] ==> r != [] && r[0] == (if s[0] in RegexSpace then ' ' else s[0])
    ensures forall c :: c in r ==> c in s || c == ' '
    ensures Collapsed(r)
  {
    if s == [] then []
    else if s[0] in RegexSpace then
      TrimLeftRun(s[1..], RegexSpace);
      [' '] + CollapseSpace(TrimLeft(s[1..], RegexSpace))
    else [s[0]] + CollapseSpace(s[1..])
  }

  lemma {:induction false} CollapseKeepsNoTag(s: string)
    requires NoTag(s)
    decreases |s|
    ensures NoTag(CollapseSpace(s))
  {
    if s != [] {
      NoTagSuffix(s, 1);
      if s[0] in RegexSpace {
        var t := TrimLeft(s[1..], RegexSpace);
        NoTagSuffix(s[1..], |s[1..]| - |t|);
        CollapseKeepsNoTag(t);
        NoTagCons(' ', CollapseSpace(t));
      } else {
        CollapseKeepsNoTag(s[1..]);
        assert TagFreeAt(s, 0);
        assert s[1..] != [] && s[1] == '>' ==> CollapseSpace(s[1..])[0] == '>';
        NoTagCons(s[0], CollapseSpace(s[1..]));
      }
    }
  }

  lemma {:induction false} TrimRightKeepsNoTag(s: string, cut: set<char>)
    requires NoTag(s) && '>' !in cut
    ensures NoTag(TrimRight(s, cut))
  {
    var r := TrimRight(s, cut);
    TrimRightRun(s, cut);
    forall p | 0 <= p < |r| ensures TagFreeAt(r, p) {
      assert TagFreeAt(s, p);
      if r[p] == '<' {
        if p + 1 < |s| && s[p + 1] == '>' {
          assert p + 1 < |r|;
        } else {
          assert r[p + 1..] == s[p + 1..|r|];
        }
      }
    }
  }

  /** Trimming whitespace keeps a string collapsed and free of tags. */
  lemma TrimSpaceKeeps(s: string)
    requires Collapsed(s) && NoTag(s)
    ensures Collapsed(TrimSpace(s)) && NoTag(TrimSpace(s))
  {
    TrimSpaceKeepsCollapsed(s);
    TrimSpaceKeepsNoTag(s);
  }

  lemma TrimSpaceKeepsCollapsed(s: string)
    requires Collapsed(s)
    ensures Collapsed(TrimSpace(s))
  {
    var left := TrimLeft(s, UnicodeSpace);
    CollapsedSuffix(s, |s| - |left|);
    CollapsedPrefix(left, |TrimRight(left, UnicodeSpace)|);
  }

  lemma TrimSpaceKeepsNoTag(s: string)
    requires NoTag(s)
    ensures NoTag(TrimSpace(s))
  {
    var left := TrimLeft(s, UnicodeSpace);
    NoTagSuffix(s, |s| - |left|);
    GtIsNotSpace();
    TrimRightKeepsNoTag(left, UnicodeSpace);
  }

  lemma GtIsNotSpace()
    ensures '>' !in UnicodeSpace
  {
  }

  lemma CollapsedPrefix(s: string, n: nat)
    requires Collapsed(s) && n <= |s|
    ensures Collapsed(s[..n])
  {
    var r := s[..n];
    forall i | 0 <= i < |r| - 1 ensures !(r[i] in RegexSpace && r[i + 1] in RegexSpace) {
      assert r[i] == s[i] && r[i + 1] == s[i + 1];
    }
  }

  /**
   * `cleanHTML`: tags removed, whitespace runs collapsed, ends trimmed. The
   * result has no whitespace at either end, every `\s` character left in it
   * is a single space, and no tag is left in it.
   */
  function CleanHTML(input: string): (r: string)
    ensures r == [] || (r[0] !in UnicodeSpace && r[|r| - 1] !in UnicodeSpace)
    ensures Collapsed(r)
    ensures NoTag(r)
  {
    var stripped := StripTags(input);
    var collapsed := CollapseSpace(stripped);
    CollapseKeepsNoTag(stripped);
    TrimSpaceKeeps(collapsed);
    TrimEnds(collapsed, UnicodeSpace);
    TrimSpace(collapsed)
  }

  lemma {:induction false} StripTagsOfNoTag(s: string)
    requires NoTag(s)
    decreases |s|
    ensures StripTags(s) == s
  {
    if s != [] {
      CharIndex(s, '>', 1);
      assert TagFreeAt(s, 0);
      NoTagSuffix(s, 1);
      StripTagsOfNoTag(s[1..]);
    }
  }

  lemma {:induction false} CollapseOfCollapsed(s: string)
    requires Collapsed(s)
    decreases |s|
    ensures CollapseSpace(s) == s
  {
    if s != [] {
      CollapsedSuffix(s, 1);
      var t := s[1..];
      CollapseOfCollapsed(t);
      if s[0] in RegexSpace {
        assert t == [] || t[0] !in RegexSpace by {
          if t != [] {
            assert t[0] == s[1];
          }
        }
        assert LeadEnd(t, RegexSpace, 0) == 0;
        assert TrimLeft(t, RegexSpace) == t;
        assert CollapseSpace(s) == [' '] + t;
      } else {
        assert CollapseSpace(s) == [s[0]] + t;
      }
      assert s == [s[0]] + t;
    }
  }

  /** Normalising twice is normalising once. */
  /** Text without '<' passes through tag stripping unchanged, ahead of whatever follows. */
  lemma {:induction false} StripTagsOfPlain(x: string, y: string)
    requires Avoids(x, '<')
    decreases |x|
    ensures StripTags(x + y) == x + StripTags(y)
  {
    var s := x + y;
    if x == [] {
      assert s == y;
    } else {
      assert s[0] == x[0] && s[1..] == x[1..] + y;
      StripTagsOfPlain(x[1..], y);
      assert StripTags(s) == [x[0]] + (x[1..] + StripTags(y));
      assert [x[0]] + (x[1..] + StripTags(y)) == x + StripTags(y);
    }
  }

  /** A tag `<t>` is removed whole, and stripping resumes right after its '>'. */
  lemma StripTagsOfTag(x: string, t: string, y: string)
    requires Avoids(x, '<') && t != [] && Avoids(t, '>')
    ensures StripTags(x + "<" + t + ">" + y) == x + StripTags(y)
  {
    var s := "<" + t + ">" + y;
    CharIndex(s, '>', 1);
    forall k | 1 <= k < 1 + |t| ensures s[k] != '>' {
      assert s[k] == t[k - 1];
    }
    assert s[1 + |t|] == '>';
    assert IndexFrom(s, ">", 1) == 1 + |t|;
    assert s[|t| + 2..] == y;
    assert x + "<" + t + ">" + y == x + s;
    StripTagsOfPlain(x, s);
  }

  /** Characters other than `\s` pass through whitespace collapsing unchanged. */
  lemma {:induction false} CollapseOfWord(x: string, y: string)
    requires forall k :: 0 <= k < |x| ==> x[k] !in RegexSpace
    decreases |x|
    ensures CollapseSpace(x + y) == x + CollapseSpace(y)
  {
    var s := x + y;
    if x == [] {
      assert s == y;
    } else {
      assert s[0] == x[0] && s[1..] == x[1..] + y;
      CollapseOfWord(x[1..], y);
      assert CollapseSpace(s) == [x[0]] + (x[1..] + CollapseSpace(y));
      assert [x[0]] + (x[1..] + CollapseSpace(y)) == x + CollapseSpace(y);
    }
  }

  /** A whole run of `\s` characters becomes one space. */
  lemma CollapseOfRun(w: string, y: string)
    requires w != [] && forall k :: 0 <= k < |w| ==> w[k] in RegexSpace
    requires y == [] || y[0] !in RegexSpace
    ensures CollapseSpace(w + y) == [' '] + CollapseSpace(y)
  {
    var s := w + y;
    var rest := s[1..];
    assert rest == w[1..] + y;
    forall k | 0 <= k < |w| - 1 ensures rest[k] in RegexSpace {
      assert rest[k] == w[k + 1];
    }
    assert |w| - 1 == |rest| || rest[|w| - 1] !in RegexSpace;
    LeadEndAt(rest, RegexSpace, 0, |w| - 1);
    assert rest[|w| - 1..] == y;
  }

  /**
   * Text wrapped in a pair of tags cleans to that text, when it holds no
   * '<', is already collapsed and has no whitespace at either end: the
   * link text `<font>Heavy Armor</font>` reads as "Heavy Armor".
   */
  lemma CleanHTMLOfTagged(t1: string, x: string, t2: string)
    requires t1 != [] && Avoids(t1, '>') && t2 != [] && Avoids(t2, '>')
    requires Avoids(x, '<') && Collapsed(x)
    requires x == [] || (x[0] !in UnicodeSpace && x[|x| - 1] !in UnicodeSpace)
    ensures CleanHTML("<" + t1 + ">" + x + "<" + t2 + ">") == x
  {
    var input := "<" + t1 + ">" + x + "<" + t2 + ">";
    StripTagsOfTagged(t1, x, t2);
    CollapseOfCollapsed(x);
    assert [] + x + [] == x;
    TrimPadded([], x, [], UnicodeSpace);
    assert CleanHTML(input) == TrimSpace(CollapseSpace(StripTags(input)));
  }

  lemma StripTagsOfTagged(t1: string, x: string, t2: string)
    requires t1 != [] && Avoids(t1, '>') && t2 != [] && Avoids(t2, '>') && Avoids(x, '<')
    ensures StripTags("<" + t1 + ">" + x + "<" + t2 + ">") == x
  {
    var close := "<" + t2 + ">";
    assert "<" + t1 + ">" + x + "<" + t2 + ">" == [] + "<" + t1 + ">" + (x + close);
    StripTagsOfTag([], t1, x + close);
    assert x + close == x + "<" + t2 + ">" + [];
    StripTagsOfTag(x, t2, []);
  }

  lemma CleanHTMLIdempotent(input: string)
    ensures CleanHTML(CleanHTML(input)) == CleanHTML(input)
  {
    var r := CleanHTML(input);
    StripTagsOfNoTag(r);
    CollapseOfCollapsed(r);
    assert [] + r + [] == r;
    TrimPadded([], r, [], UnicodeSpace);
  }

  // ---------------------------------------------------------------------
  // Patterns that are plain concatenations, matched left to right
  // ---------------------------------------------------------------------

  /** A non-empty run of decimal digits (`\d+`). */
  predicate AllDigits(d: string) {
    d != [] && forall k :: 0 <= k < |d| ==> IsDigit(d[k])
  }

  /** `t` holds no `c`. */
  predicate Avoids(t: string, c: char) {
    forall k :: 0 <= k < |t| ==> t[k] != c
  }

  /** The end of the run of characters other than `c` that starts at `i`. */
  function RunEndBefore(s: string, c: char, i: nat): (e: nat)
    requires i <= |s|
    decreases |s| - i
    ensures i <= e <= |s|
    ensures forall k :: i <= k < e ==> s[k] != c
    ensures e == |s| || s[e] == c
  {
    if i < |s| && s[i] != c then RunEndBefore(s, c, i + 1) else i
  }

  /** One element of a regular expression that is a concatenation. */
  datatype Piece =
    | Lit(text: string)      // the literal text itself
    | Field(stop: char)      // `[^stop]*`
    | Digits                 // `\d+`
    | Until(close: string)   // `.*?` ahead of `close`

  /** The texts a piece can match. */
  predicate Fits(p: Piece, t: string) {
    match p
    case Lit(l) => t == l
    case Field(c) => Avoids(t, c)
    case Digits => AllDigits(t)
    case Until(_) => Avoids(t, '\n')
  }

  /** Where the text that piece `p` matches at `i` ends, or None when it does not match there. */
  function Step(s: string, i: nat, p: Piece): (r: Option<nat>)
    requires i <= |s|
    ensures r.Some? ==> i <= r.value <= |s| && Fits(p, s[i..r.value])
  {
    match p
    case Lit(l) => if OccursAt(s, l, i) then Some(i + |l|) else None
    case Field(c) => Some(RunEndBefore(s, c, i))
    case Digits =>
      var e := DigitRunEnd(s, i);
      if e == i then None else Some(e)
    case Until(close) =>
      var k := IndexFrom(s, close, i);
      if k < 0 || '\n' in s[i..k] then None else Some(k)
  }

  function Concat(ts: seq<string>): string {
    if ts == [] then [] else ts[0] + Concat(ts[1..])
  }

  /** Matches the pieces one after another from `i`: the text each piece matched, and the end. */
  function MatchSeq(s: string, i: nat, ps: seq<Piece>): (r: Option<(seq<string>, nat)>)
    requires i <= |s|
    decreases |ps|
    ensures r.Some? ==> |r.value.0| == |ps| && i <= r.value.1 <= |s|
  {
    if ps == [] then Some(([], i))
    else match Step(s, i, ps[0])
      case None => None
      case Some(j) => match MatchSeq(s, j, ps[1..])
        case None => None
        case Some((ts, e)) => Some(([s[i..j]] + ts, e))
  }

  /**
   * Each piece's text fits the piece, with no shorter lazy match, and
   * together they spell the matched slice.
   */
  lemma {:induction false} MatchSeqSound(s: string, i: nat, ps: seq<Piece>)
    requires i <= |s| && MatchSeq(s, i, ps).Some?
    decreases |ps|
    ensures var (ts, e) := MatchSeq(s, i, ps).value;
      (forall k :: 0 <= k < |ps| ==> Fits(ps[k], ts[k]) && Unambiguous(ps[k], ts[k])) && s[i..e] == Concat(ts)
  {
    var (ts, e) := MatchSeq(s, i, ps).value;
    if ps != [] {
      var j := Step(s, i, ps[0]).value;
      StepUnambiguous(s, i, ps[0]);
      MatchSeqSound(s, j, ps[1..]);
      var (ts', e') := MatchSeq(s, j, ps[1..]).value;
      assert ts == [s[i..j]] + ts' && e == e';
      assert ts[1..] == ts';
      assert s[i..e] == s[i..j] + s[j..e];
      forall k | 0 <= k < |ps| ensures Fits(ps[k], ts[k]) && Unambiguous(ps[k], ts[k]) {
        if k > 0 {
          assert ps[k] == ps[1..][k - 1] && ts[k] == ts'[k - 1];
        }
      }
    }
  }

  /**
   * What must follow a piece so that matching it greedily, without
   * backtracking, agrees with the regular expression.
   */
  predicate Follows(p: Piece, next: string) {
    match p
    case Lit(_) => true
    case Field(c) => next != [] && next[0] == c
    case Digits => next != [] && !IsDigit(next[0])
    case Until(close) => next == close && close != []
  }

  /** Every piece other than a literal is followed by a literal that ends it. */
  predicate Chained(ps: seq<Piece>) {
    forall k :: 0 <= k < |ps| && !ps[k].Lit? ==> k + 1 < |ps| && ps[k + 1].Lit? && Follows(ps[k], ps[k + 1].text)
  }

  /** `close` occurs in `t + close` only at the end: a lazy run ahead of `close` stops right after `t`. */
  predicate ClosesOnlyAtEnd(t: string, close: string) {
    forall j :: 0 <= j < |t| ==> !OccursAt(t + close, close, j)
  }

  /** A text for `Until(close)` that no shorter lazy match would end before. */
  predicate Unambiguous(p: Piece, t: string) {
    p.Until? ==> ClosesOnlyAtEnd(t, p.close)
  }

  /** What a lazy run matches never holds its closer before its end. */
  lemma StepUnambiguous(s: string, i: nat, p: Piece)
    requires i <= |s| && Step(s, i, p).Some?
    ensures Unambiguous(p, s[i..Step(s, i, p).value])
  {
    if p.Until? {
      var close := p.close;
      var k := IndexFrom(s, close, i);
      var t, u := s[i..k], s[i..k + |close|];
      assert u == t + close;
      forall j | 0 <= j < |t| ensures !OccursAt(u, close, j) {
        assert !OccursAt(s, close, i + j);
        if j + |close| <= |u| {
          SliceOfSlice(s, i, k + |close|, j, |close|);
        }
      }
    }
  }

  lemma SliceOfSlice(s: string, i: nat, k: nat, j: nat, n: nat)
    requires i <= k <= |s| && j + n <= k - i
    ensures s[i..k][j..j + n] == s[i + j..i + j + n]
  {
    var inner, direct := s[i..k][j..j + n], s[i + j..i + j + n];
    forall m | 0 <= m < n ensures inner[m] == direct[m] {
      assert inner[m] == s[i..k][j + m] == s[i + j + m];
    }
  }

  lemma UntilComplete(s: string, i: nat, close: string, t: string)
    requires ClosesOnlyAtEnd(t, close) && Avoids(t, '\n')
    requires i + |t| + |close| <= |s| && s[i..i + |t|] == t && s[i + |t|..i + |t| + |close|] == close
    ensures Step(s, i, Until(close)) == Some(i + |t|)
  {
    var u := s[i..i + |t| + |close|];
    assert u == t + close;
    forall j | i <= j < i + |t| ensures !OccursAt(s, close, j) {
      assert !OccursAt(u, close, j - i);
      SliceOfSlice(s, i, i + |t| + |close|, j - i, |close|);
    }
    assert OccursAt(s, close, i + |t|);
    assert IndexFrom(s, close, i) == i + |t|;
    assert '\n' !in s[i..i + |t|];
  }

  lemma StepComplete(s: string, i: nat, p: Piece, t: string, next: string)
    requires Fits(p, t) && Unambiguous(p, t) && Follows(p, next)
    requires i + |t| + |next| <= |s| && s[i..i + |t|] == t && s[i + |t|..i + |t| + |next|] == next
    ensures Step(s, i, p) == Some(i + |t|)
  {
    match p
    case Lit(l) =>
    case Field(c) =>
      forall k | i <= k < i + |t| ensures s[k] != c {
        assert s[k] == t[k - i];
      }
      assert s[i + |t|] == next[0];
    case Digits =>
      forall k | i <= k < i + |t| ensures IsDigit(s[k]) {
        assert s[k] == t[k - i];
      }
      assert s[i + |t|] == next[0];
    case Until(close) =>
      UntilComplete(s, i, close, t);
  }

  lemma ChainedTail(ps: seq<Piece>, ts: seq<string>)
    requires ps != [] && |ts| == |ps| && Chained(ps)
    requires forall k :: 0 <= k < |ps| ==> Fits(ps[k], ts[k]) && Unambiguous(ps[k], ts[k])
    ensures Chained(ps[1..])
    ensures forall k :: 0 <= k < |ps[1..]| ==> Fits(ps[1..][k], ts[1..][k]) && Unambiguous(ps[1..][k], ts[1..][k])
  {
    forall k | 0 <= k < |ps[1..]| ensures Fits(ps[1..][k], ts[1..][k]) && Unambiguous(ps[1..][k], ts[1..][k]) {
      assert ps[1..][k] == ps[k + 1] && ts[1..][k] == ts[k + 1];
    }
    forall k | 0 <= k < |ps[1..]| && !ps[1..][k].Lit?
      ensures k + 1 < |ps[1..]| && ps[1..][k + 1].Lit? && Follows(ps[1..][k], ps[1..][k + 1].text)
    {
      assert ps[1..][k] == ps[k + 1];
    }
  }

  /** The text of the first piece, and what the piece after it must see. */
  lemma FirstPiece(s: string, i: nat, ps: seq<Piece>, ts: seq<string>, e: nat) returns (next: string)
    requires ps != [] && |ts| == |ps| && Chained(ps)
    requires forall k :: 0 <= k < |ps| ==> Fits(ps[k], ts[k])
    requires i <= e <= |s| && s[i..e] == Concat(ts)
    ensures Follows(ps[0], next)
    ensures i + |ts[0]| + |next| <= |s| && s[i..i + |ts[0]|] == ts[0] && s[i + |ts[0]|..i + |ts[0]| + |next|] == next
    ensures i + |ts[0]| <= e && s[i + |ts[0]|..e] == Concat(ts[1..])
  {
    var t, rest := ts[0], Concat(ts[1..]);
    assert Concat(ts) == t + rest;
    assert s[i..e][..|t|] == t && s[i..e][|t|..] == rest;
    next := [];
    if !ps[0].Lit? {
      next := ts[1];
      assert Fits(ps[1], ts[1]);
      assert rest == ts[1] + Concat(ts[2..]) by {
        assert ts[1..][0] == ts[1] && ts[1..][1..] == ts[2..];
      }
      assert s[i + |t|..e][..|next|] == next;
    }
  }

  lemma MatchSeqCons(s: string, i: nat, ps: seq<Piece>, ts: seq<string>, e: nat)
    requires ps != [] && ts != [] && i + |ts[0]| <= |s| && s[i..i + |ts[0]|] == ts[0]
    requires Step(s, i, ps[0]) == Some(i + |ts[0]|)
    requires MatchSeq(s, i + |ts[0]|, ps[1..]) == Some((ts[1..], e))
    ensures MatchSeq(s, i, ps) == Some((ts, e))
  {
    assert [s[i..i + |ts[0]|]] + ts[1..] == ts;
  }

  /** A slice spelled by texts that fit a chained pattern is matched back into exactly those texts. */
  lemma {:induction false} MatchSeqComplete(s: string, i: nat, ps: seq<Piece>, ts: seq<string>, e: nat)
    requires |ts| == |ps| && Chained(ps)
    requires forall k :: 0 <= k < |ps| ==> Fits(ps[k], ts[k]) && Unambiguous(ps[k], ts[k])
    requires i <= e <= |s| && s[i..e] == Concat(ts)
    decreases |ps|, 1
    ensures MatchSeq(s, i, ps) == Some((ts, e))
  {
    if ps == [] {
      assert e == i && ts == [];
    } else {
      var next := FirstPiece(s, i, ps, ts, e);
      StepComplete(s, i, ps[0], ts[0], next);
      MatchSeqTail(s, i, ps, ts, e);
      MatchSeqCons(s, i, ps, ts, e);
    }
  }

  /** The pieces after the first match the texts after the first. */
  lemma {:induction false} MatchSeqTail(s: string, i: nat, ps: seq<Piece>, ts: seq<string>, e: nat)
    requires ps != [] && |ts| == |ps| && Chained(ps)
    requires forall k :: 0 <= k < |ps| ==> Fits(ps[k], ts[k]) && Unambiguous(ps[k], ts[k])
    requires i + |ts[0]| <= e <= |s| && s[i + |ts[0]|..e] == Concat(ts[1..])
    decreases |ps|, 0
    ensures MatchSeq(s, i + |ts[0]|, ps[1..]) == Some((ts[1..], e))
  {
    ChainedTail(ps, ts);
    MatchSeqComplete(s, i + |ts[0]|, ps[1..], ts[1..], e);
  }

  // ---------------------------------------------------------------------
  // Speaker metadata: the pattern `\["[^"]*","[^"]*","([^"]*)",\d+\]`
  // ---------------------------------------------------------------------

  /** The four fields of a chat metadata bracket; the third is the speaker. */
  datatype Meta = Meta(channelId: string, channel: string, sender: string, stamp: string)

  /** Fields the pattern can capture: three quote-free fields and a digit run. */
  predicate WellFormedMeta(m: Meta) {
    Avoids(m.channelId, '"') && Avoids(m.channel, '"') && Avoids(m.sender, '"') && AllDigits(m.stamp)
  }

  const MetaPattern: seq<Piece> :=
    [Lit("[\""), Field('"'), Lit("\",\""), Field('"'), Lit("\",\""), Field('"'), Lit("\","), Digits, Lit("]")]

  /** The text each piece of the metadata pattern matches for the given fields. */
  function MetaTexts(m: Meta): seq<string> {
    ["[\"", m.channelId, "\",\"", m.channel, "\",\"", m.sender, "\",", m.stamp, "]"]
  }

  /** The text the metadata pattern matches for the given fields. */
  function RenderMeta(m: Meta): string {
    Concat(MetaTexts(m))
  }

  lemma MetaPatternChained()
    ensures Chained(MetaPattern)
  {
  }

  /** A match of the metadata pattern starting exactly at `p`: the fields and the position just after it. */
  function MatchMetaAt(s: string, p: nat): Option<(Meta, nat)> {
    if p > |s| then None
    else match MatchSeq(s, p, MetaPattern)
      case None => None
      case Some((ts, e)) => Some((Meta(ts[1], ts[3], ts[5], ts[7]), e))
  }

  /** Texts that fit the metadata pattern piece by piece are the texts of the fields they capture. */
  lemma FitMetaTexts(ts: seq<string>)
    requires |ts| == |MetaPattern| && forall k :: 0 <= k < |MetaPattern| ==> Fits(MetaPattern[k], ts[k])
    ensures var m := Meta(ts[1], ts[3], ts[5], ts[7]); WellFormedMeta(m) && ts == MetaTexts(m)
  {
    assert Fits(MetaPattern[0], ts[0]) && Fits(MetaPattern[1], ts[1]) && Fits(MetaPattern[2], ts[2]);
    assert Fits(MetaPattern[3], ts[3]) && Fits(MetaPattern[4], ts[4]) && Fits(MetaPattern[5], ts[5]);
    assert Fits(MetaPattern[6], ts[6]) && Fits(MetaPattern[7], ts[7]) && Fits(MetaPattern[8], ts[8]);
  }

  /** Well-formed fields give texts that fit the metadata pattern piece by piece. */
  lemma MetaTextsFit(m: Meta)
    requires WellFormedMeta(m)
    ensures forall k :: 0 <= k < |MetaPattern| ==>
      Fits(MetaPattern[k], MetaTexts(m)[k]) && Unambiguous(MetaPattern[k], MetaTexts(m)[k])
  {
    var ts := MetaTexts(m);
    assert Fits(MetaPattern[0], ts[0]) && Fits(MetaPattern[1], ts[1]) && Fits(MetaPattern[2], ts[2]);
    assert Fits(MetaPattern[3], ts[3]) && Fits(MetaPattern[4], ts[4]) && Fits(MetaPattern[5], ts[5]);
    assert Fits(MetaPattern[6], ts[6]) && Fits(MetaPattern[7], ts[7]) && Fits(MetaPattern[8], ts[8]);
  }

  lemma MatchMetaSound(s: string, p: nat)
    requires MatchMetaAt(s, p).Some?
    ensures var (m, end) := MatchMetaAt(s, p).value;
      WellFormedMeta(m) && p <= end <= |s| && s[p..end] == RenderMeta(m)
  {
    MatchSeqSound(s, p, MetaPattern);
    var (ts, e) := MatchSeq(s, p, MetaPattern).value;
    FitMetaTexts(ts);
  }

  lemma MatchMetaComplete(s: string, p: nat, m: Meta, end: nat)
    requires WellFormedMeta(m) && p <= end <= |s| && s[p..end] == RenderMeta(m)
    ensures MatchMetaAt(s, p) == Some((m, end))
  {
    MetaPatternChained();
    MetaTextsFit(m);
    MatchSeqComplete(s, p, MetaPattern, MetaTexts(m), end);
  }

  /**
   * The metadata matcher at `p` accepts exactly the slices that render
   * well-formed fields, and captures those fields.
   */
  lemma MatchMetaIsRendering(s: string, p: nat, m: Meta, end: nat)
    ensures MatchMetaAt(s, p) == Some((m, end)) <==>
      WellFormedMeta(m) && p <= end <= |s| && s[p..end] == RenderMeta(m)
  {
    if MatchMetaAt(s, p) == Some((m, end)) {
      MatchMetaSound(s, p);
    }
    if WellFormedMeta(m) && p <= end <= |s| && s[p..end] == RenderMeta(m) {
      MatchMetaComplete(s, p, m, end);
    }
  }

  /** The leftmost position at or after `p` where the metadata pattern matches, or -1. */
  function MetaStart(s: string, p: nat): (r: int)
    decreases |s| - p
    ensures r == -1 || (p <= r && MatchMetaAt(s, r).Some?)
    ensures forall q :: p <= q && (r == -1 || q < r) ==> MatchMetaAt(s, q).None?
  {
    if p > |s| then
      assert forall q :: p <= q ==> MatchMetaAt(s, q).None?;
      -1
    else if MatchMetaAt(s, p).Some? then p
    else if p == |s| then -1
    else MetaStart(s, p + 1)
  }

  /** The speaker captured from a metadata prefix (`m[1]`), or "" when the pattern does not match. */
  function Speaker(meta: string): (name: string)
    ensures MetaStart(meta, 0) == -1 ==> name == []
    ensures Avoids(name, '"')
  {
    var st := MetaStart(meta, 0);
    if st < 0 then []
    else
      MatchMetaSound(meta, st);
      MatchMetaAt(meta, st).value.0.sender
  }

  /** A prefix that is a rendered metadata bracket yields its sender as the speaker. */
  lemma SpeakerOfRenderedMeta(m: Meta)
    requires WellFormedMeta(m)
    ensures Speaker(RenderMeta(m)) == m.sender
  {
    var s := RenderMeta(m);
    assert s[0..|s|] == s;
    MatchMetaComplete(s, 0, m, |s|);
  }

  // ---------------------------------------------------------------------
  // Loot anchors: the pattern `<a href="itemref://\d+/\d+/\d+">(.*?)</a>`
  // ---------------------------------------------------------------------

  const AnchorOpen := "<a href=\"itemref://"
  const AnchorClose := "</a>"

  /** An item link: its three numeric ids and its (still HTML) text. */
  datatype Anchor = Anchor(lowId: string, highId: string, ql: string, text: string)

  /**
   * The shape the pattern accepts: three digit runs and a text on one line
   * in which `</a>` first occurs right after it (the text may hold tags).
   */
  predicate AnchorShape(a: Anchor) {
    AllDigits(a.lowId) && AllDigits(a.highId) && AllDigits(a.ql) && Avoids(a.text, '\n')
    && ClosesOnlyAtEnd(a.text, AnchorClose)
  }

  const LootPattern: seq<Piece> :=
    [Lit(AnchorOpen), Digits, Lit("/"), Digits, Lit("/"), Digits, Lit("\">"), Until(AnchorClose), Lit(AnchorClose)]

  /** The text each piece of the anchor pattern matches for the given anchor. */
  function AnchorTexts(a: Anchor): seq<string> {
    [AnchorOpen, a.lowId, "/", a.highId, "/", a.ql, "\">", a.text, AnchorClose]
  }

  /** The text of a rendered anchor. */
  function RenderAnchor(a: Anchor): string {
    Concat(AnchorTexts(a))
  }

  lemma LootPatternChained()
    ensures Chained(LootPattern)
  {
  }

  /** A match of the anchor pattern starting exactly at `p`: the anchor and the position just after it. */
  function MatchLootAt(s: string, p: nat): Option<(Anchor, nat)> {
    if p > |s| then None
    else match MatchSeq(s, p, LootPattern)
      case None => None
      case Some((ts, e)) => Some((Anchor(ts[1], ts[3], ts[5], ts[7]), e))
  }

  lemma FitAnchorTexts(ts: seq<string>)
    requires |ts| == |LootPattern|
    requires forall k :: 0 <= k < |LootPattern| ==> Fits(LootPattern[k], ts[k]) && Unambiguous(LootPattern[k], ts[k])
    ensures var a := Anchor(ts[1], ts[3], ts[5], ts[7]); AnchorShape(a) && ts == AnchorTexts(a)
  {
    assert Fits(LootPattern[0], ts[0]) && Fits(LootPattern[1], ts[1]) && Fits(LootPattern[2], ts[2]);
    assert Fits(LootPattern[3], ts[3]) && Fits(LootPattern[4], ts[4]) && Fits(LootPattern[5], ts[5]);
    assert Fits(LootPattern[6], ts[6]) && Fits(LootPattern[7], ts[7]) && Fits(LootPattern[8], ts[8]);
    assert Unambiguous(LootPattern[7], ts[7]);
  }

  lemma AnchorTextsFit(a: Anchor)
    requires AnchorShape(a)
    ensures forall k :: 0 <= k < |LootPattern| ==>
      Fits(LootPattern[k], AnchorTexts(a)[k]) && Unambiguous(LootPattern[k], AnchorTexts(a)[k])
  {
    var ts := AnchorTexts(a);
    assert Fits(LootPattern[0], ts[0]) && Fits(LootPattern[1], ts[1]) && Fits(LootPattern[2], ts[2]);
    assert Fits(LootPattern[3], ts[3]) && Fits(LootPattern[4], ts[4]) && Fits(LootPattern[5], ts[5]);
    assert Fits(LootPattern[6], ts[6]) && Fits(LootPattern[7], ts[7]) && Fits(LootPattern[8], ts[8]);
  }

  /** What the anchor matcher accepts is a well-shaped anchor, and the slice it spans is that anchor's rendering. */
  lemma MatchLootSound(s: string, p: nat)
    requires MatchLootAt(s, p).Some?
    ensures var (a, end) := MatchLootAt(s, p).value;
      AnchorShape(a) && p < end <= |s| && s[p..end] == RenderAnchor(a)
  {
    MatchSeqSound(s, p, LootPattern);
    var (ts, e) := MatchSeq(s, p, LootPattern).value;
    FitAnchorTexts(ts);
    assert |Concat(ts)| >= |AnchorOpen|;
  }

  /** A rendered well-shaped anchor is matched back exactly where it lies. */
  lemma MatchLootComplete(s: string, p: nat, a: Anchor, end: nat)
    requires AnchorShape(a)
    requires p <= end <= |s| && s[p..end] == RenderAnchor(a)
    ensures MatchLootAt(s, p) == Some((a, end))
  {
    LootPatternChained();
    AnchorTextsFit(a);
    MatchSeqComplete(s, p, LootPattern, AnchorTexts(a), end);
  }

  /**
   * The anchor matcher at `p` accepts exactly the slices that render
   * well-shaped anchors, and captures those anchors.
   */
  lemma MatchLootIsRendering(s: string, p: nat, a: Anchor, end: nat)
    ensures MatchLootAt(s, p) == Some((a, end)) <==>
      AnchorShape(a) && p <= end <= |s| && s[p..end] == RenderAnchor(a)
  {
    if MatchLootAt(s, p) == Some((a, end)) {
      MatchLootSound(s, p);
    }
    if AnchorShape(a) && p <= end <= |s| && s[p..end] == RenderAnchor(a) {
      MatchLootComplete(s, p, a, end);
    }
  }

  /** The texts of all non-overlapping anchor matches at or after `p`, left to right (`FindAllStringSubmatch`). */
  function LootTexts(s: string, p: nat): seq<string>
    decreases |s| - p
  {
    if p >= |s| then []
    else match MatchLootAt(s, p)
      case Some((a, e)) =>
        MatchLootSound(s, p);
        [a.text] + LootTexts(s, e)
      case None => LootTexts(s, p + 1)
  }

  /** No match starts at a character other than '<', so the scan passes over such characters. */
  lemma {:induction false} LootTextsSkip(s: string, p: nat, q: nat)
    requires p <= q <= |s|
    requires forall k :: p <= k < q ==> s[k] != '<'
    decreases q - p
    ensures LootTexts(s, p) == LootTexts(s, q)
  {
    if p < q {
      assert MatchLootAt(s, p).None? by {
        assert !OccursAt(s, AnchorOpen, p) by {
          assert s[p] != AnchorOpen[0];
        }
      }
      LootTextsSkip(s, p + 1, q);
    }
  }

  /** A match at `p` contributes its text, and the scan resumes after it. */
  lemma LootTextsAtMatch(s: string, p: nat, a: Anchor, e: nat)
    requires MatchLootAt(s, p) == Some((a, e))
    ensures LootTexts(s, p) == [a.text] + LootTexts(s, e)
  {
    MatchLootSound(s, p);
  }

  /** An anchor that is the first '<' of the line is the first match. */
  lemma LootTextsFirst(s: string, p: nat, a: Anchor, e: nat)
    requires p <= e <= |s| && s[p..e] == RenderAnchor(a)
    requires forall k :: 0 <= k < p ==> s[k] != '<'
    requires AnchorShape(a)
    ensures LootTexts(s, 0) == [a.text] + LootTexts(s, e)
  {
    LootTextsSkip(s, 0, p);
    MatchLootComplete(s, p, a, e);
    LootTextsAtMatch(s, p, a, e);
  }

  /**
   * A loot line holding a rendered anchor after text without '<' yields that
   * anchor's text first, then whatever the rest of the line holds.
   */
  lemma LootTextsOfAnchor(pre: string, a: Anchor, post: string)
    requires Avoids(pre, '<')
    requires AnchorShape(a)
    ensures var s := pre + RenderAnchor(a) + post;
      LootTexts(s, 0) == [a.text] + LootTexts(s, |s| - |post|)
  {
    var r := RenderAnchor(a);
    SplitAround(pre, r, post, '<');
    LootTextsFirst(pre + r + post, |pre|, a, |pre| + |r|);
  }

  /** A line of anchors, each after its own text without '<', ending with a tail without '<'. */
  function RenderLinks(seps: seq<string>, links: seq<Anchor>, tail: string): string
    requires |seps| == |links|
    decreases |links|
  {
    if links == [] then tail else seps[0] + RenderAnchor(links[0]) + RenderLinks(seps[1..], links[1..], tail)
  }

  /** The texts of the given anchors, in order. */
  function LinkTexts(links: seq<Anchor>): (r: seq<string>)
    ensures |r| == |links| && forall k :: 0 <= k < |links| ==> r[k] == links[k].text
  {
    if links == [] then [] else [links[0].text] + LinkTexts(links[1..])
  }

  /** The scan from the start of a line of rendered anchors yields exactly their texts. */
  lemma {:induction false} LootTextsOfLinksAt(s: string, q: nat, seps: seq<string>, links: seq<Anchor>, tail: string)
    requires |seps| == |links| && Avoids(tail, '<')
    requires forall k :: 0 <= k < |links| ==> Avoids(seps[k], '<') && AnchorShape(links[k])
    requires q <= |s| && s[q..] == RenderLinks(seps, links, tail)
    decreases |links|
    ensures LootTexts(s, q) == LinkTexts(links)
  {
    if links == [] {
      forall k | q <= k < |s| ensures s[k] != '<' {
        assert s[k] == tail[k - q];
      }
      LootTextsSkip(s, q, |s|);
    } else {
      var pre, a := seps[0], links[0];
      var r, rest := RenderAnchor(a), RenderLinks(seps[1..], links[1..], tail);
      assert s[q..] == pre + r + rest;
      var p := q + |pre|;
      var e := p + |r|;
      forall k | q <= k < p ensures s[k] != '<' {
        assert s[k] == pre[k - q];
      }
      LootTextsSkip(s, q, p);
      assert s[p..e] == r;
      MatchLootComplete(s, p, a, e);
      LootTextsAtMatch(s, p, a, e);
      assert s[e..] == rest;
      LootTextsOfLinksAt(s, e, seps[1..], links[1..], tail);
      assert LinkTexts(links) == [a.text] + LinkTexts(links[1..]);
    }
  }

  /**
   * All matches, left to right: a line of well-shaped anchors separated by
   * text without '<' yields the texts of those anchors and nothing else.
   */
  lemma LootTextsOfLinks(seps: seq<string>, links: seq<Anchor>, tail: string)
    requires |seps| == |links| && Avoids(tail, '<')
    requires forall k :: 0 <= k < |links| ==> Avoids(seps[k], '<') && AnchorShape(links[k])
    ensures LootTexts(RenderLinks(seps, links, tail), 0) == LinkTexts(links)
  {
    var s := RenderLinks(seps, links, tail);
    assert s[0..] == s;
    LootTextsOfLinksAt(s, 0, seps, links, tail);
  }

  /** Where the middle of a three-part string lies, and what its first part avoids. */
  lemma SplitAround(pre: string, mid: string, post: string, c: char)
    requires Avoids(pre, c)
    ensures var s := pre + mid + post;
      s[|pre|..|pre| + |mid|] == mid && |pre| + |mid| == |s| - |post| &&
      forall k :: 0 <= k < |pre| ==> s[k] != c
  {
    var s := pre + mid + post;
    forall k | 0 <= k < |pre| ensures s[k] != c {
      assert s[k] == pre[k];
    }
  }
}
