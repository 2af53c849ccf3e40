/**
 * String primitives of Go's `strings` package that the tracker relies on:
 * substring search (`strings.Index`, `strings.Contains`), prefix tests
 * (`strings.HasPrefix`) and trimming by a cut set (`strings.Trim`,
 * `strings.TrimSpace`). Strings are sequences of Unicode code points.
 */
module Text {

  /** ASCII decimal digit, the class `\d` of Go's regular expressions. */
  predicate IsDigit(c: char) {
    '0' <= c <= '9'
  }

  /** The characters `unicode.IsSpace` accepts, which `strings.TrimSpace` removes. */
  const UnicodeSpace: set<char> :=
    {'\t', '\n', '\U{000B}', '\U{000C}', '\r', ' ', '\U{0085}', '\U{00A0}',
     '\U{1680}', '\U{2000}', '\U{2001}', '\U{2002}', '\U{2003}', '\U{2004}',
     '\U{2005}', '\U{2006}', '\U{2007}', '\U{2008}', '\U{2009}', '\U{200A}',
     '\U{2028}', '\U{2029}', '\U{202F}', '\U{205F}', '\U{3000}'}

  /** The class `\s` of Go's regular expressions: ASCII only, and without the vertical tab. */
  const RegexSpace: set<char> := {'\t', '\n', '\U{000C}', '\r', ' '}

  predicate OccursAt(s: string, sub: string, i: int) {
    0 <= i && i + |sub| <= |s| && s[i..i + |sub|] == sub
  }

  /** The first position at or after `from` where `sub` occurs in `s`, or -1. */
  function IndexFrom(s: string, sub: string, from: nat): (r: int)
    decreases |s| - from
    ensures r == -1 || (from <= r && OccursAt(s, sub, r))
    ensures forall j :: from <= j && (r == -1 || j < r) ==> !OccursAt(s, sub, j)
  {
    if from + |sub| > |s| then -1
    else if s[from..from + |sub|] == sub then from
    else IndexFrom(s, sub, from + 1)
  }

  /** `strings.Index`: the first position of `sub` in `s`, or -1. */
  function IndexOf(s: string, sub: string): int
  {
    IndexFrom(s, sub, 0)
  }

  /** `strings.Contains`. */
  predicate Contains(s: string, sub: string) {
    IndexOf(s, sub) >= 0
  }

  /** `strings.HasPrefix`. */
  predicate HasPrefix(s: string, prefix: string) {
    prefix <= s
  }

  /** The end of the run of characters in `cut` that starts at `i`. */
  function LeadEnd(s: string, cut: set<char>, i: nat): (e: nat)
    requires i <= |s|
    decreases |s| - i
    ensures i <= e <= |s|
  {
    if i < |s| && s[i] in cut then LeadEnd(s, cut, i + 1) else i
  }

  /** The start of the run of characters in `cut` that ends just before `j`. */
  function TrailStart(s: string, cut: set<char>, j: nat): (b: nat)
    requires j <= |s|
    ensures b <= j
  {
    if j > 0 && s[j - 1] in cut then TrailStart(s, cut, j - 1) else j
  }

  /** The run found from `i` is all in `cut` and stops at a character outside it, or at the end. */
  lemma {:induction false} LeadEndRun(s: string, cut: set<char>, i: nat)
    requires i <= |s|
    decreases |s| - i
    ensures forall k :: i <= k < LeadEnd(s, cut, i) ==> s[k] in cut
    ensures LeadEnd(s, cut, i) == |s| || s[LeadEnd(s, cut, i)] !in cut
  {
    if i < |s| && s[i] in cut {
      LeadEndRun(s, cut, i + 1);
    }
  }

  /** The run found before `j` is all in `cut` and follows a character outside it, or the start. */
  lemma {:induction false} TrailStartRun(s: string, cut: set<char>, j: nat)
    requires j <= |s|
    ensures forall k :: TrailStart(s, cut, j) <= k < j ==> s[k] in cut
    ensures TrailStart(s, cut, j) == 0 || s[TrailStart(s, cut, j) - 1] !in cut
  {
    if j > 0 && s[j - 1] in cut {
      TrailStartRun(s, cut, j - 1);
    }
  }

  /** `strings.TrimLeft`: drops the leading characters that are in `cut`. */
  function TrimLeft(s: string, cut: set<char>): (r: string)
    ensures |r| <= |s| && r == s[|s| - |r|..]
  {
    s[LeadEnd(s, cut, 0)..]
  }

  /** `strings.TrimRight`: drops the trailing characters that are in `cut`. */
  function TrimRight(s: string, cut: set<char>): (r: string)
    ensures |r| <= |s| && r == s[..|r|]
  {
    s[..TrailStart(s, cut, |s|)]
  }

  /** `strings.Trim`: drops leading and trailing characters that are in `cut`. */
  function Trim(s: string, cut: set<char>): string
  {
    TrimRight(TrimLeft(s, cut), cut)
  }

  /** What TrimLeft drops is all in `cut`, and what it keeps does not start with a `cut` character. */
  lemma TrimLeftRun(s: string, cut: set<char>)
    ensures var r := TrimLeft(s, cut);
      && (forall k :: 0 <= k < |s| - |r| ==> s[k] in cut)
      && (r == [] || r[0] !in cut)
  {
    LeadEndRun(s, cut, 0);
  }

  /** What TrimRight drops is all in `cut`, and what it keeps does not end with a `cut` character. */
  lemma TrimRightRun(s: string, cut: set<char>)
    ensures var r := TrimRight(s, cut);
      && (forall k :: |r| <= k < |s| ==> s[k] in cut)
      && (r == [] || r[|r| - 1] !in cut)
  {
    TrailStartRun(s, cut, |s|);
  }

  /** A trimmed string neither starts nor ends with a `cut` character. */
  lemma TrimEnds(s: string, cut: set<char>)
    ensures var r := Trim(s, cut); r == [] || (r[0] !in cut && r[|r| - 1] !in cut)
  {
    var left := TrimLeft(s, cut);
    TrimLeftRun(s, cut);
    TrimRightRun(left, cut);
    var r := TrimRight(left, cut);
    if r != [] {
      assert r[0] == left[0];
    }
  }

  /** `strings.TrimSpace`. */
  function TrimSpace(s: string): string {
    Trim(s, UnicodeSpace)
  }

  /** A run of `cut` characters from `i` up to a character outside `cut` (or the end) ends there. */
  lemma {:induction false} LeadEndAt(s: string, cut: set<char>, i: nat, e: nat)
    requires i <= e <= |s|
    requires forall k :: i <= k < e ==> s[k] in cut
    requires e == |s| || s[e] !in cut
    decreases e - i
    ensures LeadEnd(s, cut, i) == e
  {
    if i < e {
      LeadEndAt(s, cut, i + 1, e);
    }
  }

  /** A run of `cut` characters ending before `j`, preceded by a character outside `cut` (or the start), starts there. */
  lemma {:induction false} TrailStartAt(s: string, cut: set<char>, b: nat, j: nat)
    requires b <= j <= |s|
    requires forall k :: b <= k < j ==> s[k] in cut
    requires b == 0 || s[b - 1] !in cut
    decreases j - b
    ensures TrailStart(s, cut, j) == b
  {
    if b < j {
      TrailStartAt(s, cut, b, j - 1);
    }
  }

  /**
   * Trim is determined by the padding: a word that neither starts nor ends
   * with a cut character, surrounded by cut characters, trims to that word.
   */
  lemma TrimPadded(left: string, word: string, right: string, cut: set<char>)
    requires forall k :: 0 <= k < |left| ==> left[k] in cut
    requires forall k :: 0 <= k < |right| ==> right[k] in cut
    requires word == [] || (word[0] !in cut && word[|word| - 1] !in cut)
    ensures Trim(left + word + right, cut) == word
  {
    var all := left + word + right;
    if word == [] {
      forall k | 0 <= k < |all| ensures all[k] in cut {
        if k < |left| {
          assert all[k] == left[k];
        } else {
          assert all[k] == right[k - |left|];
        }
      }
      LeadEndAt(all, cut, 0, |all|);
    } else {
      forall k | 0 <= k < |left| ensures all[k] in cut {
        assert all[k] == left[k];
      }
      assert all[|left|] == word[0];
      LeadEndAt(all, cut, 0, |left|);
      var t := all[|left|..];
      assert t == word + right;
      forall k | |word| <= k < |t| ensures t[k] in cut {
        assert t[k] == right[k - |word|];
      }
      assert t[|word| - 1] == word[|word| - 1];
      TrailStartAt(t, cut, |word|, |t|);
      assert t[..|word|] == word;
    }
  }
}
