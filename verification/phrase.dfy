/** Textual normalisation of a user phrase before extraction
    (`drop_substrs` in UgraSage/entityextractor.py) and Python's `str.strip`
    as used on a clarification answer. The Unicode character classes that
    Python's `re` and `str` consult are injected as `Chars`. */
module Phrase {

  /** `isSpace` is `\s`, `isWord` is `\w` and `fold` is the case folding
      behind `re.IGNORECASE`. */
  datatype Chars = Chars(isSpace: char -> bool, isWord: char -> bool, fold: char -> char)

  /** Discourse fillers removed from every phrase, in the order they are tried. */
  const StopWords: seq<string> :=
    ["вроде", "вроде бы", "как бы", "пусть", "пускай", "а", "но", "ну", "например", "допустим"]

  /** `\b` at position `p` of `t`. */
  predicate Boundary(ch: Chars, t: string, p: nat)
    requires p <= |t|
  {
    (p > 0 && ch.isWord(t[p - 1])) != (p < |t| && ch.isWord(t[p]))
  }

  /** Length of the run of whitespace starting at `i`. */
  function SpaceRun(ch: Chars, t: string, i: nat): (k: nat)
    requires i <= |t|
    ensures i + k <= |t|
    decreases |t| - i
  {
    if i < |t| && ch.isSpace(t[i]) then 1 + SpaceRun(ch, t, i + 1) else 0
  }

  /** `\b<w>\b` matches case-insensitively at position `j`. */
  predicate WordAt(ch: Chars, w: string, t: string, j: nat)
    requires j <= |t|
  {
    && j + |w| <= |t|
    && Boundary(ch, t, j)
    && Boundary(ch, t, j + |w|)
    && forall m :: 0 <= m < |w| ==> ch.fold(t[j + m]) == ch.fold(w[m])
  }

  /** `re.sub('\s*\b<w>\b', '', t[i..])`, scanning left to right: at each
      position the whitespace before an occurrence of `w` is deleted together
      with it; boundaries are judged on the original text. */
  function StripFrom(ch: Chars, w: string, t: string, i: nat): (r: string)
    requires |w| > 0 && i <= |t|
    ensures |r| <= |t| - i
    ensures (forall j :: i <= j <= |t| ==> !WordAt(ch, w, t, j)) ==> r == t[i..]
    decreases |t| - i
  {
    if i == |t| then []
    else
      var j := i + SpaceRun(ch, t, i);
      if WordAt(ch, w, t, j) then StripFrom(ch, w, t, j + |w|)
      else [t[i]] + StripFrom(ch, w, t, i + 1)
  }

  /** Every stop word removed in turn. */
  function StripAll(ch: Chars, words: seq<string>, t: string): (r: string)
    requires "" !in words
    ensures |r| <= |t|
    decreases |words|
  {
    if words == [] then t
    else StripAll(ch, words[1..], StripFrom(ch, words[0], t, 0))
  }

  /** No two adjacent commas anywhere in `s`. */
  predicate NoDoubleComma(s: string) {
    |s| < 2 || (!(s[0] == ',' && s[1] == ',') && NoDoubleComma(s[1..]))
  }

  function NonCommas(s: string): string {
    if s == [] then [] else (if s[0] == ',' then [] else [s[0]]) + NonCommas(s[1..])
  }

  /** Number of commas at the front of `s`. */
  function LeadingCommas(s: string): (k: nat)
    ensures k <= |s|
    ensures forall m :: 0 <= m < k ==> s[m] == ','
    ensures k < |s| ==> s[k] != ','
  {
    if s != [] && s[0] == ',' then 1 + LeadingCommas(s[1..]) else 0
  }

  /** `re.sub(',{2,}', '', s)`: every run of two or more commas disappears. */
  function DropCommaRuns(s: string): (r: string)
    ensures |r| <= |s|
    ensures |s| > 0 && s[0] != ',' ==> |r| > 0 && r[0] == s[0]
    decreases |s|
  {
    if s == [] then []
    else
      var k := LeadingCommas(s);
      if k == 0 then [s[0]] + DropCommaRuns(s[1..])
      else if k == 1 then [','] + DropCommaRuns(s[1..])
      else DropCommaRuns(s[k..])
  }

  /** No run of two commas survives, and no other character is lost. */
  lemma {:induction false} DropCommaRunsClean(s: string)
    ensures NoDoubleComma(DropCommaRuns(s))
    ensures NonCommas(DropCommaRuns(s)) == NonCommas(s)
    decreases |s|
  {
    if s != [] {
      var k := LeadingCommas(s);
      if k < 2 {
        DropCommaRunsClean(s[1..]);
        var r := DropCommaRuns(s);
        assert r[1..] == DropCommaRuns(s[1..]);
      } else {
        CommaRunHasNoText(s, k);
        DropCommaRunsClean(s[k..]);
      }
    }
  }

  lemma {:induction false} CommaRunHasNoText(s: string, k: nat)
    requires k <= |s|
    requires forall m :: 0 <= m < k ==> s[m] == ','
    ensures NonCommas(s) == NonCommas(s[k..])
    decreases k
  {
    if k > 0 {
      assert s[1..][k - 1..] == s[k..];
      CommaRunHasNoText(s[1..], k - 1);
    }
  }

  /** Independent reference for the comma pass, read left to right: a
      character is kept unless it is a comma with a comma on either side.
      `afterComma` says whether the character before `s` was a comma. */
  function Kept(s: string, afterComma: bool): string
    decreases |s|
  {
    if s == [] then []
    else
      var keep := s[0] != ',' || (!afterComma && (|s| == 1 || s[1] != ','));
      (if keep then [s[0]] else []) + Kept(s[1..], s[0] == ',')
  }

  /** Inside a run of at least two commas nothing is kept. */
  lemma {:induction false} RunNotKept(s: string, k: nat, afterComma: bool)
    requires 2 <= k <= |s|
    requires forall m :: 0 <= m < k ==> s[m] == ','
    ensures Kept(s, afterComma) == Kept(s[k..], true)
    decreases k
  {
    assert s[1..][k - 1..] == s[k..];
    if k > 2 {
      RunNotKept(s[1..], k - 1, true);
    } else {
      assert s[1..][1..] == s[2..];
    }
  }

  lemma {:induction false} DropCommaRunsFrom(s: string, afterComma: bool)
    requires !afterComma || s == [] || s[0] != ','
    ensures DropCommaRuns(s) == Kept(s, afterComma)
    decreases |s|
  {
    if s != [] {
      var k := LeadingCommas(s);
      if k < 2 {
        DropCommaRunsFrom(s[1..], s[0] == ',');
      } else {
        RunNotKept(s, k, afterComma);
        DropCommaRunsFrom(s[k..], true);
      }
    }
  }

  /** Runs of two or more commas are removed entirely, never collapsed to
      one comma; a lone comma and every other character stay, in order. */
  lemma DropCommaRunsKeepsLoneCommas(s: string)
    ensures DropCommaRuns(s) == Kept(s, false)
  {
    DropCommaRunsFrom(s, false);
  }

  /** An occurrence of `w` at or after `i` that starts with a non-space is
      removed: the result is strictly shorter than `t[i..]`. */
  lemma {:induction false} StripFromRemoves(ch: Chars, w: string, t: string, i: nat, j: nat)
    requires |w| > 0 && i <= j <= |t|
    requires WordAt(ch, w, t, j) && !ch.isSpace(t[j])
    ensures |StripFrom(ch, w, t, i)| < |t| - i
    decreases |t| - i
  {
    var k := i + SpaceRun(ch, t, i);
    if j > i && !WordAt(ch, w, t, k) {
      StripFromRemoves(ch, w, t, i + 1, j);
    }
  }

  /** Stripping words one list after another is stripping the joined list. */
  lemma {:induction false} StripAllAppend(ch: Chars, a: seq<string>, b: seq<string>, t: string)
    requires "" !in a && "" !in b
    ensures "" !in a + b
    ensures StripAll(ch, a + b, t) == StripAll(ch, b, StripAll(ch, a, t))
    decreases |a|
  {
    if a == [] {
      assert a + b == b;
    } else {
      assert (a + b)[0] == a[0] && (a + b)[1..] == a[1..] + b;
      StripAllAppend(ch, a[1..], b, StripFrom(ch, a[0], t, 0));
    }
  }

  /** When the `k`-th word occurs, starting with a non-space, in what the
      earlier words left of the phrase, the phrase comes out strictly
      shorter. */
  lemma StripAllRemoves(ch: Chars, words: seq<string>, t: string, k: nat, j: nat)
    requires "" !in words && k < |words|
    requires var u := StripAll(ch, words[..k], t);
      j <= |u| && WordAt(ch, words[k], u, j) && !ch.isSpace(u[j])
    ensures |StripAll(ch, words, t)| < |t|
  {
    var u := StripAll(ch, words[..k], t);
    StripFromRemoves(ch, words[k], u, 0, j);
    assert words == words[..k] + ([words[k]] + words[k + 1..]);
    StripAllAppend(ch, words[..k], [words[k]] + words[k + 1..], t);
    assert ([words[k]] + words[k + 1..])[1..] == words[k + 1..];
  }

  /** `drop_substrs`: stop words stripped, then comma runs dropped. */
  function DropSubstrs(ch: Chars, phrase: string): (r: string)
    ensures |r| <= |phrase|
    ensures NoDoubleComma(r)
  {
    var t := StripAll(ch, StopWords, phrase);
    DropCommaRunsClean(t);
    DropCommaRuns(t)
  }

  /** A phrase in which a stop word occurs (after the earlier stop words
      were removed) comes out of `drop_substrs` strictly shorter. */
  lemma DropSubstrsRemoves(ch: Chars, phrase: string, k: nat, j: nat)
    requires k < |StopWords|
    requires var u := StripAll(ch, StopWords[..k], phrase);
      j <= |u| && WordAt(ch, StopWords[k], u, j) && !ch.isSpace(u[j])
    ensures |DropSubstrs(ch, phrase)| < |phrase|
  {
    StripAllRemoves(ch, StopWords, phrase, k, j);
  }

  /** Number of whitespace characters at the front of `s`. */
  function Indent(ch: Chars, s: string): (a: nat)
    ensures a <= |s|
    ensures forall m :: 0 <= m < a ==> ch.isSpace(s[m])
    ensures a < |s| ==> !ch.isSpace(s[a])
  {
    if s != [] && ch.isSpace(s[0]) then 1 + Indent(ch, s[1..]) else 0
  }

  function TrimEnd(ch: Chars, s: string): (r: string)
    ensures |r| <= |s| && r == s[..|r|]
    ensures forall m :: |r| <= m < |s| ==> ch.isSpace(s[m])
    ensures r == [] || !ch.isSpace(r[|r| - 1])
  {
    if s != [] && ch.isSpace(s[|s| - 1]) then TrimEnd(ch, s[..|s| - 1]) else s
  }

  /** `str.strip()`: the result is the slice of `s` between its leading and
      trailing whitespace, and it starts and ends with a non-space. */
  function Strip(ch: Chars, s: string): (r: string)
    ensures Indent(ch, s) + |r| <= |s|
    ensures r == s[Indent(ch, s)..Indent(ch, s) + |r|]
    ensures forall m :: Indent(ch, s) + |r| <= m < |s| ==> ch.isSpace(s[m])
    ensures r == [] || (!ch.isSpace(r[0]) && !ch.isSpace(r[|r| - 1]))
  {
    var a := Indent(ch, s);
    var v := TrimEnd(ch, s[a..]);
    assert v == s[a..a + |v|];
    v
  }
}
