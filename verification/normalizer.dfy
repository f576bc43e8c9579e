/** The rewriting `doCascadeCalc` applies to a spoken query before handing it
    to the expression evaluator: lower-casing, then eight global regular
    expression replacements run in a fixed order.

    Each replacement is modelled by what JavaScript's `String.prototype.replace`
    does with a global regular expression whose body is a list of literal
    alternatives: scan the string from the left; at each position try the
    alternatives in the order written and take the first that matches;
    replace the match and continue after it; otherwise keep the character and
    move one position on. Anchors are evaluated against the string being
    scanned, never against the partially rewritten one. */
module Normalizer {
  import opened Wrappers
  import opened Text

  /** The shape of one regular expression of the pipeline.
      - `Words(alts)`:  `(a|b|c)` — one alternative per match;
      - `Runs(alts)`:   `(a|b|c)+` — a greedy run of alternatives, each chosen
        first-listed-first;
      - `AtLineStart(alts)`: `^(a|b|c)` with the `m` flag;
      - `AtLineEnd(alts)`:   `(a|b|c)$` with the `m` flag.
      Alternatives are literals; every list below has only non-empty ones,
      and an empty alternative is read as no match. */
  datatype Pattern =
    | Words(alts: seq<string>)
    | Runs(alts: seq<string>)
    | AtLineStart(alts: seq<string>)
    | AtLineEnd(alts: seq<string>)

  /** The characters the `m` flag treats as ending a line. */
  predicate IsLineTerminator(c: char) {
    c == '\n' || c == '\r' || c == '\U{2028}' || c == '\U{2029}'
  }

  predicate SingleLine(s: string) {
    forall i :: 0 <= i < |s| ==> !IsLineTerminator(s[i])
  }

  /** `^` under the `m` flag holds at index `i`. */
  predicate LineStartsAt(s: string, i: int) {
    i == 0 || (0 < i <= |s| && IsLineTerminator(s[i - 1]))
  }

  /** `$` under the `m` flag holds at index `j`. */
  predicate LineEndsAt(s: string, j: int) {
    j == |s| || (0 <= j < |s| && IsLineTerminator(s[j]))
  }

  /** Alternative `a` can be the match at `i`: it occurs there and, when the
      pattern ends with `$`, a line ends right after it. */
  predicate Fits(s: string, i: int, a: string, atEnd: bool) {
    OccursAt(s, a, i) && (atEnd ==> LineEndsAt(s, i + |a|))
  }

  /** The index of the alternative the regular expression engine settles on
      at `i`, trying them in order from `from`. */
  function ChosenFrom(s: string, i: int, alts: seq<string>, atEnd: bool, from: nat): (r: Option<nat>)
    requires from <= |alts|
    ensures r.Some? ==> from <= r.value < |alts| && Fits(s, i, alts[r.value], atEnd)
    ensures r.Some? ==> forall j :: from <= j < r.value ==> !Fits(s, i, alts[j], atEnd)
    ensures r.None? ==> forall j :: from <= j < |alts| ==> !Fits(s, i, alts[j], atEnd)
    decreases |alts| - from
  {
    if from == |alts| then None
    else if Fits(s, i, alts[from], atEnd) then Some(from)
    else ChosenFrom(s, i, alts, atEnd, from + 1)
  }

  function Chosen(s: string, i: int, alts: seq<string>, atEnd: bool): Option<nat> {
    ChosenFrom(s, i, alts, atEnd, 0)
  }

  /** The length of the greedy run `(a|b|c)+` starting at `i`, or 0 when no
      alternative occurs there. */
  function RunLen(s: string, i: nat, alts: seq<string>): (r: nat)
    requires i <= |s|
    ensures i + r <= |s|
    ensures r > 0 <==> Chosen(s, i, alts, false).Some? && |alts[Chosen(s, i, alts, false).value]| > 0
    decreases |s| - i
  {
    match Chosen(s, i, alts, false)
    case None => 0
    case Some(k) => if alts[k] == [] then 0 else |alts[k]| + RunLen(s, i + |alts[k]|, alts)
  }

  /** The length of the match of `p` at index `i`; 0 when there is none. */
  function MatchLen(s: string, i: nat, p: Pattern): (r: nat)
    requires i <= |s|
    ensures i + r <= |s|
  {
    match p
    case Runs(alts) => RunLen(s, i, alts)
    case Words(alts) =>
      (match Chosen(s, i, alts, false) case None => 0 case Some(k) => |alts[k]|)
    case AtLineStart(alts) =>
      if !LineStartsAt(s, i) then 0
      else (match Chosen(s, i, alts, false) case None => 0 case Some(k) => |alts[k]|)
    case AtLineEnd(alts) =>
      (match Chosen(s, i, alts, true) case None => 0 case Some(k) => |alts[k]|)
  }

  /** The length of the match of `p` at every index of `s`, all computed
      against `s` itself. */
  function Matches(s: string, p: Pattern): (m: seq<nat>)
    ensures |m| == |s|
    ensures forall k :: 0 <= k < |s| ==> m[k] == MatchLen(s, k, p) && k + m[k] <= |s|
  {
    seq(|s|, k requires 0 <= k < |s| => MatchLen(s, k, p))
  }

  /** A table of match lengths for `s`: one entry per index, each match
      ending inside `s`. */
  predicate MatchTable(s: string, m: seq<nat>) {
    |m| == |s| && forall k :: 0 <= k < |s| ==> k + m[k] <= |s|
  }

  /** The rewritten suffix of `s` from index `i`, given the match lengths:
      a match is replaced and skipped, any other character is kept. */
  function Scan(s: string, m: seq<nat>, i: nat, rep: string): string
    requires MatchTable(s, m) && i <= |s|
    decreases |s| - i
  {
    if i == |s| then []
    else if m[i] > 0 then rep + Scan(s, m, i + m[i], rep)
    else [s[i]] + Scan(s, m, i + 1, rep)
  }

  /** `s.replace(/p/g, rep)`. A string the pattern matches nowhere comes
      back unchanged (`ReplaceUnchangedIff` gives the converse). */
  function Replace(s: string, p: Pattern, rep: string): (r: string)
    ensures NoMatchFrom(s, 0, p) ==> r == s
  {
    var m := Matches(s, p);
    if NoMatchFrom(s, 0, p) then
      ScanCopies(s, m, 0, rep);
      Scan(s, m, 0, rep)
    else
      Scan(s, m, 0, rep)
  }

  /** No match of `p` starts at any index from `i` on. */
  predicate NoMatchFrom(s: string, i: nat, p: Pattern) {
    forall k :: i <= k < |s| ==> MatchLen(s, k, p) == 0
  }

  /** Every alternative is longer than the replacement, so each replacement
      shortens the string. */
  predicate Shrinks(p: Pattern, rep: string) {
    LongerThan(p.alts, |rep|)
  }

  /** Every word of `alts` has more than `n` characters, checked front to
      back so that it can be decided for a literal list. */
  predicate LongerThan(alts: seq<string>, n: nat) {
    alts == [] || (|alts[0]| > n && LongerThan(alts[1..], n))
  }

  predicate NonEmptyWords(alts: seq<string>) {
    forall k :: 0 <= k < |alts| ==> |alts[k]| > 0
  }

  lemma {:induction false} LongerThanAt(alts: seq<string>, n: nat, k: nat)
    requires LongerThan(alts, n) && k < |alts|
    ensures |alts[k]| > n
  {
    if k > 0 {
      LongerThanAt(alts[1..], n, k - 1);
    }
  }

  /** A match is at least as long as one of the alternatives. */
  lemma MatchCoversAlternative(s: string, i: nat, p: Pattern)
    requires i <= |s|
    requires MatchLen(s, i, p) > 0
    ensures exists k :: 0 <= k < |p.alts| && MatchLen(s, i, p) >= |p.alts[k]|
  {
    var atEnd := p.AtLineEnd?;
    var c := Chosen(s, i, p.alts, atEnd);
    assert c.Some?;
    assert MatchLen(s, i, p) >= |p.alts[c.value]|;
  }

  /** Where the table holds no match from `i` on, the scan copies the rest
      of the string. */
  lemma {:induction false} ScanCopies(s: string, m: seq<nat>, i: nat, rep: string)
    requires MatchTable(s, m) && i <= |s|
    requires forall k :: i <= k < |s| ==> m[k] == 0
    ensures Scan(s, m, i, rep) == s[i..]
    decreases |s| - i
  {
    if i < |s| {
      ScanCopies(s, m, i + 1, rep);
      assert s[i..] == [s[i]] + s[i + 1..];
    }
  }

  /** Where the table holds no match between `i` and `j`, the scan copies
      that stretch. */
  lemma {:induction false} ScanCopiesUpTo(s: string, m: seq<nat>, i: nat, j: nat, rep: string)
    requires MatchTable(s, m) && i <= j <= |s|
    requires forall k :: i <= k < j ==> m[k] == 0
    ensures Scan(s, m, i, rep) == s[i..j] + Scan(s, m, j, rep)
    decreases j - i
  {
    if i < j {
      ScanCopiesUpTo(s, m, i + 1, j, rep);
      assert s[i..j] == [s[i]] + s[i + 1..j];
      ConcatAssociates([s[i]], s[i + 1..j], Scan(s, m, j, rep));
    }
  }

  lemma ConcatAssociates(a: string, b: string, c: string)
    ensures a + (b + c) == (a + b) + c
  {
  }

  /** The scan at a match emits the replacement and resumes after it. */
  lemma ScanAtMatch(s: string, m: seq<nat>, i: nat, rep: string)
    requires MatchTable(s, m) && i < |s| && m[i] > 0
    ensures Scan(s, m, i, rep) == rep + Scan(s, m, i + m[i], rep)
  {
  }

  /** When every match is longer than the replacement text, the scan never
      lengthens the string, and it shortens it as soon as a match starts
      anywhere from `i` on. */
  lemma {:induction false} ScanShortens(s: string, m: seq<nat>, i: nat, rep: string)
    requires MatchTable(s, m) && i <= |s|
    requires forall k :: 0 <= k < |s| && m[k] > 0 ==> m[k] > |rep|
    ensures |Scan(s, m, i, rep)| <= |s| - i
    ensures (exists k :: i <= k < |s| && m[k] > 0) ==> |Scan(s, m, i, rep)| < |s| - i
    decreases |s| - i
  {
    if i < |s| {
      if m[i] > 0 {
        ScanShortens(s, m, i + m[i], rep);
      } else {
        ScanShortens(s, m, i + 1, rep);
        if exists k :: i <= k < |s| && m[k] > 0 {
          var k :| i <= k < |s| && m[k] > 0;
          assert k != i;
        }
      }
    }
  }

  /** Under `Shrinks`, every match of `p` is longer than the replacement. */
  lemma MatchesShrink(s: string, p: Pattern, rep: string)
    requires Shrinks(p, rep)
    ensures forall k :: 0 <= k < |s| && Matches(s, p)[k] > 0 ==> Matches(s, p)[k] > |rep|
  {
    forall k | 0 <= k < |s| && Matches(s, p)[k] > 0
      ensures Matches(s, p)[k] > |rep|
    {
      MatchCoversAlternative(s, k, p);
      var a :| 0 <= a < |p.alts| && MatchLen(s, k, p) >= |p.alts[a]|;
      LongerThanAt(p.alts, |rep|, a);
    }
  }

  /** A replacement whose alternatives are all longer than its replacement
      text leaves the string unchanged exactly when the pattern matches
      nowhere in it. */
  lemma ReplaceUnchangedIff(s: string, p: Pattern, rep: string)
    requires Shrinks(p, rep)
    ensures Replace(s, p, rep) == s <==> NoMatchFrom(s, 0, p)
    ensures |Replace(s, p, rep)| <= |s|
  {
    var m := Matches(s, p);
    MatchesShrink(s, p, rep);
    ScanShortens(s, m, 0, rep);
    if NoMatchFrom(s, 0, p) {
      ScanCopies(s, m, 0, rep);
    } else {
      var k :| 0 <= k < |s| && MatchLen(s, k, p) != 0;
      assert m[k] > 0;
    }
  }

  /** Every character the scan produces comes from the scanned suffix or from
      the replacement text. */
  lemma {:induction false} ScanDrawsFrom(s: string, m: seq<nat>, i: nat, rep: string, c: char)
    requires MatchTable(s, m) && i <= |s|
    requires c in Scan(s, m, i, rep)
    ensures c in s[i..] || c in rep
    decreases |s| - i
  {
    if i < |s| {
      if m[i] > 0 {
        if c !in rep {
          ScanDrawsFrom(s, m, i + m[i], rep, c);
          SuffixMember(s, i, i + m[i], c);
        }
      } else if c != s[i] {
        ScanDrawsFrom(s, m, i + 1, rep, c);
        SuffixMember(s, i, i + 1, c);
      } else {
        assert s[i..][0] == c;
      }
    }
  }

  lemma SuffixMember(s: string, i: nat, j: nat, c: char)
    requires i <= j <= |s|
    ensures c in s[j..] ==> c in s[i..]
  {
    assert s[j..] == s[i..][j - i..];
  }

  /** Replacing keeps a string free of upper-case letters when the
      replacement text is. */
  lemma ReplaceKeepsLowerCase(s: string, p: Pattern, rep: string)
    requires IsLowerCase(s) && IsLowerCase(rep)
    ensures IsLowerCase(Replace(s, p, rep))
  {
    var r := Replace(s, p, rep);
    forall j | 0 <= j < |r| ensures !IsUpper(r[j]) {
      ScanDrawsFrom(s, Matches(s, p), 0, rep, r[j]);
      assert s[0..] == s;
    }
  }

  /** Replacing never introduces a character that is in neither the string
      nor the replacement text. */
  lemma ReplaceKeepsOut(s: string, p: Pattern, rep: string, c: char)
    requires c !in s && c !in rep
    ensures c !in Replace(s, p, rep)
  {
    assert s[0..] == s;
    if c in Replace(s, p, rep) {
      ScanDrawsFrom(s, Matches(s, p), 0, rep, c);
    }
  }

  /** A one-character alternative `[c]` matches wherever `c` stands. */
  lemma SingleCharMatches(s: string, i: nat, alts: seq<string>, c: char)
    requires i < |s| && s[i] == c
    requires [c] in alts && NonEmptyWords(alts)
    ensures MatchLen(s, i, Words(alts)) > 0
  {
    var k :| 0 <= k < |alts| && alts[k] == [c];
    assert s[i..i + 1] == [c];
    assert Fits(s, i, alts[k], false);
  }

  /** A scan whose table has a match at every occurrence of `c` drops every
      `c` (unless the replacement text itself holds `c`). */
  lemma {:induction false} ScanRemoves(s: string, m: seq<nat>, i: nat, rep: string, c: char)
    requires MatchTable(s, m) && i <= |s|
    requires forall k :: 0 <= k < |s| && s[k] == c ==> m[k] > 0
    requires c !in rep
    ensures c !in Scan(s, m, i, rep)
    decreases |s| - i
  {
    if i < |s| {
      if m[i] > 0 {
        ScanRemoves(s, m, i + m[i], rep, c);
      } else {
        ScanRemoves(s, m, i + 1, rep, c);
      }
    }
  }

  /** When the one-character string `[c]` is among the alternatives of a
      `Words` pattern, replacing removes every `c`. */
  lemma ReplaceRemoves(s: string, alts: seq<string>, rep: string, c: char)
    requires [c] in alts && NonEmptyWords(alts) && c !in rep
    ensures c !in Replace(s, Words(alts), rep)
  {
    var m := Matches(s, Words(alts));
    forall k | 0 <= k < |s| && s[k] == c ensures m[k] > 0 {
      SingleCharMatches(s, k, alts, c);
    }
    ScanRemoves(s, m, 0, rep, c);
  }

  /** `s` does not start with an alternative that is a proper extension of
      another alternative listed before it: `alts[a]` is never a prefix of a
      later `alts[b]`. Under this ordering the engine's first choice is also
      the longest alternative present. */
  predicate NoShadowing(alts: seq<string>) {
    forall a, b :: 0 <= a < b < |alts| ==> !StartsWith(alts[b], alts[a])
  }

  /** With no alternative shadowed by an earlier one, the alternative chosen
      at `i` is at least as long as every alternative occurring at `i`:
      each listed word is replaced as a whole. */
  lemma LongestAlternativeWins(s: string, i: int, alts: seq<string>, w: nat)
    requires NoShadowing(alts)
    requires w < |alts| && OccursAt(s, alts[w], i)
    ensures Chosen(s, i, alts, false).Some?
    ensures |alts[Chosen(s, i, alts, false).value]| >= |alts[w]|
  {
  }

  /** No word of `ws` starts with `p`. */
  predicate NoneExtends(p: string, ws: seq<string>) {
    ws == [] || (!PrefixOf(p, ws[0]) && NoneExtends(p, ws[1..]))
  }

  /** The alternatives checked pairwise, front to back: a decision procedure
      for `NoShadowing`. */
  predicate ShadowFree(alts: seq<string>) {
    alts == [] || (NoneExtends(alts[0], alts[1..]) && ShadowFree(alts[1..]))
  }

  lemma {:induction false} NoneExtendsMeans(p: string, ws: seq<string>)
    requires NoneExtends(p, ws)
    ensures forall b :: 0 <= b < |ws| ==> !StartsWith(ws[b], p)
  {
    if ws != [] {
      PrefixOfIff(p, ws[0]);
      NoneExtendsMeans(p, ws[1..]);
      forall b | 1 <= b < |ws| ensures !StartsWith(ws[b], p) {
        assert ws[b] == ws[1..][b - 1];
      }
    }
  }

  /** The pairwise check decides the shadowing condition. */
  lemma {:induction false} ShadowFreeSound(alts: seq<string>)
    requires ShadowFree(alts)
    ensures NoShadowing(alts)
  {
    if alts != [] {
      NoneExtendsMeans(alts[0], alts[1..]);
      ShadowFreeSound(alts[1..]);
      forall a, b | 0 <= a < b < |alts| ensures !StartsWith(alts[b], alts[a]) {
        assert alts[b] == alts[1..][b - 1];
        if a > 0 {
          assert alts[a] == alts[1..][a - 1];
        }
      }
    }
  }

  /** The alternatives of the addition rule as the source lists them. */
  const AdditionAsWritten: seq<string> := ["add", "plus", "addition", "positive", "sum"]
  /** The alternatives of the subtraction rule as the source lists them. */
  const SubtractionAsWritten: seq<string> := ["subtract", "subtraction", "minus", "negative"]

  /** The same words with each listed before any of its prefixes, so that
      "addition" and "subtraction" are replaced as whole words. */
  const AdditionWords: seq<string> := ["addition", "add", "plus", "positive", "sum"]
  const SubtractionWords: seq<string> := ["subtraction", "subtract", "minus", "negative"]

  const DivisionWords: seq<string> := ["divided", "divided by", "over", "division"]
  const MultiplicationWords: seq<string> := ["multiply", "multiplied by", "multiplication", "times", "product"]
  const FactorialWords: seq<string> := ["factorial"]
  /** Words and characters dropped as filler. */
  const FillerWords: seq<string> := [
    "and", "with", "to", "by", "from", "find", "calculate", "what", "is", "the",
    "value", "of", "result", "?", ".", "answer", "expression", " "]
  /** Operators removed at the start of a line. */
  const LeadingOperators: seq<string> := ["!", "/", "*"]
  /** Operators removed at the end of a line. */
  const TrailingOperators: seq<string> := ["+", "-", "/", "*"]

  /** The first half of the rewriting: lower-case the query and turn the
      operation words into operator symbols, in the order the source applies
      the rules. */
  function Operators(q: string, adds: seq<string>, subs: seq<string>): string {
    var t0 := Lower(q);
    var t1 := Replace(t0, Runs(adds), "+");
    var t2 := Replace(t1, Runs(subs), "-");
    var t3 := Replace(t2, Runs(DivisionWords), "/");
    var t4 := Replace(t3, Words(MultiplicationWords), "*");
    Replace(t4, Words(FactorialWords), "!")
  }

  /** The second half: drop the filler, then one operator at the start and
      one at the end of each line. */
  function Cleanup(t: string): string {
    var t6 := Replace(t, Words(FillerWords), "");
    var t7 := Replace(t6, AtLineStart(LeadingOperators), "");
    Replace(t7, AtLineEnd(TrailingOperators), "")
  }

  /** The rewrite pipeline, parameterised by the addition and subtraction
      word lists. */
  function Pipeline(q: string, adds: seq<string>, subs: seq<string>): string {
    Cleanup(Operators(q, adds, subs))
  }


  /** One replacement that shrinks keeps a lower-case string lower-case and
      does not lengthen it. */
  lemma StepShape(s: string, p: Pattern, rep: string)
    requires Shrinks(p, rep)
    requires IsLowerCase(s) && IsLowerCase(rep)
    ensures |Replace(s, p, rep)| <= |s|
    ensures IsLowerCase(Replace(s, p, rep))
  {
    ReplaceUnchangedIff(s, p, rep);
    ReplaceKeepsLowerCase(s, p, rep);
  }

  /** A list without the empty word has only non-empty words. */
  lemma {:induction false} NonEmptyWhenNoEmptyWord(alts: seq<string>)
    requires "" !in alts
    ensures LongerThan(alts, 0)
  {
    if alts != [] {
      assert alts == [alts[0]] + alts[1..];
      NonEmptyWhenNoEmptyWord(alts[1..]);
    }
  }

  /** Every rule after the subtraction rule shortens the text it rewrites. */
  lemma FixedListsShrink()
    ensures Shrinks(Runs(DivisionWords), "/")
    ensures Shrinks(Words(MultiplicationWords), "*")
    ensures Shrinks(Words(FactorialWords), "!")
    ensures Shrinks(Words(FillerWords), "")
    ensures Shrinks(AtLineStart(LeadingOperators), "")
    ensures Shrinks(AtLineEnd(TrailingOperators), "")
  {
    WordListsShrink();
    FillerWordsNonEmpty();
    OperatorsNonEmpty();
  }

  lemma FillerWordsNonEmpty()
    ensures LongerThan(FillerWords, 0)
    ensures NonEmptyWords(FillerWords)
  {
    assert "" !in FillerWords;
    NonEmptyWhenNoEmptyWord(FillerWords);
  }

  lemma OperatorsNonEmpty()
    ensures LongerThan(LeadingOperators, 0) && LongerThan(TrailingOperators, 0)
  {
  }

  lemma WordListsShrink()
    ensures LongerThan(DivisionWords, 1)
    ensures LongerThan(MultiplicationWords, 1)
    ensures LongerThan(FactorialWords, 1)
  {
  }

  lemma OperatorsShape(q: string, adds: seq<string>, subs: seq<string>)
    requires Shrinks(Runs(adds), "+") && Shrinks(Runs(subs), "-")
    ensures |Operators(q, adds, subs)| <= |q|
    ensures IsLowerCase(Operators(q, adds, subs))
  {
    WordListsShrink();
    var t0 := Lower(q);
    var t1 := Replace(t0, Runs(adds), "+");
    StepShape(t0, Runs(adds), "+");
    var t2 := Replace(t1, Runs(subs), "-");
    StepShape(t1, Runs(subs), "-");
    var t3 := Replace(t2, Runs(DivisionWords), "/");
    StepShape(t2, Runs(DivisionWords), "/");
    var t4 := Replace(t3, Words(MultiplicationWords), "*");
    StepShape(t3, Words(MultiplicationWords), "*");
    StepShape(t4, Words(FactorialWords), "!");
  }

  lemma CleanupShape(t: string)
    requires IsLowerCase(t)
    ensures var r := Cleanup(t);
      |r| <= |t| && IsLowerCase(r) && ' ' !in r && '?' !in r && '.' !in r
  {
    FixedListsShrink();
    var t6 := Replace(t, Words(FillerWords), "");
    StepShape(t, Words(FillerWords), "");
    var t7 := Replace(t6, AtLineStart(LeadingOperators), "");
    StepShape(t6, AtLineStart(LeadingOperators), "");
    var t8 := Replace(t7, AtLineEnd(TrailingOperators), "");
    StepShape(t7, AtLineEnd(TrailingOperators), "");
    FillerGone(t, t6, t7, t8);
  }

  /** Facts about the whole rewrite, for either word list. */
  lemma PipelineShape(q: string, adds: seq<string>, subs: seq<string>)
    requires Shrinks(Runs(adds), "+") && Shrinks(Runs(subs), "-")
    ensures var r := Pipeline(q, adds, subs);
      && |r| <= |q|
      && IsLowerCase(r)
      && ' ' !in r && '?' !in r && '.' !in r
  {
    OperatorsShape(q, adds, subs);
    CleanupShape(Operators(q, adds, subs));
  }

  /** The filler rule removes every space, question mark and full stop, and
      the two operator rules after it only delete. */
  lemma FillerGone(t5: string, t6: string, t7: string, t8: string)
    requires t6 == Replace(t5, Words(FillerWords), "")
    requires t7 == Replace(t6, AtLineStart(LeadingOperators), "")
    requires t8 == Replace(t7, AtLineEnd(TrailingOperators), "")
    ensures ' ' !in t8 && '?' !in t8 && '.' !in t8
  {
    assert FillerWords[17] == [' '] && FillerWords[13] == ['?'] && FillerWords[14] == ['.'];
    FillerCharGone(t5, t6, t7, t8, ' ');
    FillerCharGone(t5, t6, t7, t8, '?');
    FillerCharGone(t5, t6, t7, t8, '.');
  }

  /** One filler character listed on its own is gone after the last three rules. */
  lemma FillerCharGone(t5: string, t6: string, t7: string, t8: string, c: char)
    requires [c] in FillerWords
    requires t6 == Replace(t5, Words(FillerWords), "")
    requires t7 == Replace(t6, AtLineStart(LeadingOperators), "")
    requires t8 == Replace(t7, AtLineEnd(TrailingOperators), "")
    ensures c !in t8
  {
    FillerWordsNonEmpty();
    ReplaceRemoves(t5, FillerWords, "", c);
    ReplaceKeepsOut(t6, AtLineStart(LeadingOperators), "", c);
    ReplaceKeepsOut(t7, AtLineEnd(TrailingOperators), "", c);
  }

  /** The rewriting `doCascadeCalc` performs, with the alternatives in the
      order the source lists them. It never lengthens the query, lower-cases
      it and leaves no space, question mark or full stop for the evaluator. */
  function NormalizeAsWritten(q: string): (r: string)
    ensures |r| <= |q| && IsLowerCase(r)
    ensures ' ' !in r && '?' !in r && '.' !in r
  {
    PipelineShape(q, AdditionAsWritten, SubtractionAsWritten);
    Pipeline(q, AdditionAsWritten, SubtractionAsWritten)
  }

  /** The rewriting with whole-word addition and subtraction rules, each word
      listed before its prefixes. The same shape guarantees hold. */
  function Normalize(q: string): (r: string)
    ensures |r| <= |q| && IsLowerCase(r)
    ensures ' ' !in r && '?' !in r && '.' !in r
  {
    PipelineShape(q, AdditionWords, SubtractionWords);
    Pipeline(q, AdditionWords, SubtractionWords)
  }

  /** Every alternative is a single character. */
  predicate AllSingle(alts: seq<string>) {
    alts == [] || (|alts[0]| == 1 && AllSingle(alts[1..]))
  }

  lemma {:induction false} AllSingleAt(alts: seq<string>, k: nat)
    requires AllSingle(alts) && k < |alts|
    ensures |alts[k]| == 1
  {
    if k > 0 {
      AllSingleAt(alts[1..], k - 1);
    }
  }

  /** With one-character alternatives the engine finds a match at `i` exactly
      when the character there is one of them (and, for a `$` pattern, a line
      ends right after it); the match is that one character. */
  lemma SingleCharChoice(s: string, i: nat, alts: seq<string>, atEnd: bool)
    requires AllSingle(alts)
    requires i <= |s|
    ensures Chosen(s, i, alts, atEnd).Some?
      <==> i < |s| && [s[i]] in alts && (atEnd ==> LineEndsAt(s, i + 1))
    ensures Chosen(s, i, alts, atEnd).Some? ==> |alts[Chosen(s, i, alts, atEnd).value]| == 1
  {
    var c := Chosen(s, i, alts, atEnd);
    if c.Some? {
      AllSingleAt(alts, c.value);
      assert alts[c.value] == s[i..i + 1] == [s[i]];
    }
    if i < |s| && [s[i]] in alts && (atEnd ==> LineEndsAt(s, i + 1)) {
      var k :| 0 <= k < |alts| && alts[k] == [s[i]];
      assert s[i..i + 1] == [s[i]];
      assert Fits(s, i, alts[k], atEnd);
    }
  }

  lemma OperatorListsSingle()
    ensures AllSingle(LeadingOperators) && AllSingle(TrailingOperators)
  {
  }

  /** On a single line, the leading-operator rule removes the first character
      when it is `!`, `/` or `*`, and nothing else. */
  lemma StripLeadingOperator(s: string)
    requires SingleLine(s)
    ensures Replace(s, AtLineStart(LeadingOperators), "")
      == if |s| > 0 && [s[0]] in LeadingOperators then s[1..] else s
  {
    var m := Matches(s, AtLineStart(LeadingOperators));
    OperatorListsSingle();
    if |s| > 0 {
      SingleCharChoice(s, 0, LeadingOperators, false);
      ScanCopies(s, m, 1, "");
      if [s[0]] !in LeadingOperators {
        assert s == [s[0]] + s[1..];
      }
    }
  }

  /** On a single line, the trailing-operator rule removes the last character
      when it is `+`, `-`, `/` or `*`, and nothing else. */
  lemma StripTrailingOperator(s: string)
    requires SingleLine(s)
    ensures Replace(s, AtLineEnd(TrailingOperators), "")
      == if |s| > 0 && [s[|s| - 1]] in TrailingOperators then s[..|s| - 1] else s
  {
    var m := Matches(s, AtLineEnd(TrailingOperators));
    OperatorListsSingle();
    if |s| > 0 {
      var n := |s| - 1;
      forall k | 0 <= k < n ensures m[k] == 0 {
        SingleCharChoice(s, k, TrailingOperators, true);
      }
      ScanCopiesUpTo(s, m, 0, n, "");
      SingleCharChoice(s, n, TrailingOperators, true);
      if [s[n]] !in TrailingOperators {
        assert s == s[..n] + [s[n]];
      }
    }
  }

  /** No alternative can start at index `i` of `s`: each is too long to fit
      or begins with another character. Computed alternative by alternative,
      so that it can be decided for literal strings. */
  predicate NoneStartsAt(s: string, i: int, alts: seq<string>) {
    alts == []
    || (0 <= i < |s|
        && (i + |alts[0]| > |s| || (|alts[0]| > 0 && s[i] != alts[0][0]))
        && NoneStartsAt(s, i, alts[1..]))
  }

  /** `NoneStartsAt` holds at every index from `i` on. */
  predicate NoneStartsFrom(s: string, i: nat, alts: seq<string>)
    decreases |s| - i
  {
    i >= |s| || (NoneStartsAt(s, i, alts) && NoneStartsFrom(s, i + 1, alts))
  }

  /** Where no alternative can start, the engine finds none that fits. */
  lemma {:induction false} NoneStartsNoneChosen(s: string, i: int, alts: seq<string>, atEnd: bool, from: nat)
    requires from <= |alts|
    requires NoneStartsAt(s, i, alts[from..])
    ensures ChosenFrom(s, i, alts, atEnd, from).None?
    decreases |alts| - from
  {
    if from < |alts| {
      assert alts[from..][1..] == alts[from + 1..];
      assert alts[from..][0] == alts[from];
      if i + |alts[from]| <= |s| {
        assert s[i..i + |alts[from]|][0] == s[i];
      }
      NoneStartsNoneChosen(s, i, alts, atEnd, from + 1);
    }
  }

  /** Where no alternative can start from `i` on, nothing matches. */
  lemma {:induction false} NoneStartsNoMatch(s: string, i: nat, p: Pattern)
    requires NoneStartsFrom(s, i, p.alts)
    ensures NoMatchFrom(s, i, p)
    decreases |s| - i
  {
    if i < |s| {
      assert p.alts[0..] == p.alts;
      NoneStartsNoneChosen(s, i, p.alts, false, 0);
      NoneStartsNoneChosen(s, i, p.alts, true, 0);
      NoneStartsNoMatch(s, i + 1, p);
    }
  }

  /** Where no alternative can start from `i` on, the scan copies the rest. */
  lemma ScanCopiesWhereNoneStarts(s: string, i: nat, p: Pattern, rep: string)
    requires i <= |s|
    requires NoneStartsFrom(s, i, p.alts)
    ensures Scan(s, Matches(s, p), i, rep) == s[i..]
  {
    NoneStartsNoMatch(s, i, p);
    ScanCopies(s, Matches(s, p), i, rep);
  }

  /** A run cannot start where no alternative can. */
  lemma RunStops(s: string, j: nat, alts: seq<string>)
    requires j <= |s|
    requires j == |s| || NoneStartsAt(s, j, alts)
    ensures RunLen(s, j, alts) == 0
  {
    if j < |s| {
      assert alts[0..] == alts;
      NoneStartsNoneChosen(s, j, alts, false, 0);
    }
  }

  /** A run that starts with alternative `k` at `i` and cannot be continued
      after it is exactly that alternative. */
  lemma LoneWordRun(s: string, i: nat, alts: seq<string>, k: nat)
    requires i < |s|
    requires k < |alts| && Chosen(s, i, alts, false) == Some(k) && |alts[k]| > 0
    requires i + |alts[k]| == |s| || NoneStartsAt(s, i + |alts[k]|, alts)
    ensures MatchLen(s, i, Runs(alts)) == |alts[k]|
  {
    RunStops(s, i + |alts[k]|, alts);
  }

  /** The addition rule as written splits the word "addition": its first
      alternative "add" is a prefix of the later "addition", so the engine
      replaces "add" and leaves "ition" behind. */
  lemma AdditionRuleSplitsWord()
    ensures !NoShadowing(AdditionAsWritten)
    ensures Replace("addition", Runs(AdditionAsWritten), "+") == "+ition"
  {
    AdditionShadowed();
    AdditionSplitsAt("addition");
    AdditionTail("addition");
  }

  lemma AdditionSplitsAt(s: string)
    requires s == "addition"
    ensures Replace(s, Runs(AdditionAsWritten), "+") == "+" + s[3..]
  {
    var p := Runs(AdditionAsWritten);
    var m := Matches(s, p);
    AddChosenFirst();
    AdditionTailInert();
    LoneWordRun(s, 0, AdditionAsWritten, 0);
    assert m[0] == 3;
    ScanAtMatch(s, m, 0, "+");
    ScanCopiesWhereNoneStarts(s, 3, p, "+");
  }

  lemma AdditionTail(s: string)
    requires s == "addition"
    ensures "+" + s[3..] == "+ition"
  {
  }

  lemma AdditionShadowed()
    ensures !NoShadowing(AdditionAsWritten)
  {
    assert StartsWith(AdditionAsWritten[2], AdditionAsWritten[0]);
  }

  lemma AddChosenFirst()
    ensures Chosen("addition", 0, AdditionAsWritten, false) == Some(0)
  {
    assert OccursAt("addition", "add", 0);
  }

  lemma AdditionTailInert()
    ensures NoneStartsFrom("addition", 3, AdditionAsWritten)
    ensures NoneStartsAt("addition", 3, AdditionAsWritten)
  {
    var s, a := "addition", AdditionAsWritten;
    assert NoneStartsFrom(s, 8, a);
    assert NoneStartsAt(s, 7, a);
    assert NoneStartsAt(s, 6, a);
    assert NoneStartsAt(s, 5, a);
    assert NoneStartsAt(s, 4, a);
    assert NoneStartsAt(s, 3, a);
  }

  /** The subtraction rule as written turns "subtraction" into "-ion". */
  lemma SubtractionRuleSplitsWord()
    ensures !NoShadowing(SubtractionAsWritten)
    ensures Replace("subtraction", Runs(SubtractionAsWritten), "-") == "-ion"
  {
    assert StartsWith(SubtractionAsWritten[1], SubtractionAsWritten[0]);
    SubtractionSplitsAt("subtraction");
    SubtractionTail("subtraction");
  }

  lemma SubtractionSplitsAt(s: string)
    requires s == "subtraction"
    ensures Replace(s, Runs(SubtractionAsWritten), "-") == "-" + s[8..]
  {
    var p := Runs(SubtractionAsWritten);
    var m := Matches(s, p);
    assert Chosen(s, 0, SubtractionAsWritten, false) == Some(0) by {
      assert OccursAt(s, "subtract", 0);
    }
    SubtractionTailInert();
    LoneWordRun(s, 0, SubtractionAsWritten, 0);
    assert m[0] == 8;
    ScanAtMatch(s, m, 0, "-");
    ScanCopiesWhereNoneStarts(s, 8, p, "-");
  }

  lemma SubtractionTailInert()
    ensures NoneStartsFrom("subtraction", 8, SubtractionAsWritten)
    ensures NoneStartsAt("subtraction", 8, SubtractionAsWritten)
  {
    var s, a := "subtraction", SubtractionAsWritten;
    assert NoneStartsFrom(s, 11, a);
    assert NoneStartsAt(s, 10, a);
    assert NoneStartsAt(s, 9, a);
    assert NoneStartsAt(s, 8, a);
  }

  lemma SubtractionTail(s: string)
    requires s == "subtraction"
    ensures "-" + s[8..] == "-ion"
  {
  }

  lemma AdditionWordsShadowFree()
    ensures ShadowFree(AdditionWords)
  {
  }

  lemma SubtractionWordsShadowFree()
    ensures ShadowFree(SubtractionWords)
  {
  }

  /** The reordered addition list shadows nothing, so each of its words is
      replaced whole (see `LongestAlternativeWins`); "addition" becomes a
      single operator. */
  lemma AdditionRuleKeepsWord()
    ensures NoShadowing(AdditionWords)
    ensures Replace("addition", Runs(AdditionWords), "+") == "+"
  {
    AdditionWordsShadowFree();
    ShadowFreeSound(AdditionWords);
    AdditionWholeAt("addition");
  }

  lemma AdditionWholeAt(s: string)
    requires s == "addition"
    ensures Replace(s, Runs(AdditionWords), "+") == "+"
  {
    var m := Matches(s, Runs(AdditionWords));
    assert Chosen(s, 0, AdditionWords, false) == Some(0) by {
      assert OccursAt(s, "addition", 0);
    }
    LoneWordRun(s, 0, AdditionWords, 0);
    assert m[0] == 8;
    ScanAtMatch(s, m, 0, "+");
  }

  /** The same for the reordered subtraction list and "subtraction". */
  lemma SubtractionRuleKeepsWord()
    ensures NoShadowing(SubtractionWords)
    ensures Replace("subtraction", Runs(SubtractionWords), "-") == "-"
  {
    SubtractionWordsShadowFree();
    ShadowFreeSound(SubtractionWords);
    SubtractionWholeAt("subtraction");
  }

  lemma SubtractionWholeAt(s: string)
    requires s == "subtraction"
    ensures Replace(s, Runs(SubtractionWords), "-") == "-"
  {
    var m := Matches(s, Runs(SubtractionWords));
    assert Chosen(s, 0, SubtractionWords, false) == Some(0) by {
      assert OccursAt(s, "subtraction", 0);
    }
    LoneWordRun(s, 0, SubtractionWords, 0);
    assert m[0] == 11;
    ScanAtMatch(s, m, 0, "-");
  }
}
