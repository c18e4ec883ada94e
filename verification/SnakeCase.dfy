/**
 The conversion of names in the rename script (pascal_to_snake in scripts/mass_rename_headers.py).  Letter case is
 ASCII case.
 */
module SnakeCase {
  import opened Text

  predicate IsLowerOrDigit(c: char) {
    'a' <= c <= 'z' || IsDigit(c)
  }

  /** Before `s[i]` ends a run of capitals that goes on in small letters or digits. */
  predicate EndsAcronym(s: string, i: nat) {
    0 < i && i + 1 < |s| && IsUpper(s[i - 1]) && IsUpper(s[i]) && IsLowerOrDigit(s[i + 1])
  }

  /** `s[i]` is a capital after a small letter or digit. */
  predicate StartsWord(s: string, i: nat) {
    0 < i < |s| && IsLowerOrDigit(s[i - 1]) && IsUpper(s[i])
  }

  /** The first substitution, from position `i` on. */
  function BreakAcronyms(s: string, i: nat): string
    requires i <= |s|
    decreases |s| - i
  {
    if i == |s| then "" else
      (if EndsAcronym(s, i) then "_" else "") + [s[i]] + BreakAcronyms(s, i + 1)
  }

  /** The second substitution, from position `i` on. */
  function BreakWords(s: string, i: nat): string
    requires i <= |s|
    decreases |s| - i
  {
    if i == |s| then "" else
      (if StartsWord(s, i) then "_" else "") + [s[i]] + BreakWords(s, i + 1)
  }

  function PascalToSnake(s: string): string {
    Lower(BreakWords(BreakAcronyms(s, 0), 0))
  }

  predicate HasUpper(s: string) {
    exists i :: 0 <= i < |s| && IsUpper(s[i])
  }

  lemma LowerHasNoUpper(s: string)
    ensures !HasUpper(Lower(s))
  {
  }

  lemma UpperOfConcat(a: string, b: string)
    ensures HasUpper(a + b) <==> HasUpper(a) || HasUpper(b)
  {
    assert forall i :: 0 <= i < |a| ==> (a + b)[i] == a[i];
    assert forall i :: 0 <= i < |b| ==> (a + b)[|a| + i] == b[i];
    assert forall i :: |a| <= i < |a + b| ==> (a + b)[i] == b[i - |a|];
  }

  // ----- what the conversion does -----

  function DropUnderscores(s: string): string {
    if s == "" then "" else (if s[0] == '_' then "" else [s[0]]) + DropUnderscores(s[1..])
  }

  lemma {:induction false} DropConcat(a: string, b: string)
    ensures DropUnderscores(a + b) == DropUnderscores(a) + DropUnderscores(b)
  {
    if a == "" {
      assert a + b == b;
    } else {
      assert (a + b)[1..] == a[1..] + b;
      DropConcat(a[1..], b);
    }
  }

  lemma {:induction false} DropHead(mark: string, c: char, rest: string)
    requires mark == "" || mark == "_"
    ensures DropUnderscores(mark + [c] + rest) == DropUnderscores([c]) + DropUnderscores(rest)
  {
    assert mark + [c] + rest == mark + ([c] + rest);
    DropConcat(mark, [c] + rest);
    DropConcat([c], rest);
    assert DropUnderscores("_") == "";
  }

  lemma {:induction false} BreaksOnlyInsert(s: string, i: nat)
    requires i <= |s|
    ensures DropUnderscores(BreakAcronyms(s, i)) == DropUnderscores(s[i..])
    ensures DropUnderscores(BreakWords(s, i)) == DropUnderscores(s[i..])
    decreases |s| - i
  {
    if i < |s| {
      BreaksOnlyInsert(s, i + 1);
      assert s[i..] == "" + [s[i]] + s[i + 1..];
      DropHead("", s[i], s[i + 1..]);
      DropHead(if EndsAcronym(s, i) then "_" else "", s[i], BreakAcronyms(s, i + 1));
      DropHead(if StartsWord(s, i) then "_" else "", s[i], BreakWords(s, i + 1));
    }
  }

  lemma {:induction false} DropLower(s: string)
    ensures DropUnderscores(Lower(s)) == Lower(DropUnderscores(s))
  {
    if s != "" {
      DropLower(s[1..]);
      assert Lower(s)[1..] == Lower(s[1..]);
    }
  }

  /** Up to underscores and case the new stem is the old one. */
  lemma {:induction false} SnakeKeepsLetters(s: string)
    ensures DropUnderscores(PascalToSnake(s)) == Lower(DropUnderscores(s))
  {
    var first := BreakAcronyms(s, 0);
    BreaksOnlyInsert(s, 0);
    BreaksOnlyInsert(first, 0);
    assert s[0..] == s && first[0..] == first;
    DropLower(BreakWords(first, 0));
  }

  /** The underscores in one pass: before every capital that starts a word or ends an acronym. */
  function OnePass(s: string, i: nat): string
    requires i <= |s|
    decreases |s| - i
  {
    if i == |s| then "" else
      (if StartsWord(s, i) || EndsAcronym(s, i) then "_" else "") + [s[i]] + OnePass(s, i + 1)
  }

  /** The second substitution on a suffix, knowing the character in front of it. */
  function WordsAfter(prev: char, t: string): string
    decreases |t|
  {
    if t == "" then "" else
      (if IsLowerOrDigit(prev) && IsUpper(t[0]) then "_" else "") + [t[0]] + WordsAfter(t[0], t[1..])
  }

  lemma {:induction false} BreakWordsIsWordsAfter(s: string, i: nat)
    requires 0 < i <= |s|
    ensures BreakWords(s, i) == WordsAfter(s[i - 1], s[i..])
    decreases |s| - i
  {
    if i < |s| {
      BreakWordsIsWordsAfter(s, i + 1);
      assert s[i..][1..] == s[i + 1..];
    }
  }

  lemma {:induction false} WordsAfterHead(prev: char, c: char, rest: string)
    ensures WordsAfter(prev, "" + [c] + rest) == (if IsLowerOrDigit(prev) && IsUpper(c) then "_" else "") + [c] + WordsAfter(c, rest)
    ensures WordsAfter(prev, "_" + [c] + rest) == "_" + [c] + WordsAfter(c, rest)
  {
    assert ("" + [c] + rest)[1..] == rest;
    assert ("_" + [c] + rest)[1..] == "" + [c] + rest;
    assert "_" + ("" + [c] + WordsAfter(c, rest)) == "_" + [c] + WordsAfter(c, rest);
  }

  lemma {:induction false} TwoPassesFrom(s: string, i: nat)
    requires 0 < i <= |s|
    ensures WordsAfter(s[i - 1], BreakAcronyms(s, i)) == OnePass(s, i)
    decreases |s| - i
  {
    if i < |s| {
      TwoPassesFrom(s, i + 1);
      WordsAfterHead(s[i - 1], s[i], BreakAcronyms(s, i + 1));
    }
  }

  /** The two substitutions together put underscores exactly where one pass over the old name does. */
  lemma {:induction false} SnakeIsOnePass(s: string)
    ensures PascalToSnake(s) == Lower(OnePass(s, 0))
  {
    if s != "" {
      var rest := BreakAcronyms(s, 1);
      var first := BreakAcronyms(s, 0);
      assert first == [s[0]] + rest && first[1..] == rest;
      BreakWordsIsWordsAfter(first, 1);
      TwoPassesFrom(s, 1);
    }
  }

  // ----- the two regular expressions -----

  /** Where the run of capitals from `i` on ends. */
  function RunEnd(s: string, i: nat): (e: nat)
    requires i <= |s|
    ensures i <= e <= |s| && (forall j :: i <= j < e ==> IsUpper(s[j])) && (e < |s| ==> !IsUpper(s[e]))
    decreases |s| - i
  {
    if i == |s| || !IsUpper(s[i]) then i else RunEnd(s, i + 1)
  }

  /** At `i` starts a match of ([A-Z]+)([A-Z][a-z0-9]): a run of two or more capitals up to `e`, and a small letter or digit. */
  predicate IsMatch(s: string, i: nat, e: nat) {
    e >= i + 2 && e < |s| && IsLowerOrDigit(s[e])
  }

  /** Replacing every match, from left to right, by its two groups with an underscore between them. */
  function SubAcronyms(s: string, i: nat): string
    requires i <= |s|
    decreases |s| - i
  {
    if i == |s| then "" else
      var e := RunEnd(s, i);
      if IsMatch(s, i, e) then s[i..e - 1] + ("_" + (s[e - 1..e + 1] + SubAcronyms(s, e + 1)))
      else [s[i]] + SubAcronyms(s, i + 1)
  }

  /** Replacing ([a-z0-9])([A-Z]) likewise. */
  function SubWords(s: string): string
    decreases |s|
  {
    if s == "" then ""
    else if |s| >= 2 && IsLowerOrDigit(s[0]) && IsUpper(s[1]) then [s[0], '_', s[1]] + SubWords(s[2..])
    else s[..1] + SubWords(s[1..])
  }

  lemma {:induction false} CopyAcronyms(s: string, i: nat, m: nat)
    requires i <= m <= |s| && forall j :: i <= j < m ==> !EndsAcronym(s, j)
    ensures BreakAcronyms(s, i) == s[i..m] + BreakAcronyms(s, m)
    decreases m - i
  {
    if i == m {
      assert s[i..m] == "";
    } else {
      CopyAcronyms(s, i + 1, m);
      CopyOne(s, i);
      TakeOne(s, i, m, BreakAcronyms(s, m));
    }
  }

  lemma {:induction false} CopyOne(s: string, i: nat)
    requires i < |s| && !EndsAcronym(s, i)
    ensures BreakAcronyms(s, i) == [s[i]] + BreakAcronyms(s, i + 1)
  {
  }

  lemma {:induction false} TakeOne(s: string, i: nat, m: nat, tail: string)
    requires i < m <= |s|
    ensures [s[i]] + (s[i + 1..m] + tail) == s[i..m] + tail
  {
    assert s[i..m] == [s[i]] + s[i + 1..m];
  }

  lemma {:induction false} AcronymsFrom(s: string, i: nat)
    requires i <= |s| && !EndsAcronym(s, i)
    ensures BreakAcronyms(s, i) == SubAcronyms(s, i)
    decreases |s| - i
  {
    if i < |s| {
      var e := RunEnd(s, i);
      if IsMatch(s, i, e) {
        AcronymsFrom(s, e + 1);
        MatchedFrom(s, i, e - 1);
      } else {
        NoAcronymNext(s, i, e);
        AcronymsFrom(s, i + 1);
      }
    }
  }

  /** Where no match starts, no acronym ends right behind. */
  lemma {:induction false} NoAcronymNext(s: string, i: nat, e: nat)
    requires i < |s| && e == RunEnd(s, i) && !IsMatch(s, i, e)
    ensures !EndsAcronym(s, i + 1)
  {
  }

  lemma {:induction false} MatchedFrom(s: string, i: nat, m: nat)
    requires i < |s| && !EndsAcronym(s, i) && m + 1 == RunEnd(s, i) && IsMatch(s, i, m + 1)
    requires BreakAcronyms(s, m + 2) == SubAcronyms(s, m + 2)
    ensures BreakAcronyms(s, i) == SubAcronyms(s, i)
  {
    LastOfRun(s, i, m);
    var b, tail := BreakAcronyms(s, m), BreakAcronyms(s, m + 2);
    assert BreakAcronyms(s, i) == s[i..m] + b by {
      CopyAcronyms(s, i, m);
    }
    assert b == "_" + (s[m..m + 2] + tail) by {
      AcronymEnd(s, m);
    }
    MatchedText(s, i, m, tail);
  }

  lemma {:induction false} MatchedText(s: string, i: nat, m: nat, tail: string)
    requires i < |s| && m + 1 == RunEnd(s, i) && IsMatch(s, i, m + 1) && tail == SubAcronyms(s, m + 2)
    ensures SubAcronyms(s, i) == s[i..m] + ("_" + (s[m..m + 2] + tail))
  {
  }

  /** In a match only the last capital of the run ends an acronym. */
  lemma {:induction false} LastOfRun(s: string, i: nat, m: nat)
    requires i < |s| && !EndsAcronym(s, i) && m + 1 == RunEnd(s, i) && IsMatch(s, i, m + 1)
    ensures EndsAcronym(s, m) && !EndsAcronym(s, m + 1) && forall j :: i <= j < m ==> !EndsAcronym(s, j)
  {
  }

  lemma {:induction false} AcronymEnd(s: string, m: nat)
    requires EndsAcronym(s, m) && !EndsAcronym(s, m + 1)
    ensures BreakAcronyms(s, m) == "_" + (s[m..m + 2] + BreakAcronyms(s, m + 2))
  {
    var rest := BreakAcronyms(s, m + 2);
    assert BreakAcronyms(s, m + 1) == [s[m + 1]] + rest;
    assert s[m..m + 2] == [s[m]] + [s[m + 1]];
    assert "_" + [s[m]] + ([s[m + 1]] + rest) == "_" + (([s[m]] + [s[m + 1]]) + rest);
  }

  lemma {:induction false} WordsFrom(s: string, i: nat)
    requires i <= |s| && !StartsWord(s, i)
    ensures BreakWords(s, i) == SubWords(s[i..])
    decreases |s| - i
  {
    if i < |s| {
      var t := s[i..];
      if |t| >= 2 && IsLowerOrDigit(t[0]) && IsUpper(t[1]) {
        assert StartsWord(s, i + 1) && !StartsWord(s, i + 2);
        WordsFrom(s, i + 2);
        assert t[2..] == s[i + 2..];
        assert BreakWords(s, i) == [s[i]] + ("_" + [s[i + 1]] + BreakWords(s, i + 2));
      } else {
        WordsFrom(s, i + 1);
        assert t[1..] == s[i + 1..] && t[..1] == [s[i]];
      }
    }
  }

  /** The conversion is the two replacements, one after the other, and then small letters. */
  lemma {:induction false} SnakeIsTwoReplacements(s: string)
    ensures PascalToSnake(s) == Lower(SubWords(SubAcronyms(s, 0)))
  {
    AcronymsFrom(s, 0);
    var first := BreakAcronyms(s, 0);
    WordsFrom(first, 0);
    assert first[0..] == first;
  }

  lemma {:induction false} NoBreaksWithoutUpper(s: string, i: nat)
    requires i <= |s| && !HasUpper(s)
    ensures BreakAcronyms(s, i) == s[i..] && BreakWords(s, i) == s[i..]
    decreases |s| - i
  {
    if i < |s| {
      NoBreaksWithoutUpper(s, i + 1);
      assert !IsUpper(s[i]) && s[i..] == "" + [s[i]] + s[i + 1..];
    }
  }

  /** A name that was converted is left alone by a second run. */
  lemma SnakeTwice(s: string)
    ensures PascalToSnake(PascalToSnake(s)) == PascalToSnake(s)
  {
    var once := PascalToSnake(s);
    LowerHasNoUpper(BreakWords(BreakAcronyms(s, 0), 0));
    NoBreaksWithoutUpper(once, 0);
    assert once[0..] == once;
  }
}
