/** The symbol translator: whole-word operator keywords become logic symbols, for display only. */
module Translate {
  import opened Text

  const AndSymbol: char := '\U{2227}'   // ∧
  const OrSymbol: char := '\U{2228}'    // ∨
  const NotSymbol: char := '\U{00AC}'   // ¬
  const NandSymbol: char := '\U{22BC}'  // ⊼
  const NorSymbol: char := '\U{22BD}'   // ⊽
  const XorSymbol: char := '\U{2295}'   // ⊕

  /** One `.replace(/\bword\b/g, symbol)` call. */
  datatype Rule = Rule(word: string, symbol: char)

  /** The replacements, in the order they are chained. */
  const Rules: seq<Rule> := [
    Rule("and", AndSymbol), Rule("or", OrSymbol), Rule("not", NotSymbol),
    Rule("nand", NandSymbol), Rule("nor", NorSymbol), Rule("xor", XorSymbol)
  ]

  /** Every rule replaces a word by a single character that is not a word character, so a
      replacement can neither create nor split a word. */
  ghost predicate WellFormed(rules: seq<Rule>)
  {
    forall i :: 0 <= i < |rules| ==> IsWord(rules[i].word) && !IsWordChar(rules[i].symbol)
  }

  lemma RulesWellFormed()
    ensures WellFormed(Rules)
  {
    assert IsWord("and") && IsWord("or") && IsWord("not");
    assert IsWord("nand") && IsWord("nor") && IsWord("xor");
  }

  /** `word\b` matches at the start of `s`: `s` begins with `word` and no word character follows it. */
  predicate WordAtStart(s: string, word: string)
  {
    word <= s && (|s| == |word| || !IsWordChar(s[|word|]))
  }

  /** The global replacement of `\bword\b` by `symbol` in `s`, scanning left to right;
      `afterWord` says whether the character before `s` is a word character, which decides
      the leading `\b`. After a match the scan resumes at the match's end. */
  function ReplaceAfter(afterWord: bool, s: string, word: string, symbol: char): (r: string)
    requires IsWord(word)
    ensures (r == []) == (s == [])
    decreases |s|
  {
    if s == [] then []
    else if !afterWord && WordAtStart(s, word) then [symbol] + ReplaceAfter(true, s[|word|..], word, symbol)
    else [s[0]] + ReplaceAfter(IsWordChar(s[0]), s[1..], word, symbol)
  }

  /** `s.replace(/\bword\b/g, symbol)`. */
  function ReplaceWord(s: string, word: string, symbol: char): string
    requires IsWord(word)
  {
    ReplaceAfter(false, s, word, symbol)
  }

  /** The chain of replacements, applied in order. */
  function ApplyRules(s: string, rules: seq<Rule>): string
    requires WellFormed(rules)
    decreases |rules|
  {
    if rules == [] then s else ApplyRules(ReplaceWord(s, rules[0].word, rules[0].symbol), rules[1..])
  }

  /** `translateToLogicSymbols(expression)`. */
  function TranslateToLogicSymbols(expression: string): string
  {
    RulesWellFormed();
    ApplyRules(expression, Rules)
  }

  /** `word` occurs in `s` as a whole word (the character before `s` being a word character
      when `afterWord` holds). */
  ghost predicate Occurs(afterWord: bool, s: string, word: string)
    decreases |s|
  {
    s != [] && ((!afterWord && WordAtStart(s, word)) || Occurs(IsWordChar(s[0]), s[1..], word))
  }

  /** `\bword\b` matches somewhere in `s`. */
  ghost predicate HasWholeWord(s: string, word: string)
  {
    Occurs(false, s, word)
  }

  // ---------------------------------------------------------------------------------------
  // One replacement

  /** Without a whole-word occurrence, a replacement changes nothing. */
  lemma {:induction false} ReplaceWithoutOccurrence(afterWord: bool, s: string, word: string, symbol: char)
    requires IsWord(word)
    requires !Occurs(afterWord, s, word)
    ensures ReplaceAfter(afterWord, s, word, symbol) == s
    decreases |s|
  {
    if s != [] {
      ReplaceWithoutOccurrence(IsWordChar(s[0]), s[1..], word, symbol);
    }
  }

  /** An occurrence in a suffix of `s` is an occurrence in `s`. */
  lemma {:induction false} OccursInSuffix(afterWord: bool, s: string, k: nat, w: string)
    requires 0 < k <= |s|
    requires Occurs(IsWordChar(s[k - 1]), s[k..], w)
    ensures Occurs(afterWord, s, w)
    decreases k
  {
    if k > 1 {
      assert s[1..][k - 1..] == s[k..] && s[1..][k - 2] == s[k - 1];
      OccursInSuffix(IsWordChar(s[0]), s[1..], k - 1, w);
    }
  }

  /** After a word character, a replacement keeps a leading run of word characters as it was, and
      the character that ends the run in the output ends it in the input too. */
  lemma {:induction false} LeadingRunKept(t: string, word: string, symbol: char, m: nat)
    requires IsWord(word) && !IsWordChar(symbol)
    requires m <= |ReplaceAfter(true, t, word, symbol)|
    requires forall i :: 0 <= i < m ==> IsWordChar(ReplaceAfter(true, t, word, symbol)[i])
    requires m == |ReplaceAfter(true, t, word, symbol)| || !IsWordChar(ReplaceAfter(true, t, word, symbol)[m])
    ensures m <= |t| && t[..m] == ReplaceAfter(true, t, word, symbol)[..m]
    ensures m == |t| || !IsWordChar(t[m])
    decreases |t|
  {
    var out := ReplaceAfter(true, t, word, symbol);
    if t != [] {
      assert out == [t[0]] + ReplaceAfter(IsWordChar(t[0]), t[1..], word, symbol);
      if m > 0 {
        assert IsWordChar(out[0]);
        var rest := ReplaceAfter(true, t[1..], word, symbol);
        assert out[1..] == rest;
        forall i | 0 <= i < m - 1 ensures IsWordChar(rest[i]) {
          assert rest[i] == out[i + 1];
        }
        assert m - 1 == |rest| || rest[m - 1] == out[m];
        LeadingRunKept(t[1..], word, symbol, m - 1);
        assert t == [t[0]] + t[1..];
      }
    }
  }

  /** A whole-word occurrence of `w` after one replacement of `word` was already a whole-word
      occurrence before it, and `w` is not the replaced word. `outAfterWord` may differ from
      `afterWord` only in front of a non-word character, as it does right after a replaced symbol. */
  lemma {:induction false} OccurrenceAfterReplace(outAfterWord: bool, afterWord: bool, s: string,
                                                   word: string, symbol: char, w: string)
    requires IsWord(word) && !IsWordChar(symbol) && IsWord(w)
    requires outAfterWord == afterWord || s == [] || !IsWordChar(s[0])
    requires Occurs(outAfterWord, ReplaceAfter(afterWord, s, word, symbol), w)
    ensures w != word && Occurs(afterWord, s, w)
    decreases |s|
  {
    var out := ReplaceAfter(afterWord, s, word, symbol);
    if !afterWord && WordAtStart(s, word) {
      var rest := ReplaceAfter(true, s[|word|..], word, symbol);
      assert out == [symbol] + rest && out[1..] == rest;
      assert !WordAtStart(out, w) by {
        assert w[0] != out[0];
      }
      OccurrenceAfterReplace(false, true, s[|word|..], word, symbol, w);
      assert s[|word| - 1] == word[|word| - 1];
      OccursInSuffix(afterWord, s, |word|, w);
    } else {
      var rest := ReplaceAfter(IsWordChar(s[0]), s[1..], word, symbol);
      assert out == [s[0]] + rest && out[1..] == rest;
      if !outAfterWord && WordAtStart(out, w) {
        assert out[0] == w[0];
        var m := |w| - 1;
        forall i | 0 <= i < m ensures IsWordChar(rest[i]) {
          assert rest[i] == out[i + 1] == w[i + 1];
        }
        assert m == |rest| || rest[m] == out[|w|];
        LeadingRunKept(s[1..], word, symbol, m);
        assert s[..|w|] == [s[0]] + s[1..][..m];
        assert out[..|w|] == [out[0]] + rest[..m];
        assert WordAtStart(s, w);
      } else {
        OccurrenceAfterReplace(IsWordChar(s[0]), IsWordChar(s[0]), s[1..], word, symbol, w);
      }
    }
  }

  /** `ReplaceWord` leaves no whole-word occurrence of its word behind. */
  lemma ReplaceRemovesWord(s: string, word: string, symbol: char)
    requires IsWord(word) && !IsWordChar(symbol)
    ensures !HasWholeWord(ReplaceWord(s, word, symbol), word)
  {
    if HasWholeWord(ReplaceWord(s, word, symbol), word) {
      OccurrenceAfterReplace(false, false, s, word, symbol, word);
    }
  }

  /** `ReplaceWord` creates no whole-word occurrence of any word. */
  lemma ReplaceCreatesNoWord(s: string, word: string, symbol: char, w: string)
    requires IsWord(word) && !IsWordChar(symbol) && IsWord(w)
    requires !HasWholeWord(s, w)
    ensures !HasWholeWord(ReplaceWord(s, word, symbol), w)
  {
    if HasWholeWord(ReplaceWord(s, word, symbol), w) {
      OccurrenceAfterReplace(false, false, s, word, symbol, w);
    }
  }

  /** `WordAtStart` cannot see past a non-word character. */
  lemma WordAtStartSplit(a: string, c: char, b: string, word: string)
    requires IsWord(word) && !IsWordChar(c) && a != []
    ensures WordAtStart(a + [c] + b, word) == WordAtStart(a, word)
  {
    var s := a + [c] + b;
    if |word| <= |a| {
      assert s[..|word|] == a[..|word|];
      if |word| < |a| {
        assert s[|word|] == a[|word|];
      } else {
        assert s[|word|] == c;
      }
    } else {
      assert s[|a|] == c && IsWordChar(word[|a|]);
    }
  }

  /** A replacement works separately on the two sides of a non-word character. */
  lemma {:induction false} ReplaceSplit(afterWord: bool, a: string, c: char, b: string, word: string, symbol: char)
    requires IsWord(word) && !IsWordChar(c)
    ensures ReplaceAfter(afterWord, a + [c] + b, word, symbol)
         == ReplaceAfter(afterWord, a, word, symbol) + [c] + ReplaceAfter(false, b, word, symbol)
    decreases |a|
  {
    var s := a + [c] + b;
    var tail := ReplaceAfter(false, b, word, symbol);
    if a == [] {
      assert s == [c] + b && s[1..] == b;
      assert !WordAtStart(s, word) by {
        assert s[0] == c && word[0] != c;
      }
      assert ReplaceAfter(afterWord, s, word, symbol) == [c] + tail;
      assert [c] + tail == ReplaceAfter(afterWord, a, word, symbol) + [c] + tail;
    } else {
      WordAtStartSplit(a, c, b, word);
      if !afterWord && WordAtStart(a, word) {
        var rest := a[|word|..];
        assert s[|word|..] == rest + [c] + b;
        ReplaceSplit(true, rest, c, b, word, symbol);
        assert ReplaceAfter(afterWord, s, word, symbol) == [symbol] + (ReplaceAfter(true, rest, word, symbol) + [c] + tail);
        assert ReplaceAfter(afterWord, a, word, symbol) == [symbol] + ReplaceAfter(true, rest, word, symbol);
        Regroup([symbol], ReplaceAfter(true, rest, word, symbol), [c], tail);
      } else {
        var rest := a[1..];
        assert s[1..] == rest + [c] + b && s[0] == a[0];
        ReplaceSplit(IsWordChar(a[0]), rest, c, b, word, symbol);
        assert ReplaceAfter(afterWord, s, word, symbol) == [a[0]] + (ReplaceAfter(IsWordChar(a[0]), rest, word, symbol) + [c] + tail);
        assert ReplaceAfter(afterWord, a, word, symbol) == [a[0]] + ReplaceAfter(IsWordChar(a[0]), rest, word, symbol);
        Regroup([a[0]], ReplaceAfter(IsWordChar(a[0]), rest, word, symbol), [c], tail);
      }
    }
  }

  lemma Regroup(p: string, x: string, q: string, t: string)
    ensures p + (x + q + t) == p + x + q + t
  {
  }

  /** Inside a run of word characters no whole word starts, so nothing is replaced. */
  lemma {:induction false} ReplaceInsideWord(t: string, word: string, symbol: char)
    requires IsWord(word)
    requires forall i :: 0 <= i < |t| ==> IsWordChar(t[i])
    ensures ReplaceAfter(true, t, word, symbol) == t
    decreases |t|
  {
    if t != [] {
      ReplaceInsideWord(t[1..], word, symbol);
    }
  }

  /** On a single whole word, a replacement yields the symbol exactly when the word is the one replaced. */
  lemma ReplaceOnWord(w: string, word: string, symbol: char)
    requires IsWord(word) && IsWord(w)
    ensures ReplaceWord(w, word, symbol) == if w == word then [symbol] else w
  {
    if w == word {
      assert w[|word|..] == [];
    } else {
      assert !WordAtStart(w, word);
      ReplaceInsideWord(w[1..], word, symbol);
      assert w == [w[0]] + w[1..];
    }
  }

  // ---------------------------------------------------------------------------------------
  // The chain of replacements

  /** The symbol of the first rule for `w`, if any. */
  function Lookup(rules: seq<Rule>, w: string): Option<char>
  {
    if rules == [] then None
    else if rules[0].word == w then Some(rules[0].symbol)
    else Lookup(rules[1..], w)
  }

  lemma {:induction false} ApplyRulesWithoutOccurrence(s: string, rules: seq<Rule>)
    requires WellFormed(rules)
    requires forall i :: 0 <= i < |rules| ==> !HasWholeWord(s, rules[i].word)
    ensures ApplyRules(s, rules) == s
    decreases |rules|
  {
    if rules != [] {
      ReplaceWithoutOccurrence(false, s, rules[0].word, rules[0].symbol);
      ApplyRulesWithoutOccurrence(s, rules[1..]);
    }
  }

  lemma {:induction false} ApplyRulesCreatesNoWord(s: string, rules: seq<Rule>, w: string)
    requires WellFormed(rules) && IsWord(w) && !HasWholeWord(s, w)
    ensures !HasWholeWord(ApplyRules(s, rules), w)
    decreases |rules|
  {
    if rules != [] {
      ReplaceCreatesNoWord(s, rules[0].word, rules[0].symbol, w);
      ApplyRulesCreatesNoWord(ReplaceWord(s, rules[0].word, rules[0].symbol), rules[1..], w);
    }
  }

  lemma {:induction false} ApplyRulesRemovesWords(s: string, rules: seq<Rule>)
    requires WellFormed(rules)
    ensures forall i :: 0 <= i < |rules| ==> !HasWholeWord(ApplyRules(s, rules), rules[i].word)
    decreases |rules|
  {
    if rules != [] {
      var s1 := ReplaceWord(s, rules[0].word, rules[0].symbol);
      ApplyRulesRemovesWords(s1, rules[1..]);
      ReplaceRemovesWord(s, rules[0].word, rules[0].symbol);
      ApplyRulesCreatesNoWord(s1, rules[1..], rules[0].word);
      forall i | 1 <= i < |rules| ensures !HasWholeWord(ApplyRules(s, rules), rules[i].word) {
        assert rules[i] == rules[1..][i - 1];
      }
    }
  }

  lemma {:induction false} ApplyRulesSplit(a: string, c: char, b: string, rules: seq<Rule>)
    requires WellFormed(rules) && !IsWordChar(c)
    ensures ApplyRules(a + [c] + b, rules) == ApplyRules(a, rules) + [c] + ApplyRules(b, rules)
    decreases |rules|
  {
    if rules != [] {
      ReplaceSplit(false, a, c, b, rules[0].word, rules[0].symbol);
      ApplyRulesSplit(ReplaceWord(a, rules[0].word, rules[0].symbol), c,
                      ReplaceWord(b, rules[0].word, rules[0].symbol), rules[1..]);
    }
  }

  lemma {:induction false} ApplyRulesOnSymbol(c: char, rules: seq<Rule>)
    requires WellFormed(rules) && !IsWordChar(c)
    ensures ApplyRules([c], rules) == [c]
    decreases |rules|
  {
    if rules != [] {
      assert !WordAtStart([c], rules[0].word) by {
        assert rules[0].word[0] != c;
      }
      assert ReplaceWord([c], rules[0].word, rules[0].symbol) == [c];
      ApplyRulesOnSymbol(c, rules[1..]);
    }
  }

  lemma {:induction false} ApplyRulesOnWord(w: string, rules: seq<Rule>)
    requires WellFormed(rules) && IsWord(w)
    ensures ApplyRules(w, rules) == match Lookup(rules, w) case Some(c) => [c] case None => w
    decreases |rules|
  {
    if rules != [] {
      ReplaceOnWord(w, rules[0].word, rules[0].symbol);
      if w == rules[0].word {
        ApplyRulesOnSymbol(rules[0].symbol, rules[1..]);
      } else {
        ApplyRulesOnWord(w, rules[1..]);
      }
    }
  }

  // ---------------------------------------------------------------------------------------
  // What the translator promises

  /** The operator keywords. */
  ghost predicate IsKeyword(w: string)
  {
    w in ["and", "or", "not", "nand", "nor", "xor"]
  }

  /** After translation no operator keyword is left as a whole word. */
  lemma TranslateLeavesNoKeyword(s: string)
    ensures forall w :: IsKeyword(w) ==> !HasWholeWord(TranslateToLogicSymbols(s), w)
  {
    RulesWellFormed();
    ApplyRulesRemovesWords(s, Rules);
    assert forall w :: IsKeyword(w) ==> exists i :: 0 <= i < |Rules| && Rules[i].word == w by {
      assert Rules[0].word == "and" && Rules[1].word == "or" && Rules[2].word == "not";
      assert Rules[3].word == "nand" && Rules[4].word == "nor" && Rules[5].word == "xor";
    }
  }

  /** A string without a whole-word keyword comes back unchanged. */
  lemma TranslateKeywordFree(s: string)
    requires forall w :: IsKeyword(w) ==> !HasWholeWord(s, w)
    ensures TranslateToLogicSymbols(s) == s
  {
    RulesWellFormed();
    forall i | 0 <= i < |Rules| ensures !HasWholeWord(s, Rules[i].word) {
      assert IsKeyword(Rules[i].word);
    }
    ApplyRulesWithoutOccurrence(s, Rules);
  }

  /** Translating twice is translating once. */
  lemma TranslateIdempotent(s: string)
    ensures TranslateToLogicSymbols(TranslateToLogicSymbols(s)) == TranslateToLogicSymbols(s)
  {
    TranslateLeavesNoKeyword(s);
    TranslateKeywordFree(TranslateToLogicSymbols(s));
  }

  /** Translation works word by word: a non-word character is kept and separates what is
      translated on either side of it. */
  lemma TranslateSplit(a: string, c: char, b: string)
    requires !IsWordChar(c)
    ensures TranslateToLogicSymbols(a + [c] + b)
         == TranslateToLogicSymbols(a) + [c] + TranslateToLogicSymbols(b)
  {
    RulesWellFormed();
    ApplyRulesSplit(a, c, b, Rules);
  }

  /** A whole word becomes its symbol when it is an operator keyword and stays as it is otherwise;
      so "nand" becomes ⊼ (and not "n" followed by ∧), while "sandwich" and "android" are untouched. */
  lemma TranslateWord(w: string)
    requires IsWord(w)
    ensures TranslateToLogicSymbols(w) == (
      if w == "and" then [AndSymbol] else if w == "or" then [OrSymbol]
      else if w == "not" then [NotSymbol] else if w == "nand" then [NandSymbol]
      else if w == "nor" then [NorSymbol] else if w == "xor" then [XorSymbol]
      else w)
  {
    RulesWellFormed();
    ApplyRulesOnWord(w, Rules);
    LookupRules(w);
  }

  lemma LookupRules(w: string)
    ensures Lookup(Rules, w) == (
      if w == "and" then Some(AndSymbol) else if w == "or" then Some(OrSymbol)
      else if w == "not" then Some(NotSymbol) else if w == "nand" then Some(NandSymbol)
      else if w == "nor" then Some(NorSymbol) else if w == "xor" then Some(XorSymbol)
      else None)
  {
    var r1 := Rules[1..];
    var r2 := r1[1..];
    var r3 := r2[1..];
    var r4 := r3[1..];
    var r5 := r4[1..];
    assert r5 == [Rule("xor", XorSymbol)] && r5[1..] == [];
    assert Lookup(r5, w) == if w == "xor" then Some(XorSymbol) else None;
    assert Lookup(r4, w) == if w == "nor" then Some(NorSymbol) else Lookup(r5, w);
    assert Lookup(r3, w) == if w == "nand" then Some(NandSymbol) else Lookup(r4, w);
    assert Lookup(r2, w) == if w == "not" then Some(NotSymbol) else Lookup(r3, w);
    assert Lookup(r1, w) == if w == "or" then Some(OrSymbol) else Lookup(r2, w);
  }

  /** A non-empty expression translates to a non-empty text. */
  lemma TranslateNonEmpty(s: string)
    requires s != []
    ensures TranslateToLogicSymbols(s) != []
  {
    RulesWellFormed();
    ApplyRulesNonEmpty(s, Rules);
  }

  lemma {:induction false} ApplyRulesNonEmpty(s: string, rules: seq<Rule>)
    requires WellFormed(rules) && s != []
    ensures ApplyRules(s, rules) != []
    decreases |rules|
  {
    if rules != [] {
      ApplyRulesNonEmpty(ReplaceWord(s, rules[0].word, rules[0].symbol), rules[1..]);
    }
  }

  /** `x nand y` over two variable names that are not keywords is shown as `x ⊼ y`: the keyword is
      replaced as a whole, not as "n" followed by the symbol for "and". */
  lemma TranslateNandExample(x: string, y: string)
    requires IsWord(x) && IsWord(y) && !IsKeyword(x) && !IsKeyword(y)
    ensures TranslateToLogicSymbols(x + " nand " + y) == x + [' ', NandSymbol, ' '] + y
  {
    var rest := "nand" + [' '] + y;
    assert x + " nand " + y == x + [' '] + rest;
    assert TranslateToLogicSymbols(rest) == [NandSymbol] + [' '] + y by {
      TranslateSplit("nand", ' ', y);
      TranslateWord("nand");
      TranslateWord(y);
    }
    assert TranslateToLogicSymbols(x + [' '] + rest) == x + [' '] + ([NandSymbol] + [' '] + y) by {
      TranslateSplit(x, ' ', rest);
      TranslateWord(x);
    }
    assert x + [' '] + ([NandSymbol] + [' '] + y) == x + [' ', NandSymbol, ' '] + y;
  }

  /** Words that merely contain a keyword are left alone. */
  lemma TranslateSandwichExample()
    ensures TranslateToLogicSymbols("sandwich") == "sandwich"
    ensures TranslateToLogicSymbols("android") == "android"
  {
    TranslateWord("sandwich");
    TranslateWord("android");
  }
}
