/** Worked examples of sub-expression extraction. Each example is stated for a string `s` given
    character by character: the matches are found step by step (the runs of word characters and
    white space, the alternative that matches, the positions between matches where nothing does),
    then the sub-expressions they contribute. */
module ExtractExamples {
  import opened Text
  import opened Extract
  import OrderedSet

  // ---------------------------------------------------------------------------------------
  // "a and b and c or d": two matches; the search resumes after the first one, so "b and c" is
  // not extracted.

  /** `s` is "a and b and c or d". */
  predicate IsChain(s: string)
  {
    |s| == 18 && s[0] == 'a' && s[1] == ' ' && s[2] == 'a' && s[3] == 'n' && s[4] == 'd' && s[5] == ' '
    && s[6] == 'b' && s[7] == ' ' && s[8] == 'a' && s[9] == 'n' && s[10] == 'd' && s[11] == ' '
    && s[12] == 'c' && s[13] == ' ' && s[14] == 'o' && s[15] == 'r' && s[16] == ' ' && s[17] == 'd'
  }

  /** At 0 the negated-operand alternative fails at "b", and "a and b" matches. */
  lemma ChainAt0(s: string)
    requires IsChain(s)
    ensures MatchAt(s, 0) == Some(7)
  {
    assert OccursAt(s, "and", 2);
    assert FirstOption(Operators, s, 2) == Some(5);
    assert WordRunEnd(s, 0) == 1 && SpaceRunEnd(s, 1) == 2 && SpaceRunEnd(s, 5) == 6 && WordRunEnd(s, 6) == 7;
    Differs(s, "not", 0);
    Differs(s, "not", 6);
    NotNegation(s, 0);
    OperatorAlternatives(s, 0, 1, 2, 5, 6);
    FirstOfThree(s, 0);
    assert Boundary(s, 0) && Boundary(s, 7);
  }

  /** No operator follows "and " at 12: "c" is not one. */
  lemma ChainAt8(s: string)
    requires IsChain(s)
    ensures MatchAt(s, 8) == None
  {
    NoOperator(s, 12);
    assert WordRunEnd(s, 10) == 11 && WordRunEnd(s, 9) == 11 && WordRunEnd(s, 8) == 11;
    assert SpaceRunEnd(s, 11) == 12;
    Differs(s, "not", 8);
    NotNegation(s, 8);
    NoOperatorAfter(s, 8, 11, 12);
    FirstOfThree(s, 8);
  }

  /** At 12 the negated-operand alternative fails at "d", and "c or d" matches. */
  lemma ChainAt12(s: string)
    requires IsChain(s)
    ensures MatchAt(s, 12) == Some(18)
  {
    Differs(s, "and", 14);
    assert OccursAt(s, "or", 14);
    assert FirstOption(Operators, s, 14) == Some(16);
    assert WordRunEnd(s, 12) == 13 && SpaceRunEnd(s, 13) == 14 && SpaceRunEnd(s, 16) == 17 && WordRunEnd(s, 17) == 18;
    Differs(s, "not", 12);
    Differs(s, "not", 17);
    NotNegation(s, 12);
    OperatorAlternatives(s, 12, 13, 14, 16, 17);
    FirstOfThree(s, 12);
    assert Boundary(s, 12) && Boundary(s, 18);
  }

  /** From 7 the search skips to 12: nothing matches at 7 to 11. */
  lemma ChainSearch7(s: string)
    requires IsChain(s)
    ensures NextMatch(s, 7) == Some(Span(12, 18))
  {
    var r := Some(Span(12, 18));
    ChainAt12(s);
    assert NextMatch(s, 12) == r;
    MatchStartsWord(s, 11);
    Skip(s, 11, r);
    MatchStartsWord(s, 10);
    Skip(s, 10, r);
    MatchStartsWord(s, 9);
    Skip(s, 9, r);
    ChainAt8(s);
    Skip(s, 8, r);
    MatchStartsWord(s, 7);
    Skip(s, 7, r);
  }

  lemma ChainMatches(s: string)
    requires IsChain(s)
    ensures Matches(s, 0) == [Span(0, 7), Span(12, 18)]
  {
    ChainAt0(s);
    ChainSearch7(s);
    MatchStartsWord(s, 18);
    assert NextMatch(s, 18) == None;
    assert Matches(s, 18) == [];
    assert Matches(s, 7) == [Span(12, 18)];
  }

  /** No negation "not (...)" occurs in the expression: it has no parenthesis. */
  lemma ChainNoNegation(s: string, x: string)
    requires IsChain(s)
    ensures !Contains(s, Negate(x))
  {
    var n := Negate(x);
    assert n[4] == '(';
    forall i | 0 <= i <= |s| - |n| ensures !OccursAt(s, n, i) {
    }
  }

  /** "a and b" and "c or d" each contribute themselves alone. */
  lemma ChainAdds(s: string, ms: seq<Span>)
    requires IsChain(s) && ms == [Span(0, 7), Span(12, 18)]
    ensures AddsForMatches(s, ms) == ["a and b", "c or d"]
  {
    assert MatchedText(s, ms[0]) == "a and b" && MatchedText(s, ms[1]) == "c or d";
    ChainNoNegation(s, "a and b");
    ChainNoNegation(s, "c or d");
    assert !StartsWith("a and b", "not ") by { assert "a and b"[0] != "not "[0]; }
    assert !StartsWith("c or d", "not ") by { assert "c or d"[0] != "not "[0]; }
    AddsForPlain(s, "a and b");
    AddsForPlain(s, "c or d");
    assert AddsForMatches(s, ms[1..]) == ["c or d"] by {
      assert ms[1..][1..] == [];
    }
  }

  /** The sub-expressions of "a and b and c or d" are "a and b" and "c or d". */
  lemma ChainExample(s: string)
    requires IsChain(s)
    ensures SubExpressions(s) == ["a and b", "c or d"]
  {
    ChainMatches(s);
    ChainAdds(s, Matches(s, 0));
    DedupePair("a and b", "c or d");
  }

  // ---------------------------------------------------------------------------------------
  // "not a": a negation adds the negated operand too.

  /** `s` is "not a". */
  predicate IsNegation(s: string)
  {
    |s| == 5 && s[0] == 'n' && s[1] == 'o' && s[2] == 't' && s[3] == ' ' && s[4] == 'a'
  }

  lemma NegationMatches(s: string)
    requires IsNegation(s)
    ensures Matches(s, 0) == [Span(0, 5)]
  {
    assert OccursAt(s, "not", 0);
    assert SpaceRunEnd(s, 3) == 4 && WordRunEnd(s, 4) == 5;
    NegationAlternative(s, 0, 4);
    FirstOfThree(s, 0);
    assert MatchAt(s, 0) == Some(5);
    MatchStartsWord(s, 5);
    assert NextMatch(s, 5) == None;
  }

  /** "not a" contributes itself and "a". */
  lemma NegationAdds(s: string)
    requires IsNegation(s)
    ensures AddsForMatches(s, [Span(0, 5)]) == [s, "a"]
  {
    assert MatchedText(s, Span(0, 5)) == s;
    assert StartsWith(s, "not ");
    ReplaceFirstOfPrefix(s, "not ");
    assert s[4..] == "a";
    assert AddsFor(s, s) == [s, "a"];
  }

  /** The sub-expressions of "not a" are "not a" itself and "a". */
  lemma NegationExample(s: string)
    requires IsNegation(s)
    ensures SubExpressions(s) == [s, "a"]
  {
    NegationMatches(s);
    NegationAdds(s);
    DedupePair(s, "a");
  }

  // ---------------------------------------------------------------------------------------
  // "not not a": `\w+` takes the second "not" as the negated operand, so the columns are
  // "not not" and "not", neither of them an expression.

  /** `s` is "not not a". */
  predicate IsDoubleNegation(s: string)
  {
    |s| == 9 && s[0] == 'n' && s[1] == 'o' && s[2] == 't' && s[3] == ' '
    && s[4] == 'n' && s[5] == 'o' && s[6] == 't' && s[7] == ' ' && s[8] == 'a'
  }

  lemma DoubleNegationMatches(s: string)
    requires IsDoubleNegation(s)
    ensures Matches(s, 0) == [Span(0, 7)]
  {
    assert OccursAt(s, "not", 0);
    assert SpaceRunEnd(s, 3) == 4 && WordRunEnd(s, 4) == 7;
    NegationAlternative(s, 0, 4);
    FirstOfThree(s, 0);
    assert MatchAt(s, 0) == Some(7);
    MatchStartsWord(s, 9);
    assert NextMatch(s, 9) == None;
    assert !OccursAt(s, "not", 8);
    assert WordRunEnd(s, 8) == 9 && SpaceRunEnd(s, 9) == 9;
    MatchAtShape(s, 8);
    Skip(s, 8, None);
    MatchStartsWord(s, 7);
    Skip(s, 7, None);
  }

  /** "not not" contributes itself and "not". */
  lemma DoubleNegationAdds(s: string)
    requires IsDoubleNegation(s)
    ensures AddsForMatches(s, [Span(0, 7)]) == [s[..7], s[4..7]]
  {
    var m := s[..7];
    assert MatchedText(s, Span(0, 7)) == m;
    assert StartsWith(m, "not ");
    ReplaceFirstOfPrefix(m, "not ");
    assert m[4..] == s[4..7];
    assert AddsFor(s, m) == [m, s[4..7]];
  }

  /** The sub-expressions of "not not a" are "not not" and "not". */
  lemma DoubleNegationExample(s: string)
    requires IsDoubleNegation(s)
    ensures SubExpressions(s) == ["not not", "not"]
  {
    DoubleNegationMatches(s);
    DoubleNegationAdds(s);
    assert s[..7] == "not not" && s[4..7] == "not";
    DedupePair("not not", "not");
  }

  // ---------------------------------------------------------------------------------------
  // "a or not a": the second alternative takes the whole expression, so the negation inside it is
  // never matched on its own.

  /** `s` is "a or not a". */
  predicate IsNegatedOperand(s: string)
  {
    |s| == 10 && s[0] == 'a' && s[1] == ' ' && s[2] == 'o' && s[3] == 'r' && s[4] == ' '
    && s[5] == 'n' && s[6] == 'o' && s[7] == 't' && s[8] == ' ' && s[9] == 'a'
  }

  /** The runs and the operator that make up "a or not a". */
  lemma NegatedOperandRuns(s: string)
    requires IsNegatedOperand(s)
    ensures WordRunEnd(s, 0) == 1 && SpaceRunEnd(s, 1) == 2 && FirstOption(Operators, s, 2) == Some(4)
    ensures SpaceRunEnd(s, 4) == 5 && OccursAt(s, "not", 5) && SpaceRunEnd(s, 8) == 9 && WordRunEnd(s, 9) == 10
  {
    Differs(s, "and", 2);
    assert OccursAt(s, "or", 2);
    assert OccursAt(s, "not", 5);
  }

  /** At 0 the second alternative matches the whole expression. */
  lemma NegatedOperandAt0(s: string)
    requires IsNegatedOperand(s)
    ensures MatchAt(s, 0) == Some(10)
  {
    NegatedOperandRuns(s);
    Differs(s, "not", 0);
    NotNegation(s, 0);
    NegatedOperandAlternative(s, 0, 1, 2, 4, 5, 9);
    FirstOfThree(s, 0);
    assert Boundary(s, 0) && Boundary(s, 10);
  }

  lemma NegatedOperandMatches(s: string)
    requires IsNegatedOperand(s)
    ensures Matches(s, 0) == [Span(0, 10)]
  {
    NegatedOperandAt0(s);
    MatchStartsWord(s, 10);
    assert NextMatch(s, 10) == None;
  }

  /** The only sub-expression of "a or not a" is the expression itself. */
  lemma NegatedOperandExample(s: string)
    requires IsNegatedOperand(s)
    ensures SubExpressions(s) == [s]
  {
    NegatedOperandMatches(s);
    assert MatchedText(s, Span(0, 10)) == s;
    assert !StartsWith(s, "not ") by { assert s[0] != "not "[0]; }
    assert !Contains(s, Negate(s)) by { assert |Negate(s)| > |s|; }
    AddsForPlain(s, s);
    assert AddsForMatches(s, [Span(0, 10)]) == [s];
    assert OrderedSet.NoDup([s]);
    OrderedSet.DedupeSpec([s]);
  }

  // ---------------------------------------------------------------------------------------
  // "not (a and b)": `\w+` cannot cross the parenthesis, so only "a and b" matches; its negation
  // occurs literally and is added.

  /** `s` is "not (a and b)". */
  predicate IsParenthesised(s: string)
  {
    |s| == 13 && s[0] == 'n' && s[1] == 'o' && s[2] == 't' && s[3] == ' ' && s[4] == '(' && s[5] == 'a'
    && s[6] == ' ' && s[7] == 'a' && s[8] == 'n' && s[9] == 'd' && s[10] == ' ' && s[11] == 'b' && s[12] == ')'
  }

  /** At 0 every alternative fails at the parenthesis, so the search moves on to 1. */
  lemma ParenthesisedAt0(s: string)
    requires IsParenthesised(s)
    ensures MatchAt(s, 0) == None
    ensures NextMatch(s, 0) == NextMatch(s, 1)
  {
    NoOperator(s, 4);
    assert OccursAt(s, "not", 0);
    assert WordRunEnd(s, 2) == 3 && WordRunEnd(s, 1) == 3 && WordRunEnd(s, 0) == 3;
    assert SpaceRunEnd(s, 3) == 4 && WordRunEnd(s, 4) == 4;
    NegationAlternative(s, 0, 4);
    NoOperatorAfter(s, 0, 3, 4);
    FirstOfThree(s, 0);
    Skip(s, 0, NextMatch(s, 1));
  }

  /** At 5 the negated-operand alternative fails at "b", and "a and b" matches. */
  lemma ParenthesisedAt5(s: string)
    requires IsParenthesised(s)
    ensures MatchAt(s, 5) == Some(12)
  {
    assert OccursAt(s, "and", 7);
    assert FirstOption(Operators, s, 7) == Some(10);
    assert WordRunEnd(s, 5) == 6 && SpaceRunEnd(s, 6) == 7 && SpaceRunEnd(s, 10) == 11 && WordRunEnd(s, 11) == 12;
    Differs(s, "not", 5);
    Differs(s, "not", 11);
    NotNegation(s, 5);
    OperatorAlternatives(s, 5, 6, 7, 10, 11);
    FirstOfThree(s, 5);
    assert Boundary(s, 5) && Boundary(s, 12);
  }

  /** The first match starts at 5: nothing matches at 0 to 4. */
  lemma ParenthesisedSearch3(s: string)
    requires IsParenthesised(s)
    ensures NextMatch(s, 3) == Some(Span(5, 12))
  {
    var r := Some(Span(5, 12));
    ParenthesisedAt5(s);
    assert NextMatch(s, 5) == r;
    MatchStartsWord(s, 4);
    Skip(s, 4, r);
    MatchStartsWord(s, 3);
    Skip(s, 3, r);
  }

  lemma ParenthesisedSearch1(s: string)
    requires IsParenthesised(s)
    ensures NextMatch(s, 1) == Some(Span(5, 12))
  {
    var r := Some(Span(5, 12));
    ParenthesisedSearch3(s);
    MatchStartsWord(s, 2);
    Skip(s, 2, r);
    MatchStartsWord(s, 1);
    Skip(s, 1, r);
  }

  lemma ParenthesisedSearch0(s: string)
    requires IsParenthesised(s)
    ensures NextMatch(s, 0) == Some(Span(5, 12))
  {
    ParenthesisedSearch1(s);
    ParenthesisedAt0(s);
  }

  lemma ParenthesisedMatches(s: string)
    requires IsParenthesised(s)
    ensures Matches(s, 0) == [Span(5, 12)]
  {
    ParenthesisedSearch0(s);
    MatchStartsWord(s, 12);
    MatchStartsWord(s, 13);
    assert NextMatch(s, 13) == None;
    Skip(s, 12, None);
  }

  /** "a and b" contributes itself and its negation, which is the whole expression. */
  lemma ParenthesisedAdds(s: string)
    requires IsParenthesised(s)
    ensures AddsForMatches(s, [Span(5, 12)]) == ["a and b", s]
  {
    assert MatchedText(s, Span(5, 12)) == "a and b";
    assert !StartsWith("a and b", "not ") by { assert "a and b"[0] != "not "[0]; }
    assert Negate("a and b") == s;
    assert OccursAt(s, s, 0);
    assert AddsFor(s, "a and b") == ["a and b", s];
  }

  /** The sub-expressions of "not (a and b)" are "a and b" and the expression itself. */
  lemma ParenthesisedExample(s: string)
    requires IsParenthesised(s)
    ensures SubExpressions(s) == ["a and b", s]
  {
    ParenthesisedMatches(s);
    ParenthesisedAdds(s);
    DedupePair("a and b", s);
  }

  // ---------------------------------------------------------------------------------------
  // The four examples on the string literals themselves.

  lemma ChainLiteral()
    ensures SubExpressions("a and b and c or d") == ["a and b", "c or d"]
  {
    assert IsChain("a and b and c or d");
    ChainExample("a and b and c or d");
  }

  lemma NegationLiteral()
    ensures SubExpressions("not a") == ["not a", "a"]
  {
    assert IsNegation("not a");
    NegationExample("not a");
  }

  lemma NegatedOperandLiteral()
    ensures SubExpressions("a or not a") == ["a or not a"]
  {
    assert IsNegatedOperand("a or not a");
    NegatedOperandExample("a or not a");
  }

  lemma DoubleNegationLiteral()
    ensures SubExpressions("not not a") == ["not not", "not"]
  {
    assert IsDoubleNegation("not not a");
    DoubleNegationExample("not not a");
  }

  lemma ParenthesisedLiteral()
    ensures SubExpressions("not (a and b)") == ["a and b", "not (a and b)"]
  {
    assert IsParenthesised("not (a and b)");
    ParenthesisedExample("not (a and b)");
  }

  // ---------------------------------------------------------------------------------------
  // Steps shared by the examples

  /** The search moves on past a position where no match starts. */
  lemma Skip(s: string, p: nat, r: Option<Span>)
    requires p < |s| && MatchAt(s, p).None? && NextMatch(s, p + 1) == r
    ensures NextMatch(s, p) == r
  {
  }

  /** A string does not occur where its first character does not. */
  lemma Differs(s: string, t: string, i: nat)
    requires i < |s| && t != [] && s[i] != t[0]
    ensures !OccursAt(s, t, i)
  {
  }

  /** No operator starts at a character that begins none of them. */
  lemma NoOperator(s: string, p: nat)
    requires p < |s| && s[p] != 'a' && s[p] != 'o' && s[p] != 'n' && s[p] != 'x'
    ensures FirstOption(Operators, s, p) == None
  {
    var o := Operators;
    Differs(s, o[0], p);
    Differs(s, o[1], p);
    Differs(s, o[2], p);
    Differs(s, o[3], p);
    Differs(s, o[4], p);
    assert o[1..][1..][1..][1..][1..] == [];
  }

  /** A matched text that is no negation, and whose negation does not occur, contributes itself. */
  lemma AddsForPlain(expression: string, sub: string)
    requires !StartsWith(sub, "not ") && !Contains(expression, Negate(sub))
    ensures AddsFor(expression, sub) == [sub]
  {
  }

  /** Two distinct values go through a `Set` unchanged. */
  lemma DedupePair(x: string, y: string)
    requires x != y
    ensures OrderedSet.Dedupe([x, y]) == [x, y]
  {
    assert OrderedSet.NoDup([x, y]);
    OrderedSet.DedupeSpec([x, y]);
  }
}
