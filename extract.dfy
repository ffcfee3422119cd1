/** The sub-expression extractor: scans the expression for negations and two-operand operator
    applications and collects them, with a few derived forms, into an insertion-ordered set.

    The pattern is
      \b(not\s+\w+|\w+\s+(and|or|nand|nor|xor)\s+not\s+\w+|\w+\s+(and|or|nand|nor|xor)\s+\w+)\b
    with the global flag. Each repeated class in it is followed by a character of another class
    (a word run by white space or the end of the pattern, a space run by a letter), so every greedy
    run must be maximal and each alternative has at most one way to match at a position: the
    matcher below takes maximal runs and tries the alternatives in order. Every alternative ends
    on a whole word, so the closing `\b` never sends the regex back to try another way
    (`PatternEndBoundary`, `MatchAtIsPatternEnd`). */
module Extract {
  import opened Text
  import OrderedSet

  /** The part of the expression a match covers: `start` inclusive, `end` exclusive. */
  datatype Span = Span(start: nat, end: nat)

  /** `\b` between positions `p - 1` and `p`. */
  predicate Boundary(s: string, p: nat)
    requires p <= |s|
  {
    (p > 0 && IsWordChar(s[p - 1])) != (p < |s| && IsWordChar(s[p]))
  }

  /** The end of the longest run of word characters that starts at `p`. */
  function WordRunEnd(s: string, p: nat): (e: nat)
    requires p <= |s|
    ensures p <= e <= |s|
    ensures forall i :: p <= i < e ==> IsWordChar(s[i])
    ensures e == |s| || !IsWordChar(s[e])
    decreases |s| - p
  {
    if p < |s| && IsWordChar(s[p]) then WordRunEnd(s, p + 1) else p
  }

  /** The end of the longest run of white space that starts at `p`. */
  function SpaceRunEnd(s: string, p: nat): (e: nat)
    requires p <= |s|
    ensures p <= e <= |s|
    ensures forall i :: p <= i < e ==> IsSpace(s[i])
    ensures e == |s| || !IsSpace(s[e])
    decreases |s| - p
  {
    if p < |s| && IsSpace(s[p]) then SpaceRunEnd(s, p + 1) else p
  }

  /** One element of a sequence in the pattern. */
  datatype Element =
    | Literal(text: string)       // the characters `text`
    | Words                       // `\w+`
    | Spaces                      // `\s+`
    | OneOf(options: seq<string>) // `(a|b|...)`, options tried in order

  /** The operator group `(and|or|nand|nor|xor)`. */
  const Operators: seq<string> := ["and", "or", "nand", "nor", "xor"]

  /** The three alternatives of the pattern, in order. */
  const Alternatives: seq<seq<Element>> := [
    [Literal("not"), Spaces, Words],
    [Words, Spaces, OneOf(Operators), Spaces, Literal("not"), Spaces, Words],
    [Words, Spaces, OneOf(Operators), Spaces, Words]
  ]

  /** The length of the shortest option. */
  function Shortest(options: seq<string>): nat
  {
    if options == [] then 0
    else if |options| == 1 || |options[0]| <= Shortest(options[1..]) then |options[0]|
    else Shortest(options[1..])
  }

  /** The fewest characters `element` can match. */
  function ElementMin(element: Element): nat
  {
    match element
    case Literal(text) => |text|
    case Words => 1
    case Spaces => 1
    case OneOf(options) => Shortest(options)
  }

  /** The fewest characters `elements` can match. */
  function SequenceMin(elements: seq<Element>): nat
  {
    if elements == [] then 0 else ElementMin(elements[0]) + SequenceMin(elements[1..])
  }

  /** The end of the first option, in list order, found at `p`. */
  function FirstOption(options: seq<string>, s: string, p: nat): (r: Option<nat>)
    requires p <= |s|
    ensures r.Some? ==> exists k :: 0 <= k < |options| && r.value == p + |options[k]| <= |s|
                                     && s[p..r.value] == options[k]
                                     && forall j :: 0 <= j < k ==> !OccursAt(s, options[j], p)
    ensures r.Some? ==> p + Shortest(options) <= r.value
    ensures r.None? ==> forall k :: 0 <= k < |options| ==> !OccursAt(s, options[k], p)
  {
    if options == [] then None
    else if OccursAt(s, options[0], p) then Some(p + |options[0]|)
    else
      var r := FirstOption(options[1..], s, p);
      assert r.Some? ==> exists k :: 0 <= k < |options[1..]| && r.value == p + |options[1..][k]| <= |s|
                                     && s[p..r.value] == options[1..][k]
                                     && forall j :: 0 <= j < k ==> !OccursAt(s, options[1..][j], p);
      assert forall k :: 1 <= k < |options| ==> options[k] == options[1..][k - 1];
      r
  }

  /** The end of `element` matched at `p`; runs are greedy. */
  function MatchElement(element: Element, s: string, p: nat): (r: Option<nat>)
    requires p <= |s|
    ensures r.Some? ==> p + ElementMin(element) <= r.value <= |s|
  {
    match element
    case Literal(text) => if OccursAt(s, text, p) then Some(p + |text|) else None
    case Words => var e := WordRunEnd(s, p); if e > p then Some(e) else None
    case Spaces => var e := SpaceRunEnd(s, p); if e > p then Some(e) else None
    case OneOf(options) => FirstOption(options, s, p)
  }

  /** The end of `elements` matched one after the other from `p`. */
  function MatchSequence(elements: seq<Element>, s: string, p: nat): (r: Option<nat>)
    requires p <= |s|
    ensures r.Some? ==> p + SequenceMin(elements) <= r.value <= |s|
    decreases |elements|
  {
    if elements == [] then Some(p)
    else match MatchElement(elements[0], s, p)
      case None => None
      case Some(q) => MatchSequence(elements[1..], s, q)
  }

  /** The end of the first alternative that matches at `p`. */
  function FirstAlternative(alternatives: seq<seq<Element>>, s: string, p: nat): (r: Option<nat>)
    requires p <= |s|
    ensures r.Some? ==> p <= r.value <= |s|
    ensures r.Some? ==> exists k :: 0 <= k < |alternatives| && p + SequenceMin(alternatives[k]) <= r.value
  {
    if alternatives == [] then None
    else match MatchSequence(alternatives[0], s, p)
      case Some(e) => Some(e)
      case None => FirstAlternative(alternatives[1..], s, p)
  }

  /** The end of the match of the whole pattern starting at `p`, if there is one: `\b`, the first
      alternative that matches, then `\b`. */
  function MatchAt(s: string, p: nat): (r: Option<nat>)
    requires p <= |s|
    ensures r.Some? ==> p + 5 <= r.value <= |s|
  {
    AlternativesAtLeastFive();
    if !Boundary(s, p) then None
    else match FirstAlternative(Alternatives, s, p)
      case Some(e) => if Boundary(s, e) then Some(e) else None
      case None => None
  }

  /** Every alternative needs at least five characters ("not a", "a or b", ...). */
  lemma AlternativesAtLeastFive()
    ensures forall k :: 0 <= k < |Alternatives| ==> SequenceMin(Alternatives[k]) >= 5
  {
    assert Shortest(Operators) == 2 by {
      assert Operators[1..][1..][1..][1..] == ["xor"];
      assert Operators[1..][1..][1..] == ["nor", "xor"];
      assert Operators[1..][1..] == ["nand", "nor", "xor"];
      assert Operators[1..] == ["or", "nand", "nor", "xor"];
    }
    var a0, a1, a2 := Alternatives[0], Alternatives[1], Alternatives[2];
    assert SequenceMin(a0[2..]) == 1;
    assert SequenceMin(a0) == 5;
    assert SequenceMin(a1[4..]) >= 5;
    assert SequenceMin(a1[3..]) >= 6;
    assert SequenceMin(a1[2..]) >= 8;
    assert SequenceMin(a1[1..]) >= 9;
    assert SequenceMin(a1) >= 5;
    assert SequenceMin(a2[2..]) >= 4;
    assert SequenceMin(a2) >= 5;
  }

  /** Every alternative begins with a word character (`not` or `\w+`). */
  lemma NoAlternativeAtNonWord(s: string, p: nat)
    requires p < |s| && !IsWordChar(s[p])
    ensures FirstAlternative(Alternatives, s, p) == None
  {
    var a0, a1, a2 := Alternatives[0], Alternatives[1], Alternatives[2];
    assert !OccursAt(s, "not", p) by { assert "not"[0] == 'n'; }
    assert MatchSequence(a0, s, p) == None;
    assert MatchSequence(a1, s, p) == None;
    assert MatchSequence(a2, s, p) == None;
    assert FirstAlternative(Alternatives[2..], s, p) == None;
    assert FirstAlternative(Alternatives[1..], s, p) == None;
  }

  /** A match starts only at the first character of a word. */
  lemma MatchStartsWord(s: string, p: nat)
    requires p <= |s|
    ensures MatchAt(s, p).Some? ==> p < |s| && IsWordChar(s[p]) && (p == 0 || !IsWordChar(s[p - 1]))
  {
    if p < |s| && !IsWordChar(s[p]) {
      NoAlternativeAtNonWord(s, p);
    }
  }

  // ---------------------------------------------------------------------------------------
  // What the pattern matches, stated on the runs of the text

  /** The end of `not\s+\w+` at `p`: "not", a run of white space, a run of word characters. */
  function NegationEnd(s: string, p: nat): Option<nat>
    requires p <= |s|
  {
    if !OccursAt(s, "not", p) then None
    else
      var q := SpaceRunEnd(s, p + 3);
      var e := WordRunEnd(s, q);
      if q == p + 3 || e == q then None else Some(e)
  }

  /** The end of `\w+\s+(and|or|nand|nor|xor)\s+` at `p`, the common start of the last two
      alternatives. */
  function OperatorEnd(s: string, p: nat): Option<nat>
    requires p <= |s|
  {
    var w := WordRunEnd(s, p);
    var q := SpaceRunEnd(s, w);
    if w == p || q == w then None
    else match FirstOption(Operators, s, q)
      case None => None
      case Some(r) => var t := SpaceRunEnd(s, r); if t == r then None else Some(t)
  }

  /** The end of `\w+\s+(and|or|nand|nor|xor)\s+not\s+\w+` at `p`. */
  function NegatedOperandEnd(s: string, p: nat): Option<nat>
    requires p <= |s|
  {
    match OperatorEnd(s, p)
    case None => None
    case Some(t) => NegationEnd(s, t)
  }

  /** The end of `\w+\s+(and|or|nand|nor|xor)\s+\w+` at `p`. */
  function BinaryEnd(s: string, p: nat): Option<nat>
    requires p <= |s|
  {
    match OperatorEnd(s, p)
    case None => None
    case Some(t) => var e := WordRunEnd(s, t); if e == t then None else Some(e)
  }

  /** The three alternatives tried in order: a negation, an operator with a negated right operand,
      an operator between two words. */
  function PatternEnd(s: string, p: nat): Option<nat>
    requires p <= |s|
  {
    if NegationEnd(s, p).Some? then NegationEnd(s, p)
    else if NegatedOperandEnd(s, p).Some? then NegatedOperandEnd(s, p)
    else BinaryEnd(s, p)
  }

  /** Every alternative ends on a maximal word run, so the closing `\b` holds wherever the pattern
      ends. */
  lemma PatternEndBoundary(s: string, p: nat)
    requires p <= |s| && PatternEnd(s, p).Some?
    ensures PatternEnd(s, p).value <= |s| && Boundary(s, PatternEnd(s, p).value)
  {
  }

  /** Hence the closing `\b` never rejects a match: at a word boundary the matcher returns exactly
      where the pattern ends. */
  lemma MatchAtIsPatternEnd(s: string, p: nat)
    requires p <= |s|
    ensures MatchAt(s, p) == if Boundary(s, p) then PatternEnd(s, p) else None
  {
    MatchAtShape(s, p);
    if Boundary(s, p) && PatternEnd(s, p).Some? {
      PatternEndBoundary(s, p);
    }
  }

  /** The matcher agrees with the description on runs: a match at `p` is, between two word
      boundaries, `not X`, else `X op not Y`, else `X op Y`, each run taken whole. */
  lemma MatchAtShape(s: string, p: nat)
    requires p <= |s|
    ensures MatchAt(s, p) == if !Boundary(s, p) then None
                             else match PatternEnd(s, p)
                               case None => None
                               case Some(e) => if Boundary(s, e) then Some(e) else None
  {
    AlternativesEnd(s, p);
  }

  /** The alternatives of the pattern, tried in order, end where `PatternEnd` says. */
  lemma AlternativesEnd(s: string, p: nat)
    requires p <= |s|
    ensures FirstAlternative(Alternatives, s, p) == PatternEnd(s, p)
  {
    Shapes();
    FirstOfThree(s, p);
    NegationEndOf(Alternatives[0], s, p);
    NegatedOperandEndOf(Alternatives[1], s, p);
    BinaryEndOf(Alternatives[2], s, p);
  }

  /** `not\s+\w+` ends where `NegationEnd` says. */
  lemma NegationEndOf(a: seq<Element>, s: string, p: nat)
    requires NegationShape(a) && p <= |s|
    ensures MatchSequence(a, s, p) == NegationEnd(s, p)
  {
    assert a[0..] == a;
    if !OccursAt(s, "not", p) {
      FailsAt(a, 0, s, p);
    } else {
      StepAt(a, 0, s, p, p + 3);
      var q := SpaceRunEnd(s, p + 3);
      if q == p + 3 {
        FailsAt(a, 1, s, p + 3);
      } else {
        StepAt(a, 1, s, p + 3, q);
        LastWords(a, s, q);
      }
    }
  }

  /** `\w+\s+(and|or|nand|nor|xor)\s+` at the head of `a` ends where `OperatorEnd` says, and the rest
      of `a` is matched from there. */
  lemma OperatorEndOf(a: seq<Element>, s: string, p: nat)
    requires |a| >= 4 && a[0] == Words && a[1] == Spaces && a[2] == OneOf(Operators) && a[3] == Spaces
    requires p <= |s|
    ensures OperatorEnd(s, p).None? ==> MatchSequence(a, s, p) == None
    ensures OperatorEnd(s, p).Some? ==> MatchSequence(a, s, p) == MatchSequence(a[4..], s, OperatorEnd(s, p).value)
  {
    assert a[0..] == a;
    var w := WordRunEnd(s, p);
    if w == p {
      FailsAt(a, 0, s, p);
    } else {
      StepAt(a, 0, s, p, w);
      var q := SpaceRunEnd(s, w);
      if q == w {
        FailsAt(a, 1, s, w);
      } else {
        StepAt(a, 1, s, w, q);
        match FirstOption(Operators, s, q)
        case None =>
          FailsAt(a, 2, s, q);
        case Some(r) =>
          StepAt(a, 2, s, q, r);
          var t := SpaceRunEnd(s, r);
          if t == r {
            FailsAt(a, 3, s, r);
          } else {
            StepAt(a, 3, s, r, t);
          }
      }
    }
  }

  /** `\w+\s+(and|or|nand|nor|xor)\s+not\s+\w+` ends where `NegatedOperandEnd` says. */
  lemma NegatedOperandEndOf(a: seq<Element>, s: string, p: nat)
    requires NegatedOperandShape(a) && p <= |s|
    ensures MatchSequence(a, s, p) == NegatedOperandEnd(s, p)
  {
    OperatorEndOf(a, s, p);
    if OperatorEnd(s, p).Some? {
      NegationEndOf(a[4..], s, OperatorEnd(s, p).value);
    }
  }

  /** `\w+\s+(and|or|nand|nor|xor)\s+\w+` ends where `BinaryEnd` says. */
  lemma BinaryEndOf(a: seq<Element>, s: string, p: nat)
    requires OperatorShape(a) && p <= |s|
    ensures MatchSequence(a, s, p) == BinaryEnd(s, p)
  {
    OperatorEndOf(a, s, p);
    if OperatorEnd(s, p).Some? {
      LastWords(a, s, OperatorEnd(s, p).value);
    }
  }

  // ---------------------------------------------------------------------------------------
  // Steps through the alternatives, element by element

  /** The alternatives are tried in order. */
  lemma FirstOfThree(s: string, p: nat)
    requires p <= |s|
    ensures var m0, m1, m2 := MatchSequence(Alternatives[0], s, p), MatchSequence(Alternatives[1], s, p),
                              MatchSequence(Alternatives[2], s, p);
            FirstAlternative(Alternatives, s, p) == if m0.Some? then m0 else if m1.Some? then m1 else m2
  {
    var alts := Alternatives;
    var m1, m2 := MatchSequence(alts[1], s, p), MatchSequence(alts[2], s, p);
    assert alts[1..][1..] == alts[2..] == [alts[2]] && alts[2..][1..] == [];
    assert FirstAlternative(alts[2..], s, p) == m2;
    assert FirstAlternative(alts[1..], s, p) == if m1.Some? then m1 else m2;
  }

  /** Matching elements from the `k`-th moves past it. */
  lemma StepAt(es: seq<Element>, k: nat, s: string, p: nat, q: nat)
    requires k < |es| && p <= |s| && MatchElement(es[k], s, p) == Some(q)
    ensures MatchSequence(es[k..], s, p) == MatchSequence(es[k + 1..], s, q)
  {
    assert es[k..][0] == es[k];
    assert es[k..][1..] == es[k + 1..];
  }

  /** Matching elements from the `k`-th fails where it fails. */
  lemma FailsAt(es: seq<Element>, k: nat, s: string, p: nat)
    requires k < |es| && p <= |s| && MatchElement(es[k], s, p) == None
    ensures MatchSequence(es[k..], s, p) == None
  {
    assert es[k..][0] == es[k];
  }

  /** A final `\w+` ends with the run of word characters, if there is one. */
  lemma LastWords(es: seq<Element>, s: string, p: nat)
    requires |es| > 0 && es[|es| - 1] == Words && p <= |s|
    ensures var e := WordRunEnd(s, p); MatchSequence(es[|es| - 1..], s, p) == if e > p then Some(e) else None
  {
    assert es[|es| - 1..] == [Words];
  }

  /** The three alternatives, element by element. */
  predicate NegationShape(a: seq<Element>)
  {
    |a| == 3 && a[0] == Literal("not") && a[1] == Spaces && a[2] == Words
  }

  predicate NegatedOperandShape(a: seq<Element>)
  {
    |a| == 7 && a[0] == Words && a[1] == Spaces && a[2] == OneOf(Operators) && a[3] == Spaces
    && a[4] == Literal("not") && a[5] == Spaces && a[6] == Words
  }

  predicate OperatorShape(a: seq<Element>)
  {
    |a| == 5 && a[0] == Words && a[1] == Spaces && a[2] == OneOf(Operators) && a[3] == Spaces && a[4] == Words
  }

  lemma Shapes()
    ensures NegationShape(Alternatives[0]) && NegatedOperandShape(Alternatives[1]) && OperatorShape(Alternatives[2])
  {
  }

  /** `not\s+\w+` fails where "not" does not occur. */
  lemma NotNegation(s: string, p: nat)
    requires p <= |s| && !OccursAt(s, "not", p)
    ensures MatchSequence(Alternatives[0], s, p) == None
  {
    Shapes();
    NegationEndOf(Alternatives[0], s, p);
  }

  /** `not\s+\w+` at `p`, given the run of white space after "not". */
  lemma NegationAlternative(s: string, p: nat, q: nat)
    requires p <= |s| && OccursAt(s, "not", p) && SpaceRunEnd(s, p + 3) == q && q > p + 3
    ensures var e := WordRunEnd(s, q); MatchSequence(Alternatives[0], s, p) == if e > q then Some(e) else None
  {
    Shapes();
    NegationEndOf(Alternatives[0], s, p);
  }

  /** The last two alternatives fail when no operator follows the first word and its white space. */
  lemma NoOperatorAfter(s: string, p: nat, w: nat, q: nat)
    requires p <= |s| && WordRunEnd(s, p) == w && w > p && SpaceRunEnd(s, w) == q && q > w
    requires FirstOption(Operators, s, q) == None
    ensures MatchSequence(Alternatives[1], s, p) == None
    ensures MatchSequence(Alternatives[2], s, p) == None
  {
    Shapes();
    OperatorEndOf(Alternatives[1], s, p);
    OperatorEndOf(Alternatives[2], s, p);
  }

  /** The last two alternatives at `p`, given the runs up to the white space after the operator:
      `\w+\s+op\s+\w+` ends with the next word, and `\w+\s+op\s+not\s+\w+` fails unless "not" follows. */
  lemma OperatorAlternatives(s: string, p: nat, w: nat, q: nat, r: nat, t: nat)
    requires p <= |s| && WordRunEnd(s, p) == w && w > p && SpaceRunEnd(s, w) == q && q > w
    requires FirstOption(Operators, s, q) == Some(r) && SpaceRunEnd(s, r) == t && t > r
    ensures var e := WordRunEnd(s, t); MatchSequence(Alternatives[2], s, p) == if e > t then Some(e) else None
    ensures !OccursAt(s, "not", t) ==> MatchSequence(Alternatives[1], s, p) == None
  {
    Shapes();
    BinaryEndOf(Alternatives[2], s, p);
    NegatedOperandEndOf(Alternatives[1], s, p);
  }

  /** `\w+\s+op\s+not\s+\w+` at `p` when "not" and white space follow the operator. */
  lemma NegatedOperandAlternative(s: string, p: nat, w: nat, q: nat, r: nat, t: nat, u: nat)
    requires p <= |s| && WordRunEnd(s, p) == w && w > p && SpaceRunEnd(s, w) == q && q > w
    requires FirstOption(Operators, s, q) == Some(r) && SpaceRunEnd(s, r) == t && t > r
    requires OccursAt(s, "not", t) && SpaceRunEnd(s, t + 3) == u && u > t + 3
    ensures var e := WordRunEnd(s, u); MatchSequence(Alternatives[1], s, p) == if e > u then Some(e) else None
  {
    assert OperatorEnd(s, p) == Some(t);
    assert NegationEnd(s, t) == var e := WordRunEnd(s, u); if e > u then Some(e) else None;
    Shapes();
    NegatedOperandEndOf(Alternatives[1], s, p);
  }

  /** No match starts at a position in `[lo, hi)`. */
  predicate NoMatchBetween(s: string, lo: nat, hi: nat)
    requires lo <= hi <= |s| + 1
    decreases hi - lo
  {
    lo == hi || (MatchAt(s, lo).None? && NoMatchBetween(s, lo + 1, hi))
  }

  /** `regex.exec(expression)` with `regex.lastIndex == from`: the leftmost match at or after `from`. */
  function NextMatch(s: string, from: nat): (r: Option<Span>)
    requires from <= |s|
    ensures r.Some? ==> from <= r.value.start && r.value.start + 5 <= r.value.end <= |s|
    ensures r.Some? ==> MatchAt(s, r.value.start) == Some(r.value.end)
    ensures r.Some? ==> NoMatchBetween(s, from, r.value.start)
    ensures r.None? ==> NoMatchBetween(s, from, |s| + 1)
    decreases |s| - from
  {
    match MatchAt(s, from)
    case Some(e) => Some(Span(from, e))
    case None => if from == |s| then None else NextMatch(s, from + 1)
  }

  /** All matches from `from` on, each search resuming where the previous match ended. */
  function Matches(s: string, from: nat): (r: seq<Span>)
    requires from <= |s|
    decreases |s| - from
  {
    match NextMatch(s, from)
    case None => []
    case Some(m) => [m] + Matches(s, m.end)
  }

  function MatchedText(s: string, m: Span): string
    requires m.start <= m.end <= |s|
  {
    s[m.start..m.end]
  }

  /** The parenthesised negation of a sub-expression. */
  function Negate(sub: string): string
  {
    "not (" + sub + ")"
  }

  /** The values added to the set for one matched text, in order. */
  function AddsFor(expression: string, sub: string): seq<string>
  {
    if StartsWith(sub, "not ") then [sub, ReplaceFirst(sub, "not ", "")]
    else if Contains(expression, Negate(sub)) then [sub, Negate(sub)]
    else [sub]
  }

  /** The values added to the set for the matches `ms`, in order. */
  function AddsForMatches(expression: string, ms: seq<Span>): seq<string>
    requires forall k :: 0 <= k < |ms| ==> ms[k].start <= ms[k].end <= |expression|
  {
    if ms == [] then [] else AddsFor(expression, MatchedText(expression, ms[0])) + AddsForMatches(expression, ms[1..])
  }

  /** Every match lies inside the expression. */
  lemma {:induction false} MatchesInside(s: string, from: nat)
    requires from <= |s|
    ensures forall k :: 0 <= k < |Matches(s, from)| ==>
      from <= Matches(s, from)[k].start && Matches(s, from)[k].start + 5 <= Matches(s, from)[k].end <= |s|
    decreases |s| - from
  {
    match NextMatch(s, from)
    case None =>
    case Some(m) =>
      MatchesInside(s, m.end);
  }

  /** What `extractSubExpressions(expression)` returns. */
  function SubExpressions(expression: string): seq<string>
  {
    MatchesInside(expression, 0);
    OrderedSet.Dedupe(AddsForMatches(expression, Matches(expression, 0)))
  }

  /** `extractSubExpressions`: a loop over `regex.exec` that adds to a `Set`. */
  method ExtractSubExpressions(expression: string) returns (subExpressions: seq<string>)
    ensures subExpressions == SubExpressions(expression)
  {
    subExpressions := [];
    var lastIndex := 0;
    var found := NextMatch(expression, lastIndex);
    MatchesInside(expression, 0);
    while found.Some?
      invariant lastIndex <= |expression|
      invariant found == NextMatch(expression, lastIndex)
      invariant forall k :: 0 <= k < |Matches(expression, lastIndex)| ==>
        Matches(expression, lastIndex)[k].start <= Matches(expression, lastIndex)[k].end <= |expression|
      invariant OrderedSet.AddAll(subExpressions, AddsForMatches(expression, Matches(expression, lastIndex)))
             == SubExpressions(expression)
      decreases |expression| - lastIndex
    {
      var m := found.value;
      var sub := expression[m.start..m.end];
      ghost var before := subExpressions;
      subExpressions := OrderedSet.Add(subExpressions, sub);
      if StartsWith(sub, "not ") {
        subExpressions := OrderedSet.Add(subExpressions, ReplaceFirst(sub, "not ", ""));
      } else {
        var negatedExpression := "not (" + sub + ")";
        if Contains(expression, negatedExpression) {
          subExpressions := OrderedSet.Add(subExpressions, negatedExpression);
        }
      }
      OrderedSet.AddAllSteps(before, AddsFor(expression, sub));
      MatchesInside(expression, m.end);
      assert Matches(expression, lastIndex) == [m] + Matches(expression, m.end);
      OrderedSet.AddAllAppend(before, AddsFor(expression, sub), AddsForMatches(expression, Matches(expression, m.end)));
      lastIndex := m.end;
      found := NextMatch(expression, lastIndex);
    }
  }

  // ---------------------------------------------------------------------------------------
  // What the extracted set contains

  /** The matches come in order and do not overlap: each search resumes where the previous match ended. */
  lemma {:induction false} MatchesOrdered(s: string, from: nat)
    requires from <= |s|
    ensures forall k :: 0 <= k < |Matches(s, from)| - 1 ==> Matches(s, from)[k].end <= Matches(s, from)[k + 1].start
    decreases |s| - from
  {
    match NextMatch(s, from)
    case None =>
    case Some(m) =>
      MatchesOrdered(s, m.end);
      MatchesInside(s, m.end);
      var ms := Matches(s, from);
      assert ms == [m] + Matches(s, m.end);
      forall k | 0 <= k < |ms| - 1 ensures ms[k].end <= ms[k + 1].start {
        if k > 0 {
          assert ms[k] == Matches(s, m.end)[k - 1] && ms[k + 1] == Matches(s, m.end)[k];
        }
      }
  }

  /** A value is added for the matches `ms` exactly when it is added for one of them. */
  lemma {:induction false} AddsForMatchesMembers(expression: string, ms: seq<Span>, x: string)
    requires forall k :: 0 <= k < |ms| ==> ms[k].start <= ms[k].end <= |expression|
    ensures x in AddsForMatches(expression, ms)
        <==> exists k :: 0 <= k < |ms| && x in AddsFor(expression, MatchedText(expression, ms[k]))
  {
    if ms != [] {
      AddsForMatchesMembers(expression, ms[1..], x);
      if x in AddsForMatches(expression, ms[1..]) {
        var k :| 0 <= k < |ms[1..]| && x in AddsFor(expression, MatchedText(expression, ms[1..][k]));
        assert ms[1..][k] == ms[k + 1];
      }
      if exists k :: 0 <= k < |ms| && x in AddsFor(expression, MatchedText(expression, ms[k])) {
        var k :| 0 <= k < |ms| && x in AddsFor(expression, MatchedText(expression, ms[k]));
        if k > 0 {
          assert ms[k] == ms[1..][k - 1];
        }
      }
    }
  }

  /** What the matched text `sub` at `m` contributes. */
  ghost predicate Contributes(expression: string, m: Span, x: string)
    requires m.start <= m.end <= |expression|
  {
    x in AddsFor(expression, MatchedText(expression, m))
  }

  /** The extracted set holds no value twice and holds exactly what the matches contribute:
      each matched text; for a match starting with "not ", the text after that prefix; for any
      other match, its parenthesised negation when the expression contains it. */
  lemma SubExpressionsSpec(expression: string)
    ensures OrderedSet.NoDup(SubExpressions(expression))
    ensures forall k :: 0 <= k < |Matches(expression, 0)| ==>
      Matches(expression, 0)[k].start + 5 <= Matches(expression, 0)[k].end <= |expression|
    ensures forall x :: x in SubExpressions(expression) <==>
      exists k :: 0 <= k < |Matches(expression, 0)| && Contributes(expression, Matches(expression, 0)[k], x)
  {
    MatchesInside(expression, 0);
    var ms := Matches(expression, 0);
    var adds := AddsForMatches(expression, ms);
    OrderedSet.DedupeSpec(adds);
    forall x ensures x in SubExpressions(expression) <==> exists k :: 0 <= k < |ms| && Contributes(expression, ms[k], x) {
      AddsForMatchesMembers(expression, ms, x);
    }
  }

  /** Every value a match contributes is a non-empty piece of the expression. */
  lemma ContributionIsSubstring(expression: string, m: Span, x: string)
    requires m.start + 5 <= m.end <= |expression|
    requires Contributes(expression, m, x)
    ensures x != [] && Contains(expression, x)
  {
    var sub := MatchedText(expression, m);
    assert OccursAt(expression, sub, m.start);
    if StartsWith(sub, "not ") && x == ReplaceFirst(sub, "not ", "") {
      ReplaceFirstOfPrefix(sub, "not ");
      assert x == expression[m.start + 4..m.end];
      assert OccursAt(expression, x, m.start + 4);
    }
  }

  /** Every extracted value is a non-empty piece of the expression; in particular a parenthesised
      negation is extracted only when the expression contains it literally. */
  lemma SubExpressionsAreSubstrings(expression: string)
    ensures forall x :: x in SubExpressions(expression) ==> x != [] && Contains(expression, x)
  {
    SubExpressionsSpec(expression);
    var ms := Matches(expression, 0);
    forall x | x in SubExpressions(expression) ensures x != [] && Contains(expression, x) {
      var k :| 0 <= k < |ms| && Contributes(expression, ms[k], x);
      ContributionIsSubstring(expression, ms[k], x);
    }
  }

  /** For each match: its text is extracted; after a negation `not X`, `X` is extracted too; after
      any other match `M`, `not (M)` is extracted exactly when the expression contains it. */
  lemma MatchRules(expression: string, k: nat)
    requires k < |Matches(expression, 0)|
    ensures Matches(expression, 0)[k].start + 5 <= Matches(expression, 0)[k].end <= |expression|
    ensures MatchedText(expression, Matches(expression, 0)[k]) in SubExpressions(expression)
    ensures var sub := MatchedText(expression, Matches(expression, 0)[k]);
      StartsWith(sub, "not ") ==> sub[4..] in SubExpressions(expression)
    ensures var sub := MatchedText(expression, Matches(expression, 0)[k]);
      !StartsWith(sub, "not ") ==> (Negate(sub) in SubExpressions(expression) <==> Contains(expression, Negate(sub)))
  {
    SubExpressionsSpec(expression);
    SubExpressionsAreSubstrings(expression);
    var ms := Matches(expression, 0);
    var sub := MatchedText(expression, ms[k]);
    assert Contributes(expression, ms[k], sub);
    if StartsWith(sub, "not ") {
      ReplaceFirstOfPrefix(sub, "not ");
      assert Contributes(expression, ms[k], sub[4..]);
    } else if Contains(expression, Negate(sub)) {
      assert Contributes(expression, ms[k], Negate(sub));
    }
  }
}
