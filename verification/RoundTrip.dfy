/**
 What the splitters need to know about a text: that it is closed and trimmed, and which
 operators do not occur in it at the top level. Every text of the grammar has the facts of its
 level.
 */
module RoundTrip {
  import opened Wrappers
  import opened Exprs
  import opened Scanner
  import opened DslParser
  import opened Numerals
  import opened Grammar

  // ---------------------------------------------------------------- trimming

  predicate Trimmed(s: string) {
    s != [] && !IsSpace(s[0]) && !IsSpace(s[|s| - 1])
  }

  lemma {:induction false} TrimStartBlank(before: string, s: string)
    requires Blank(before) && (s == [] || !IsSpace(s[0]))
    ensures TrimStart(before + s) == s
    decreases before
  {
    if before == [] {
      assert before + s == s;
    } else {
      assert before[0] in before && (before + s)[1..] == before[1..] + s;
      TrimStartBlank(before[1..], s);
    }
  }

  lemma {:induction false} TrimEndBlank(s: string, after: string)
    requires Blank(after) && (s == [] || !IsSpace(s[|s| - 1]))
    ensures TrimEnd(s + after) == s
    decreases after
  {
    if after == [] {
      assert s + after == s;
    } else {
      var n := |after| - 1;
      assert after[n] in after && (s + after)[..|s + after| - 1] == s + after[..n];
      TrimEndBlank(s, after[..n]);
    }
  }

  lemma TrimPadded(before: string, s: string, after: string)
    requires Blank(before) && Blank(after) && Trimmed(s)
    ensures Trim(Padded(before, s, after)) == s
  {
    assert Padded(before, s, after) == before + (s + after);
    TrimStartBlank(before, s + after);
    TrimEndBlank(s, after);
  }

  lemma TrimTrimmed(s: string)
    requires Trimmed(s)
    ensures Trim(s) == s
  {
    assert Padded([], s, []) == s;
    TrimPadded([], s, []);
  }

  // ---------------------------------------------------------------- balance, quotes ignored

  lemma {:induction false} RawConcat(a: string, b: string, i: nat)
    requires i <= |a| + |b|
    ensures RawDepth(a + b, i) == if i <= |a| then RawDepth(a, i) else RawDepth(a, |a|) + RawDepth(b, i - |a|)
    decreases i
  {
    if i > 0 { RawConcat(a, b, i - 1); }
  }

  lemma RawBalancedConcat(a: string, b: string)
    requires RawBalanced(a) && RawBalanced(b)
    ensures RawBalanced(a + b)
  {
    forall i | 0 <= i <= |a + b| ensures RawDepth(a + b, i) >= 0 { RawConcat(a, b, i); }
    RawConcat(a, b, |a + b|);
  }

  lemma {:induction false} RawPlain(s: string, i: nat)
    requires Plain(s) && i <= |s|
    ensures RawDepth(s, i) == 0
    decreases i
  {
    if i > 0 {
      RawPlain(s, i - 1);
      assert s[i - 1] in s;
    }
  }

  lemma PlainIsBalanced(s: string)
    requires Plain(s)
    ensures Closed(s) && RawBalanced(s)
  {
    PlainIsClosed(s);
    forall i | 0 <= i <= |s| ensures RawDepth(s, i) == 0 { RawPlain(s, i); }
  }

  lemma QuotedIsRawBalanced(s: string)
    requires RawBalanced(s)
    ensures RawBalanced(Quoted(s))
  {
    assert RawDepth("'", 0) == RawDepth("'", 1) == 0;
    RawBalancedConcat("'", s);
    RawBalancedConcat("'" + s, "'");
  }

  lemma InParensRawDepth(s: string, i: nat)
    requires i <= |s|
    ensures RawDepth(InParens(s), i + 1) == RawDepth(s, i) + 1
    ensures i == |s| ==> RawDepth(InParens(s), i + 2) == RawDepth(s, i)
  {
    var t := InParens(s);
    assert t == "(" + (s + ")");
    assert RawDepth("(", 1) == 1;
    RawConcat("(", s + ")", i + 1);
    RawConcat(s, ")", i);
    if i == |s| { assert t[i + 1] == ')'; }
  }

  lemma InParensRawBalanced(s: string)
    requires RawBalanced(s)
    ensures RawBalanced(InParens(s))
  {
    forall i | 0 <= i <= |s| + 2
      ensures RawDepth(InParens(s), i) >= 0 && (i == |s| + 2 ==> RawDepth(InParens(s), i) == 0)
    {
      if i == |s| + 2 { InParensRawDepth(s, |s|); } else if i >= 1 { InParensRawDepth(s, i - 1); }
    }
  }

  /** When a balanced proper prefix opens the text, its outer parentheses do not match. */
  lemma PrefixNotWrapped(a: string, b: string)
    requires a != [] && b != [] && RawBalanced(a) && Parenthesised(a + b)
    ensures !RawBalanced(Inside(a + b))
  {
    var inner := Inside(a + b);
    assert a + b == InParens(inner);
    RawConcat(a, b, |a|);
    InParensRawDepth(inner, |a| - 1);
    assert RawDepth(inner, |a| - 1) == -1;
  }

  lemma InfixNotWrapped(a: string, before: string, op: string, after: string, b: string)
    requires a != [] && RawBalanced(a) && op != []
    ensures var t := Infix(a, before, op, after, b); Parenthesised(t) ==> !RawBalanced(Inside(t))
  {
    var rest := before + (op + (after + b));
    assert Infix(a, before, op, after, b) == a + rest;
    if Parenthesised(a + rest) { PrefixNotWrapped(a, rest); }
  }

  // ---------------------------------------------------------------- quiet texts

  /** No top-level operators looser than the level; level 6 has none at all. */
  ghost predicate OperatorFree(s: string, level: nat) {
    && (level >= 1 ==> NoKeyword(s, "OR"))
    && (level >= 2 ==> NoKeyword(s, "AND"))
    && (level >= 3 ==> NoComparison(s))
    && (level >= 6 ==> NoArith(s))
  }

  ghost predicate Quiet(s: string, level: nat) {
    Closed(s) && RawBalanced(s) && OperatorFree(s, level)
  }

  lemma QuietConcat(a: string, b: string, level: nat)
    requires Quiet(a, level) && Quiet(b, level) && WordSeam(a, b) && OperatorSeam(a, b)
    ensures Quiet(a + b, level)
  {
    ClosedConcat(a, b);
    RawBalancedConcat(a, b);
    if level >= 1 { NoKeywordConcat(a, b, "OR"); }
    if level >= 2 { NoKeywordConcat(a, b, "AND"); }
    if level >= 3 { NoComparisonConcat(a, b); }
    if level >= 6 { NoArithConcat(a, b); }
  }

  /** White space, braces and digits. */
  lemma InertIsQuiet(s: string)
    requires forall c :: c in s ==> !IsNesting(c) && !IsAlpha(c) && !IsComparisonChar(c) && !IsArithChar(c)
    ensures Quiet(s, 6)
  {
    PlainIsBalanced(s);
    LetterMissing(s, "OR", 0);
    LetterMissing(s, "AND", 0);
    NoComparisonChars(s);
    NoArithChars(s);
  }

  lemma BlankIsQuiet(s: string)
    requires Blank(s)
    ensures Quiet(s, 6) && (s != [] ==> IsSpace(s[0]) && IsSpace(s[|s| - 1]))
  {
    InertIsQuiet(s);
    if s != [] { assert s[0] in s && s[|s| - 1] in s; }
  }

  lemma WordIsQuiet(w: string)
    requires (forall c :: c in w ==> IsWord(c)) && !SameText(w, "OR") && !SameText(w, "AND")
    ensures Quiet(w, 6)
  {
    PlainIsBalanced(w);
    WordHasNoKeyword(w, "OR");
    WordHasNoKeyword(w, "AND");
    NoComparisonChars(w);
    NoArithChars(w);
  }

  /** A word of the language in any spelling. */
  lemma SpelledIsQuiet(w: string, upper: string, level: nat)
    requires SameText(w, upper) && forall c :: c in upper ==> 'A' <= c <= 'Z' || c == ' '
    requires level >= 1 ==> 'R' !in upper
    requires level >= 2 ==> 'A' !in upper
    ensures Quiet(w, level) && forall c :: c in w ==> IsAlpha(c) || c == ' '
  {
    forall c | c in w ensures Upper(c) in upper && (IsAlpha(c) || c == ' ') {
      var i :| 0 <= i < |w| && w[i] == c;
      assert upper[i] in upper && Upper(c) == Upper(upper[i]) == upper[i];
    }
    PlainIsBalanced(w);
    if level >= 1 { LetterMissing(w, "OR", 1); }
    if level >= 2 { LetterMissing(w, "AND", 0); }
    NoComparisonChars(w);
    NoArithChars(w);
  }

  /** Text with nothing at the top level. */
  lemma NestedIsOperatorFree(t: string)
    requires forall i :: 0 <= i < |t| ==> !TopAt(t, i)
    ensures OperatorFree(t, 6)
  {
  }

  // ---------------------------------------------------------------- the ends of a text

  /** Trimmed, and no comparison operator can arise at either end. */
  predicate Edges(s: string) {
    Trimmed(s) && s[0] != '=' && s[|s| - 1] != '!' && s[|s| - 1] != '<' && s[|s| - 1] != '>'
  }

  /** Does not read as NOT followed by something. */
  predicate HeadFree(s: string) {
    !StartsWith(s, NOT_PREFIX) && !SameText(s, "NOT")
  }

  /** Does not end in the words of a null test. */
  predicate TailFree(s: string) {
    && !EndsWith(s, IS_NULL) && !EndsWith(s, IS_NOT_NULL)
    && !SameText(s, "IS NULL") && !SameText(s, "IS NOT NULL")
  }

  lemma HeadConcat(a: string, b: string)
    requires HeadFree(a) && b != [] && !IsWord(b[0])
    ensures HeadFree(a + b)
  {
    var t := a + b;
    assert t[|a|] == b[0];
    if |t| >= 4 {
      var head := t[..4];
      assert forall i :: 0 <= i < 4 ==> head[i] == t[i];
      if |a| >= 4 { assert head == a[..4]; }
      if |a| == 3 { assert a == head[..3]; }
    }
  }

  lemma SuffixConcat(a: string, b: string, p: string)
    requires |p| <= |b|
    ensures EndsWith(a + b, p) <==> EndsWith(b, p)
  {
    SliceRight(a, b, |a + b| - |p|, |p|);
    assert (a + b)[|a + b| - |p|..|a + b|] == (a + b)[|a + b| - |p|..];
    assert b[|b| - |p|..|b|] == b[|b| - |p|..];
  }

  /** What ends in a word ends in its letters. */
  lemma SuffixChar(t: string, p: string, k: nat)
    requires EndsWith(t, p) && k < |p|
    ensures Upper(t[|t| - |p| + k]) == Upper(p[k])
  {
    assert t[|t| - |p|..][k] == t[|t| - |p| + k];
  }

  /** Where a text ends in words that its second part is too short for, the first part ends in
      their beginning. */
  lemma ShortSuffix(a: string, b: string, p: string)
    requires 1 <= |b| < |p| && EndsWith(a + b, p)
    ensures EndsWith(a, p[..|p| - |b|]) && SameText(b, p[|p| - |b|..])
  {
    var (t, k) := (a + b, |p| - |b|);
    var (head, tail) := (p[..k], p[k..]);
    assert k <= |a|;
    forall i | 0 <= i < k ensures Upper(a[|a| - k..][i]) == Upper(head[i]) {
      SuffixChar(t, p, i);
      assert t[|t| - |p| + i] == a[|a| - k + i];
    }
    forall i | 0 <= i < |b| ensures Upper(b[i]) == Upper(tail[i]) {
      SuffixChar(t, p, k + i);
      assert t[|t| - |p| + (k + i)] == b[i];
    }
  }

  /** Does not end in the words that may stand before NULL. */
  predicate NoIs(a: string) {
    && !EndsWith(a, " IS ") && !EndsWith(a, " IS NOT ")
    && !SameText(a, "IS ") && !SameText(a, "IS NOT ")
  }

  predicate EndsOutsideWord(a: string) {
    a == [] || !IsWord(a[|a| - 1])
  }

  lemma EndsInWord(a: string, p: string)
    requires EndsWith(a, p) && p != [] && IsWord(p[|p| - 1])
    ensures !EndsOutsideWord(a)
  {
    SuffixChar(a, p, |p| - 1);
  }

  /** How the words of a null test can be cut in two outside a word. */
  lemma NullPieces(k: nat)
    requires 1 <= k < 8
    ensures IS_NULL[1..] == "IS NULL" && IS_NULL[..4] == " IS "
    ensures k == 1 || k == 4 || IsWord(IS_NULL[..k][k - 1])
  {
    assert IS_NULL[..k][k - 1] == IS_NULL[k - 1];
  }

  lemma NotNullPieces(k: nat)
    requires 1 <= k < 12
    ensures IS_NOT_NULL[1..] == "IS NOT NULL" && IS_NOT_NULL[..4] == " IS " && IS_NOT_NULL[..8] == " IS NOT "
    ensures k == 1 || k == 4 || k == 8 || IsWord(IS_NOT_NULL[..k][k - 1])
  {
    assert IS_NOT_NULL[..k][k - 1] == IS_NOT_NULL[k - 1];
  }

  lemma NullConcat(a: string, b: string)
    requires TailFree(b) && b != [] && EndsOutsideWord(a) && NoIs(a)
    ensures !EndsWith(a + b, IS_NULL)
  {
    if |b| >= 8 {
      SuffixConcat(a, b, IS_NULL);
    } else if EndsWith(a + b, IS_NULL) {
      var k := 8 - |b|;
      NullPieces(k);
      ShortSuffix(a, b, IS_NULL);
      if IsWord(IS_NULL[..k][k - 1]) { EndsInWord(a, IS_NULL[..k]); }
    }
  }

  lemma NotNullConcat(a: string, b: string)
    requires TailFree(b) && b != [] && EndsOutsideWord(a) && NoIs(a)
    ensures !EndsWith(a + b, IS_NOT_NULL)
  {
    if |b| >= 12 {
      SuffixConcat(a, b, IS_NOT_NULL);
    } else if EndsWith(a + b, IS_NOT_NULL) {
      var k := 12 - |b|;
      NotNullPieces(k);
      ShortSuffix(a, b, IS_NOT_NULL);
      if IsWord(IS_NOT_NULL[..k][k - 1]) { EndsInWord(a, IS_NOT_NULL[..k]); }
    }
  }

  lemma WholeSplit(a: string, b: string, p: string)
    requires SameText(a + b, p)
    ensures |a| <= |p| && SameText(a, p[..|a|]) && SameText(b, p[|a|..])
    ensures a != [] ==> Upper(a[|a| - 1]) == Upper(p[|a| - 1])
  {
    assert forall i :: 0 <= i < |a| ==> (a + b)[i] == a[i] && p[..|a|][i] == p[i];
    assert forall i :: 0 <= i < |b| ==> (a + b)[|a| + i] == b[i] && p[|a|..][i] == p[|a| + i];
  }

  lemma WholePieces(p: string, k: nat)
    requires p == "IS NULL" || p == "IS NOT NULL"
    requires k <= |p|
    ensures p[0..] == p && p[..3] == "IS " && (|p| == 11 ==> p[..7] == "IS NOT ")
    ensures k == 0 || k == 3 || (k == 7 && |p| == 11) || IsWord(p[k - 1])
  {
  }

  lemma WholeWords(a: string, b: string, p: string)
    requires TailFree(b) && b != [] && EndsOutsideWord(a) && NoIs(a) && (p == "IS NULL" || p == "IS NOT NULL")
    ensures !SameText(a + b, p)
  {
    if SameText(a + b, p) {
      WholeSplit(a, b, p);
      WholePieces(p, |a|);
    }
  }

  /** What stands before a text does not make it a null test. */
  lemma TailConcat(a: string, b: string)
    requires TailFree(b) && b != [] && EndsOutsideWord(a) && NoIs(a)
    ensures TailFree(a + b)
  {
    NullConcat(a, b);
    NotNullConcat(a, b);
    WholeWords(a, b, "IS NULL");
    WholeWords(a, b, "IS NOT NULL");
  }

  lemma NoIsBefore(x: string, last: char, after: string)
    requires Blank(after) && !IsWord(last) && !IsSpace(last)
    ensures NoIs((x + [last]) + after)
  {
    var t := (x + [last]) + after;
    if |after| == 0 {
      assert t[|t| - 1] == last;
      NoIsBySymbol(t);
    } else if |after| == 1 {
      assert t[|t| - 2] == last;
      NoIsByLetter(t);
    } else {
      assert t[|t| - 2] == after[|after| - 2] && after[|after| - 2] in after;
      NoIsByLetter(t);
    }
  }

  lemma NoIsBySymbol(t: string)
    requires t != [] && !IsSpace(t[|t| - 1])
    ensures NoIs(t)
  {
    assert "IS "[2] == ' ' && "IS NOT "[6] == ' ';
    if EndsWith(t, " IS ") { LastLetter(t, " IS "); }
    if EndsWith(t, " IS NOT ") { LastLetter(t, " IS NOT "); }
  }

  lemma LastLetter(t: string, p: string)
    requires EndsWith(t, p) && p != []
    ensures t != [] && Upper(t[|t| - 1]) == Upper(p[|p| - 1])
  {
    SuffixChar(t, p, |p| - 1);
  }

  lemma HeadByLetter(s: string)
    requires s != [] && Upper(s[0]) != 'N'
    ensures HeadFree(s)
  {
    if |s| >= 4 { assert s[..4][0] == s[0]; }
  }

  lemma TailByLetter(s: string)
    requires s != [] && Upper(s[|s| - 1]) != 'L'
    ensures TailFree(s)
  {
    assert Upper("IS NULL"[6]) == 'L' && Upper("IS NOT NULL"[10]) == 'L';
    if EndsWith(s, IS_NULL) { LastLetter(s, IS_NULL); }
    if EndsWith(s, IS_NOT_NULL) { LastLetter(s, IS_NOT_NULL); }
  }

  lemma EndsOutsideWords(s: string)
    requires s != []
    ensures !IsWord(s[0]) ==> HeadFree(s)
    ensures !IsWord(s[|s| - 1]) ==> TailFree(s)
  {
    if !IsWord(s[0]) { HeadByLetter(s); }
    if !IsWord(s[|s| - 1]) { TailByLetter(s); }
  }

  // ---------------------------------------------------------------- facts by level

  /** What the splitters need to know about the text of a tree of the given level. */
  ghost predicate Facts(s: string, level: nat) {
    && Edges(s) && Quiet(s, level)
    && (level >= 4 ==> TailFree(s))
    && (level >= 5 ==> HeadFree(s))
  }

  lemma WordEnds(w: string)
    requires w != [] && !SameText(w, "NOT") && forall c :: c in w ==> IsWord(c)
    ensures Edges(w) && HeadFree(w) && TailFree(w)
  {
    assert w[0] in w && w[|w| - 1] in w;
    if |w| >= 4 { assert w[..4][3] == w[3] && w[3] in w; }
    assert forall j :: 0 <= j < |w| ==> w[j] in w && IsWord(w[j]);
    assert IS_NULL[0] == IS_NOT_NULL[0] == "IS NULL"[2] == "IS NOT NULL"[2] == ' ';
    if |w| >= 7 { assert Upper(w[2]) != ' '; }
    if |w| >= 8 { assert w[|w| - 8..][0] == w[|w| - 8]; }
    if |w| >= 12 { assert w[|w| - 12..][0] == w[|w| - 12]; }
  }

  /** A word without spaces is neither a negation nor a null test. */
  lemma WordFacts(w: string)
    requires w != [] && forall c :: c in w ==> IsWord(c)
    requires !SameText(w, "OR") && !SameText(w, "AND") && !SameText(w, "NOT")
    ensures Facts(w, 6)
  {
    WordIsQuiet(w);
    WordEnds(w);
  }

  /** Neither OR nor AND can be written in the characters of a number. */
  lemma NumberCharsAreQuiet(s: string)
    requires NumberChars(s)
    ensures Quiet(s, 5)
  {
    PlainIsBalanced(s);
    LetterMissing(s, "OR", 0);
    LetterMissing(s, "AND", 0);
    NoComparisonChars(s);
  }

  lemma NumeralFacts(n: Written)
    ensures Facts(NumeralText(n), 5)
  {
    var t := NumeralText(n);
    NumeralChars(n);
    NumberCharsAreQuiet(t);
    HeadByLetter(t);
    TailByLetter(t);
  }

  lemma NumberCharsSigns(s: string)
    requires NumberChars(s) && s != [] && !IsSign(s[|s| - 1])
    ensures SignsInside(s)
  {
    assert forall j :: 0 <= j < |s| ==> s[j] in s && NumberChar(s[j]);
    forall i: nat | ArithAt(s, i)
      ensures IsSign(s[i]) && i + 1 < |s| && !IsSpace(s[i + 1]) && (i > 0 ==> !IsSpace(s[i - 1]))
    {
    }
  }

  lemma TruthFacts(b: Option<bool>, word: string)
    requires SameText(word, TruthWord(b))
    ensures Facts(word, 6)
  {
    SpelledIsQuiet(word, TruthWord(b), 0);
    assert forall i :: 0 <= i < |word| ==> word[i] in word;
    assert Upper(word[0]) == TruthWord(b)[0] && |word| >= 4;
    WordFacts(word);
  }

  lemma StrFacts(s: string)
    requires '\'' !in s && RawBalanced(s)
    ensures Facts(Quoted(s), 6)
  {
    QuotedIsClosed(s);
    QuotedIsRawBalanced(s);
    NestedIsOperatorFree(Quoted(s));
    EndsOutsideWords(Quoted(s));
  }

  lemma ParenFacts(s: string)
    requires Closed(s) && RawBalanced(s)
    ensures Facts(InParens(s), 6)
  {
    InParensIsClosed(s);
    InParensRawBalanced(s);
    NestedIsOperatorFree(InParens(s));
    EndsOutsideWords(InParens(s));
  }

  lemma PaddedIsQuiet(before: string, s: string, after: string, level: nat)
    requires Blank(before) && Blank(after) && Edges(s) && Quiet(s, level)
    ensures Quiet(Padded(before, s, after), level)
  {
    BlankIsQuiet(before);
    BlankIsQuiet(after);
    QuietConcat(before, s, level);
    QuietConcat(before + s, after, level);
  }

  lemma FunctionWord(word: string, f: Aggregation)
    requires SameText(word, FunctionName(f))
    ensures |word| >= 3 && forall c :: c in word ==> IsWord(c)
    ensures !SameText(word, "OR") && !SameText(word, "AND")
  {
    assert Upper(word[0]) != 'A' || Upper(word[1]) != 'N';
    forall c | c in word ensures IsWord(c) {
      var i :| 0 <= i < |word| && word[i] == c;
      assert Upper(c) == Upper(FunctionName(f)[i]);
    }
  }

  lemma CallIsQuiet(word: string, f: Aggregation, args: string)
    requires SameText(word, FunctionName(f)) && Plain(args)
    ensures Quiet(word + InParens(args), 6)
  {
    FunctionWord(word, f);
    PlainIsBalanced(args);
    ParenFacts(args);
    WordIsQuiet(word);
    QuietConcat(word, InParens(args), 6);
  }

  lemma CallEnds(word: string, f: Aggregation, args: string)
    requires SameText(word, FunctionName(f))
    ensures var t := word + InParens(args); Edges(t) && TailFree(t) && HeadFree(t)
  {
    var t := word + InParens(args);
    FunctionWord(word, f);
    assert |word| == 3 || |word| == 5 || |word| == 14;
    assert word[0] in word && (|word| > 3 ==> word[3] in word);
    assert t[..4][3] == t[3] != ' ' && t[|t| - 1] == ')';
    EndsOutsideWords(t);
  }

  lemma CallFacts(f: Aggregation, word: string, before: string, name: string, after: string)
    requires WellFormed(CallOf(f, word, before, name, after))
    ensures Facts(Text(CallOf(f, word, before, name, after)), 6)
  {
    CallIsQuiet(word, f, Padded(before, name, after));
    CallEnds(word, f, Padded(before, name, after));
  }

  lemma RefFacts(before: string, name: string, after: string)
    requires WellFormed(Ref(before, name, after))
    ensures Facts(Text(Ref(before, name, after)), 6)
  {
    var padded := Padded(before, name, after);
    var t := Text(Ref(before, name, after));
    assert name[0] in name && name[|name| - 1] in name;
    WordIsQuiet(name);
    PaddedIsQuiet(before, name, after, 6);
    InertIsQuiet("{{");
    InertIsQuiet("}}");
    QuietConcat(padded, "}}", 6);
    PaddedIsNoOperator(before, name, after);
    QuietConcat("{{", padded + "}}", 6);
    assert t[0] == '{' && t[|t| - 1] == '}';
    EndsOutsideWords(t);
  }

  lemma PaddedIsNoOperator(before: string, s: string, after: string)
    requires Blank(before) && Edges(s)
    ensures Padded(before, s, after) != [] && Padded(before, s, after)[0] != '='
  {
    BlankIsQuiet(before);
  }

  // ---------------------------------------------------------------- operators

  lemma InfixIsQuiet(a: string, before: string, op: string, after: string, b: string, level: nat)
    requires Edges(a) && Quiet(a, level) && Edges(b) && Quiet(b, level)
    requires Seams(a, before, op, after, b) && op != [] && Quiet(op, level)
    ensures Quiet(Infix(a, before, op, after, b), level)
  {
    BlankIsQuiet(before);
    BlankIsQuiet(after);
    QuietConcat(a, before, level);
    QuietConcat(after, b, level);
    QuietConcat(op, after + b, level);
    QuietConcat(a + before, op + (after + b), level);
  }

  lemma SymbolTail(x: string, op: string, after: string, b: string)
    requires op != [] && !IsWord(op[|op| - 1]) && !IsSpace(op[|op| - 1]) && Blank(after) && TailFree(b) && b != []
    ensures TailFree((x + (op + after)) + b)
  {
    var (init, last) := (op[..|op| - 1], op[|op| - 1]);
    assert op == init + [last] && x + (op + after) == ((x + init) + [last]) + after;
    BlankIsQuiet(after);
    NoIsBefore(x + init, last, after);
    TailConcat(x + (op + after), b);
  }

  /** An infix text of a level: the operator and both sides add nothing looser. */
  lemma InfixFacts(a: string, la: nat, before: string, op: string, after: string, b: string, lb: nat, level: nat)
    requires Facts(a, la) && Facts(b, lb) && level <= la && level <= lb && level <= 5
    requires Seams(a, before, op, after, b) && op != [] && Quiet(op, level)
    requires level >= 4 ==> !IsWord(op[0]) && !IsWord(op[|op| - 1]) && !IsSpace(op[|op| - 1])
    ensures Facts(Infix(a, before, op, after, b), level)
  {
    var t := Infix(a, before, op, after, b);
    var rest := before + (op + (after + b));
    BlankIsQuiet(before);
    BlankIsQuiet(after);
    assert t == a + rest && t == ((a + before) + (op + after)) + b;
    InfixIsQuiet(a, before, op, after, b, level);
    if level >= 4 { SymbolTail(a + before, op, after, b); }
    if level >= 5 { HeadConcat(a, rest); }
  }

  lemma OpTextFacts(op: BinaryOp)
    requires IsArithmetic(op) || IsComparison(op)
    ensures Quiet(OpText(op), 2) && (IsArithmetic(op) ==> Quiet(OpText(op), 5))
    ensures OpText(op) != [] && forall c :: c in OpText(op) ==> !IsWord(c) && !IsSpace(c) && c != '('
  {
    var w := OpText(op);
    PlainIsBalanced(w);
    LetterMissing(w, "OR", 0);
    LetterMissing(w, "AND", 0);
    if IsArithmetic(op) { NoComparisonChars(w); }
  }

  lemma SymbolFacts(a: string, la: nat, before: string, op: BinaryOp, after: string, b: string, lb: nat, level: nat)
    requires Facts(a, la) && Facts(b, lb) && level <= la && level <= lb && Blank(before) && Blank(after)
    requires (IsComparison(op) && level == 2) || (IsArithmetic(op) && level == 5)
    ensures Facts(Infix(a, before, OpText(op), after, b), level)
  {
    var w := OpText(op);
    OpTextFacts(op);
    assert w[0] in w && w[|w| - 1] in w;
    InfixFacts(a, la, before, w, after, b, lb, level);
  }

  /** The operators OR and AND, with the word, and the least level of the operands of each. */
  datatype Connective = Disjunction | Conjunction {
    function Op(): BinaryOp { if Disjunction? then Or else And }
    function Word(): string { if Disjunction? then "OR" else "AND" }
    function MinLevel(): nat { if Disjunction? then 1 else 2 }
  }

  lemma ConnectiveFacts(conn: Connective, a: string, before: string, word: string, after: string, b: string)
    requires Facts(a, conn.MinLevel() - 1) && Facts(b, conn.MinLevel())
    requires SameText(word, conn.Word()) && Seams(a, before, word, after, b)
    ensures Facts(Infix(a, before, word, after, b), conn.MinLevel() - 1)
  {
    var level := conn.MinLevel() - 1;
    SpelledIsQuiet(word, conn.Word(), level);
    assert word[0] in word;
    InfixFacts(a, level, before, word, after, b, level + 1, level);
  }

  lemma NullWordsFacts(words: string, negated: bool)
    requires SameText(words, NullWords(negated))
    ensures Quiet(words, 3) && words != [] && IsWord(words[0]) && IsWord(words[|words| - 1])
  {
    SpelledIsQuiet(words, NullWords(negated), 3);
    assert Upper(words[0]) == 'I' && Upper(words[|words| - 1]) == 'L';
  }

  lemma NullTestFacts(a: string, la: nat, before: string, words: string, negated: bool)
    requires Facts(a, la) && la >= 3 && SameText(words, NullWords(negated)) && Blank(before) && before != []
    ensures Facts((a + before) + words, 3)
  {
    NullWordsFacts(words, negated);
    BlankIsQuiet(before);
    QuietConcat(a, before, 3);
    QuietConcat(a + before, words, 3);
  }

  lemma NotWordFacts(word: string)
    requires SameText(word, "NOT")
    ensures Quiet(word, 4) && word != [] && IsWord(word[0]) && Upper(word[0]) == 'N'
  {
    SpelledIsQuiet(word, "NOT", 4);
    assert Upper(word[0]) == "NOT"[0] && Upper(word[1]) == "NOT"[1] && Upper(word[2]) == "NOT"[2];
  }

  lemma NotIsQuiet(word: string, after: string, a: string, la: nat)
    requires Facts(a, la) && la >= 4 && SameText(word, "NOT") && Blank(after) && after != []
    ensures Quiet(word + (after + a), 4)
  {
    NotWordFacts(word);
    BlankIsQuiet(after);
    QuietConcat(after, a, 4);
    QuietConcat(word, after + a, 4);
  }

  lemma NotEnds(word: string, after: string, a: string)
    requires SameText(word, "NOT") && Edges(a) && TailFree(a) && Blank(after) && after != []
    ensures Edges(word + (after + a)) && TailFree(word + (after + a))
  {
    NotWordFacts(word);
    BlankIsQuiet(after);
    NoIsAfterNot(word, after);
    TailConcat(word + after, a);
    assert word + (after + a) == (word + after) + a;
  }

  lemma NoIsShort(t: string)
    requires |t| == 4 && Upper(t[0]) == 'N'
    ensures NoIs(t)
  {
    assert t[|t| - 4..] == t;
  }

  lemma NoIsByLetter(t: string)
    requires |t| >= 2 && Upper(t[|t| - 2]) != 'S' && Upper(t[|t| - 2]) != 'T'
    ensures NoIs(t)
  {
    assert Upper("IS "[1]) == 'S' && Upper("IS NOT "[5]) == 'T';
    if EndsWith(t, " IS ") { LastLetters(t, " IS "); }
    if EndsWith(t, " IS NOT ") { LastLetters(t, " IS NOT "); }
  }

  lemma LastLetters(t: string, p: string)
    requires EndsWith(t, p) && |p| >= 2
    ensures |t| >= 2 && Upper(t[|t| - 2]) == Upper(p[|p| - 2])
  {
    SuffixChar(t, p, |p| - 2);
  }

  lemma NoIsAfterNot(word: string, after: string)
    requires SameText(word, "NOT") && Blank(after) && after != []
    ensures NoIs(word + after)
  {
    var t := word + after;
    if |after| == 1 {
      assert Upper(word[0]) == 'N' && t[0] == word[0];
      NoIsShort(t);
    } else {
      assert t[|t| - 2] == after[|after| - 2] && after[|after| - 2] in after;
      NoIsByLetter(t);
    }
  }

  lemma NotFacts(word: string, after: string, a: string, la: nat)
    requires Facts(a, la) && la >= 4 && SameText(word, "NOT") && Blank(after) && after != []
    ensures Facts(word + (after + a), 4)
  {
    NotIsQuiet(word, after, a, la);
    NotEnds(word, after, a);
  }

  lemma AtomFacts(c: Cst)
    requires WellFormed(c) && Level(c) == 6 && !c.Paren?
    ensures Facts(Text(c), Tight(c))
  {
    match c
    case Ident(name) => WordFacts(name);
    case Ref(before, name, after) => RefFacts(before, name, after);
    case Number(n) => NumeralFacts(n);
    case StrLit(s) => StrFacts(s);
    case TruthLit(b, word) => TruthFacts(b, word);
    case CallOf(f, word, before, name, after) => CallFacts(f, word, before, name, after);
  }

  lemma InfixWordFacts(c: Cst)
    requires WellFormed(c) && IsInfix(c)
    ensures var w := InfixWord(c); w != [] && w[0] != '(' && Seams(Text(c.l), c.before, w, c.after, Text(c.r))
  {
    if c.Arith? || c.Compare? {
      OpTextFacts(c.op);
      assert OpText(c.op)[0] in OpText(c.op) && OpText(c.op)[|OpText(c.op)| - 1] in OpText(c.op);
    } else {
      SpelledIsQuiet(c.word, if c.AndOf? then "AND" else "OR", 0);
      assert c.word[0] in c.word;
    }
  }

  /** An infix text, from the facts of its operands. */
  lemma OperatorFacts(c: Cst)
    requires WellFormed(c) && IsInfix(c)
    requires Facts(Text(c.l), Tight(c.l)) && Facts(Text(c.r), Tight(c.r))
    ensures Facts(Text(c), Level(c))
  {
    match c
    case Arith(l, before, op, after, r) => SymbolFacts(Text(l), Tight(l), before, op, after, Text(r), Tight(r), 5);
    case Compare(l, before, op, after, r) => SymbolFacts(Text(l), Tight(l), before, op, after, Text(r), Tight(r), 2);
    case AndOf(l, before, word, after, r) => ConnectiveFacts(Conjunction, Text(l), before, word, after, Text(r));
    case OrOf(l, before, word, after, r) => ConnectiveFacts(Disjunction, Text(l), before, word, after, Text(r));
  }

  lemma PaddedParenFacts(before: string, s: string, after: string)
    requires Blank(before) && Blank(after) && Facts(s, 0)
    ensures Facts(InParens(Padded(before, s, after)), 6)
  {
    PaddedIsQuiet(before, s, after, 0);
    ParenFacts(Padded(before, s, after));
  }

  lemma {:induction false} TextFacts(c: Cst)
    requires WellFormed(c)
    ensures Facts(Text(c), Tight(c))
    decreases c
  {
    if IsInfix(c) {
      TextFacts(c.l);
      TextFacts(c.r);
      OperatorFacts(c);
    } else if c.Paren? {
      TextFacts(c.inner);
      PaddedParenFacts(c.before, Text(c.inner), c.after);
    } else if c.NotOf? {
      TextFacts(c.x);
      NotFacts(c.word, c.after, Text(c.x), Tight(c.x));
    } else if c.NullTest? {
      TextFacts(c.x);
      NullTestFacts(Text(c.x), Tight(c.x), c.before, c.words, c.negated);
    } else {
      AtomFacts(c);
    }
  }

  /** In an operand of arithmetic, only a sign at its start can come to stand next to a space. */
  lemma OperandSigns(c: Cst)
    requires WellFormed(c) && Level(c) == 6
    ensures SignsInside(Text(c))
    ensures ArithAt(Text(c), 0) <==> IsSigned(c)
  {
    TextFacts(c);
    if c.Number? {
      NumeralChars(c.n);
      NumberCharsSigns(Text(c));
      NumberCharsAreTop(Text(c));
    }
  }

  lemma NumberCharsAreTop(s: string)
    requires NumberChars(s) && s != []
    ensures ArithAt(s, 0) <==> IsSign(s[0])
  {
    PlainIsClosed(s);
    assert s[0] in s;
  }
}
