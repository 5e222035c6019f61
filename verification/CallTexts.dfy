/**
 Calls of the set functions in texts of the grammar. The parser takes a text for one call as soon
 as it begins with a function and an opening parenthesis and ends in a closing one.
 */
module CallTexts {
  import opened Wrappers
  import opened Exprs
  import opened Scanner
  import opened DslParser
  import opened Numerals
  import opened Grammar
  import opened RoundTrip

  /** The text cannot be taken for an aggregation call: no parenthesis follows a leading word. */
  ghost predicate LeadFree(s: string) {
    forall k :: 1 <= k < |s| && (forall j :: 0 <= j < k ==> IsWord(s[j])) ==> s[k] != '('
  }

  lemma LeadConcat(a: string, b: string)
    requires a != [] && LeadFree(a)
    requires b == [] || (WordSeam(a, b) && b[0] != '(') || !IsWord(a[|a| - 1])
    ensures LeadFree(a + b)
  {
    var t := a + b;
    forall k | 1 <= k < |t| && forall j :: 0 <= j < k ==> IsWord(t[j]) ensures t[k] != '(' {
      assert forall j :: 0 <= j < k && j < |a| ==> a[j] == t[j];
      assert t[|a| - 1] == a[|a| - 1] && (b != [] ==> t[|a|] == b[0]);
    }
  }

  lemma OutsideLead(s: string)
    requires s != [] && !IsWord(s[0])
    ensures LeadFree(s)
  {
  }

  predicate StartsWithCall(c: Cst) {
    match c
    case CallOf(_, _, _, _, _) => true
    case Arith(l, _, _, _, _) => StartsWithCall(l)
    case NullTest(x, _, _, _) => StartsWithCall(x)
    case Compare(l, _, _, _, _) => StartsWithCall(l)
    case AndOf(l, _, _, _, _) => StartsWithCall(l)
    case OrOf(l, _, _, _, _) => StartsWithCall(l)
    case _ => false
  }

  predicate EndsWithParen(c: Cst) {
    match c
    case CallOf(_, _, _, _, _) => true
    case Paren(_, _, _) => true
    case Arith(_, _, _, _, r) => EndsWithParen(r)
    case NotOf(_, _, x) => EndsWithParen(x)
    case Compare(_, _, _, _, r) => EndsWithParen(r)
    case AndOf(_, _, _, _, r) => EndsWithParen(r)
    case OrOf(_, _, _, _, r) => EndsWithParen(r)
    case _ => false
  }

  lemma WordLead(w: string)
    requires forall c :: c in w ==> IsWord(c)
    ensures LeadFree(w)
  {
    forall k | 1 <= k < |w| ensures w[k] != '(' { assert w[k] in w; }
  }

  lemma InfixLead(a: string, before: string, op: string, after: string, b: string)
    requires a != [] && LeadFree(a) && Seams(a, before, op, after, b) && op != [] && op[0] != '('
    ensures LeadFree(Infix(a, before, op, after, b))
  {
    var rest := before + (op + (after + b));
    BlankIsQuiet(before);
    LeadConcat(a, rest);
    assert Infix(a, before, op, after, b) == a + rest;
  }

  lemma ConnectiveLead(conn: Connective, a: string, before: string, word: string, after: string, b: string)
    requires a != [] && LeadFree(a) && SameText(word, conn.Word()) && Seams(a, before, word, after, b)
    ensures LeadFree(Infix(a, before, word, after, b))
  {
    SpelledIsQuiet(word, conn.Word(), 0);
    assert word[0] in word;
    InfixLead(a, before, word, after, b);
  }

  lemma NullTestLead(a: string, before: string, words: string)
    requires a != [] && LeadFree(a) && Blank(before) && before != []
    ensures LeadFree((a + before) + words)
  {
    BlankIsQuiet(before);
    LeadConcat(a, before + words);
    assert (a + before) + words == a + (before + words);
  }

  lemma NotLead(word: string, after: string, a: string)
    requires SameText(word, "NOT") && Blank(after) && after != []
    ensures LeadFree(word + (after + a))
  {
    SpelledIsQuiet(word, "NOT", 0);
    NotWordFacts(word);
    assert forall c :: c in word ==> IsWord(c);
    WordLead(word);
    BlankIsQuiet(after);
    LeadConcat(word, after + a);
  }

  lemma NumeralLead(n: Written)
    ensures LeadFree(NumeralText(n))
  {
    var t := NumeralText(n);
    NumeralChars(n);
    forall k | 1 <= k < |t| ensures t[k] != '(' { assert t[k] in t; }
  }

  lemma AtomLead(c: Cst)
    requires WellFormed(c) && Level(c) == 6 && !c.CallOf?
    ensures LeadFree(Text(c))
  {
    match c
    case Ident(name) => WordLead(name);
    case Number(n) => NumeralLead(n);
    case TruthLit(b, word) => SpelledIsQuiet(word, TruthWord(b), 0); WordLead(word);
    case _ => OutsideLead(Text(c));
  }

  /** A text that begins with no call cannot be taken for one. */
  lemma {:induction false} TextLead(c: Cst)
    requires WellFormed(c) && !StartsWithCall(c)
    ensures LeadFree(Text(c))
    decreases c
  {
    if IsInfix(c) {
      TextLead(c.l);
      TextFacts(c.l);
      InfixText(c);
      InfixWordFacts(c);
      InfixLead(Text(c.l), c.before, InfixWord(c), c.after, Text(c.r));
    } else if c.NullTest? {
      TextLead(c.x);
      TextFacts(c.x);
      NullTestLead(Text(c.x), c.before, c.words);
    } else if c.NotOf? {
      NotLead(c.word, c.after, Text(c.x));
    } else {
      AtomLead(c);
    }
  }

  // ---------------------------------------------------------------- the last token

  /** The text ends in a parenthesis, or does not. */
  predicate Ends(t: string, paren: bool) {
    t != [] && (t[|t| - 1] == ')' <==> paren)
  }

  lemma EndOf(a: string, b: string, paren: bool)
    requires Ends(b, paren)
    ensures Ends(a + b, paren)
  {
  }

  lemma InfixEnd(a: string, before: string, op: string, after: string, b: string, paren: bool)
    requires Ends(b, paren)
    ensures Ends(Infix(a, before, op, after, b), paren)
  {
    EndOf(after, b, paren);
    EndOf(op, after + b, paren);
    EndOf(a + before, op + (after + b), paren);
  }

  lemma NotEnd(word: string, after: string, a: string, paren: bool)
    requires Ends(a, paren)
    ensures Ends(word + (after + a), paren)
  {
    EndOf(after, a, paren);
    EndOf(word, after + a, paren);
  }

  lemma NullTestEnd(a: string, words: string, negated: bool)
    requires SameText(words, NullWords(negated))
    ensures Ends(a + words, false)
  {
    NullWordsFacts(words, negated);
    EndOf(a, words, false);
  }

  lemma WordEnd(w: string)
    requires w != [] && forall c :: c in w ==> IsWord(c)
    ensures Ends(w, false)
  {
    assert w[|w| - 1] in w;
  }

  lemma ClosedEnd(a: string, b: string)
    ensures Ends(a + "'", false) && Ends(a + ")", true) && Ends(b + (a + ")"), true) && Ends(b + (a + "}}"), false)
  {
    EndOf(a, "'", false);
    EndOf(a, ")", true);
    EndOf(a, "}}", false);
    EndOf(b, a + ")", true);
    EndOf(b, a + "}}", false);
  }

  lemma AtomEnd(c: Cst)
    requires WellFormed(c) && Level(c) == 6
    ensures Ends(Text(c), EndsWithParen(c))
  {
    match c
    case Ident(name) => WordEnd(name);
    case Number(n) => NumeralChars(n);
    case TruthLit(b, word) => SpelledIsQuiet(word, TruthWord(b), 0); WordEnd(word);
    case Ref(before, name, after) => ClosedEnd(Padded(before, name, after), "{{");
    case StrLit(s) => ClosedEnd("'" + s, []);
    case Paren(before, inner, after) => ClosedEnd("(" + Padded(before, Text(inner), after), []);
    case CallOf(_, word, before, name, after) => ClosedEnd("(" + Padded(before, name, after), word);
  }

  /** The last character of a text is a parenthesis exactly when its last token is. */
  lemma {:induction false} TextEnd(c: Cst)
    requires WellFormed(c)
    ensures Ends(Text(c), EndsWithParen(c))
    decreases c
  {
    if IsInfix(c) {
      TextEnd(c.r);
      InfixText(c);
      InfixEnd(Text(c.l), c.before, InfixWord(c), c.after, Text(c.r), EndsWithParen(c.r));
    } else if c.NullTest? {
      NullTestEnd(Text(c.x) + c.before, c.words, c.negated);
    } else if c.NotOf? {
      TextEnd(c.x);
      NotEnd(c.word, c.after, Text(c.x), EndsWithParen(c.x));
    } else {
      AtomEnd(c);
    }
  }

  // ---------------------------------------------------------------- taken for a call

  lemma PrefixIsWord(t: string, p: string, k: nat)
    requires StartsWith(t, p) && k < |p|
    ensures Upper(t[k]) == Upper(p[k])
  {
    assert t[..|p|][k] == t[k];
  }

  predicate CallBy(t: string, f: Aggregation) {
    StartsWith(t, FunctionName(f) + "(")
  }

  ghost predicate CallHead(t: string) {
    exists f :: CallBy(t, f)
  }

  lemma NoCallHead(t: string, f: Aggregation)
    requires LeadFree(t)
    ensures !CallBy(t, f)
  {
    var p := FunctionName(f) + "(";
    if StartsWith(t, p) {
      forall j | 0 <= j < |p| - 1 ensures IsWord(t[j]) { PrefixIsWord(t, p, j); }
      PrefixIsWord(t, p, |p| - 1);
    }
  }

  /** A text begins with the call of at most one function. */
  lemma OneFunction(t: string, f: Aggregation, g: Aggregation)
    requires CallBy(t, f) && CallBy(t, g)
    ensures f == g
  {
    var p, q := FunctionName(f) + "(", FunctionName(g) + "(";
    PrefixIsWord(t, p, 0);
    PrefixIsWord(t, q, 0);
    PrefixIsWord(t, p, 1);
    PrefixIsWord(t, q, 1);
    if f.Count? || g.Count? {
      if f.CountDistinct? || g.CountDistinct? {
        PrefixIsWord(t, p, 5);
        PrefixIsWord(t, q, 5);
      }
    }
  }

  lemma Prefixes()
    ensures FunctionName(Sum) + "(" == "SUM(" && FunctionName(Count) + "(" == "COUNT("
    ensures FunctionName(CountDistinct) + "(" == "COUNT_DISTINCT(" && FunctionName(Avg) + "(" == "AVG("
    ensures FunctionName(Min) + "(" == "MIN(" && FunctionName(Max) + "(" == "MAX("
  {
  }

  lemma NoAggregation(t: string)
    requires LeadFree(t) || t == [] || t[|t| - 1] != ')'
    ensures TryAggregation(t) == None
  {
    forall f | LeadFree(t) ensures !CallBy(t, f) { NoCallHead(t, f); }
    OnlyCalls(t);
  }

  /** What the chain of patterns finds is the call of the function at the start. */
  lemma OnlyCalls(t: string)
    ensures TryAggregation(t).Some? ==> t != [] && t[|t| - 1] == ')' && exists f :: CallBy(t, f)
  {
    Prefixes();
    assert CallBy(t, Sum) <==> StartsWith(t, "SUM(");
    assert CallBy(t, CountDistinct) <==> StartsWith(t, "COUNT_DISTINCT(");
    assert CallBy(t, Count) <==> StartsWith(t, "COUNT(");
    assert CallBy(t, Avg) <==> StartsWith(t, "AVG(");
    assert CallBy(t, Min) <==> StartsWith(t, "MIN(");
    assert CallBy(t, Max) <==> StartsWith(t, "MAX(");
  }

  lemma CallIsTaken(t: string, f: Aggregation)
    requires CallBy(t, f) && Ends(t, true)
    ensures TryAggregation(t) == AggregateCall(t, FunctionName(f) + "(", f) && TryAggregation(t).Some?
  {
    Prefixes();
    forall g | CallBy(t, g) ensures g == f { OneFunction(t, f, g); }
    PrefixIsWord(t, FunctionName(f) + "(", |FunctionName(f)|);
    assert CallBy(t, Sum) <==> StartsWith(t, "SUM(");
    assert CallBy(t, CountDistinct) <==> StartsWith(t, "COUNT_DISTINCT(");
    assert CallBy(t, Count) <==> StartsWith(t, "COUNT(");
    assert CallBy(t, Avg) <==> StartsWith(t, "AVG(");
    assert CallBy(t, Min) <==> StartsWith(t, "MIN(");
    assert CallBy(t, Max) <==> StartsWith(t, "MAX(");
  }

  lemma CallHeadConcat(a: string, b: string)
    requires CallHead(a)
    ensures CallHead(a + b)
  {
    var f :| CallBy(a, f);
    var n := |FunctionName(f)| + 1;
    assert (a + b)[..n] == a[..n];
    assert CallBy(a + b, f);
  }

  lemma CallTextHead(f: Aggregation, word: string, rest: string)
    requires SameText(word, FunctionName(f))
    ensures CallBy(word + ("(" + rest), f)
  {
    assert (word + ("(" + rest))[..|word| + 1] == word + "(";
  }

  lemma InfixCallHead(a: string, before: string, op: string, after: string, b: string)
    requires CallHead(a)
    ensures CallHead(Infix(a, before, op, after, b))
  {
    CallHeadConcat(a, before);
    CallHeadConcat(a + before, op + (after + b));
  }

  lemma {:induction false} TextCallHead(c: Cst)
    requires WellFormed(c) && StartsWithCall(c)
    ensures CallHead(Text(c))
    decreases c
  {
    if c.CallOf? {
      CallTextHead(c.f, c.word, Padded(c.before, c.name, c.after) + ")");
      assert Text(c) == c.word + ("(" + (Padded(c.before, c.name, c.after) + ")"));
    } else if IsInfix(c) {
      TextCallHead(c.l);
      InfixText(c);
      InfixCallHead(Text(c.l), c.before, InfixWord(c), c.after, Text(c.r));
    } else {
      TextCallHead(c.x);
      CallHeadConcat(Text(c.x), c.before);
      CallHeadConcat(Text(c.x) + c.before, c.words);
    }
  }

  lemma PaddedIsNoCall(before: string, s: string, after: string)
    requires Blank(before) && Blank(after) && (before != [] || after != [])
    ensures TryAggregation(Padded(before, s, after)).None?
  {
    var t := Padded(before, s, after);
    BlankIsQuiet(before);
    BlankIsQuiet(after);
    if before != [] {
      OutsideLead(t);
    } else {
      assert t[|t| - 1] == after[|after| - 1];
    }
    NoAggregation(t);
  }

  lemma CallIsSwallowed(c: Cst)
    requires WellFormed(c) && StartsWithCall(c) && EndsWithParen(c)
    ensures TryAggregation(Text(c)).Some?
  {
    TextEnd(c);
    TextCallHead(c);
    var f :| CallBy(Text(c), f);
    CallIsTaken(Text(c), f);
  }

  lemma NothingIsTaken(c: Cst)
    requires WellFormed(c) && !(StartsWithCall(c) && EndsWithParen(c))
    ensures TryAggregation(Text(c)).None?
  {
    TextEnd(c);
    if !StartsWithCall(c) { TextLead(c); }
    NoAggregation(Text(c));
  }

  /** A text of the grammar is taken for one call if and only if it begins with a call and ends in
      a parenthesis, and no white space stands around it. */
  lemma TakenForCallExactly(before: string, c: Cst, after: string)
    requires WellFormed(c) && Blank(before) && Blank(after)
    ensures TryAggregation(Padded(before, Text(c), after)).Some? <==>
            before == [] && after == [] && StartsWithCall(c) && EndsWithParen(c)
  {
    if before != [] || after != [] {
      PaddedIsNoCall(before, Text(c), after);
    } else {
      assert Padded(before, Text(c), after) == Text(c);
      if StartsWithCall(c) && EndsWithParen(c) { CallIsSwallowed(c); } else { NothingIsTaken(c); }
    }
  }

  lemma BetweenParens(word: string, s: string)
    ensures var t := word + ("(" + (s + ")")); |t| == |word| + 1 + |s| + 1 && t[|word| + 1..|t| - 1] == s
  {
    var head, tail := word + "(", s + ")";
    var t := word + ("(" + (s + ")"));
    assert t == head + tail;
    SliceRight(head, tail, |head|, |s|);
    assert tail[0..|s|] == s;
  }

  /** The argument is whatever stands between the parentheses, trimmed. */
  lemma CallArgument(f: Aggregation, word: string, padded: string)
    requires SameText(word, FunctionName(f))
    ensures var inner := Trim(padded);
            TryAggregation(word + ("(" + (padded + ")"))) ==
            Some(Aggregate(f, if IsIdentifier(inner) then Column(inner) else EntityRef(inner), f.CountDistinct?))
  {
    var t := word + ("(" + (padded + ")"));
    CallTextHead(f, word, padded + ")");
    EndOf(padded, ")", true);
    EndOf("(", padded + ")", true);
    EndOf(word, "(" + (padded + ")"), true);
    CallIsTaken(t, f);
    BetweenParens(word, padded);
  }

  /** A call by itself is read as it is meant, in any spelling and spacing. */
  lemma CallIsRead(c: Cst)
    requires WellFormed(c) && c.CallOf?
    ensures TryAggregation(Text(c)) == Some(Denotes(c))
  {
    var padded := Padded(c.before, c.name, c.after);
    assert InParens(padded) == "(" + (padded + ")");
    assert c.name[0] in c.name && c.name[|c.name| - 1] in c.name;
    TrimPadded(c.before, c.name, c.after);
    CallArgument(c.f, c.word, padded);
  }
}
