/**
 The guard against raw SQL: it looks for SQL keywords anywhere in the text, nested and quoted
 text included. On texts of the grammar it fires exactly when an atom holds one.
 */
module RawSql {
  import opened Wrappers
  import opened Exprs
  import opened Scanner
  import opened DslParser
  import opened Numerals
  import opened Grammar

  /** Some keyword of SQL stands in the text as a word, or as two words one space apart, in any
      spelling. */
  ghost predicate MentionsSql(s: string) {
    exists kw :: IsSqlKeyword(kw) && Mentions(s, kw)
  }

  predicate IsSqlKeyword(kw: string) {
    kw in {"SELECT", "FROM", "WHERE", "INSERT", "UPDATE", "DELETE", "JOIN", "UNION", "GROUP BY", "ORDER BY", "HAVING",
           "LIMIT", "CREATE", "ALTER", "DROP"}
  }

  ghost predicate Mentions(s: string, kw: string) {
    exists a, w, b :: s == a + (w + b) && SameText(w, kw) && StandsApart(a, b)
  }

  predicate StandsApart(a: string, b: string) {
    (a == [] || !IsWord(a[|a| - 1])) && (b == [] || !IsWord(b[0]))
  }

  lemma CutOut(s: string, kw: string, i: nat)
    requires i <= |s| && WordAt(s, kw, i)
    ensures Mentions(s, kw)
  {
    var (a, w, b) := (s[..i], s[i..i + |kw|], s[i + |kw|..]);
    assert s == a + (w + b) && SameText(w, kw) && StandsApart(a, b);
  }

  lemma PutBack(a: string, w: string, b: string, kw: string)
    requires SameText(w, kw) && StandsApart(a, b)
    ensures WordAt(a + (w + b), kw, |a|)
  {
    var s := a + (w + b);
    assert s[|a|..|a| + |kw|] == w;
    assert a != [] ==> s[|a| - 1] == a[|a| - 1];
    assert b != [] ==> s[|a| + |kw|] == b[0];
  }

  lemma MentionsExactly(s: string, kw: string)
    ensures Mentions(s, kw) <==> exists i: nat :: i <= |s| && WordAt(s, kw, i)
  {
    if i: nat :| i <= |s| && WordAt(s, kw, i) { CutOut(s, kw, i); }
    if a, w, b :| s == a + (w + b) && SameText(w, kw) && StandsApart(a, b) { PutBack(a, w, b, kw); }
  }

  lemma KeywordsExactly(kw: string)
    ensures IsSqlKeyword(kw) <==> kw in SQL_KEYWORDS
  {
  }

  /** The guard looks for exactly these keywords. */
  lemma GuardExactly(s: string)
    ensures LooksLikeRawSql(s) <==> MentionsSql(s)
  {
    forall kw ensures IsSqlKeyword(kw) <==> exists k :: 0 <= k < |SQL_KEYWORDS| && SQL_KEYWORDS[k] == kw {
      KeywordsExactly(kw);
    }
    forall k: nat | k < |SQL_KEYWORDS| ensures IsSqlKeyword(SQL_KEYWORDS[k]) {
      KeywordsExactly(SQL_KEYWORDS[k]);
    }
    forall kw { MentionsExactly(s, kw); }
    if LooksLikeRawSql(s) {
      var k, i :| 0 <= k < |SQL_KEYWORDS| && 0 <= i <= |s| && WordAt(s, SQL_KEYWORDS[k], i);
      assert Mentions(s, SQL_KEYWORDS[k]);
    }
    if kw :| IsSqlKeyword(kw) && Mentions(s, kw) {
      var k :| 0 <= k < |SQL_KEYWORDS| && SQL_KEYWORDS[k] == kw;
      var i: nat :| i <= |s| && WordAt(s, kw, i);
    }
  }

  ghost predicate Hit(s: string, kw: string) {
    exists i: nat :: i <= |s| && WordAt(s, kw, i)
  }

  /** Letters, not E the first, or two words of which the second starts with B at position 6. */
  predicate KeywordShape(kw: string) {
    && |kw| >= 4 && kw[0] != ' ' && kw[0] != 'E'
    && forall j :: 0 <= j < |kw| ==> 'A' <= kw[j] <= 'Z' || (kw[j] == ' ' && j == 5 && |kw| == 8 && kw[6] == 'B')
  }

  // ---------------------------------------------------------------- one keyword

  lemma LetterAt(s: string, kw: string, i: nat, j: nat)
    requires WordAt(s, kw, i) && j < |kw|
    ensures Upper(s[i + j]) == Upper(kw[j])
  {
    assert s[i..i + |kw|][j] == s[i + j];
  }

  /** GROUP BY and ORDER BY cannot arise across the place where the two texts meet. */
  predicate NoWordPair(a: string, b: string) {
    |a| < 5 || Blank(a) || Blank(b) || (b[0] != ' ' && Upper(b[0]) != 'B')
  }

  lemma HitAcross(a: string, b: string, kw: string, i: nat)
    requires KeywordShape(kw) && WordAt(a + b, kw, i) && i < |a| < i + |kw| && WordSeam(a, b)
    ensures !NoWordPair(a, b)
  {
    var t := a + b;
    var k := |a| - i;
    LetterAt(t, kw, i, 0);
    LetterAt(t, kw, i, k - 1);
    LetterAt(t, kw, i, k);
    assert t[i] == a[i] && a[i] in a && t[|a| - 1] == a[|a| - 1] && t[|a|] == b[0];
    assert kw[k - 1] == ' ' || kw[k] == ' ';
    LetterAt(t, kw, i, 6);
    assert t[i + 6] == b[i + 6 - |a|] && b[i + 6 - |a|] in b;
  }

  lemma HitLeft(a: string, b: string, kw: string, i: nat)
    requires KeywordShape(kw) && WordSeam(a, b) && i + |kw| <= |a|
    ensures WordAt(a + b, kw, i) <==> WordAt(a, kw, i)
  {
    SliceLeft(a, b, i, |kw|);
    if i + |kw| == |a| && SameText(a[i..i + |kw|], kw) {
      assert Upper(a[i..i + |kw|][|kw| - 1]) == Upper(kw[|kw| - 1]);
    }
  }

  lemma HitRight(a: string, b: string, kw: string, i: nat)
    requires KeywordShape(kw) && WordSeam(a, b) && i >= |a|
    ensures WordAt(a + b, kw, i) <==> WordAt(b, kw, i - |a|)
  {
    if i + |kw| <= |a + b| {
      SliceRight(a, b, i, |kw|);
      if i == |a| && SameText(b[..|kw|], kw) { assert Upper(b[..|kw|][0]) == Upper(kw[0]); }
    }
  }

  lemma HitIsOnOneSide(a: string, b: string, kw: string, i: nat)
    requires KeywordShape(kw) && WordSeam(a, b) && NoWordPair(a, b) && WordAt(a + b, kw, i)
    ensures if i >= |a| then WordAt(b, kw, i - |a|) else WordAt(a, kw, i)
  {
    if i >= |a| {
      HitRight(a, b, kw, i);
    } else if i + |kw| <= |a| {
      HitLeft(a, b, kw, i);
    } else {
      HitAcross(a, b, kw, i);
    }
  }

  lemma HitConcat(a: string, b: string, kw: string)
    requires KeywordShape(kw) && WordSeam(a, b) && NoWordPair(a, b)
    ensures Hit(a + b, kw) <==> Hit(a, kw) || Hit(b, kw)
  {
    if i: nat :| i <= |a + b| && WordAt(a + b, kw, i) { HitIsOnOneSide(a, b, kw, i); }
    if i: nat :| i <= |a| && WordAt(a, kw, i) { HitLeft(a, b, kw, i); }
    if i: nat :| i <= |b| && WordAt(b, kw, i) { HitRight(a, b, kw, i + |a|); }
  }

  lemma SpelledHit(a: string, b: string, kw: string)
    requires SameText(a, b)
    ensures Hit(a, kw) ==> Hit(b, kw)
  {
    if Hit(a, kw) {
      var i: nat :| i <= |a| && WordAt(a, kw, i);
      forall j | 0 <= j < |kw| ensures Upper(b[i..i + |kw|][j]) == Upper(kw[j]) { LetterAt(a, kw, i, j); }
      assert WordAt(b, kw, i);
    }
  }

  /** A single word holds a keyword only by being it. */
  lemma WordHit(w: string, kw: string)
    requires forall c :: c in w ==> IsWord(c)
    ensures Hit(w, kw) <==> SameText(w, kw)
  {
    assert forall j :: 0 <= j < |w| ==> IsWord(w[j]);
    if Hit(w, kw) {
      var i: nat :| i <= |w| && WordAt(w, kw, i);
      assert w[i..i + |kw|] == w;
    }
    if SameText(w, kw) {
      assert w[0..|kw|] == w;
      assert WordAt(w, kw, 0);
    }
  }

  lemma SymbolHit(w: string, kw: string)
    requires KeywordShape(kw) && forall c :: c in w ==> !IsAlpha(c) || Upper(c) == 'E'
    ensures !Hit(w, kw)
  {
    forall i: nat ensures !WordAt(w, kw, i) {
      if i + |kw| <= |w| {
        assert w[i] in w && w[i..i + |kw|][0] == w[i];
        assert Upper(w[i]) != Upper(kw[0]);
      }
    }
  }

  // ---------------------------------------------------------------- any keyword

  predicate IsSqlWord(name: string) {
    exists k :: 0 <= k < |SQL_KEYWORDS| && SameText(name, SQL_KEYWORDS[k])
  }

  lemma KeywordsHaveShape(k: nat)
    requires k < |SQL_KEYWORDS|
    ensures KeywordShape(SQL_KEYWORDS[k])
  {
  }

  lemma SqlConcat(a: string, b: string)
    requires WordSeam(a, b) && NoWordPair(a, b)
    ensures LooksLikeRawSql(a + b) <==> LooksLikeRawSql(a) || LooksLikeRawSql(b)
  {
    forall k: nat | k < |SQL_KEYWORDS|
      ensures Hit(a + b, SQL_KEYWORDS[k]) <==> Hit(a, SQL_KEYWORDS[k]) || Hit(b, SQL_KEYWORDS[k])
    {
      KeywordsHaveShape(k);
      HitConcat(a, b, SQL_KEYWORDS[k]);
    }
  }

  /** Letter case does not matter. */
  lemma SpelledSql(a: string, b: string)
    requires SameText(a, b) && !LooksLikeRawSql(b)
    ensures !LooksLikeRawSql(a)
  {
    forall k: nat | k < |SQL_KEYWORDS| ensures !Hit(a, SQL_KEYWORDS[k]) {
      assert !Hit(b, SQL_KEYWORDS[k]);
      SpelledHit(a, b, SQL_KEYWORDS[k]);
    }
  }

  lemma WordSql(w: string)
    requires forall c :: c in w ==> IsWord(c)
    ensures LooksLikeRawSql(w) <==> IsSqlWord(w)
  {
    forall k: nat | k < |SQL_KEYWORDS| ensures Hit(w, SQL_KEYWORDS[k]) <==> SameText(w, SQL_KEYWORDS[k]) {
      WordHit(w, SQL_KEYWORDS[k]);
    }
  }

  lemma SymbolSql(w: string)
    requires forall c :: c in w ==> !IsAlpha(c) || Upper(c) == 'E'
    ensures !LooksLikeRawSql(w)
  {
    forall k: nat | k < |SQL_KEYWORDS| ensures !Hit(w, SQL_KEYWORDS[k]) {
      SymbolHit(w, SQL_KEYWORDS[k]);
    }
  }

  /** The words of the grammar are no SQL keywords. */
  lemma GrammarWordIsNotSql(w: string)
    requires forall c :: c in w ==> IsWord(c)
    requires |w| < 4 || Upper(w[0]) == 'N' || Upper(w[0]) == 'T' || (|w| == 5 && Upper(w[0]) == 'F')
    ensures !LooksLikeRawSql(w)
  {
    WordSql(w);
    forall k: nat | k < |SQL_KEYWORDS| ensures !SameText(w, SQL_KEYWORDS[k]) {
    }
  }

  /** Quotes or parentheses around a text. */
  lemma WrappedSql(open: string, s: string, close: string)
    requires |open| == |close| == 1 && !IsWord(open[0]) && !IsWord(close[0]) && close[0] != ' '
    ensures LooksLikeRawSql(open + s + close) <==> LooksLikeRawSql(s)
  {
    SymbolSql(open);
    SymbolSql(close);
    SqlConcat(open, s);
    SqlConcat(open + s, close);
  }

  lemma BlankSql(s: string)
    requires Blank(s)
    ensures !LooksLikeRawSql(s) && (s != [] ==> !IsWord(s[0]) && !IsWord(s[|s| - 1]))
  {
    SymbolSql(s);
    if s != [] { assert s[0] in s && s[|s| - 1] in s; }
  }

  lemma PaddedSql(before: string, s: string, after: string)
    requires Blank(before) && Blank(after)
    ensures LooksLikeRawSql(Padded(before, s, after)) <==> LooksLikeRawSql(s)
  {
    BlankSql(before);
    BlankSql(after);
    SqlConcat(before, s);
    SqlConcat(before + s, after);
  }

  lemma InfixSql(a: string, before: string, op: string, after: string, b: string)
    requires Seams(a, before, op, after, b) && !LooksLikeRawSql(op)
    requires op != [] && |op| < 5 && op[0] != ' ' && Upper(op[0]) != 'B'
    ensures LooksLikeRawSql(Infix(a, before, op, after, b)) <==> LooksLikeRawSql(a) || LooksLikeRawSql(b)
  {
    BlankSql(before);
    BlankSql(after);
    SqlConcat(a, before);
    SqlConcat(after, b);
    SqlConcat(op, after + b);
    SqlConcat(a + before, op + (after + b));
  }

  lemma OperatorSql(a: string, before: string, op: BinaryOp, after: string, b: string)
    requires Blank(before) && Blank(after)
    ensures LooksLikeRawSql(Infix(a, before, OpText(op), after, b)) <==> LooksLikeRawSql(a) || LooksLikeRawSql(b)
  {
    SymbolSql(OpText(op));
    InfixSql(a, before, OpText(op), after, b);
  }

  lemma ConnectiveSql(a: string, before: string, word: string, after: string, b: string)
    requires Seams(a, before, word, after, b) && (SameText(word, "OR") || SameText(word, "AND"))
    ensures LooksLikeRawSql(Infix(a, before, word, after, b)) <==> LooksLikeRawSql(a) || LooksLikeRawSql(b)
  {
    GrammarWordIsNotSql("OR");
    GrammarWordIsNotSql("AND");
    SpelledSql(word, if |word| == 2 then "OR" else "AND");
    assert Upper(word[0]) == 'O' || Upper(word[0]) == 'A';
    InfixSql(a, before, word, after, b);
  }

  lemma NullWordsSql(words: string, negated: bool)
    requires SameText(words, NullWords(negated))
    ensures !LooksLikeRawSql(words) && Upper(words[0]) == 'I'
  {
    GrammarWordIsNotSql("IS");
    GrammarWordIsNotSql("NOT");
    GrammarWordIsNotSql("NULL");
    SymbolSql(" ");
    SqlConcat("IS", " ");
    SqlConcat("NOT", " ");
    SqlConcat("NOT" + " ", "NULL");
    SqlConcat("IS" + " ", if negated then "NOT" + " " + "NULL" else "NULL");
    assert NullWords(negated) == "IS" + " " + if negated then "NOT" + " " + "NULL" else "NULL";
    SpelledSql(words, NullWords(negated));
  }

  lemma NullTestSql(a: string, before: string, words: string, negated: bool)
    requires SameText(words, NullWords(negated)) && Blank(before) && before != []
    ensures LooksLikeRawSql((a + before) + words) <==> LooksLikeRawSql(a)
  {
    BlankSql(before);
    NullWordsSql(words, negated);
    SqlConcat(a, before);
    SqlConcat(a + before, words);
  }

  lemma NotSql(word: string, after: string, a: string)
    requires SameText(word, "NOT") && Blank(after) && after != []
    ensures LooksLikeRawSql(word + (after + a)) <==> LooksLikeRawSql(a)
  {
    BlankSql(after);
    GrammarWordIsNotSql("NOT");
    SpelledSql(word, "NOT");
    SqlConcat(after, a);
    SqlConcat(word, after + a);
  }

  /** Some atom is a SQL keyword, or a string that holds one. */
  predicate HasSqlAtom(c: Cst) {
    match c
    case Ident(name) => IsSqlWord(name)
    case Ref(_, name, _) => IsSqlWord(name)
    case Number(_) => false
    case StrLit(s) => LooksLikeRawSql(s)
    case TruthLit(_, _) => false
    case CallOf(_, _, _, name, _) => IsSqlWord(name)
    case Paren(_, inner, _) => HasSqlAtom(inner)
    case Arith(l, _, _, _, r) => HasSqlAtom(l) || HasSqlAtom(r)
    case NotOf(_, _, x) => HasSqlAtom(x)
    case NullTest(x, _, _, _) => HasSqlAtom(x)
    case Compare(l, _, _, _, r) => HasSqlAtom(l) || HasSqlAtom(r)
    case AndOf(l, _, _, _, r) => HasSqlAtom(l) || HasSqlAtom(r)
    case OrOf(l, _, _, _, r) => HasSqlAtom(l) || HasSqlAtom(r)
  }

  lemma RefSql(before: string, name: string, after: string)
    requires WellFormed(Ref(before, name, after))
    ensures LooksLikeRawSql(Text(Ref(before, name, after))) <==> IsSqlWord(name)
  {
    var padded := Padded(before, name, after);
    WordSql(name);
    PaddedSql(before, name, after);
    SymbolSql("}}");
    SymbolSql("{{");
    SqlConcat(padded, "}}");
    SqlConcat("{{", padded + "}}");
  }

  lemma TruthSql(b: Option<bool>, word: string)
    requires SameText(word, TruthWord(b))
    ensures !LooksLikeRawSql(word)
  {
    GrammarWordIsNotSql(TruthWord(b));
    SpelledSql(word, TruthWord(b));
  }

  lemma FunctionIsNotSql(f: Aggregation)
    ensures !LooksLikeRawSql(FunctionName(f)) && IsWord(FunctionName(f)[|FunctionName(f)| - 1])
  {
    var w := FunctionName(f);
    assert forall c :: c in w ==> IsWord(c);
    WordSql(w);
    assert |w| == 3 || |w| == 14 || (|w| == 5 && Upper(w[0]) == 'C');
    forall k: nat | k < |SQL_KEYWORDS| ensures !SameText(w, SQL_KEYWORDS[k]) {
      assert |SQL_KEYWORDS[k]| == 5 ==> Upper(SQL_KEYWORDS[k][0]) != 'C';
    }
  }

  lemma CallSql(f: Aggregation, word: string, before: string, name: string, after: string)
    requires WellFormed(CallOf(f, word, before, name, after))
    ensures LooksLikeRawSql(Text(CallOf(f, word, before, name, after))) <==> IsSqlWord(name)
  {
    var padded := Padded(before, name, after);
    WordSql(name);
    PaddedSql(before, name, after);
    WrappedSql("(", padded, ")");
    FunctionIsNotSql(f);
    SpelledSql(word, FunctionName(f));
    assert InParens(padded)[0] == '(';
    SqlConcat(word, InParens(padded));
  }

  lemma NumberSql(n: Written)
    ensures !LooksLikeRawSql(NumeralText(n))
  {
    NumeralChars(n);
    SymbolSql(NumeralText(n));
  }

  lemma AtomSql(c: Cst)
    requires WellFormed(c) && Level(c) == 6 && !c.Paren?
    ensures LooksLikeRawSql(Text(c)) <==> HasSqlAtom(c)
  {
    match c
    case Ident(name) => WordSql(name);
    case Ref(before, name, after) => RefSql(before, name, after);
    case Number(n) => NumberSql(n);
    case StrLit(s) => WrappedSql("'", s, "'");
    case TruthLit(b, word) => TruthSql(b, word);
    case CallOf(f, word, before, name, after) => CallSql(f, word, before, name, after);
  }

  lemma SidesSql(c: Cst)
    requires WellFormed(c) && IsInfix(c)
    ensures LooksLikeRawSql(Text(c)) <==> LooksLikeRawSql(Text(c.l)) || LooksLikeRawSql(Text(c.r))
  {
    InfixText(c);
    if c.Arith? || c.Compare? {
      OperatorSql(Text(c.l), c.before, c.op, c.after, Text(c.r));
    } else {
      ConnectiveSql(Text(c.l), c.before, c.word, c.after, Text(c.r));
    }
  }

  lemma ParenSql(before: string, s: string, after: string)
    requires Blank(before) && Blank(after)
    ensures LooksLikeRawSql(InParens(Padded(before, s, after))) <==> LooksLikeRawSql(s)
  {
    PaddedSql(before, s, after);
    WrappedSql("(", Padded(before, s, after), ")");
  }

  /** A text of the grammar is rejected as SQL if and only if one of its atoms is SQL. */
  lemma {:induction false} RawSqlExactly(c: Cst)
    requires WellFormed(c)
    ensures LooksLikeRawSql(Text(c)) <==> HasSqlAtom(c)
    decreases c
  {
    if IsInfix(c) {
      RawSqlExactly(c.l);
      RawSqlExactly(c.r);
      SidesSql(c);
    } else if c.Paren? {
      RawSqlExactly(c.inner);
      ParenSql(c.before, Text(c.inner), c.after);
    } else if c.NotOf? {
      RawSqlExactly(c.x);
      NotSql(c.word, c.after, Text(c.x));
    } else if c.NullTest? {
      RawSqlExactly(c.x);
      NullTestSql(Text(c.x), c.before, c.words, c.negated);
    } else {
      AtomSql(c);
    }
  }
}
