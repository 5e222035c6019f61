/**
 The identifiers that the metric graph is built from: the runs of letters, digits, underscores
 and hyphens of an expression, without a list of words and without numbers. A name is among them
 exactly when it is such a run somewhere in the text and is not dropped.
 */
module Identifiers {
  import opened Wrappers
  import opened Exprs
  import opened Scanner
  import opened DslParser
  import opened Numerals
  import opened Grammar
  import opened GrammarParsing
  import opened RoundTrip
  import opened RawSql
  import opened ParserTheorems
  import opened Decomposer
  import opened MetricBound
  import G = MetricGraph
  import R = Resolver
  import A = Aggregations

  // ---------------------------------------------------------------- the extractor

  predicate IsNameChar(c: char) { IsWord(c) || c == '-' }

  /** The length of the run of name characters at the start. */
  function Run(s: string): (n: nat)
    ensures n <= |s| && (forall j :: 0 <= j < n ==> IsNameChar(s[j])) && (n < |s| ==> !IsNameChar(s[n]))
  {
    if s == [] || !IsNameChar(s[0]) then 0
    else
      assert forall j :: 1 <= j < |s| ==> s[j] == s[1..][j - 1];
      1 + Run(s[1..])
  }

  function Tokens(s: string): seq<string>
    decreases |s|
  {
    if s == [] then []
    else
      var n := Run(s);
      if n == 0 then Tokens(s[1..]) else [s[..n]] + Tokens(s[n..])
  }

  const STOP_WORDS: seq<string> := [
    "sum", "avg", "count", "min", "max", "distinct", "case", "when", "then",
    "else", "end", "and", "or", "not", "null", "true", "false", "is", "in",
    "between", "like", "as", "if", "coalesce", "count_distinct"]

  predicate IsStopWord(token: string) {
    exists k :: 0 <= k < |STOP_WORDS| && SameText(token, STOP_WORDS[k])
  }

  /** The words of the list. */
  lemma StopWordsExactly(token: string)
    ensures IsStopWord(token) <==> exists w :: SameText(token, w) && w in {
              "sum", "avg", "count", "min", "max", "distinct", "case", "when", "then", "else", "end", "and", "or",
              "not", "null", "true", "false", "is", "in", "between", "like", "as", "if", "coalesce", "count_distinct"}
  {
    forall w
      ensures w in STOP_WORDS <==> w in {
              "sum", "avg", "count", "min", "max", "distinct", "case", "when", "then", "else", "end", "and", "or",
              "not", "null", "true", "false", "is", "in", "between", "like", "as", "if", "coalesce", "count_distinct"}
    {
    }
    assert IsStopWord(token) <==> exists w :: SameText(token, w) && w in STOP_WORDS;
  }

  predicate Dropped(token: string) {
    IsStopWord(token) || ParseF64(token).Some?
  }

  function Kept(tokens: seq<string>): (r: seq<string>)
    ensures forall t :: t in r <==> t in tokens && !Dropped(t)
  {
    if tokens == [] then []
    else if Dropped(tokens[0]) then Kept(tokens[1..])
    else [tokens[0]] + Kept(tokens[1..])
  }

  function Extracted(s: string): seq<string> { Kept(Tokens(s)) }

  // ---------------------------------------------------------------- tokens, wherever they are

  /** A run of name characters that cannot be extended. */
  predicate TokenAt(s: string, w: string, i: nat) {
    && w != [] && i + |w| <= |s| && s[i..i + |w|] == w && (forall c :: c in w ==> IsNameChar(c))
    && (i == 0 || !IsNameChar(s[i - 1])) && (i + |w| == |s| || !IsNameChar(s[i + |w|]))
  }

  ghost predicate HasToken(s: string, w: string) {
    exists i: nat :: TokenAt(s, w, i)
  }

  predicate NameSeam(a: string, b: string) {
    a == [] || b == [] || !IsNameChar(a[|a| - 1]) || !IsNameChar(b[0])
  }

  lemma TokenLeft(a: string, b: string, w: string)
    requires HasToken(a, w) && NameSeam(a, b)
    ensures HasToken(a + b, w)
  {
    var i: nat :| TokenAt(a, w, i);
    assert (a + b)[i..i + |w|] == w;
    if i + |w| == |a| { assert w[|w| - 1] == a[|a| - 1] && w[|w| - 1] in w; }
    assert TokenAt(a + b, w, i);
  }

  /** Only a token that begins with the dash is cut off by one at the start of the text. */
  predicate TokenSeam(a: string, b: string, w: string) {
    NameSeam(a, b) || (b[0] == '-' && w != [] && w[0] != '-')
  }

  lemma TokenAtRight(a: string, b: string, w: string, i: nat)
    requires TokenAt(b, w, i) && TokenSeam(a, b, w)
    ensures TokenAt(a + b, w, |a| + i)
  {
    var t := a + b;
    SliceRight(a, b, |a| + i, |w|);
    assert i > 0 ==> t[|a| + i - 1] == b[i - 1];
    assert i + |w| < |b| ==> t[|a| + i + |w|] == b[i + |w|];
    assert i == 0 && a != [] ==> t[|a| - 1] == a[|a| - 1] && w[0] == b[0] && w[0] in w;
  }

  lemma TokenRight(a: string, b: string, w: string)
    requires HasToken(b, w) && TokenSeam(a, b, w)
    ensures HasToken(a + b, w)
  {
    var i: nat :| TokenAt(b, w, i);
    TokenAtRight(a, b, w, i);
  }

  lemma RunIsToken(s: string)
    requires Run(s) > 0
    ensures HasToken(s, s[..Run(s)])
  {
    var w := s[..Run(s)];
    forall c | c in w ensures IsNameChar(c) { var j :| 0 <= j < Run(s) && s[j] == c; }
    assert TokenAt(s, w, 0);
  }

  lemma TokenAtStart(s: string, w: string)
    requires Run(s) > 0 && TokenAt(s, w, 0)
    ensures w == s[..Run(s)]
  {
    assert forall j :: 0 <= j < |w| ==> s[j] == w[j] && w[j] in w;
    assert |w| == Run(s);
  }

  lemma TokenAfterRun(s: string, w: string, i: nat)
    requires Run(s) > 0 && TokenAt(s, w, i) && i > 0
    ensures i > Run(s) && TokenAt(s[Run(s)..], w, i - Run(s))
  {
    var n := Run(s);
    assert s[i] == w[0] && w[0] in w;
    assert !IsNameChar(s[i - 1]) && i > n;
    assert s[n..][i - n..i - n + |w|] == w;
  }

  lemma TokenOfRest(s: string, w: string)
    requires Run(s) > 0 && HasToken(s[Run(s)..], w)
    ensures HasToken(s, w)
  {
    var a, b := s[..Run(s)], s[Run(s)..];
    assert s == a + b;
    TokenRight(a, b, w);
  }

  lemma TokenOfEither(s: string, w: string)
    requires Run(s) > 0 && HasToken(s, w)
    ensures w == s[..Run(s)] || HasToken(s[Run(s)..], w)
  {
    var i: nat :| TokenAt(s, w, i);
    if i == 0 { TokenAtStart(s, w); } else { TokenAfterRun(s, w, i); }
  }

  /** The run at the start is a token; any other token starts after it. */
  lemma FirstToken(s: string, w: string)
    requires Run(s) > 0
    ensures HasToken(s, w) <==> w == s[..Run(s)] || HasToken(s[Run(s)..], w)
  {
    RunIsToken(s);
    if HasToken(s[Run(s)..], w) { TokenOfRest(s, w); }
    if HasToken(s, w) { TokenOfEither(s, w); }
  }

  lemma TokenAfterGap(s: string, w: string, i: nat)
    requires s != [] && !IsNameChar(s[0]) && TokenAt(s, w, i)
    ensures i > 0 && TokenAt(s[1..], w, i - 1)
  {
    assert w[0] == s[i] && w[0] in w;
    assert s[1..][i - 1..i - 1 + |w|] == w;
  }

  lemma LaterToken(s: string, w: string)
    requires s != [] && Run(s) == 0
    ensures HasToken(s, w) <==> HasToken(s[1..], w)
  {
    if HasToken(s[1..], w) {
      TokenRight([s[0]], s[1..], w);
      assert [s[0]] + s[1..] == s;
    }
    if HasToken(s, w) {
      var i: nat :| TokenAt(s, w, i);
      TokenAfterGap(s, w, i);
    }
  }

  /** Splitting yields exactly the maximal runs of name characters. */
  lemma {:induction false} TokensExactly(s: string, w: string)
    ensures w in Tokens(s) <==> HasToken(s, w)
    decreases |s|
  {
    if s != [] {
      if Run(s) == 0 {
        LaterToken(s, w);
        TokensExactly(s[1..], w);
      } else {
        FirstToken(s, w);
        TokensExactly(s[Run(s)..], w);
      }
    }
  }

  // ---------------------------------------------------------------- names of grammar texts

  /** Every minus that is an operator has white space on both sides. */
  predicate Spaced(c: Cst) {
    match c
    case Paren(_, inner, _) => Spaced(inner)
    case Arith(l, before, op, after, r) => Spaced(l) && Spaced(r) && (op.Subtract? ==> before != [] && after != [])
    case NotOf(_, _, x) => Spaced(x)
    case NullTest(x, _, _, _) => Spaced(x)
    case Compare(l, _, _, _, r) => Spaced(l) && Spaced(r)
    case AndOf(l, _, _, _, r) => Spaced(l) && Spaced(r)
    case OrOf(l, _, _, _, r) => Spaced(l) && Spaced(r)
    case _ => true
  }

  predicate NoDashEnd(s: string) {
    s != [] && s[|s| - 1] != '-'
  }

  lemma WordHasNoDashEnd(w: string)
    requires w != [] && forall c :: c in w ==> IsAlpha(c) || IsDigit(c) || c == '_' || c == ' '
    ensures NoDashEnd(w) && w[0] != '-'
  {
    assert w[0] in w && w[|w| - 1] in w;
  }

  lemma AtomHasNoDashEnd(c: Cst)
    requires WellFormed(c) && Level(c) == 6
    ensures NoDashEnd(Text(c))
  {
    match c
    case Ident(name) => WordHasNoDashEnd(name);
    case Number(n) => NumeralChars(n);
    case TruthLit(b, word) =>
      SpelledIsQuiet(word, TruthWord(b), 0);
      WordHasNoDashEnd(word);
    case _ =>
  }

  lemma LaterEnd(a: string, b: string)
    requires NoDashEnd(b)
    ensures NoDashEnd(a + b)
  {
  }

  /** No text of the grammar ends in a dash. */
  lemma {:induction false} TextHasNoDashEnd(c: Cst)
    requires WellFormed(c)
    ensures NoDashEnd(Text(c))
    decreases c
  {
    if IsInfix(c) {
      TextHasNoDashEnd(c.r);
      InfixText(c);
      LaterEnd(c.after, Text(c.r));
      LaterEnd(InfixWord(c), c.after + Text(c.r));
      LaterEnd(Text(c.l) + c.before, InfixWord(c) + (c.after + Text(c.r)));
    } else if c.NotOf? {
      TextHasNoDashEnd(c.x);
      LaterEnd(c.after, Text(c.x));
      LaterEnd(c.word, c.after + Text(c.x));
    } else if c.NullTest? {
      NullWordsFacts(c.words, c.negated);
      LaterEnd(Text(c.x) + c.before, c.words);
    } else {
      AtomHasNoDashEnd(c);
    }
  }

  /** No operator runs into a name on either side. */
  predicate KeepsNames(before: string, op: string, after: string) {
    op != [] && ((op[0] != '-' && NoDashEnd(op)) || (op == "-" && before != [] && after != []))
  }

  /** A token of either side of an operator is a token of the whole. */
  lemma LeftToken(a: string, before: string, op: string, after: string, b: string, w: string)
    requires NoDashEnd(a) && Seams(a, before, op, after, b) && KeepsNames(before, op, after) && HasToken(a, w)
    ensures HasToken(Infix(a, before, op, after, b), w)
  {
    BlankIsQuiet(before);
    TokenLeft(a, before, w);
    TokenLeft(a + before, op + (after + b), w);
  }

  lemma RightToken(a: string, before: string, op: string, after: string, b: string, w: string)
    requires NoDashEnd(a) && b != [] && Seams(a, before, op, after, b) && KeepsNames(before, op, after)
    requires HasToken(b, w) && w != [] && w[0] != '-'
    ensures HasToken(Infix(a, before, op, after, b), w)
  {
    BlankIsQuiet(before);
    BlankIsQuiet(after);
    TokenRight(after, b, w);
    TokenRight(op, after + b, w);
    TokenRight(a + before, op + (after + b), w);
  }

  lemma InfixTokens(a: string, before: string, op: string, after: string, b: string, w: string)
    requires NoDashEnd(a) && b != [] && Seams(a, before, op, after, b) && KeepsNames(before, op, after)
    requires w != [] && w[0] != '-' && (HasToken(a, w) || HasToken(b, w))
    ensures HasToken(Infix(a, before, op, after, b), w)
  {
    if HasToken(a, w) { LeftToken(a, before, op, after, b, w); } else { RightToken(a, before, op, after, b, w); }
  }

  lemma NameIsToken(name: string)
    requires IsIdentifier(name)
    ensures HasToken(name, name)
  {
    assert name[0..|name|] == name;
    assert TokenAt(name, name, 0);
  }

  lemma PaddedTokens(before: string, s: string, after: string, w: string)
    requires Blank(before) && Blank(after) && HasToken(s, w)
    ensures HasToken(Padded(before, s, after), w)
  {
    BlankIsQuiet(before);
    BlankIsQuiet(after);
    TokenRight(before, s, w);
    TokenLeft(before + s, after, w);
  }

  lemma BracketTokens(open: string, s: string, close: string, w: string)
    requires open != [] && close != [] && !IsNameChar(open[|open| - 1]) && !IsNameChar(close[0]) && HasToken(s, w)
    ensures HasToken(open + (s + close), w)
  {
    TokenLeft(s, close, w);
    TokenRight(open, s + close, w);
  }

  lemma RefIsToken(before: string, name: string, after: string)
    requires WellFormed(Ref(before, name, after))
    ensures HasToken(Text(Ref(before, name, after)), name)
  {
    NameIsToken(name);
    PaddedTokens(before, name, after, name);
    BracketTokens("{{", Padded(before, name, after), "}}", name);
  }

  lemma ParenTokens(before: string, s: string, after: string, w: string)
    requires Blank(before) && Blank(after) && HasToken(s, w)
    ensures HasToken(InParens(Padded(before, s, after)), w)
  {
    PaddedTokens(before, s, after, w);
    BracketTokens("(", Padded(before, s, after), ")", w);
    assert InParens(Padded(before, s, after)) == "(" + (Padded(before, s, after) + ")");
  }

  lemma CallToken(word: string, before: string, name: string, after: string)
    requires Blank(before) && Blank(after) && IsIdentifier(name)
    ensures HasToken(word + InParens(Padded(before, name, after)), name)
  {
    NameIsToken(name);
    ParenTokens(before, name, after, name);
    TokenRight(word, InParens(Padded(before, name, after)), name);
  }

  lemma NotTokens(word: string, after: string, s: string, w: string)
    requires Blank(after) && after != [] && HasToken(s, w)
    ensures HasToken(word + (after + s), w)
  {
    BlankIsQuiet(after);
    TokenRight(after, s, w);
    TokenRight(word, after + s, w);
  }

  lemma NullTestTokens(s: string, before: string, words: string, w: string)
    requires Blank(before) && before != [] && HasToken(s, w)
    ensures HasToken((s + before) + words, w)
  {
    BlankIsQuiet(before);
    TokenLeft(s, before, w);
    TokenLeft(s + before, words, w);
  }

  lemma ConnectiveEnds(word: string)
    requires SameText(word, "AND") || SameText(word, "OR")
    ensures NoDashEnd(word) && word[0] != '-'
  {
    SpelledIsQuiet(word, if |word| == 3 then "AND" else "OR", 0);
    WordHasNoDashEnd(word);
  }

  lemma InfixKeepsNames(c: Cst)
    requires WellFormed(c) && Spaced(c) && IsInfix(c)
    ensures KeepsNames(c.before, InfixWord(c), c.after)
  {
    if c.AndOf? || c.OrOf? { ConnectiveEnds(c.word); }
  }

  lemma SideTokens(c: Cst, w: string)
    requires WellFormed(c) && Spaced(c) && IsInfix(c)
    requires IsIdentifier(w) && (HasToken(Text(c.l), w) || HasToken(Text(c.r), w))
    ensures HasToken(Text(c), w)
  {
    assert w[0] in w;
    TextHasNoDashEnd(c.l);
    TextHasNoDashEnd(c.r);
    InfixWordFacts(c);
    InfixKeepsNames(c);
    InfixText(c);
    InfixTokens(Text(c.l), c.before, InfixWord(c), c.after, Text(c.r), w);
  }

  lemma AtomNames(c: Cst, name: string)
    requires WellFormed(c) && Level(c) == 6 && !c.Paren? && name in Names(Denotes(c))
    ensures HasToken(Text(c), name)
  {
    match c
    case Ident(n) => NameIsToken(n);
    case Ref(before, n, after) => RefIsToken(before, n, after);
    case CallOf(_, word, before, n, after) =>
      assert name == n;
      CallToken(word, before, n, after);
    case _ =>
  }

  lemma {:induction false} NamesAreIdentifiers(c: Cst, name: string)
    requires WellFormed(c) && name in Names(Denotes(c))
    ensures IsIdentifier(name)
    decreases c
  {
    if IsInfix(c) {
      NamesAreIdentifiers(if name in Names(Denotes(c.l)) then c.l else c.r, name);
    } else if c.Paren? {
      NamesAreIdentifiers(c.inner, name);
    } else if c.NotOf? || c.NullTest? {
      NamesAreIdentifiers(c.x, name);
    }
  }

  /** Every name of the expression that a text denotes is one of its tokens. */
  lemma {:induction false} NamesAreTokens(c: Cst, name: string)
    requires WellFormed(c) && Spaced(c) && name in Names(Denotes(c))
    ensures HasToken(Text(c), name)
    decreases c
  {
    NamesAreIdentifiers(c, name);
    if IsInfix(c) {
      NamesAreTokens(if name in Names(Denotes(c.l)) then c.l else c.r, name);
      SideTokens(c, name);
    } else if c.Paren? {
      NamesAreTokens(c.inner, name);
      ParenTokens(c.before, Text(c.inner), c.after, name);
    } else if c.NotOf? {
      NamesAreTokens(c.x, name);
      NotTokens(c.word, c.after, Text(c.x), name);
    } else if c.NullTest? {
      NamesAreTokens(c.x, name);
      NullTestTokens(Text(c.x), c.before, c.words, name);
    } else {
      AtomNames(c, name);
    }
  }

  // ---------------------------------------------------------------- from sources to plans

  /** A name is among the identifiers of a text if and only if it is a token and not dropped; of
      the identifiers, the words of the list and of the floats are dropped. */
  lemma ExtractedExactly(s: string, name: string)
    ensures name in Extracted(s) <==> HasToken(s, name) && !Dropped(name)
    ensures IsIdentifier(name) ==> (Dropped(name) <==> IsStopWord(name) || FloatWord(name))
  {
    TokensExactly(s, name);
    if IsIdentifier(name) { IdentifierNumbers(name); }
  }

  /** Metric m is what the parser reads in a source, and the graph has its identifiers. */
  ghost predicate MetricReadFrom(iface: Interface, g: G.Graph, m: string, source: string) {
    && m in iface.metrics && ParseExpr(source) == Ok(iface.metrics[m])
    && m in G.MetricNames(g) && G.Find(g, m).deps == Extracted(source)
  }

  /** The metrics and the graph come from these sources. */
  ghost predicate ReadFrom(iface: Interface, g: G.Graph, sources: map<string, string>) {
    iface.metrics.Keys == sources.Keys && forall m :: m in sources ==> MetricReadFrom(iface, g, m, sources[m])
  }

  /** The nested reference is to another metric, a token of the source, and not dropped. */
  ghost predicate Survives(sources: map<string, string>, m: string, r: string) {
    r != m && m in sources && HasToken(sources[m], r) && !Dropped(r)
  }

  /** For all sources, in the grammar or not: the graph knows every reference that the planner
      follows if and only if each is to another metric, a token of its source and not dropped. */
  lemma CompiledInterfaceExactly(iface: Interface, g: G.Graph, sources: map<string, string>)
    requires ReadFrom(iface, g, sources)
    ensures CompiledInterface(iface, g) <==> forall m, r :: Nests(iface, m, r) ==> Survives(sources, m, r)
  {
    assert forall m :: m in iface.metrics ==> MetricReadFrom(iface, g, m, sources[m]);
    forall m, r | Nests(iface, m, r) ensures (r != m && r in G.Find(g, m).deps) <==> Survives(sources, m, r) {
      ExtractedExactly(sources[m], r);
    }
  }

  lemma {:induction false} WalkedAreNames(iface: Interface, e: Expr)
    ensures Walked(iface, e) <= Names(e)
    decreases e, 1
  {
    if e.Binary? {
      WalkedAreNames(iface, e.left);
      WalkedAreNames(iface, e.right);
    } else if e.Case? {
      WalkedAreNamesOfWhens(iface, e.whens);
      if e.els.Some? { WalkedAreNames(iface, e.els.value); }
    }
  }

  lemma {:induction false} WalkedAreNamesOfWhen(iface: Interface, w: WhenClause)
    ensures WalkedWhen(iface, w) <= NamesWhen(w)
    decreases w, 0
  {
    WalkedAreNames(iface, w.condition);
    WalkedAreNames(iface, w.result);
  }

  lemma {:induction false} WalkedAreNamesOfWhens(iface: Interface, ws: seq<WhenClause>)
    ensures WalkedWhens(iface, ws) <= NamesWhens(ws)
    decreases ws, 0
  {
    if ws != [] {
      WalkedAreNamesOfWhen(iface, ws[0]);
      WalkedAreNamesOfWhens(iface, ws[1..]);
    }
  }

  /** The sources are texts of the grammar that are read as meant, minus signs between white
      space. */
  ghost predicate SpacedSources(iface: Interface, sources: map<string, string>, cs: map<string, Cst>) {
    && iface.metrics.Keys == sources.Keys == cs.Keys
    && forall m :: m in cs ==>
         WellFormed(cs[m]) && Spaced(cs[m]) && sources[m] == Text(cs[m]) && iface.metrics[m] == Denotes(cs[m])
  }

  /** For such sources only the names themselves matter. */
  lemma SpacedNamesSurvive(iface: Interface, sources: map<string, string>, cs: map<string, Cst>, m: string, r: string)
    requires SpacedSources(iface, sources, cs) && Nests(iface, m, r)
    ensures Survives(sources, m, r) <==> r != m && !IsStopWord(r) && !FloatWord(r)
  {
    WalkedAreNames(iface, iface.metrics[m]);
    NamesAreTokens(cs[m], r);
    NamesAreIdentifiers(cs[m], r);
    ExtractedExactly(sources[m], r);
  }

  // ---------------------------------------------------------------- what the graph does not see

  lemma NameTokens(w: string)
    requires w != [] && forall c :: c in w ==> IsNameChar(c)
    ensures Extracted(w) == if Dropped(w) then [] else [w]
  {
    assert forall j :: 0 <= j < |w| ==> w[j] in w;
    assert Run(w) == |w| && w[..|w|] == w && w[|w|..] == [];
    assert Tokens(w) == [w] + Tokens([]) == [w];
    KeptOne(w);
  }

  lemma KeptOne(w: string)
    ensures Kept([w]) == if Dropped(w) then [] else [w]
  {
    var ts := [w];
    assert ts[1..] == [] && Kept(ts[1..]) == [];
  }

  /** Names that can stand in a source. */
  predicate IsSource(name: string) {
    WellFormed(Ident(name)) && !IsSqlWord(name)
  }

  /** One that the metric graph does not see. */
  lemma CountIsDropped()
    ensures IsSource("count") && Dropped("count")
  {
    assert STOP_WORDS[2] == "count" && SameText("count", STOP_WORDS[2]);
    assert Upper("count"[0]) == 'C';
  }

  lemma NameIsRead(iface: Interface, g: G.Graph, m: string, name: string)
    requires IsSource(name) && m in iface.metrics && iface.metrics[m] == EntityRef(name)
    requires m in G.MetricNames(g) && G.Find(g, m).deps == Extracted(name)
    ensures MetricReadFrom(iface, g, m, name)
  {
    RawSqlExactly(Ident(name));
    BareExprOnGrammar(Ident(name));
  }

  /** Metric a is b and metric b is a. */
  function EachOther(a: string, b: string): Interface {
    Interface(map[], map[a := EntityRef(b), b := EntityRef(a)])
  }

  /** What the compiler sees of them. */
  function EachOtherGraph(a: string, b: string): G.Graph {
    G.Graph([G.MetricDef(a, Extracted(b)), G.MetricDef(b, Extracted(a))], {})
  }

  lemma EachOtherFound(a: string, b: string)
    requires a != b
    ensures var g := EachOtherGraph(a, b);
      && a in G.MetricNames(g) && b in G.MetricNames(g)
      && G.Find(g, a).deps == Extracted(b) && G.Find(g, b).deps == Extracted(a)
  {
    G.FindUnique(EachOtherGraph(a, b), 0);
    G.FindUnique(EachOtherGraph(a, b), 1);
  }

  lemma EachOtherIsRead(a: string, b: string)
    requires IsSource(a) && IsSource(b) && a != b
    ensures ReadFrom(EachOther(a, b), EachOtherGraph(a, b), map[a := b, b := a])
  {
    EachOtherFound(a, b);
    NameIsRead(EachOther(a, b), EachOtherGraph(a, b), a, b);
    NameIsRead(EachOther(a, b), EachOtherGraph(a, b), b, a);
  }

  lemma EachOtherCircles(a: string, b: string)
    requires a != b
    ensures Circles(EachOther(a, b), EntityRef(b))
  {
    var iface, names := EachOther(a, b), [b, a, b];
    assert Nests(iface, b, a) && Nests(iface, a, b);
    assert names[0] == names[2] && Nesting(iface, Walked(iface, EntityRef(b)), names);
  }

  /** At most one of two metrics refers to the other. */
  ghost predicate OneStep(g: G.Graph, a: string, b: string, da: seq<string>, db: seq<string>) {
    && a != b && g == G.Graph([G.MetricDef(a, da), G.MetricDef(b, db)], {})
    && (da == [] || da == [b]) && (db == [] || db == [a]) && (da == [] || db == [])
  }

  lemma OneStepEdges(g: G.Graph, a: string, b: string, da: seq<string>, db: seq<string>, x: string, y: string)
    requires OneStep(g, a, b, da, db) && G.Edge(g, x, y)
    ensures if da == [b] then x == a && y == b else x == b && y == a
  {
    assert G.Find(g, x) in g.metrics;
  }

  lemma OneStepIsAcyclic(g: G.Graph, a: string, b: string, da: seq<string>, db: seq<string>)
    requires OneStep(g, a, b, da, db)
    ensures G.Valid(g) && !G.Cyclic(g)
  {
    forall p | |p| >= 2 && G.Path(g, p) ensures p[0] != p[|p| - 1] {
      var n := |p| - 1;
      assert G.Edge(g, p[0], p[1]) && G.Edge(g, p[n - 1], p[n]);
      OneStepEdges(g, a, b, da, db, p[0], p[1]);
      OneStepEdges(g, a, b, da, db, p[n - 1], p[n]);
    }
  }

  lemma SingleDepDepth(depths: G.Depths, deps: seq<string>, self: string, d: string)
    requires deps == [] || deps == [d]
    ensures G.MaxDepDepth(depths, deps, self) <= if d in depths then depths[d] else 0
  {
    assert deps != [] ==> deps[1..] == [];
  }

  lemma OneStepIsShallow(g: G.Graph, a: string, b: string, da: seq<string>, db: seq<string>, depths: G.Depths)
    requires OneStep(g, a, b, da, db) && G.Solution(g, depths)
    ensures forall n :: n in G.Nodes(g) ==> depths[n] <= 1
  {
    OneStepIsAcyclic(g, a, b, da, db);
    G.FindUnique(g, 0);
    G.FindUnique(g, 1);
    SingleDepDepth(depths, da, a, b);
    SingleDepDepth(depths, db, b, a);
  }

  /** When the extractor drops one of the two names. */
  lemma EachOtherIsAccepted(a: string, b: string)
    requires IsSource(a) && IsSource(b) && a != b && (Dropped(a) || Dropped(b))
    ensures IsAccepted(EachOtherGraph(a, b))
  {
    var g := EachOtherGraph(a, b);
    NameTokens(a);
    NameTokens(b);
    OneStepIsAcyclic(g, a, b, Extracted(b), Extracted(a));
    G.DepthIsSolution(g);
    OneStepIsShallow(g, a, b, Extracted(b), Extracted(a), G.Depth(g));
  }

  lemma EachOtherIsCyclic(a: string, b: string)
    requires IsSource(a) && IsSource(b) && a != b && !Dropped(a) && !Dropped(b)
    ensures G.Valid(EachOtherGraph(a, b)) && G.Cyclic(EachOtherGraph(a, b))
  {
    var g, p := EachOtherGraph(a, b), [a, b, a];
    NameTokens(a);
    NameTokens(b);
    G.FindUnique(g, 0);
    G.FindUnique(g, 1);
    assert G.Edge(g, a, b) && G.Edge(g, b, a);
    assert G.Path(g, p) && p[0] == p[2];
  }

  /** The compiler raises no error on the graph. */
  ghost predicate IsAccepted(g: G.Graph) {
    G.Valid(g) && !G.Cyclic(g) && forall n :: n in G.Nodes(g) ==> G.Depth(g)[n] <= 3
  }

  /** No cap is enough for references that circle. */
  method PlanCircle(iface: Interface, physical: R.Physical, metric: Expr, maxDepth: nat)
    returns (r: Result<A.DecomposedMeasure, PlannerError>)
    requires Circles(iface, metric)
    ensures r.Err?
  {
    NeverInlinedExactly(iface, physical, metric);
    InlinedExactly(iface, physical, metric, maxDepth);
    ghost var order;
    r, order := DecomposeMetric(iface, physical, metric, maxDepth);
  }

  /** Two metrics that are each other: the planner fails on them whatever its cap, and the compiler
      accepts them if and only if the extractor drops one of the names, such as `count`. */
  method PlanHiddenCycle(a: string, b: string, physical: R.Physical, maxDepth: nat)
    returns (compiled: Result<G.Depths, G.CompileError>, r: Result<A.DecomposedMeasure, PlannerError>)
    requires IsSource(a) && IsSource(b) && a != b
    ensures ReadFrom(EachOther(a, b), EachOtherGraph(a, b), map[a := b, b := a])
    ensures compiled.Ok? <==> Dropped(a) || Dropped(b)
    ensures r.Err?
  {
    EachOtherIsRead(a, b);
    if Dropped(a) || Dropped(b) {
      EachOtherIsAccepted(a, b);
      compiled := G.BuildMetricGraph(EachOtherGraph(a, b), false);
    } else {
      EachOtherIsCyclic(a, b);
      compiled := G.BuildMetricGraph(EachOtherGraph(a, b), true);
    }
    EachOtherCircles(a, b);
    r := PlanCircle(EachOther(a, b), physical, EntityRef(b), maxDepth);
  }

  // ---------------------------------------------------------------- metrics that name themselves

  /** A metric whose expression is its own name circles, unless a measure has that name. */
  lemma SelfNamedCircles(iface: Interface, m: string)
    requires m in iface.metrics && IsLeaf(iface.metrics[m]) && iface.metrics[m].name == m && m !in iface.measures
    ensures Circles(iface, iface.metrics[m])
  {
    assert Nests(iface, m, m);
    assert [m, m][0] == [m, m][1] && Nesting(iface, Walked(iface, iface.metrics[m]), [m, m]);
  }

  lemma SelfNamedIsAccepted(g: G.Graph, m: string, deps: seq<string>)
    requires g == G.Graph([G.MetricDef(m, deps)], {}) && (deps == [] || deps == [m])
    ensures IsAccepted(g)
  {
    assert G.Nodes(g) == {m};
    forall p | |p| >= 2 && G.Path(g, p) ensures p[0] != p[|p| - 1] {
      assert G.Edge(g, p[0], p[1]);
    }
    G.DepthIsSolution(g);
    G.FindUnique(g, 0);
    assert deps != [] ==> deps[1..] == [];
    assert G.MaxDepDepth(G.Depth(g), deps, m) == 0;
  }

  function PassThrough(name: string): Interface {
    Interface(map[], map[name := EntityRef(name)])
  }

  function PassThroughGraph(name: string): G.Graph {
    G.Graph([G.MetricDef(name, Extracted(name))], {})
  }

  lemma PassThroughIsRead(name: string)
    requires IsSource(name)
    ensures ReadFrom(PassThrough(name), PassThroughGraph(name), map[name := name])
  {
    G.FindUnique(PassThroughGraph(name), 0);
    NameIsRead(PassThrough(name), PassThroughGraph(name), name, name);
  }

  /** A metric that wraps the column of its own name is accepted by the compiler, and the planner
      fails on it whatever its cap. */
  method PlanPassThrough(name: string, physical: R.Physical, maxDepth: nat)
    returns (compiled: Result<G.Depths, G.CompileError>, r: Result<A.DecomposedMeasure, PlannerError>)
    requires IsSource(name)
    ensures ReadFrom(PassThrough(name), PassThroughGraph(name), map[name := name])
    ensures compiled.Ok? && r.Err?
  {
    PassThroughIsRead(name);
    NameTokens(name);
    SelfNamedIsAccepted(PassThroughGraph(name), name, Extracted(name));
    SelfNamedCircles(PassThrough(name), name);
    compiled := G.BuildMetricGraph(PassThroughGraph(name), false);
    r := PlanCircle(PassThrough(name), physical, EntityRef(name), maxDepth);
  }

  // ---------------------------------------------------------------- minus signs next to names

  lemma RunOf(w: string, rest: string)
    requires (forall c :: c in w ==> IsNameChar(c)) && (rest == [] || !IsNameChar(rest[0]))
    ensures Run(w + rest) == |w| && (w + rest)[|w|..] == rest && (w + rest)[..|w|] == w
  {
    assert forall j :: 0 <= j < |w| ==> (w + rest)[j] == w[j] && w[j] in w;
    assert rest != [] ==> (w + rest)[|w|] == rest[0];
  }

  /** All the tokens of a difference with the minus sign next to its right operand. */
  lemma GluedTokens(a: string, b: string, w: string)
    requires IsIdentifier(a) && IsIdentifier(b)
    ensures HasToken(a + (" " + ("-" + b)), w) <==> w == a || w == "-" + b
  {
    var glued := "-" + b;
    RunOf(a, " " + glued);
    FirstToken(a + (" " + glued), w);
    assert (" " + glued)[1..] == glued;
    LaterToken(" " + glued, w);
    RunOf(glued, []);
    assert glued + [] == glued;
    FirstToken(glued, w);
  }

  /** In `a -b` the name b is glued to the minus sign: read as a name, but not extracted. */
  lemma GluedMinus(a: string, b: string)
    requires WellFormed(Ident(a)) && WellFormed(Ident(b)) && a != b
    ensures var c := Arith(Ident(a), " ", Subtract, "", Ident(b));
            WellFormed(c) && b in Names(Denotes(c)) && b !in Extracted(Text(c))
  {
    var t := Text(Arith(Ident(a), " ", Subtract, "", Ident(b)));
    assert t == a + (" " + ("-" + b));
    GluedTokens(a, b, b);
    TokensExactly(t, b);
  }
}
