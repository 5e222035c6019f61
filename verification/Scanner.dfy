/**
 Scanning of inline expressions: which characters are at the top level of the text, outside
 parentheses and quotes, and where its last top-level operator is. Text is a sequence of
 ASCII characters.
 */
module Scanner {
  import opened Wrappers
  import opened Exprs

  // ---------------------------------------------------------------- characters

  predicate IsDigit(c: char) { '0' <= c <= '9' }

  predicate IsAlpha(c: char) { 'a' <= c <= 'z' || 'A' <= c <= 'Z' }

  predicate IsWord(c: char) { IsAlpha(c) || IsDigit(c) || c == '_' }

  predicate IsSpace(c: char) { c == ' ' || c == '\t' || c == '\n' || c == '\r' || c as int == 11 || c as int == 12 }

  /** The classes of characters, by their codes. */
  lemma CharactersExactly(c: char)
    ensures IsDigit(c) <==> 48 <= c as int <= 57
    ensures IsAlpha(c) <==> 65 <= c as int <= 90 || 97 <= c as int <= 122
    ensures IsWord(c) <==> IsAlpha(c) || IsDigit(c) || c as int == 95
    ensures IsSpace(c) <==> 9 <= c as int <= 13 || c as int == 32
    ensures Upper(c) as int == if 97 <= c as int <= 122 then c as int - 32 else c as int
  {
  }

  /** Quotes and parentheses. */
  predicate IsNesting(c: char) { c == '\'' || c == '(' || c == ')' }

  function Upper(c: char): char {
    if 'a' <= c <= 'z' then (c as int - 32) as char else c
  }

  predicate SameText(a: string, b: string) {
    |a| == |b| && forall i :: 0 <= i < |a| ==> Upper(a[i]) == Upper(b[i])
  }

  predicate StartsWith(s: string, p: string) {
    |p| <= |s| && SameText(s[..|p|], p)
  }

  predicate EndsWith(s: string, p: string) {
    |p| <= |s| && SameText(s[|s| - |p|..], p)
  }

  function TrimStart(s: string): (r: string)
    ensures |r| <= |s|
  {
    if s != [] && IsSpace(s[0]) then TrimStart(s[1..]) else s
  }

  function TrimEnd(s: string): (r: string)
    ensures |r| <= |s|
  {
    if s != [] && IsSpace(s[|s| - 1]) then TrimEnd(s[..|s| - 1]) else s
  }

  function Trim(s: string): (r: string)
    ensures |r| <= |s|
  {
    TrimEnd(TrimStart(s))
  }

  // ---------------------------------------------------------------- scan state

  datatype ScanState = ScanState(parenDepth: int, inString: bool) {
    predicate AtTopLevel() { parenDepth == 0 && !inString }
  }

  const INITIAL := ScanState(0, false)

  /** The next state, and whether the character was consumed by quoting or nesting. */
  function Update(st: ScanState, c: char): (ScanState, bool) {
    if c == '\'' then (st.(inString := !st.inString), true)
    else if st.inString then (st, true)
    else if c == '(' then (st.(parenDepth := st.parenDepth + 1), true)
    else if c == ')' then (st.(parenDepth := st.parenDepth - 1), true)
    else (st, false)
  }

  /** The state after the first i characters, from a given state. */
  function StateFrom(st: ScanState, s: string, i: nat): ScanState
    requires i <= |s|
  {
    if i == 0 then st else Update(StateFrom(st, s, i - 1), s[i - 1]).0
  }

  function StateAt(s: string, i: nat): ScanState
    requires i <= |s|
  {
    StateFrom(INITIAL, s, i)
  }

  /** Character i takes part in operators: it is neither nested, quoted, nor itself nesting. */
  predicate TopAt(s: string, i: nat) {
    i < |s| && StateAt(s, i).AtTopLevel() && !IsNesting(s[i])
  }

  // ---------------------------------------------------------------- hits

  predicate Boundary(s: string, pos: nat) {
    pos >= |s| || !IsWord(s[pos])
  }

  /** A whole-word, case-insensitive, top-level occurrence of a keyword. */
  predicate KeywordAt(s: string, keyword: string, i: nat) {
    && TopAt(s, i)
    && i + |keyword| <= |s|
    && SameText(s[i..i + |keyword|], keyword)
    && (i == 0 || Boundary(s, i - 1))
    && Boundary(s, i + |keyword|)
  }

  predicate NextIsEq(s: string, i: nat) {
    i + 1 < |s| && s[i + 1] == '='
  }

  /** The comparison operator that starts at i, with its length. */
  function ComparisonAt(s: string, i: nat): (r: Option<(nat, BinaryOp)>)
    ensures r.Some? ==> i < |s| && 1 <= r.value.0 <= 2 && i + r.value.0 <= |s| && IsComparison(r.value.1)
  {
    if !TopAt(s, i) then None
    else if s[i] == '!' then if NextIsEq(s, i) then Some((2, NotEq)) else None
    else if s[i] == '<' then if NextIsEq(s, i) then Some((2, LtEq)) else Some((1, Lt))
    else if s[i] == '>' then if NextIsEq(s, i) then Some((2, GtEq)) else Some((1, Gt))
    else if s[i] == '=' then
      if i == 0 || (s[i - 1] != '!' && s[i - 1] != '<' && s[i - 1] != '>') then Some((1, Eq)) else None
    else None
  }

  predicate SpaceAround(s: string, i: nat) {
    (0 < i <= |s| && s[i - 1] == ' ') || (i + 1 < |s| && s[i + 1] == ' ')
  }

  predicate AddSubAt(s: string, i: nat) {
    TopAt(s, i) && i > 0 && (s[i] == '+' || s[i] == '-') && SpaceAround(s, i)
  }

  predicate MulDivAt(s: string, i: nat) {
    TopAt(s, i) && i > 0 && (s[i] == '*' || s[i] == '/')
  }

  /** The greatest position below n where `hit` holds. */
  function LastWhere(n: nat, hit: nat -> bool): (r: Option<nat>)
    ensures r.Some? ==> r.value < n && hit(r.value) && forall j: nat :: r.value < j < n ==> !hit(j)
    ensures r.None? ==> forall j: nat :: j < n ==> !hit(j)
  {
    if n == 0 then None else if hit(n - 1) then Some(n - 1) else LastWhere(n - 1, hit)
  }

  function KeywordHits(s: string, keyword: string): nat -> bool { (i: nat) => KeywordAt(s, keyword, i) }

  function ComparisonHits(s: string): nat -> bool { (i: nat) => ComparisonAt(s, i).Some? }

  function AddSubHits(s: string): nat -> bool { (i: nat) => AddSubAt(s, i) }

  function MulDivHits(s: string): nat -> bool { (i: nat) => MulDivAt(s, i) }

  function LastKeyword(s: string, keyword: string): Option<nat> { LastWhere(|s|, KeywordHits(s, keyword)) }

  function LastComparison(s: string): Option<nat> { LastWhere(|s|, ComparisonHits(s)) }

  function LastAddSub(s: string): Option<nat> { LastWhere(|s|, AddSubHits(s)) }

  function LastMulDiv(s: string): Option<nat> { LastWhere(|s|, MulDivHits(s)) }

  // ---------------------------------------------------------------- the scanning loops

  /** What the running state tells about character i. */
  lemma ScanStep(s: string, i: nat)
    requires i < |s|
    ensures var (next, consumed) := Update(StateAt(s, i), s[i]);
            StateAt(s, i + 1) == next && (TopAt(s, i) <==> !consumed && next.AtTopLevel())
  {
  }

  /** What one more position does to the last hit. */
  lemma LastWhereStep(n: nat, hit: nat -> bool)
    ensures LastWhere(n + 1, hit) == if hit(n) then Some(n) else LastWhere(n, hit)
  {
  }

  /** One left-to-right pass with a running state finds the last top-level keyword. */
  method FindLastKeyword(s: string, keyword: string) returns (lastPos: Option<nat>)
    ensures lastPos == LastKeyword(s, keyword)
  {
    var state := INITIAL;
    lastPos := None;
    var i := 0;
    while i < |s|
      invariant i <= |s| && state == StateAt(s, i)
      invariant lastPos == LastWhere(i, KeywordHits(s, keyword))
    {
      ScanStep(s, i);
      LastWhereStep(i, KeywordHits(s, keyword));
      var (next, consumed) := Update(state, s[i]);
      state := next;
      if consumed || !state.AtTopLevel() {
        i := i + 1;
        continue;
      }
      if i + |keyword| <= |s| && SameText(s[i..i + |keyword|], keyword)
         && (i == 0 || Boundary(s, i - 1)) && Boundary(s, i + |keyword|) {
        lastPos := Some(i);
      }
      i := i + 1;
    }
  }

  /** Two-character operators are skipped as a whole; the pass still finds the last operator. */
  method FindLastComparison(s: string) returns (lastCmp: Option<(nat, (nat, BinaryOp))>)
    ensures lastCmp.None? <==> LastComparison(s).None?
    ensures lastCmp.Some? ==>
      LastComparison(s) == Some(lastCmp.value.0) && ComparisonAt(s, lastCmp.value.0) == Some(lastCmp.value.1)
  {
    var state := INITIAL;
    lastCmp := None;
    var i := 0;
    while i < |s|
      invariant i <= |s| && state == StateAt(s, i)
      invariant lastCmp.None? <==> LastWhere(i, ComparisonHits(s)).None?
      invariant lastCmp.Some? ==>
        && LastWhere(i, ComparisonHits(s)) == Some(lastCmp.value.0)
        && ComparisonAt(s, lastCmp.value.0) == Some(lastCmp.value.1)
    {
      ScanStep(s, i);
      LastWhereStep(i, ComparisonHits(s));
      var (next, consumed) := Update(state, s[i]);
      state := next;
      if consumed || !state.AtTopLevel() {
        i := i + 1;
        continue;
      }
      var op := if s[i] == '!' then NotEq else if s[i] == '<' then LtEq else GtEq;
      if (s[i] == '!' || s[i] == '<' || s[i] == '>') && i + 1 < |s| && s[i + 1] == '=' {
        lastCmp := Some((i, (2, op)));
        ScanStep(s, i + 1);
        LastWhereStep(i + 1, ComparisonHits(s));
        i := i + 2;
        continue;
      }
      if s[i] == '=' {
        if i == 0 || (s[i - 1] != '!' && s[i - 1] != '<' && s[i - 1] != '>') {
          lastCmp := Some((i, (1, Eq)));
        }
      } else if s[i] == '<' {
        lastCmp := Some((i, (1, Lt)));
      } else if s[i] == '>' {
        lastCmp := Some((i, (1, Gt)));
      }
      i := i + 1;
    }
  }

  /** The last additive operator set off by a space, and the last multiplicative one. */
  method FindLastArithmetic(s: string) returns (lastAddSub: Option<nat>, lastMulDiv: Option<nat>)
    ensures lastAddSub == LastAddSub(s) && lastMulDiv == LastMulDiv(s)
  {
    var state := INITIAL;
    lastAddSub, lastMulDiv := None, None;
    for i := 0 to |s|
      invariant state == StateAt(s, i)
      invariant lastAddSub == LastWhere(i, AddSubHits(s))
      invariant lastMulDiv == LastWhere(i, MulDivHits(s))
    {
      var (next, consumed) := Update(state, s[i]);
      state := next;
      if consumed || !state.AtTopLevel() {
        continue;
      }
      if (s[i] == '+' || s[i] == '-') && i > 0 {
        if SpaceAround(s, i) { lastAddSub := Some(i); }
      } else if (s[i] == '*' || s[i] == '/') && i > 0 {
        lastMulDiv := Some(i);
      }
    }
  }

  // ---------------------------------------------------------------- parentheses only

  /** Opening minus closing parentheses among the first i characters, quotes ignored. */
  function RawDepth(s: string, i: nat): int
    requires i <= |s|
  {
    if i == 0 then 0
    else RawDepth(s, i - 1) + if s[i - 1] == '(' then 1 else if s[i - 1] == ')' then -1 else 0
  }

  predicate RawBalanced(s: string) {
    RawDepth(s, |s|) == 0 && forall i :: 0 <= i <= |s| ==> RawDepth(s, i) >= 0
  }

  method CheckBalanced(s: string) returns (r: bool)
    ensures r == RawBalanced(s)
  {
    var depth := 0;
    var balanced := true;
    for i := 0 to |s|
      invariant balanced && depth == RawDepth(s, i) && forall k :: 0 <= k <= i ==> RawDepth(s, k) >= 0
    {
      if s[i] == '(' {
        depth := depth + 1;
      } else if s[i] == ')' {
        depth := depth - 1;
        if depth < 0 {
          assert RawDepth(s, i + 1) == depth;
          balanced := false;
          return false;
        }
      }
    }
    r := balanced && depth == 0;
  }

  // ---------------------------------------------------------------- splitting

  /** Quotes are closed and parentheses balanced. */
  predicate Closed(s: string) {
    StateAt(s, |s|) == INITIAL && forall i :: 0 <= i <= |s| ==> StateAt(s, i).parenDepth >= 0
  }

  lemma {:induction false} StateConcat(st: ScanState, a: string, b: string, i: nat)
    requires i <= |a| + |b|
    ensures StateFrom(st, a + b, i) ==
            if i <= |a| then StateFrom(st, a, i) else StateFrom(StateFrom(st, a, |a|), b, i - |a|)
    decreases i
  {
    if i > 0 { StateConcat(st, a, b, i - 1); }
  }

  lemma {:induction false} StateShift(d: int, s: string, i: nat)
    requires i <= |s|
    ensures StateFrom(ScanState(d, false), s, i) == ScanState(StateAt(s, i).parenDepth + d, StateAt(s, i).inString)
    decreases i
  {
    if i > 0 { StateShift(d, s, i - 1); }
  }

  /** Wherever closed text is split at a top-level operator, both halves are closed again. */
  lemma SplitIsClosed(s: string, i: nat, len: nat)
    requires Closed(s) && len > 0 && i + len <= |s| && TopAt(s, i)
    requires forall k :: i <= k < i + len ==> !IsNesting(s[k])
    ensures Closed(s[..i]) && Closed(s[i + len..])
  {
    var a, b := s[..i], s[i..];
    assert s == a + b;
    forall k | 0 <= k <= i ensures StateAt(a, k) == StateAt(s, k) { StateConcat(INITIAL, a, b, k); }
    var op, c := s[i..i + len], s[i + len..];
    assert s == (a + op) + c;
    forall k | i <= k <= i + len ensures StateAt(s, k) == INITIAL { PlainRun(s, i, k); }
    StateConcat(INITIAL, a + op, c, |a + op|);
    assert StateFrom(INITIAL, a + op, |a + op|) == StateAt(s, i + len);
    forall k | 0 <= k <= |c| ensures StateAt(c, k) == StateAt(s, i + len + k) {
      StateConcat(INITIAL, a + op, c, i + len + k);
    }
  }

  /** Between nesting characters the state does not change. */
  lemma {:induction false} PlainRun(s: string, i: nat, k: nat)
    requires i <= k <= |s| && StateAt(s, i) == INITIAL && forall j :: i <= j < k ==> !IsNesting(s[j])
    ensures StateAt(s, k) == INITIAL
    decreases k
  {
    if k > i { PlainRun(s, i, k - 1); }
  }

  /** The same for a keyword: both sides of the last top-level OR or AND are closed. */
  lemma KeywordSplitIsClosed(s: string, keyword: string)
    requires Closed(s) && keyword != [] && forall c :: c in keyword ==> IsAlpha(c)
    requires LastKeyword(s, keyword).Some?
    ensures var k := LastKeyword(s, keyword).value;
            k + |keyword| <= |s| && Closed(s[..k]) && Closed(s[k + |keyword|..])
  {
    var k := LastKeyword(s, keyword).value;
    assert KeywordAt(s, keyword, k);
    var word := s[k..k + |keyword|];
    forall j | k <= j < k + |keyword| ensures !IsNesting(s[j]) {
      assert s[j] == word[j - k] && Upper(word[j - k]) == Upper(keyword[j - k]) && keyword[j - k] in keyword;
    }
    SplitIsClosed(s, k, |keyword|);
  }

  lemma ComparisonSplitIsClosed(s: string)
    requires Closed(s) && LastComparison(s).Some?
    ensures var k := LastComparison(s).value;
            ComparisonAt(s, k).Some? && Closed(s[..k]) && Closed(s[k + ComparisonAt(s, k).value.0..])
  {
    var k := LastComparison(s).value;
    SplitIsClosed(s, k, ComparisonAt(s, k).value.0);
  }

  lemma ArithmeticSplitIsClosed(s: string, k: nat)
    requires Closed(s) && (LastAddSub(s) == Some(k) || LastMulDiv(s) == Some(k))
    ensures k < |s| && Closed(s[..k]) && Closed(s[k + 1..])
  {
    assert AddSubAt(s, k) || MulDivAt(s, k);
    SplitIsClosed(s, k, 1);
  }
}
