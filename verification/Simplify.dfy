/**
 Compile-time folding of expressions: known columns become string literals, then literal
 comparisons, IN lists, NOT, AND, OR and CASE are folded bottom-up.
 */
module Simplify {
  import opened Wrappers
  import opened Exprs

  // ---------------------------------------------------------------- substitution

  /** A column with a known value becomes that value, as a string literal. */
  function SubstituteNode(known: map<string, string>): Expr -> Option<Expr> {
    (e: Expr) => if e.Column? && e.name in known then Some(Lit(Str(known[e.name]))) else None
  }

  function Substitute(e: Expr, known: map<string, string>): Expr {
    Transform(e, SubstituteNode(known))
  }

  // ---------------------------------------------------------------- one node

  /** Literal equality of the host language: structural, except that NaN differs from itself. */
  predicate LiteralsEqual(l: Literal, r: Literal) {
    l == r && l != Float(NaN)
  }

  predicate ContainsLiteral(es: seq<Expr>, needle: Literal)
    requires forall e :: e in es ==> e.Lit?
  {
    es != [] && (LiteralsEqual(es[0].lit, needle) || ContainsLiteral(es[1..], needle))
  }

  function SimplifyBinary(l: Expr, op: BinaryOp, r: Expr): Option<Expr> {
    if op.Eq? && l.Lit? && r.Lit? then Some(Lit(Boolean(LiteralsEqual(l.lit, r.lit))))
    else if op.NotEq? && l.Lit? && r.Lit? then Some(Lit(Boolean(!LiteralsEqual(l.lit, r.lit))))
    else if op.And? && l == TRUE then Some(r)
    else if op.And? && r == TRUE then Some(l)
    else if op.And? && (l == FALSE || r == FALSE) then Some(FALSE)
    else if op.Or? && (l == TRUE || r == TRUE) then Some(TRUE)
    else if op.Or? && l == FALSE then Some(r)
    else if op.Or? && r == FALSE then Some(l)
    else None
  }

  function SimplifyInList(arg: Expr, list: seq<Expr>, negated: bool): Option<Expr> {
    if arg.Lit? && forall e :: e in list ==> e.Lit? then
      Some(Lit(Boolean(ContainsLiteral(list, arg.lit) != negated)))
    else None
  }

  /** The branches that are not ruled out by a FALSE condition. */
  function LiveBranches(ws: seq<WhenClause>): seq<WhenClause> {
    if ws == [] then []
    else if ws[0].condition == FALSE then LiveBranches(ws[1..])
    else [ws[0]] + LiveBranches(ws[1..])
  }

  /** The position of the first branch with a TRUE condition, or |ws|. */
  function FirstTrue(ws: seq<WhenClause>): (n: nat)
    ensures n <= |ws|
    ensures n < |ws| ==> ws[n].condition == TRUE
    ensures forall i :: 0 <= i < n ==> ws[i].condition != TRUE
  {
    if ws == [] || ws[0].condition == TRUE then 0 else 1 + FirstTrue(ws[1..])
  }

  /** What CASE folds to: the first TRUE branch becomes the ELSE of the live branches before
      it; without one, FALSE branches are dropped. */
  function CaseFold(ws: seq<WhenClause>, els: Option<Expr>): Option<Expr> {
    var n := FirstTrue(ws);
    var live := LiveBranches(ws[..n]);
    if n < |ws| then Some(if live == [] then ws[n].result else Case(live, Some(ws[n].result)))
    else if live == ws then None
    else if live == [] then Some(if els.Some? then els.value else NULL)
    else Some(Case(live, els))
  }

  lemma {:induction false} LiveBranchesSnoc(ws: seq<WhenClause>, w: WhenClause)
    ensures LiveBranches(ws + [w]) == LiveBranches(ws) + (if w.condition == FALSE then [] else [w])
  {
    var all := ws + [w];
    if ws == [] {
      assert all == [w] && all[1..] == [];
    } else {
      assert all[0] == ws[0] && all[1..] == ws[1..] + [w];
      LiveBranchesSnoc(ws[1..], w);
    }
  }

  lemma LiveBranchesLength(ws: seq<WhenClause>)
    ensures |LiveBranches(ws)| <= |ws|
    ensures |LiveBranches(ws)| == |ws| <==> (forall i :: 0 <= i < |ws| ==> ws[i].condition != FALSE)
    ensures |LiveBranches(ws)| == |ws| ==> LiveBranches(ws) == ws
  {
    if ws != [] {
      LiveBranchesLength(ws[1..]);
      if forall i :: 0 <= i < |ws| ==> ws[i].condition != FALSE {
        assert forall i :: 0 <= i < |ws[1..]| ==> ws[1..][i] == ws[i + 1];
      } else {
        var i :| 0 <= i < |ws| && ws[i].condition == FALSE;
        assert i > 0 ==> ws[1..][i - 1].condition == FALSE;
      }
    }
  }

  /** The loop of the planner: collect the runtime branches, stop at the first TRUE. */
  method SimplifyCase(ws: seq<WhenClause>, els: Option<Expr>) returns (r: Option<Expr>)
    ensures r == CaseFold(ws, els)
  {
    var remaining: seq<WhenClause> := [];
    var changed := false;
    for i := 0 to |ws|
      invariant remaining == LiveBranches(ws[..i])
      invariant changed <==> exists k :: 0 <= k < i && ws[k].condition == FALSE
      invariant forall k :: 0 <= k < i ==> ws[k].condition != TRUE
    {
      var w := ws[i];
      LiveBranchesSnoc(ws[..i], w);
      assert ws[..i] + [w] == ws[..i + 1];
      if w.condition == TRUE {
        return if remaining == [] then Some(w.result) else Some(Case(remaining, Some(w.result)));
      } else if w.condition == FALSE {
        changed := true;
      } else {
        remaining := remaining + [w];
      }
    }
    assert ws[..|ws|] == ws;
    LiveBranchesLength(ws);
    if !changed {
      return None;
    }
    if remaining == [] {
      return Some(if els.Some? then els.value else NULL);
    }
    return Some(Case(remaining, els));
  }

  function SimplifyNode(e: Expr): Option<Expr> {
    match e
    case Binary(l, op, r) => SimplifyBinary(l, op, r)
    case Not(a) => if a.Lit? && a.lit.Boolean? then Some(Lit(Boolean(!a.lit.value))) else None
    case InList(a, es, negated) => SimplifyInList(a, es, negated)
    case Case(ws, els) => CaseFold(ws, els)
    case _ => None
  }

  // ---------------------------------------------------------------- the whole tree

  /** One bottom-up pass. */
  function SimplifyOnce(e: Expr): Expr {
    Transform(e, SimplifyNode)
  }

  lemma OnceUnfolds(e: Expr)
    ensures var rebuilt := TransformChildren(e, SimplifyNode);
            SimplifyOnce(e) == match SimplifyNode(rebuilt) case Some(r) => r case None => rebuilt
  {
  }

  /** At most ten passes, until nothing changes. One pass is always enough. */
  method Simplify(e: Expr) returns (r: Expr)
    ensures r == SimplifyOnce(e)
    ensures SimplifyOnce(r) == r
  {
    var current := e;
    OnceIsNormal(e);
    NormalIsFixed(SimplifyOnce(e));
    for i := 0 to 10
      invariant current == if i == 0 then e else SimplifyOnce(e)
    {
      var next := SimplifyOnce(current);
      if next == current {
        break;
      }
      current := next;
    }
    r := current;
  }

  // ---------------------------------------------------------------- normal form

  predicate IsTruthLiteral(e: Expr) {
    e == TRUE || e == FALSE
  }

  /** Nothing of the node itself is decided at compile time: no comparison or IN of literals,
      no connective or NOT of a truth literal, no CASE with one as a condition. */
  predicate Undecided(e: Expr) {
    match e
    case Binary(l, op, r) =>
      && (op.Eq? || op.NotEq? ==> !l.Lit? || !r.Lit?)
      && (op.And? || op.Or? ==> !IsTruthLiteral(l) && !IsTruthLiteral(r))
    case Not(a) => !IsTruthLiteral(a)
    case InList(a, es, _) => !a.Lit? || exists e :: e in es && !e.Lit?
    case Case(ws, _) => forall w :: w in ws ==> !IsTruthLiteral(w.condition)
    case _ => true
  }

  /** A rule applies exactly where something is decided. */
  lemma RuleAppliesExactly(e: Expr)
    ensures SimplifyNode(e).None? <==> Undecided(e)
  {
    if e.Case? {
      var ws := e.whens;
      var n := FirstTrue(ws);
      LiveBranchesLength(ws);
      if Undecided(e) {
        RuntimeCaseIsKept(ws, e.els);
      } else if n == |ws| {
        assert ws[..n] == ws;
        var w :| w in ws && IsTruthLiteral(w.condition);
        assert exists i :: 0 <= i < |ws| && ws[i] == w;
      }
    }
  }

  /** Nothing is decided at any node. */
  predicate Normal(e: Expr)
    decreases e, 1
  {
    && Undecided(e)
    && match e
       case Column(_) => true
       case EntityRef(_) => true
       case Lit(_) => true
       case Binary(l, _, r) => Normal(l) && Normal(r)
       case Not(a) => Normal(a)
       case IsNull(a) => Normal(a)
       case IsNotNull(a) => Normal(a)
       case InList(a, es, _) => Normal(a) && AllNormal(es)
       case Case(ws, els) => WhensNormal(ws) && (els.Some? ==> Normal(els.value))
       case Guard(c, a) => Normal(c) && Normal(a)
       case Aggregate(_, a, _) => Normal(a)
       case Call(_, es) => AllNormal(es)
  }

  predicate AllNormal(es: seq<Expr>)
    decreases es, 0
  {
    es == [] || (Normal(es[0]) && AllNormal(es[1..]))
  }

  predicate WhenNormal(w: WhenClause)
    decreases w, 0
  {
    Normal(w.condition) && Normal(w.result)
  }

  predicate WhensNormal(ws: seq<WhenClause>)
    decreases ws, 0
  {
    ws == [] || (WhenNormal(ws[0]) && WhensNormal(ws[1..]))
  }

  lemma WhensNormalAt(ws: seq<WhenClause>, i: nat)
    requires WhensNormal(ws) && i < |ws|
    ensures WhenNormal(ws[i])
  {
    if i > 0 { WhensNormalAt(ws[1..], i - 1); }
  }

  lemma WhensNormalPrefix(ws: seq<WhenClause>, n: nat)
    requires WhensNormal(ws) && n <= |ws|
    ensures WhensNormal(ws[..n])
  {
    if n > 0 {
      WhensNormalPrefix(ws[1..], n - 1);
      assert ws[..n][1..] == ws[1..][..n - 1];
    }
  }

  lemma LiveBranchesNormal(ws: seq<WhenClause>)
    requires WhensNormal(ws)
    ensures WhensNormal(LiveBranches(ws))
    ensures forall w :: w in LiveBranches(ws) ==> w in ws && w.condition != FALSE
  {
    if ws != [] {
      LiveBranchesNormal(ws[1..]);
      if ws[0].condition != FALSE {
        var live := [ws[0]] + LiveBranches(ws[1..]);
        assert live[1..] == LiveBranches(ws[1..]);
        assert WhensNormal(live);
      }
    }
  }

  /** A CASE with only runtime conditions is left alone. */
  lemma RuntimeCaseIsKept(ws: seq<WhenClause>, els: Option<Expr>)
    requires forall w :: w in ws ==> w.condition != TRUE && w.condition != FALSE
    ensures CaseFold(ws, els).None?
  {
    LiveBranchesLength(ws);
    assert ws[..|ws|] == ws;
  }

  /** Folding a CASE whose parts are normal gives a normal expression: no second pass. */
  lemma CaseFoldIsNormal(ws: seq<WhenClause>, els: Option<Expr>)
    requires WhensNormal(ws) && (els.Some? ==> Normal(els.value))
    requires CaseFold(ws, els).Some?
    ensures Normal(CaseFold(ws, els).value)
  {
    var n := FirstTrue(ws);
    var live := LiveBranches(ws[..n]);
    WhensNormalPrefix(ws, n);
    LiveBranchesNormal(ws[..n]);
    if n < |ws| { WhensNormalAt(ws, n); }
    RuntimeCaseIsKept(live, if n < |ws| then Some(ws[n].result) else els);
  }

  lemma {:induction false} OnceIsNormal(e: Expr)
    ensures Normal(SimplifyOnce(e))
    decreases e, 1
  {
    OnceUnfolds(e);
    match e {
      case Binary(l, op, r) => OnceIsNormal(l); OnceIsNormal(r);
      case Not(a) => OnceIsNormal(a);
      case IsNull(a) => OnceIsNormal(a);
      case IsNotNull(a) => OnceIsNormal(a);
      case InList(a, es, _) => OnceIsNormal(a); AllOnceNormal(es);
      case Case(ws, els) =>
        WhensOnceNormal(ws);
        if els.Some? { OnceIsNormal(els.value); }
        var rebuilt := TransformChildren(e, SimplifyNode);
        RuleAppliesExactly(rebuilt);
        if SimplifyNode(rebuilt).Some? { CaseFoldIsNormal(rebuilt.whens, rebuilt.els); }
      case Guard(c, a) => OnceIsNormal(c); OnceIsNormal(a);
      case Aggregate(_, a, _) => OnceIsNormal(a);
      case Call(_, es) => AllOnceNormal(es);
      case _ =>
    }
  }

  lemma {:induction false} AllOnceNormal(es: seq<Expr>)
    ensures AllNormal(TransformAll(es, SimplifyNode))
    decreases es, 0
  {
    if es != [] {
      OnceIsNormal(es[0]);
      AllOnceNormal(es[1..]);
    }
  }

  lemma {:induction false} WhenOnceNormal(w: WhenClause)
    ensures WhenNormal(TransformWhen(w, SimplifyNode))
    decreases w, 0
  {
    OnceIsNormal(w.condition);
    OnceIsNormal(w.result);
  }

  lemma {:induction false} WhensOnceNormal(ws: seq<WhenClause>)
    ensures WhensNormal(TransformWhens(ws, SimplifyNode))
    decreases ws, 0
  {
    if ws != [] {
      WhenOnceNormal(ws[0]);
      WhensOnceNormal(ws[1..]);
    }
  }

  /** A normal expression is exactly a fixed point of the pass. */
  lemma {:induction false} NormalIsFixed(e: Expr)
    requires Normal(e)
    ensures SimplifyOnce(e) == e
    decreases e, 1
  {
    OnceUnfolds(e);
    RuleAppliesExactly(e);
    match e {
      case Binary(l, op, r) => NormalIsFixed(l); NormalIsFixed(r);
      case Not(a) => NormalIsFixed(a);
      case IsNull(a) => NormalIsFixed(a);
      case IsNotNull(a) => NormalIsFixed(a);
      case InList(a, es, _) => NormalIsFixed(a); AllNormalFixed(es);
      case Case(ws, els) =>
        WhensNormalFixed(ws);
        if els.Some? { NormalIsFixed(els.value); }
      case Guard(c, a) => NormalIsFixed(c); NormalIsFixed(a);
      case Aggregate(_, a, _) => NormalIsFixed(a);
      case Call(_, es) => AllNormalFixed(es);
      case _ =>
    }
  }

  lemma {:induction false} AllNormalFixed(es: seq<Expr>)
    requires AllNormal(es)
    ensures TransformAll(es, SimplifyNode) == es
    decreases es, 0
  {
    if es != [] {
      NormalIsFixed(es[0]);
      AllNormalFixed(es[1..]);
    }
  }

  lemma {:induction false} WhenNormalFixed(w: WhenClause)
    requires WhenNormal(w)
    ensures TransformWhen(w, SimplifyNode) == w
    decreases w, 0
  {
    NormalIsFixed(w.condition);
    NormalIsFixed(w.result);
  }

  lemma {:induction false} WhensNormalFixed(ws: seq<WhenClause>)
    requires WhensNormal(ws)
    ensures TransformWhens(ws, SimplifyNode) == ws
    decreases ws, 0
  {
    if ws != [] {
      WhenNormalFixed(ws[0]);
      WhensNormalFixed(ws[1..]);
    }
  }

  // ---------------------------------------------------------------- every rule shrinks

  function Size(e: Expr): nat
    decreases e, 1
  {
    1 + match e
        case Binary(l, _, r) => Size(l) + Size(r)
        case Not(a) => Size(a)
        case IsNull(a) => Size(a)
        case IsNotNull(a) => Size(a)
        case InList(a, es, _) => Size(a) + SizeAll(es)
        case Case(ws, els) => SizeWhens(ws) + if els.Some? then Size(els.value) else 0
        case Guard(c, a) => Size(c) + Size(a)
        case Aggregate(_, a, _) => Size(a)
        case Call(_, es) => SizeAll(es)
        case _ => 0
  }

  function SizeAll(es: seq<Expr>): nat
    decreases es, 0
  {
    if es == [] then 0 else Size(es[0]) + SizeAll(es[1..])
  }

  function SizeWhen(w: WhenClause): nat
    decreases w, 0
  {
    Size(w.condition) + Size(w.result)
  }

  function SizeWhens(ws: seq<WhenClause>): nat
    decreases ws, 0
  {
    if ws == [] then 0 else SizeWhen(ws[0]) + SizeWhens(ws[1..])
  }

  lemma SizeWhensSplit(ws: seq<WhenClause>, n: nat)
    requires n <= |ws|
    ensures SizeWhens(ws) == SizeWhens(ws[..n]) + SizeWhens(ws[n..])
  {
    if n > 0 {
      SizeWhensSplit(ws[1..], n - 1);
      assert ws[..n][1..] == ws[1..][..n - 1];
      assert ws[n..] == ws[1..][n - 1..];
    }
  }

  lemma LiveBranchesShrink(ws: seq<WhenClause>)
    ensures SizeWhens(LiveBranches(ws)) <= SizeWhens(ws)
    ensures LiveBranches(ws) != ws ==> SizeWhens(LiveBranches(ws)) + 2 <= SizeWhens(ws)
  {
    if ws != [] {
      LiveBranchesShrink(ws[1..]);
      if ws[0].condition == FALSE {
        assert SizeWhen(ws[0]) >= 2;
      } else {
        var live := [ws[0]] + LiveBranches(ws[1..]);
        assert live[1..] == LiveBranches(ws[1..]);
        assert SizeWhens(live) == SizeWhen(ws[0]) + SizeWhens(LiveBranches(ws[1..]));
        assert LiveBranches(ws[1..]) == ws[1..] ==> live == ws;
      }
    }
  }

  /** Every folding rule strictly shrinks the tree. */
  lemma RuleShrinks(e: Expr)
    requires SimplifyNode(e).Some?
    ensures Size(SimplifyNode(e).value) < Size(e)
  {
    match e
    case Case(ws, els) =>
      var n := FirstTrue(ws);
      SizeWhensSplit(ws, n);
      LiveBranchesShrink(ws[..n]);
      if n == |ws| {
        assert ws[..n] == ws;
      } else {
        assert SizeWhens(ws[n..]) >= SizeWhen(ws[n]) > Size(ws[n].result);
      }
    case _ =>
  }

  // ---------------------------------------------------------------- what substitution reaches

  lemma SubstituteUnfolds(e: Expr, known: map<string, string>)
    ensures Substitute(e, known) ==
            if e.Column? && e.name in known then Lit(Str(known[e.name]))
            else TransformChildren(e, SubstituteNode(known))
  {
    var rebuilt := TransformChildren(e, SubstituteNode(known));
    assert SubstituteNode(known)(rebuilt) ==
           if rebuilt.Column? && rebuilt.name in known then Some(Lit(Str(known[rebuilt.name]))) else None;
  }

  /** The names of the column nodes of a tree or, with `refs`, of its entity references. */
  function LeafNames(e: Expr, refs: bool): set<string>
    decreases e, 1
  {
    match e
    case Column(n) => if refs then {} else {n}
    case EntityRef(n) => if refs then {n} else {}
    case Lit(_) => {}
    case Binary(l, _, r) => LeafNames(l, refs) + LeafNames(r, refs)
    case Not(a) => LeafNames(a, refs)
    case IsNull(a) => LeafNames(a, refs)
    case IsNotNull(a) => LeafNames(a, refs)
    case InList(a, es, _) => LeafNames(a, refs) + LeafNamesAll(es, refs)
    case Case(ws, els) => LeafNamesWhens(ws, refs) + if els.Some? then LeafNames(els.value, refs) else {}
    case Guard(c, a) => LeafNames(c, refs) + LeafNames(a, refs)
    case Aggregate(_, a, _) => LeafNames(a, refs)
    case Call(_, es) => LeafNamesAll(es, refs)
  }

  function LeafNamesAll(es: seq<Expr>, refs: bool): set<string>
    decreases es, 0
  {
    if es == [] then {} else LeafNames(es[0], refs) + LeafNamesAll(es[1..], refs)
  }

  function LeafNamesWhen(w: WhenClause, refs: bool): set<string>
    decreases w, 0
  {
    LeafNames(w.condition, refs) + LeafNames(w.result, refs)
  }

  function LeafNamesWhens(ws: seq<WhenClause>, refs: bool): set<string>
    decreases ws, 0
  {
    if ws == [] then {} else LeafNamesWhen(ws[0], refs) + LeafNamesWhens(ws[1..], refs)
  }

  /** Substitution removes exactly the known columns, wherever they are, and no reference. */
  lemma {:induction false} SubstituteRemovesKnown(e: Expr, known: map<string, string>, refs: bool)
    ensures LeafNames(Substitute(e, known), refs) == LeafNames(e, refs) - (if refs then {} else known.Keys)
    decreases e, 1
  {
    SubstituteUnfolds(e, known);
    match e {
      case Binary(l, _, r) => SubstituteRemovesKnown(l, known, refs); SubstituteRemovesKnown(r, known, refs);
      case Not(a) => SubstituteRemovesKnown(a, known, refs);
      case IsNull(a) => SubstituteRemovesKnown(a, known, refs);
      case IsNotNull(a) => SubstituteRemovesKnown(a, known, refs);
      case InList(a, es, _) => SubstituteRemovesKnown(a, known, refs); SubstituteRemovesKnownAll(es, known, refs);
      case Case(ws, els) =>
        SubstituteRemovesKnownWhens(ws, known, refs);
        if els.Some? { SubstituteRemovesKnown(els.value, known, refs); }
      case Guard(c, a) => SubstituteRemovesKnown(c, known, refs); SubstituteRemovesKnown(a, known, refs);
      case Aggregate(_, a, _) => SubstituteRemovesKnown(a, known, refs);
      case Call(_, es) => SubstituteRemovesKnownAll(es, known, refs);
      case _ =>
    }
  }

  lemma {:induction false} SubstituteRemovesKnownAll(es: seq<Expr>, known: map<string, string>, refs: bool)
    ensures LeafNamesAll(TransformAll(es, SubstituteNode(known)), refs)
            == LeafNamesAll(es, refs) - (if refs then {} else known.Keys)
    decreases es, 0
  {
    if es != [] {
      SubstituteRemovesKnown(es[0], known, refs);
      SubstituteRemovesKnownAll(es[1..], known, refs);
    }
  }

  lemma {:induction false} SubstituteRemovesKnownWhens(ws: seq<WhenClause>, known: map<string, string>, refs: bool)
    ensures LeafNamesWhens(TransformWhens(ws, SubstituteNode(known)), refs)
            == LeafNamesWhens(ws, refs) - (if refs then {} else known.Keys)
    decreases ws, 0
  {
    if ws != [] {
      SubstituteRemovesKnownWhen(ws[0], known, refs);
      SubstituteRemovesKnownWhens(ws[1..], known, refs);
    }
  }

  lemma {:induction false} SubstituteRemovesKnownWhen(w: WhenClause, known: map<string, string>, refs: bool)
    ensures LeafNamesWhen(TransformWhen(w, SubstituteNode(known)), refs)
            == LeafNamesWhen(w, refs) - (if refs then {} else known.Keys)
    decreases w, 0
  {
    SubstituteRemovesKnown(w.condition, known, refs);
    SubstituteRemovesKnown(w.result, known, refs);
  }

  /** Everything in `e` is decided at compile time: literals and known columns under =, <>, IN,
      AND, OR, NOT and CASE, with truth literals where `truth` asks for a condition. */
  predicate Ground(e: Expr, known: map<string, string>, truth: bool)
    decreases e, 1
  {
    match e
    case Column(n) => !truth && n in known
    case Lit(l) => truth ==> l.Boolean?
    case Binary(l, op, r) =>
      && (op.Eq? || op.NotEq? || op.And? || op.Or?)
      && Ground(l, known, op.And? || op.Or?) && Ground(r, known, op.And? || op.Or?)
    case Not(a) => Ground(a, known, true)
    case InList(a, es, _) => Ground(a, known, false) && AllGround(es, known)
    case Case(ws, els) =>
      ws != [] && WhensGround(ws, known, truth) && if els.Some? then Ground(els.value, known, truth) else !truth
    case _ => false
  }

  predicate AllGround(es: seq<Expr>, known: map<string, string>)
    decreases es, 0
  {
    es == [] || (Ground(es[0], known, false) && AllGround(es[1..], known))
  }

  predicate WhenGround(w: WhenClause, known: map<string, string>, truth: bool)
    decreases w, 0
  {
    Ground(w.condition, known, true) && Ground(w.result, known, truth)
  }

  predicate WhensGround(ws: seq<WhenClause>, known: map<string, string>, truth: bool)
    decreases ws, 0
  {
    ws == [] || (WhenGround(ws[0], known, truth) && WhensGround(ws[1..], known, truth))
  }

  /** A literal and, where a condition is asked for, TRUE or FALSE. */
  predicate Decided(e: Expr, truth: bool) {
    e.Lit? && (truth ==> e.lit.Boolean?)
  }

  /** Substitution and one pass decide every ground expression. */
  lemma {:induction false} GroundIsDecided(e: Expr, known: map<string, string>, truth: bool)
    requires Ground(e, known, truth)
    ensures Decided(SimplifyOnce(Substitute(e, known)), truth)
    decreases e, 1
  {
    SubstituteUnfolds(e, known);
    OnceUnfolds(Substitute(e, known));
    match e {
      case Binary(l, op, r) =>
        GroundIsDecided(l, known, op.And? || op.Or?);
        GroundIsDecided(r, known, op.And? || op.Or?);
      case Not(a) => GroundIsDecided(a, known, true);
      case InList(a, es, _) => GroundIsDecided(a, known, false); AllGroundDecided(es, known);
      case Case(ws, els) =>
        WhensGroundDecided(ws, known, truth);
        if els.Some? { GroundIsDecided(els.value, known, truth); }
        var whens := TransformWhens(TransformWhens(ws, SubstituteNode(known)), SimplifyNode);
        DecidedCase(whens, if els.Some? then Some(SimplifyOnce(Substitute(els.value, known))) else None, truth);
      case _ =>
    }
  }

  lemma {:induction false} AllGroundDecided(es: seq<Expr>, known: map<string, string>)
    requires AllGround(es, known)
    ensures forall e :: e in TransformAll(TransformAll(es, SubstituteNode(known)), SimplifyNode) ==> e.Lit?
    decreases es, 0
  {
    if es != [] {
      GroundIsDecided(es[0], known, false);
      AllGroundDecided(es[1..], known);
    }
  }

  predicate AllDecided(ws: seq<WhenClause>, truth: bool) {
    forall w :: w in ws ==> Decided(w.condition, true) && Decided(w.result, truth)
  }

  lemma {:induction false} WhensGroundDecided(ws: seq<WhenClause>, known: map<string, string>, truth: bool)
    requires WhensGround(ws, known, truth)
    ensures |TransformWhens(TransformWhens(ws, SubstituteNode(known)), SimplifyNode)| == |ws|
    ensures AllDecided(TransformWhens(TransformWhens(ws, SubstituteNode(known)), SimplifyNode), truth)
    decreases ws, 0
  {
    if ws != [] {
      WhenGroundDecided(ws[0], known, truth);
      WhensGroundDecided(ws[1..], known, truth);
      var first, rest := TransformWhen(ws[0], SubstituteNode(known)), TransformWhens(ws[1..], SubstituteNode(known));
      assert ([first] + rest)[0] == first && ([first] + rest)[1..] == rest;
    }
  }

  lemma {:induction false} WhenGroundDecided(w: WhenClause, known: map<string, string>, truth: bool)
    requires WhenGround(w, known, truth)
    ensures var r := TransformWhen(TransformWhen(w, SubstituteNode(known)), SimplifyNode);
            Decided(r.condition, true) && Decided(r.result, truth)
    decreases w, 0
  {
    GroundIsDecided(w.condition, known, true);
    GroundIsDecided(w.result, known, truth);
  }

  /** A CASE with decided parts folds to one of them. */
  lemma DecidedCase(ws: seq<WhenClause>, els: Option<Expr>, truth: bool)
    requires ws != [] && AllDecided(ws, truth) && if els.Some? then Decided(els.value, truth) else !truth
    ensures CaseFold(ws, els).Some? && Decided(CaseFold(ws, els).value, truth)
  {
    var n := FirstTrue(ws);
    forall w | w in ws[..n] ensures w.condition == FALSE {
      assert w in ws && Decided(w.condition, true);
    }
    NoneLive(ws[..n]);
  }

  lemma {:induction false} NoneLive(ws: seq<WhenClause>)
    requires forall w :: w in ws ==> w.condition == FALSE
    ensures LiveBranches(ws) == []
  {
    if ws != [] { NoneLive(ws[1..]); }
  }
}
