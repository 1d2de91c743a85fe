/**
 The runtime of the generated PEG parser: recognition of an input by a grammar, with
 and without the packrat memo table. Semantic actions, error reports and statistics
 play no part in recognition.
 */
module Packrat {
  import opened Options

  /** Expression nodes are known by identity, as pointers are. */
  type NodeId = nat

  datatype Expr =
    | Action(e: NodeId)
    | And(e: NodeId)
    | Any
    | CharClass(chars: seq<int>, ranges: seq<(int, int)>, classes: seq<int>, ignoreCase: bool, inverted: bool)
    | Choice(alternatives: seq<NodeId>)
    | Labeled(e: NodeId)
    | Lit(val: seq<int>, ignoreCase: bool)
    | Not(e: NodeId)
    | OneOrMore(e: NodeId)
    | RuleRef(name: string)
    | Seq(exprs: seq<NodeId>)
    | ZeroOrMore(e: NodeId)
    | ZeroOrOne(e: NodeId)

  /** Any graph of nodes, and the rules by name. */
  datatype Grammar = Grammar(node: NodeId -> Expr, rules: map<string, NodeId>)

  const RUNE_ERROR := 0xFFFD

  /** The input as `utf8.DecodeRune` sees it at every byte offset, and the parts of
      package unicode that matching uses. */
  datatype Input = Input(size: nat, rune: nat -> int, width: nat -> nat, lower: int -> int, isClass: (int, int) -> bool)

  /** A rune has a positive width and stays inside the data; at the end there is the
      error rune of width zero. */
  ghost predicate Decodes(input: Input) {
    forall o: nat ::
      if o < input.size then 1 <= input.width(o) <= input.size - o
      else input.width(o) == 0 && input.rune(o) == RUNE_ERROR
  }

  /** Whether an expression matched, and the offset the parser is left at. */
  datatype Match = Match(ok: bool, offset: nat)

  // ----- matching without memo -----

  function After(input: Input, offset: nat): nat {
    offset + input.width(offset)
  }

  predicate InClass(input: Input, e: Expr, cur: int)
    requires e.CharClass?
  {
    || cur in e.chars
    || (exists r | r in e.ranges :: r.0 <= cur <= r.1)
    || (exists c | c in e.classes :: input.isClass(c, cur))
  }

  function Fold(input: Input, ignoreCase: bool, r: int): int {
    if ignoreCase then input.lower(r) else r
  }

  function MatchAny(input: Input, offset: nat): Match {
    if input.rune(offset) != RUNE_ERROR then Match(true, After(input, offset)) else Match(false, offset)
  }

  function MatchClass(input: Input, e: Expr, offset: nat): Match
    requires e.CharClass?
  {
    var r := input.rune(offset);
    if r != RUNE_ERROR && InClass(input, e, Fold(input, e.ignoreCase, r)) != e.inverted
    then Match(true, After(input, offset)) else Match(false, offset)
  }

  /** Matching what is left of a literal that began at `start`. */
  function MatchLit(input: Input, val: seq<int>, ignoreCase: bool, offset: nat, start: nat): Match
    decreases val
  {
    if val == [] then Match(true, offset)
    else if Fold(input, ignoreCase, input.rune(offset)) != val[0] then Match(false, start)
    else MatchLit(input, val[1..], ignoreCase, After(input, offset), start)
  }

  // ----- what classes and literals match -----

  /** Where a rune may be consumed: the parser is at a rune `test` accepts, and ends behind it. */
  ghost predicate TakesRune(input: Input, m: Match, offset: nat, test: int -> bool) {
    var taken := input.rune(offset) != 0xFFFD && test(input.rune(offset));
    m == Match(taken, if taken then offset + input.width(offset) else offset)
  }

  lemma AnyTakesRune(input: Input, offset: nat)
    ensures TakesRune(input, MatchAny(input, offset), offset, r => true)
  {
  }

  /** One character, one range, one Unicode class; with case ignored it is the rune in lower case
      that counts. */
  lemma SingleClasses(input: Input, c: int, lo: int, hi: int, cl: int, ignoreCase: bool, offset: nat)
    ensures TakesRune(input, MatchClass(input, CharClass([c], [], [], ignoreCase, false), offset), offset,
              r => c == if ignoreCase then input.lower(r) else r)
    ensures TakesRune(input, MatchClass(input, CharClass([], [(lo, hi)], [], ignoreCase, false), offset), offset,
              r => lo <= (if ignoreCase then input.lower(r) else r) <= hi)
    ensures TakesRune(input, MatchClass(input, CharClass([], [], [cl], ignoreCase, false), offset), offset,
              r => input.isClass(cl, if ignoreCase then input.lower(r) else r))
    ensures MatchClass(input, CharClass([], [], [], ignoreCase, false), offset) == Match(false, offset)
  {
    assert (lo, hi) in [(lo, hi)] && cl in [cl] && c in [c];
    assert forall x | x in [(lo, hi)] :: x == (lo, hi);
    assert forall x | x in [cl] :: x == cl;
  }

  /** Classes put together match what either of them matches. */
  lemma ClassUnion(input: Input, e: Expr, f: Expr, offset: nat)
    requires e.CharClass? && f.CharClass? && e.ignoreCase == f.ignoreCase && !e.inverted && !f.inverted
    ensures var both := CharClass(e.chars + f.chars, e.ranges + f.ranges, e.classes + f.classes, e.ignoreCase, false);
            MatchClass(input, both, offset)
            == if MatchClass(input, e, offset).ok then MatchClass(input, e, offset) else MatchClass(input, f, offset)
  {
  }

  /** An inverted class matches the runes that the class does not. */
  lemma ClassInverted(input: Input, e: Expr, offset: nat)
    requires e.CharClass?
    ensures MatchClass(input, e.(inverted := !e.inverted), offset).ok
            <==> input.rune(offset) != 0xFFFD && !MatchClass(input, e, offset).ok
    ensures MatchClass(input, e, offset).offset
            == if MatchClass(input, e, offset).ok then offset + input.width(offset) else offset
  {
  }

  /** Where the `k`-th rune from an offset stands. */
  function RuneAt(input: Input, offset: nat, k: nat): nat
    decreases k
  {
    if k == 0 then offset else RuneAt(input, offset + input.width(offset), k - 1)
  }

  /** The `k`-th rune from an offset, in lower case where asked. */
  function NthRune(input: Input, ignoreCase: bool, offset: nat, k: nat): int {
    var r := input.rune(RuneAt(input, offset, k));
    if ignoreCase then input.lower(r) else r
  }

  /** The runes of a literal stand one after another from an offset. */
  ghost predicate StandsAt(input: Input, val: seq<int>, ignoreCase: bool, offset: nat) {
    forall k | 0 <= k < |val| :: val[k] == NthRune(input, ignoreCase, offset, k)
  }

  /** A literal matches exactly where it stands, and ends behind its last rune. */
  lemma {:induction false} LitIff(input: Input, val: seq<int>, ignoreCase: bool, offset: nat, start: nat)
    ensures MatchLit(input, val, ignoreCase, offset, start)
            == if StandsAt(input, val, ignoreCase, offset) then Match(true, RuneAt(input, offset, |val|))
               else Match(false, start)
    decreases val
  {
    if val != [] {
      var next := offset + input.width(offset);
      LitIff(input, val[1..], ignoreCase, next, start);
      StandsFirst(input, val, ignoreCase, offset);
    }
  }

  lemma StandsFirst(input: Input, val: seq<int>, ignoreCase: bool, offset: nat)
    requires val != []
    ensures StandsAt(input, val, ignoreCase, offset)
            <==> val[0] == NthRune(input, ignoreCase, offset, 0)
                 && StandsAt(input, val[1..], ignoreCase, offset + input.width(offset))
  {
    var next := offset + input.width(offset);
    forall k: nat ensures NthRune(input, ignoreCase, offset, k + 1) == NthRune(input, ignoreCase, next, k) {}
    if StandsAt(input, val, ignoreCase, offset) {
      forall k | 0 <= k < |val[1..]| ensures val[1..][k] == NthRune(input, ignoreCase, next, k) {
        assert val[k + 1] == NthRune(input, ignoreCase, offset, k + 1);
      }
    }
    if StandsAt(input, val[1..], ignoreCase, next) {
      forall k | 1 <= k < |val| ensures val[k] == NthRune(input, ignoreCase, offset, k) {
        assert val[1..][k - 1] == val[k];
        assert NthRune(input, ignoreCase, offset, (k - 1) + 1) == NthRune(input, ignoreCase, next, k - 1);
      }
    }
  }

  /** `parseExpr` without memo, cut off at recursion depth `fuel`: `None` when the depth
      does not suffice. Whatever offset a failed attempt leaves is where the next
      attempt starts. */
  function Plain(input: Input, g: Grammar, fuel: nat, n: NodeId, offset: nat): Option<Match>
    decreases fuel, 0
  {
    if fuel == 0 then None else
    match g.node(n)
    case Action(e) => Plain(input, g, fuel - 1, e, offset)
    case Labeled(e) => Plain(input, g, fuel - 1, e, offset)
    case And(e) =>
      (match Plain(input, g, fuel - 1, e, offset)
       case Some(m) => Some(Match(m.ok, offset))
       case None => None)
    case Not(e) =>
      (match Plain(input, g, fuel - 1, e, offset)
       case Some(m) => Some(Match(!m.ok, offset))
       case None => None)
    case Any => Some(MatchAny(input, offset))
    case CharClass(_, _, _, _, _) => Some(MatchClass(input, g.node(n), offset))
    case Lit(val, ignoreCase) => Some(MatchLit(input, val, ignoreCase, offset, offset))
    case Choice(alternatives) => PlainChoice(input, g, fuel - 1, alternatives, offset)
    case Seq(exprs) => PlainSeq(input, g, fuel - 1, exprs, offset, offset)
    case ZeroOrOne(e) =>
      (match Plain(input, g, fuel - 1, e, offset)
       case Some(m) => Some(Match(true, m.offset))
       case None => None)
    case ZeroOrMore(e) => PlainStar(input, g, fuel - 1, e, offset)
    case OneOrMore(e) =>
      (match Plain(input, g, fuel - 1, e, offset)
       case Some(m) => if m.ok then PlainStar(input, g, fuel - 1, e, m.offset) else Some(m)
       case None => None)
    case RuleRef(name) =>
      if name == "" then None
      else if name in g.rules then PlainRule(input, g, fuel - 1, name, offset)
      else Some(Match(false, offset))
  }

  function PlainRule(input: Input, g: Grammar, fuel: nat, name: string, offset: nat): Option<Match>
    requires name in g.rules
    decreases fuel, 1
  {
    Plain(input, g, fuel, g.rules[name], offset)
  }

  function PlainChoice(input: Input, g: Grammar, fuel: nat, alts: seq<NodeId>, offset: nat): Option<Match>
    decreases fuel, 1 + |alts|
  {
    if alts == [] then Some(Match(false, offset)) else
    match Plain(input, g, fuel, alts[0], offset)
    case Some(m) => if m.ok then Some(m) else PlainChoice(input, g, fuel, alts[1..], m.offset)
    case None => None
  }

  function PlainSeq(input: Input, g: Grammar, fuel: nat, exprs: seq<NodeId>, offset: nat, start: nat): Option<Match>
    decreases fuel, 1 + |exprs|
  {
    if exprs == [] then Some(Match(true, offset)) else
    match Plain(input, g, fuel, exprs[0], offset)
    case Some(m) => if m.ok then PlainSeq(input, g, fuel, exprs[1..], m.offset, start) else Some(Match(false, start))
    case None => None
  }

  function PlainStar(input: Input, g: Grammar, fuel: nat, e: NodeId, offset: nat): Option<Match>
    decreases fuel, 1
  {
    match Plain(input, g, fuel, e, offset)
    case Some(m) =>
      if !m.ok then Some(Match(true, m.offset))
      else if fuel == 0 then None
      else PlainStar(input, g, fuel - 1, e, m.offset)
    case None => None
  }

  // ----- facts about plain matching -----

  /** More fuel does not change a result. */
  lemma {:induction false} PlainMonotone(input: Input, g: Grammar, fuel: nat, fuel': nat, n: NodeId, offset: nat)
    requires fuel <= fuel' && Plain(input, g, fuel, n, offset).Some?
    ensures Plain(input, g, fuel', n, offset) == Plain(input, g, fuel, n, offset)
    decreases fuel, 0
  {
    match g.node(n)
    case Action(e) => PlainMonotone(input, g, fuel - 1, fuel' - 1, e, offset);
    case Labeled(e) => PlainMonotone(input, g, fuel - 1, fuel' - 1, e, offset);
    case And(e) => PlainMonotone(input, g, fuel - 1, fuel' - 1, e, offset);
    case Not(e) => PlainMonotone(input, g, fuel - 1, fuel' - 1, e, offset);
    case ZeroOrOne(e) => PlainMonotone(input, g, fuel - 1, fuel' - 1, e, offset);
    case Choice(alts) => ChoiceMonotone(input, g, fuel - 1, fuel' - 1, alts, offset);
    case Seq(exprs) => SeqMonotone(input, g, fuel - 1, fuel' - 1, exprs, offset, offset);
    case ZeroOrMore(e) => StarMonotone(input, g, fuel - 1, fuel' - 1, e, offset);
    case OneOrMore(e) =>
      PlainMonotone(input, g, fuel - 1, fuel' - 1, e, offset);
      var m := Plain(input, g, fuel - 1, e, offset).value;
      if m.ok { StarMonotone(input, g, fuel - 1, fuel' - 1, e, m.offset); }
    case RuleRef(name) =>
      if name in g.rules { PlainMonotone(input, g, fuel - 1, fuel' - 1, g.rules[name], offset); }
    case _ =>
  }

  lemma {:induction false} ChoiceMonotone(
    input: Input, g: Grammar, fuel: nat, fuel': nat, alts: seq<NodeId>, offset: nat)
    requires fuel <= fuel' && PlainChoice(input, g, fuel, alts, offset).Some?
    ensures PlainChoice(input, g, fuel', alts, offset) == PlainChoice(input, g, fuel, alts, offset)
    decreases fuel, 1 + |alts|
  {
    if alts != [] {
      PlainMonotone(input, g, fuel, fuel', alts[0], offset);
      var m := Plain(input, g, fuel, alts[0], offset).value;
      if !m.ok { ChoiceMonotone(input, g, fuel, fuel', alts[1..], m.offset); }
    }
  }

  lemma {:induction false} SeqMonotone(
    input: Input, g: Grammar, fuel: nat, fuel': nat, exprs: seq<NodeId>, offset: nat, start: nat)
    requires fuel <= fuel' && PlainSeq(input, g, fuel, exprs, offset, start).Some?
    ensures PlainSeq(input, g, fuel', exprs, offset, start) == PlainSeq(input, g, fuel, exprs, offset, start)
    decreases fuel, 1 + |exprs|
  {
    if exprs != [] {
      PlainMonotone(input, g, fuel, fuel', exprs[0], offset);
      var m := Plain(input, g, fuel, exprs[0], offset).value;
      if m.ok { SeqMonotone(input, g, fuel, fuel', exprs[1..], m.offset, start); }
    }
  }

  lemma {:induction false} StarMonotone(input: Input, g: Grammar, fuel: nat, fuel': nat, e: NodeId, offset: nat)
    requires fuel <= fuel' && PlainStar(input, g, fuel, e, offset).Some?
    ensures PlainStar(input, g, fuel', e, offset) == PlainStar(input, g, fuel, e, offset)
    decreases fuel, 1
  {
    PlainMonotone(input, g, fuel, fuel', e, offset);
    var m := Plain(input, g, fuel, e, offset).value;
    if m.ok { StarMonotone(input, g, fuel - 1, fuel' - 1, e, m.offset); }
  }

  /** A failing parse leaves the offset where it began, and a parse never moves it back
      or past the end of the data. */
  ghost predicate Proper(input: Input, m: Match, offset: nat) {
    offset <= m.offset <= input.size && (!m.ok ==> m.offset == offset)
  }

  lemma {:induction false} PlainIsProper(input: Input, g: Grammar, fuel: nat, n: NodeId, offset: nat)
    requires Decodes(input) && offset <= input.size && Plain(input, g, fuel, n, offset).Some?
    ensures Proper(input, Plain(input, g, fuel, n, offset).value, offset)
    decreases fuel, 0
  {
    match g.node(n)
    case Action(e) => PlainIsProper(input, g, fuel - 1, e, offset);
    case Labeled(e) => PlainIsProper(input, g, fuel - 1, e, offset);
    case ZeroOrOne(e) => PlainIsProper(input, g, fuel - 1, e, offset);
    case Lit(val, ignoreCase) => LitIsProper(input, val, ignoreCase, offset, offset);
    case Choice(alts) => ChoiceIsProper(input, g, fuel - 1, alts, offset);
    case Seq(exprs) => SeqIsProper(input, g, fuel - 1, exprs, offset, offset);
    case ZeroOrMore(e) => StarIsProper(input, g, fuel - 1, e, offset);
    case OneOrMore(e) =>
      PlainIsProper(input, g, fuel - 1, e, offset);
      var m := Plain(input, g, fuel - 1, e, offset).value;
      if m.ok { StarIsProper(input, g, fuel - 1, e, m.offset); }
    case RuleRef(name) =>
      if name in g.rules { PlainIsProper(input, g, fuel - 1, g.rules[name], offset); }
    case _ =>
  }

  lemma {:induction false} LitIsProper(input: Input, val: seq<int>, ignoreCase: bool, offset: nat, start: nat)
    requires Decodes(input) && start <= offset <= input.size
    ensures Proper(input, MatchLit(input, val, ignoreCase, offset, start), start)
    decreases val
  {
    if val != [] {
      LitIsProper(input, val[1..], ignoreCase, After(input, offset), start);
    }
  }

  lemma {:induction false} ChoiceIsProper(input: Input, g: Grammar, fuel: nat, alts: seq<NodeId>, offset: nat)
    requires Decodes(input) && offset <= input.size && PlainChoice(input, g, fuel, alts, offset).Some?
    ensures Proper(input, PlainChoice(input, g, fuel, alts, offset).value, offset)
    decreases fuel, 1 + |alts|
  {
    if alts != [] {
      PlainIsProper(input, g, fuel, alts[0], offset);
      var m := Plain(input, g, fuel, alts[0], offset).value;
      if !m.ok { ChoiceIsProper(input, g, fuel, alts[1..], m.offset); }
    }
  }

  lemma {:induction false} SeqIsProper(input: Input, g: Grammar, fuel: nat, exprs: seq<NodeId>, offset: nat, start: nat)
    requires Decodes(input) && start <= offset <= input.size && PlainSeq(input, g, fuel, exprs, offset, start).Some?
    ensures Proper(input, PlainSeq(input, g, fuel, exprs, offset, start).value, start)
    decreases fuel, 1 + |exprs|
  {
    if exprs != [] {
      PlainIsProper(input, g, fuel, exprs[0], offset);
      var m := Plain(input, g, fuel, exprs[0], offset).value;
      if m.ok { SeqIsProper(input, g, fuel, exprs[1..], m.offset, start); }
    }
  }

  lemma {:induction false} StarIsProper(input: Input, g: Grammar, fuel: nat, e: NodeId, offset: nat)
    requires Decodes(input) && offset <= input.size && PlainStar(input, g, fuel, e, offset).Some?
    ensures PlainStar(input, g, fuel, e, offset).value.ok
    ensures Proper(input, PlainStar(input, g, fuel, e, offset).value, offset)
    decreases fuel, 1
  {
    PlainIsProper(input, g, fuel, e, offset);
    var m := Plain(input, g, fuel, e, offset).value;
    if m.ok { StarIsProper(input, g, fuel - 1, e, m.offset); }
  }

  // ----- the laws of parsing expressions -----

  /** Plain matching returns this result. */
  ghost predicate Returns(input: Input, g: Grammar, n: NodeId, offset: nat, m: Match) {
    exists fuel: nat :: Plain(input, g, fuel, n, offset) == Some(m)
  }

  /** A look-ahead is two negations. */
  lemma LookAheadIsDoubleNot(input: Input, g: Grammar, n: NodeId, outer: NodeId, inner: NodeId, fuel: nat, offset: nat)
    requires g.node(n).And? && g.node(outer) == Not(inner) && g.node(inner) == Not(g.node(n).e)
    ensures Plain(input, g, fuel + 2, outer, offset) == Plain(input, g, fuel + 1, n, offset)
  {
  }

  /** A negation succeeds exactly where its expression fails, and stays where it is. */
  lemma NotIff(input: Input, g: Grammar, n: NodeId, offset: nat, fuel: nat, m: Match, k: Match)
    requires g.node(n).Not? && Plain(input, g, fuel, g.node(n).e, offset) == Some(m)
    requires Plain(input, g, fuel + 1, n, offset) == Some(k)
    ensures k.offset == offset && k.ok != m.ok
  {
  }

  lemma TwoInSequence(input: Input, g: Grammar, fuel: nat, a: NodeId, b: NodeId, offset: nat)
    ensures PlainSeq(input, g, fuel, [a, b], offset, offset) ==
              match Plain(input, g, fuel, a, offset)
              case None => None
              case Some(m) =>
                if !m.ok then Some(Match(false, offset)) else
                (match Plain(input, g, fuel, b, m.offset)
                 case None => None
                 case Some(k) => Some(if k.ok then k else Match(false, offset)))
  {
    assert [a, b][1..] == [b] && [b][1..] == [];
    match Plain(input, g, fuel, a, offset)
    case None =>
    case Some(m) =>
      assert m.ok ==>
        PlainSeq(input, g, fuel, [a, b], offset, offset) == PlainSeq(input, g, fuel, [b], m.offset, offset);
      match Plain(input, g, fuel, b, m.offset)
      case None =>
      case Some(k) => assert PlainSeq(input, g, fuel, [], k.offset, offset) == Some(Match(true, k.offset));
  }

  lemma TwoAlternatives(input: Input, g: Grammar, fuel: nat, a: NodeId, b: NodeId, offset: nat)
    ensures PlainChoice(input, g, fuel, [a, b], offset) ==
              match Plain(input, g, fuel, a, offset)
              case None => None
              case Some(m) =>
                if m.ok then Some(m) else
                (match Plain(input, g, fuel, b, m.offset)
                 case None => None
                 case Some(k) => Some(if k.ok then k else Match(false, k.offset)))
  {
    assert [a, b][1..] == [b] && [b][1..] == [];
    match Plain(input, g, fuel, a, offset)
    case None =>
    case Some(m) =>
      assert !m.ok ==> PlainChoice(input, g, fuel, [a, b], offset) == PlainChoice(input, g, fuel, [b], m.offset);
      match Plain(input, g, fuel, b, m.offset)
      case None =>
      case Some(k) => assert PlainChoice(input, g, fuel, [], k.offset) == Some(Match(false, k.offset));
  }

  /** An option is a choice between its expression and nothing. */
  lemma OptionIsChoice(input: Input, g: Grammar, n: NodeId, c: NodeId, empty: NodeId, fuel: nat, offset: nat)
    requires g.node(n).ZeroOrOne? && g.node(c) == Choice([g.node(n).e, empty]) && g.node(empty) == Seq([])
    requires fuel > 0 && Plain(input, g, fuel, g.node(n).e, offset).Some?
    ensures Plain(input, g, fuel + 1, n, offset) == Plain(input, g, fuel + 1, c, offset)
  {
    TwoAlternatives(input, g, fuel, g.node(n).e, empty, offset);
    var m := Plain(input, g, fuel, g.node(n).e, offset).value;
    assert PlainSeq(input, g, fuel - 1, [], m.offset, m.offset) == Some(Match(true, m.offset));
  }

  /** A repetition of one or more is its expression, followed by a repetition of none or more. */
  lemma PlusIsSequence(input: Input, g: Grammar, n: NodeId, s: NodeId, star: NodeId, fuel: nat, offset: nat)
    requires Decodes(input) && offset <= input.size
    requires g.node(n).OneOrMore? && g.node(star) == ZeroOrMore(g.node(n).e) && g.node(s) == Seq([g.node(n).e, star])
    requires Plain(input, g, fuel + 1, n, offset).Some?
    ensures Plain(input, g, fuel + 2, s, offset) == Plain(input, g, fuel + 1, n, offset)
  {
    var e := g.node(n).e;
    PlainMonotone(input, g, fuel, fuel + 1, e, offset);
    TwoInSequence(input, g, fuel + 1, e, star, offset);
    var m := Plain(input, g, fuel, e, offset).value;
    PlainIsProper(input, g, fuel, e, offset);
    if m.ok {
      StarAlwaysMatches(input, g, fuel, e, m.offset);
    }
  }

  lemma {:induction false} StarAlwaysMatches(input: Input, g: Grammar, fuel: nat, e: NodeId, offset: nat)
    requires PlainStar(input, g, fuel, e, offset).Some?
    ensures PlainStar(input, g, fuel, e, offset).value.ok
    decreases fuel
  {
    var m := Plain(input, g, fuel, e, offset).value;
    if m.ok { StarAlwaysMatches(input, g, fuel - 1, e, m.offset); }
  }

  /** A repetition takes every match it can: it ends where its expression fails. */
  lemma {:induction false} StarIsGreedy(input: Input, g: Grammar, fuel: nat, e: NodeId, offset: nat)
    requires Decodes(input) && offset <= input.size && PlainStar(input, g, fuel, e, offset).Some?
    ensures Returns(input, g, e, PlainStar(input, g, fuel, e, offset).value.offset,
              Match(false, PlainStar(input, g, fuel, e, offset).value.offset))
    decreases fuel
  {
    PlainIsProper(input, g, fuel, e, offset);
    var m := Plain(input, g, fuel, e, offset).value;
    if m.ok { StarIsGreedy(input, g, fuel - 1, e, m.offset); }
  }

  // ----- the memo table -----

  datatype Savepoint = Savepoint(offset: nat, rn: int, w: nat)

  /** What the memo table is indexed by: a rule or an expression node. */
  datatype Key = RuleKey(name: string) | NodeKey(n: NodeId)

  datatype ResultTuple = ResultTuple(b: bool, end: Savepoint)

  type Memo = map<nat, map<Key, ResultTuple>>

  function PlainKey(input: Input, g: Grammar, fuel: nat, key: Key, offset: nat): Option<Match> {
    match key
    case NodeKey(n) => Plain(input, g, fuel, n, offset)
    case RuleKey(name) => if name in g.rules then PlainRule(input, g, fuel, name, offset) else None
  }

  /** A savepoint holds the rune at its offset. */
  predicate Loaded(input: Input, pt: Savepoint) {
    pt.rn == input.rune(pt.offset) && pt.w == input.width(pt.offset)
  }

  /** A memo entry is the result of an unmemoised parse at its offset. */
  ghost predicate Genuine(input: Input, g: Grammar, key: Key, offset: nat, entry: ResultTuple) {
    && Loaded(input, entry.end)
    && exists fuel: nat :: PlainKey(input, g, fuel, key, offset) == Some(Match(entry.b, entry.end.offset))
  }

  ghost predicate MemoSound(input: Input, g: Grammar, memo: Memo) {
    forall offset, key | offset in memo && key in memo[offset] :: Genuine(input, g, key, offset, memo[offset][key])
  }

  /** Results do not depend on the fuel they are found with. */
  lemma PlainKeyUnique(input: Input, g: Grammar, fuel: nat, fuel': nat, key: Key, offset: nat)
    requires PlainKey(input, g, fuel, key, offset).Some? && PlainKey(input, g, fuel', key, offset).Some?
    ensures PlainKey(input, g, fuel, key, offset) == PlainKey(input, g, fuel', key, offset)
  {
    var n := match key case NodeKey(n) => n case RuleKey(name) => g.rules[name];
    if fuel <= fuel' {
      PlainMonotone(input, g, fuel, fuel', n, offset);
    } else {
      PlainMonotone(input, g, fuel', fuel, n, offset);
    }
  }

  function Lookup(memo: Memo, offset: nat, key: Key): Option<ResultTuple> {
    if offset in memo && key in memo[offset] then Some(memo[offset][key]) else None
  }

  function Store(memo: Memo, offset: nat, key: Key, entry: ResultTuple): Memo {
    memo[offset := (if offset in memo then memo[offset] else map[])[key := entry]]
  }

  // ----- matching with memo -----

  /** A result together with the memo it leaves. */
  datatype Run = Run(m: Match, memo: Memo)

  function Entry(input: Input, m: Match): ResultTuple {
    ResultTuple(m.ok, Savepoint(m.offset, input.rune(m.offset), input.width(m.offset)))
  }

  function Keep(input: Input, key: Key, offset: nat, r: Option<Run>): Option<Run> {
    match r
    case Some(run) => Some(Run(run.m, Store(run.memo, offset, key, Entry(input, run.m))))
    case None => None
  }

  /** The memoised parser as a function, cut off at recursion depth `fuel`: `None` when
      the depth does not suffice, in particular when the parser would not return. */
  function Memoised(input: Input, g: Grammar, fuel: nat, n: NodeId, offset: nat, memo: Memo): Option<Run>
    decreases fuel, 0, 1
  {
    match Lookup(memo, offset, NodeKey(n))
    case Some(entry) => Some(Run(Match(entry.b, entry.end.offset), memo))
    case None => if fuel == 0 then None
      else Keep(input, NodeKey(n), offset, MemoBody(input, g, fuel - 1, n, offset, memo))
  }

  function MemoBody(input: Input, g: Grammar, fuel: nat, n: NodeId, offset: nat, memo: Memo): Option<Run>
    decreases fuel, 9, 0
  {
    match g.node(n)
    case Action(e) => Memoised(input, g, fuel, e, offset, memo)
    case Labeled(e) => Memoised(input, g, fuel, e, offset, memo)
    case And(e) =>
      (match Memoised(input, g, fuel, e, offset, memo)
       case Some(r) => Some(Run(Match(r.m.ok, offset), r.memo))
       case None => None)
    case Not(e) =>
      (match Memoised(input, g, fuel, e, offset, memo)
       case Some(r) => Some(Run(Match(!r.m.ok, offset), r.memo))
       case None => None)
    case Any => Some(Run(MatchAny(input, offset), memo))
    case CharClass(_, _, _, _, _) => Some(Run(MatchClass(input, g.node(n), offset), memo))
    case Lit(val, ignoreCase) => Some(Run(MatchLit(input, val, ignoreCase, offset, offset), memo))
    case Choice(alts) => MemoChoice(input, g, fuel, alts, offset, memo)
    case Seq(exprs) => MemoSeq(input, g, fuel, exprs, offset, offset, memo)
    case ZeroOrOne(e) =>
      (match Memoised(input, g, fuel, e, offset, memo)
       case Some(r) => Some(Run(Match(true, r.m.offset), r.memo))
       case None => None)
    case ZeroOrMore(e) => MemoStar(input, g, fuel, e, offset, memo)
    case OneOrMore(e) =>
      (match Memoised(input, g, fuel, e, offset, memo)
       case Some(r) => if r.m.ok then MemoStar(input, g, fuel, e, r.m.offset, r.memo) else Some(r)
       case None => None)
    case RuleRef(name) =>
      if name == "" then None
      else if name in g.rules then MemoRule(input, g, fuel, name, offset, memo)
      else Some(Run(Match(false, offset), memo))
  }

  function MemoRule(input: Input, g: Grammar, fuel: nat, name: string, offset: nat, memo: Memo): Option<Run>
    requires name in g.rules
    decreases fuel, 1, 0
  {
    match Lookup(memo, offset, RuleKey(name))
    case Some(entry) => Some(Run(Match(entry.b, entry.end.offset), memo))
    case None => Keep(input, RuleKey(name), offset, Memoised(input, g, fuel, g.rules[name], offset, memo))
  }

  function MemoChoice(input: Input, g: Grammar, fuel: nat, alts: seq<NodeId>, offset: nat, memo: Memo): Option<Run>
    decreases fuel, 1, |alts|
  {
    if alts == [] then Some(Run(Match(false, offset), memo)) else
    match Memoised(input, g, fuel, alts[0], offset, memo)
    case Some(r) => if r.m.ok then Some(r) else MemoChoice(input, g, fuel, alts[1..], r.m.offset, r.memo)
    case None => None
  }

  function MemoSeq(
    input: Input, g: Grammar, fuel: nat, exprs: seq<NodeId>, offset: nat, start: nat, memo: Memo): Option<Run>
    decreases fuel, 1, |exprs|
  {
    if exprs == [] then Some(Run(Match(true, offset), memo)) else
    match Memoised(input, g, fuel, exprs[0], offset, memo)
    case Some(r) =>
      if r.m.ok then MemoSeq(input, g, fuel, exprs[1..], r.m.offset, start, r.memo)
      else Some(Run(Match(false, start), r.memo))
    case None => None
  }

  function MemoStar(input: Input, g: Grammar, fuel: nat, e: NodeId, offset: nat, memo: Memo): Option<Run>
    decreases fuel, 1, 0
  {
    match Memoised(input, g, fuel, e, offset, memo)
    case Some(r) =>
      if !r.m.ok then Some(Run(Match(true, r.m.offset), r.memo))
      else if fuel == 0 then None
      else MemoStar(input, g, fuel - 1, e, r.m.offset, r.memo)
    case None => None
  }

  /** The larger of two depths. */
  function Max(a: nat, b: nat): nat {
    if a < b then b else a
  }

  lemma StoreIsSound(input: Input, g: Grammar, memo: Memo, key: Key, offset: nat, m: Match, fuel: nat)
    requires MemoSound(input, g, memo) && PlainKey(input, g, fuel, key, offset) == Some(m)
    ensures MemoSound(input, g, Store(memo, offset, key, Entry(input, m)))
  {
    assert Genuine(input, g, key, offset, Entry(input, m));
  }

  // ----- both ways of matching agree -----

  /** Whenever plain matching yields a result, so does matching with a sound memo, at the
      same depth and with the same result; and the memo stays sound. */
  ghost predicate Agrees(input: Input, g: Grammar, plain: Option<Match>, memoised: Option<Run>) {
    plain.Some? ==> memoised.Some? && memoised.value.m == plain.value && MemoSound(input, g, memoised.value.memo)
  }

  lemma {:induction false} PlainIsMemoised(input: Input, g: Grammar, fuel: nat, n: NodeId, offset: nat, memo: Memo)
    requires MemoSound(input, g, memo)
    ensures Agrees(input, g, Plain(input, g, fuel, n, offset), Memoised(input, g, fuel, n, offset, memo))
    decreases fuel, 0, 1
  {
    if Plain(input, g, fuel, n, offset).Some? {
      var entry := Lookup(memo, offset, NodeKey(n));
      if entry.Some? {
        RecallIsPlain(input, g, fuel, NodeKey(n), offset, memo);
      } else {
        PlainIsMemoBody(input, g, fuel, n, offset, memo);
        var r := MemoBody(input, g, fuel - 1, n, offset, memo).value;
        StoreIsSound(input, g, r.memo, NodeKey(n), offset, r.m, fuel);
      }
    }
  }

  lemma RecallIsPlain(input: Input, g: Grammar, fuel: nat, key: Key, offset: nat, memo: Memo)
    requires MemoSound(input, g, memo) && Lookup(memo, offset, key).Some? && PlainKey(input, g, fuel, key, offset).Some?
    ensures var entry := Lookup(memo, offset, key).value;
            PlainKey(input, g, fuel, key, offset) == Some(Match(entry.b, entry.end.offset))
  {
    var entry := memo[offset][key];
    var fuel': nat :| PlainKey(input, g, fuel', key, offset) == Some(Match(entry.b, entry.end.offset));
    PlainKeyUnique(input, g, fuel, fuel', key, offset);
  }

  lemma {:induction false} PlainIsMemoBody(input: Input, g: Grammar, fuel: nat, n: NodeId, offset: nat, memo: Memo)
    requires MemoSound(input, g, memo) && fuel > 0
    ensures Agrees(input, g, Plain(input, g, fuel, n, offset), MemoBody(input, g, fuel - 1, n, offset, memo))
    decreases fuel, 0, 0
  {
    match g.node(n)
    case Action(e) => PlainIsMemoised(input, g, fuel - 1, e, offset, memo);
    case Labeled(e) => PlainIsMemoised(input, g, fuel - 1, e, offset, memo);
    case And(e) => PlainIsMemoised(input, g, fuel - 1, e, offset, memo);
    case Not(e) => PlainIsMemoised(input, g, fuel - 1, e, offset, memo);
    case ZeroOrOne(e) => PlainIsMemoised(input, g, fuel - 1, e, offset, memo);
    case Choice(alts) => PlainIsMemoChoice(input, g, fuel - 1, alts, offset, memo);
    case Seq(exprs) => PlainIsMemoSeq(input, g, fuel - 1, exprs, offset, offset, memo);
    case ZeroOrMore(e) => PlainIsMemoStar(input, g, fuel - 1, e, offset, memo);
    case OneOrMore(e) =>
      PlainIsMemoised(input, g, fuel - 1, e, offset, memo);
      var r := Memoised(input, g, fuel - 1, e, offset, memo);
      if Plain(input, g, fuel - 1, e, offset).Some? && r.value.m.ok {
        PlainIsMemoStar(input, g, fuel - 1, e, r.value.m.offset, r.value.memo);
      }
    case RuleRef(name) =>
      if name in g.rules { PlainIsMemoRule(input, g, fuel - 1, name, offset, memo); }
    case _ =>
  }

  lemma {:induction false} PlainIsMemoRule(input: Input, g: Grammar, fuel: nat, name: string, offset: nat, memo: Memo)
    requires MemoSound(input, g, memo) && name in g.rules
    ensures Agrees(input, g, PlainRule(input, g, fuel, name, offset), MemoRule(input, g, fuel, name, offset, memo))
    decreases fuel, 1, 0
  {
    if PlainRule(input, g, fuel, name, offset).Some? {
      if Lookup(memo, offset, RuleKey(name)).Some? {
        RecallIsPlain(input, g, fuel, RuleKey(name), offset, memo);
      } else {
        PlainIsMemoised(input, g, fuel, g.rules[name], offset, memo);
        var r := Memoised(input, g, fuel, g.rules[name], offset, memo).value;
        StoreIsSound(input, g, r.memo, RuleKey(name), offset, r.m, fuel);
      }
    }
  }

  lemma {:induction false} PlainIsMemoChoice(
    input: Input, g: Grammar, fuel: nat, alts: seq<NodeId>, offset: nat, memo: Memo)
    requires MemoSound(input, g, memo)
    ensures Agrees(input, g, PlainChoice(input, g, fuel, alts, offset), MemoChoice(input, g, fuel, alts, offset, memo))
    decreases fuel, 1, |alts|
  {
    if alts != [] {
      PlainIsMemoised(input, g, fuel, alts[0], offset, memo);
      var r := Memoised(input, g, fuel, alts[0], offset, memo);
      if Plain(input, g, fuel, alts[0], offset).Some? {
        PlainIsMemoChoice(input, g, fuel, alts[1..], r.value.m.offset, r.value.memo);
      }
    }
  }

  lemma {:induction false} PlainIsMemoSeq(
    input: Input, g: Grammar, fuel: nat, exprs: seq<NodeId>, offset: nat, start: nat, memo: Memo)
    requires MemoSound(input, g, memo)
    ensures Agrees(input, g, PlainSeq(input, g, fuel, exprs, offset, start),
            MemoSeq(input, g, fuel, exprs, offset, start, memo))
    decreases fuel, 1, |exprs|
  {
    if exprs != [] {
      PlainIsMemoised(input, g, fuel, exprs[0], offset, memo);
      var r := Memoised(input, g, fuel, exprs[0], offset, memo);
      if Plain(input, g, fuel, exprs[0], offset).Some? {
        PlainIsMemoSeq(input, g, fuel, exprs[1..], r.value.m.offset, start, r.value.memo);
      }
    }
  }

  lemma {:induction false} PlainIsMemoStar(input: Input, g: Grammar, fuel: nat, e: NodeId, offset: nat, memo: Memo)
    requires MemoSound(input, g, memo)
    ensures Agrees(input, g, PlainStar(input, g, fuel, e, offset), MemoStar(input, g, fuel, e, offset, memo))
    decreases fuel, 1, 0
  {
    PlainIsMemoised(input, g, fuel, e, offset, memo);
    var r := Memoised(input, g, fuel, e, offset, memo);
    if PlainStar(input, g, fuel, e, offset).Some? && r.value.m.ok {
      PlainIsMemoStar(input, g, fuel - 1, e, r.value.m.offset, r.value.memo);
    }
  }

  /** If the memoised parser returns, so does plain matching at some depth, with the same
      result, and the memo it leaves is sound. */
  lemma {:induction false} MemoisedIsPlain(
    input: Input, g: Grammar, fuel: nat, n: NodeId, offset: nat, memo: Memo)
    returns (depth: nat)
    requires MemoSound(input, g, memo) && Memoised(input, g, fuel, n, offset, memo).Some?
    ensures var r := Memoised(input, g, fuel, n, offset, memo).value;
            Plain(input, g, depth, n, offset) == Some(r.m) && MemoSound(input, g, r.memo)
    decreases fuel, 0, 1
  {
    var entry := Lookup(memo, offset, NodeKey(n));
    if entry.Some? {
      depth :| PlainKey(input, g, depth, NodeKey(n), offset) == Some(Match(entry.value.b, entry.value.end.offset));
    } else {
      depth := MemoBodyIsPlain(input, g, fuel - 1, n, offset, memo);
      var r := MemoBody(input, g, fuel - 1, n, offset, memo).value;
      StoreIsSound(input, g, r.memo, NodeKey(n), offset, r.m, depth);
    }
  }

  lemma {:induction false} MemoBodyIsPlain(
    input: Input, g: Grammar, fuel: nat, n: NodeId, offset: nat, memo: Memo)
    returns (depth: nat)
    requires MemoSound(input, g, memo) && MemoBody(input, g, fuel, n, offset, memo).Some?
    ensures var r := MemoBody(input, g, fuel, n, offset, memo).value;
            Plain(input, g, depth, n, offset) == Some(r.m) && MemoSound(input, g, r.memo)
    decreases fuel, 9, 0
  {
    depth := 0;
    match g.node(n) {
    case Action(e) => depth := MemoisedIsPlain(input, g, fuel, e, offset, memo);
    case Labeled(e) => depth := MemoisedIsPlain(input, g, fuel, e, offset, memo);
    case And(e) => depth := MemoisedIsPlain(input, g, fuel, e, offset, memo);
    case Not(e) => depth := MemoisedIsPlain(input, g, fuel, e, offset, memo);
    case ZeroOrOne(e) => depth := MemoisedIsPlain(input, g, fuel, e, offset, memo);
    case Choice(alts) => depth := MemoChoiceIsPlain(input, g, fuel, alts, offset, memo);
    case Seq(exprs) => depth := MemoSeqIsPlain(input, g, fuel, exprs, offset, offset, memo);
    case ZeroOrMore(e) => depth := MemoStarIsPlain(input, g, fuel, e, offset, memo);
    case OneOrMore(e) => depth := MemoPlusIsPlain(input, g, fuel, e, offset, memo);
    case RuleRef(name) =>
      if name in g.rules { depth := MemoRuleIsPlain(input, g, fuel, name, offset, memo); }
    case _ =>
    }
    depth := depth + 1;
  }

  /** The two parts of a repetition that must match once. */
  lemma {:induction false} MemoPlusIsPlain(
    input: Input, g: Grammar, fuel: nat, e: NodeId, offset: nat, memo: Memo)
    returns (depth: nat)
    requires MemoSound(input, g, memo) && Memoised(input, g, fuel, e, offset, memo).Some?
    requires var r := Memoised(input, g, fuel, e, offset, memo).value;
             r.m.ok ==> MemoStar(input, g, fuel, e, r.m.offset, r.memo).Some?
    ensures var r := Memoised(input, g, fuel, e, offset, memo).value;
            && Plain(input, g, depth, e, offset) == Some(r.m)
            && MemoSound(input, g, r.memo)
            && (r.m.ok ==>
                  var s := MemoStar(input, g, fuel, e, r.m.offset, r.memo).value;
                  PlainStar(input, g, depth, e, r.m.offset) == Some(s.m) && MemoSound(input, g, s.memo))
    decreases fuel, 8, 0
  {
    depth := MemoisedIsPlain(input, g, fuel, e, offset, memo);
    var r := Memoised(input, g, fuel, e, offset, memo).value;
    if r.m.ok {
      var d := MemoStarIsPlain(input, g, fuel, e, r.m.offset, r.memo);
      PlainMonotone(input, g, depth, Max(depth, d), e, offset);
      StarMonotone(input, g, d, Max(depth, d), e, r.m.offset);
      depth := Max(depth, d);
    }
  }

  lemma {:induction false} MemoRuleIsPlain(
    input: Input, g: Grammar, fuel: nat, name: string, offset: nat, memo: Memo)
    returns (depth: nat)
    requires MemoSound(input, g, memo) && name in g.rules && MemoRule(input, g, fuel, name, offset, memo).Some?
    ensures var r := MemoRule(input, g, fuel, name, offset, memo).value;
            PlainRule(input, g, depth, name, offset) == Some(r.m) && MemoSound(input, g, r.memo)
    decreases fuel, 1, 0
  {
    var entry := Lookup(memo, offset, RuleKey(name));
    if entry.Some? {
      depth :| PlainKey(input, g, depth, RuleKey(name), offset) == Some(Match(entry.value.b, entry.value.end.offset));
    } else {
      depth := MemoisedIsPlain(input, g, fuel, g.rules[name], offset, memo);
      var r := Memoised(input, g, fuel, g.rules[name], offset, memo).value;
      StoreIsSound(input, g, r.memo, RuleKey(name), offset, r.m, depth);
    }
  }

  lemma {:induction false} MemoChoiceIsPlain(
    input: Input, g: Grammar, fuel: nat, alts: seq<NodeId>, offset: nat, memo: Memo)
    returns (depth: nat)
    requires MemoSound(input, g, memo) && MemoChoice(input, g, fuel, alts, offset, memo).Some?
    ensures var r := MemoChoice(input, g, fuel, alts, offset, memo).value;
            PlainChoice(input, g, depth, alts, offset) == Some(r.m) && MemoSound(input, g, r.memo)
    decreases fuel, 1, |alts|
  {
    depth := 0;
    if alts != [] {
      depth := MemoisedIsPlain(input, g, fuel, alts[0], offset, memo);
      var r := Memoised(input, g, fuel, alts[0], offset, memo).value;
      if !r.m.ok {
        var d := MemoChoiceIsPlain(input, g, fuel, alts[1..], r.m.offset, r.memo);
        PlainMonotone(input, g, depth, Max(depth, d), alts[0], offset);
        ChoiceMonotone(input, g, d, Max(depth, d), alts[1..], r.m.offset);
        depth := Max(depth, d);
      }
    }
  }

  lemma {:induction false} MemoSeqIsPlain(
    input: Input, g: Grammar, fuel: nat, exprs: seq<NodeId>, offset: nat, start: nat, memo: Memo)
    returns (depth: nat)
    requires MemoSound(input, g, memo) && MemoSeq(input, g, fuel, exprs, offset, start, memo).Some?
    ensures var r := MemoSeq(input, g, fuel, exprs, offset, start, memo).value;
            PlainSeq(input, g, depth, exprs, offset, start) == Some(r.m) && MemoSound(input, g, r.memo)
    decreases fuel, 1, |exprs|
  {
    depth := 0;
    if exprs != [] {
      depth := MemoisedIsPlain(input, g, fuel, exprs[0], offset, memo);
      var r := Memoised(input, g, fuel, exprs[0], offset, memo).value;
      if r.m.ok {
        var d := MemoSeqIsPlain(input, g, fuel, exprs[1..], r.m.offset, start, r.memo);
        PlainMonotone(input, g, depth, Max(depth, d), exprs[0], offset);
        SeqMonotone(input, g, d, Max(depth, d), exprs[1..], r.m.offset, start);
        depth := Max(depth, d);
      }
    }
  }

  lemma {:induction false} MemoStarIsPlain(
    input: Input, g: Grammar, fuel: nat, e: NodeId, offset: nat, memo: Memo)
    returns (depth: nat)
    requires MemoSound(input, g, memo) && MemoStar(input, g, fuel, e, offset, memo).Some?
    ensures var r := MemoStar(input, g, fuel, e, offset, memo).value;
            PlainStar(input, g, depth, e, offset) == Some(r.m) && MemoSound(input, g, r.memo)
    decreases fuel, 1, 0
  {
    depth := MemoisedIsPlain(input, g, fuel, e, offset, memo);
    var r := Memoised(input, g, fuel, e, offset, memo).value;
    if r.m.ok {
      var d := MemoStarIsPlain(input, g, fuel - 1, e, r.m.offset, r.memo);
      var top := Max(depth, d + 1);
      PlainMonotone(input, g, depth, top, e, offset);
      StarMonotone(input, g, d, top - 1, e, r.m.offset);
      depth := top;
    }
  }

  /** Plain matching returns exactly when matching with an empty memo does. */
  lemma PackratReturnsIff(input: Input, g: Grammar, n: NodeId, offset: nat)
    ensures (exists fuel: nat :: Plain(input, g, fuel, n, offset).Some?)
            <==> exists fuel: nat :: Memoised(input, g, fuel, n, offset, map[]).Some?
  {
    if exists fuel: nat :: Plain(input, g, fuel, n, offset).Some? {
      var fuel: nat :| Plain(input, g, fuel, n, offset).Some?;
      PlainIsMemoised(input, g, fuel, n, offset, map[]);
    }
    if exists fuel: nat :: Memoised(input, g, fuel, n, offset, map[]).Some? {
      var fuel: nat :| Memoised(input, g, fuel, n, offset, map[]).Some?;
      var _ := MemoisedIsPlain(input, g, fuel, n, offset, map[]);
    }
  }

  /** And then they return the same match flag and end offset. */
  lemma PackratIsPlain(input: Input, g: Grammar, n: NodeId, offset: nat, fuel: nat, fuel': nat)
    requires Plain(input, g, fuel, n, offset).Some? && Memoised(input, g, fuel', n, offset, map[]).Some?
    ensures Memoised(input, g, fuel', n, offset, map[]).value.m == Plain(input, g, fuel, n, offset).value
  {
    var depth := MemoisedIsPlain(input, g, fuel', n, offset, map[]);
    PlainKeyUnique(input, g, fuel, depth, NodeKey(n), offset);
  }

  // ----- the parser -----

  /** The memoising parser. Its methods carry a ghost depth, which only serves to show
      that they terminate. */
  class Parser {
    const input: Input
    const g: Grammar
    var pt: Savepoint
    var memo: Memo

    ghost predicate Valid()
      reads this
    {
      Loaded(input, pt) && forall offset, key | offset in memo && key in memo[offset] ::
        Loaded(input, memo[offset][key].end)
    }

    constructor (input: Input, g: Grammar)
      ensures this.input == input && this.g == g
      ensures Valid() && pt.offset == 0 && memo == map[]
    {
      this.input, this.g := input, g;
      memo := map[];
      pt := Savepoint(0, 0, 0);
      new;
      Read();
    }

    /** `read`. */
    method Read()
      modifies this`pt
      ensures pt.offset == old(pt.offset + pt.w) && Loaded(input, pt)
    {
      var offset := pt.offset + pt.w;
      pt := Savepoint(offset, input.rune(offset), input.width(offset));
    }

    /** `restore`. */
    method Restore(to: Savepoint)
      requires Loaded(input, pt) && Loaded(input, to)
      modifies this`pt
      ensures pt == to
    {
      if to.offset != pt.offset {
        pt := to;
      }
    }

    /** The look-up at the head of `parseRule` and `parseExpr`. */
    method Recall(key: Key) returns (hit: bool, ok: bool)
      requires Valid()
      modifies this`pt
      ensures Valid() && hit == Lookup(memo, old(pt.offset), key).Some?
      ensures if hit then Lookup(memo, old(pt.offset), key) == Some(ResultTuple(ok, pt)) else pt == old(pt)
    {
      hit, ok := false, false;
      var entry := Lookup(memo, pt.offset, key);
      if entry.Some? {
        Restore(entry.value.end);
        hit, ok := true, entry.value.b;
      }
    }

    /** `setMemoized`, at the end of `parseRule` and `parseExpr`. */
    method Remember(start: Savepoint, key: Key, ok: bool)
      requires Valid()
      modifies this`memo
      ensures Valid() && memo == Store(old(memo), start.offset, key, Entry(input, Match(ok, pt.offset)))
    {
      memo := Store(memo, start.offset, key, ResultTuple(ok, pt));
    }

    /** Whenever plain matching yields a result for the start rule, the parser terminates
        with that result. */
    method Parse(start: string, ghost fuel: nat) returns (ok: bool)
      requires Valid() && pt.offset == 0 && memo == map[]
      requires start in g.rules && PlainRule(input, g, fuel, start, 0).Some?
      modifies this
      ensures PlainRule(input, g, fuel, start, 0) == Some(Match(ok, pt.offset))
      ensures MemoSound(input, g, memo)
    {
      PlainIsMemoRule(input, g, fuel, start, 0, memo);
      ok := ParseRule(start, fuel);
    }

    /** `parseRule`. */
    method ParseRule(name: string, ghost fuel: nat) returns (ok: bool)
      requires Valid() && name in g.rules && MemoRule(input, g, fuel, name, pt.offset, memo).Some?
      modifies this
      ensures Valid() && old(MemoRule(input, g, fuel, name, pt.offset, memo)) == Some(Run(Match(ok, pt.offset), memo))
      decreases fuel, 1
    {
      var hit;
      hit, ok := Recall(RuleKey(name));
      if hit { return; }
      var start := pt;
      ok := ParseExpr(g.rules[name], fuel);
      Remember(start, RuleKey(name), ok);
    }

    /** `parseExpr`. */
    method ParseExpr(n: NodeId, ghost fuel: nat) returns (ok: bool)
      requires Valid() && Memoised(input, g, fuel, n, pt.offset, memo).Some?
      modifies this
      ensures Valid() && old(Memoised(input, g, fuel, n, pt.offset, memo)) == Some(Run(Match(ok, pt.offset), memo))
      decreases fuel, 0, 1
    {
      var hit;
      hit, ok := Recall(NodeKey(n));
      if hit { return; }
      var start := pt;
      ok := ParseNode(n, fuel - 1);
      Remember(start, NodeKey(n), ok);
    }

    /** The dispatch of `parseExpr`, with the short `parse*Expr` methods in place. */
    method ParseNode(n: NodeId, ghost fuel: nat) returns (ok: bool)
      requires Valid() && MemoBody(input, g, fuel, n, pt.offset, memo).Some?
      modifies this
      ensures Valid() && old(MemoBody(input, g, fuel, n, pt.offset, memo)) == Some(Run(Match(ok, pt.offset), memo))
      decreases fuel, 9
    {
      var start := pt;
      match g.node(n) {
        case Action(e) => ok := ParseExpr(e, fuel);
        case Labeled(e) => ok := ParseExpr(e, fuel);
        case And(e) =>
          ok := ParseExpr(e, fuel);
          Restore(start);
        case Not(e) =>
          ok := ParseExpr(e, fuel);
          ok := !ok;
          Restore(start);
        case Any => ok := ParseAny();
        case CharClass(_, _, _, _, _) => ok := ParseCharClass(g.node(n));
        case Lit(val, ignoreCase) => ok := ParseLit(val, ignoreCase);
        case Choice(alternatives) => ok := ParseChoice(alternatives, fuel);
        case Seq(exprs) => ok := ParseSeq(exprs, fuel);
        case ZeroOrOne(e) =>
          ok := ParseExpr(e, fuel);
          ok := true;
        case ZeroOrMore(e) =>
          ParseStar(e, fuel);
          ok := true;
        case OneOrMore(e) =>
          ok := ParseExpr(e, fuel);
          if ok { ParseStar(e, fuel); }
        case RuleRef(name) =>
          if name in g.rules {
            ok := ParseRule(name, fuel);
          } else {
            ok := false;
          }
      }
    }

    method ParseAny() returns (ok: bool)
      requires Valid()
      modifies this`pt
      ensures Valid() && Match(ok, pt.offset) == MatchAny(input, old(pt.offset))
    {
      ok := pt.rn != RUNE_ERROR;
      if ok { Read(); }
    }

    /** `parseCharClassMatcher`: the characters, the ranges and the Unicode classes are tried in
        turn, and the first that holds the rune decides. */
    method ParseCharClass(e: Expr) returns (ok: bool)
      requires Valid() && e.CharClass?
      modifies this`pt
      ensures Valid() && Match(ok, pt.offset) == MatchClass(input, e, old(pt.offset))
    {
      var cur := pt.rn;
      if cur == RUNE_ERROR {
        return false;
      }
      if e.ignoreCase {
        cur := input.lower(cur);
      }
      var held := HeldByClass(e, cur);
      ok := held != e.inverted;
      if ok { Read(); }
    }

    method HeldByClass(e: Expr, cur: int) returns (held: bool)
      requires e.CharClass?
      ensures held == InClass(input, e, cur)
    {
      for i := 0 to |e.chars|
        invariant cur !in e.chars[..i]
      {
        if e.chars[i] == cur { return true; }
      }
      for i := 0 to |e.ranges|
        invariant forall k | 0 <= k < i :: !(e.ranges[k].0 <= cur <= e.ranges[k].1)
      {
        if cur >= e.ranges[i].0 && cur <= e.ranges[i].1 { return true; }
      }
      for i := 0 to |e.classes|
        invariant forall k | 0 <= k < i :: !input.isClass(e.classes[k], cur)
      {
        var c := e.classes[i];
        if input.isClass(c, cur) {
          assert c in e.classes && exists x | x in e.classes :: input.isClass(x, cur);
          return true;
        }
      }
      held := false;
    }

    /** `parseLitMatcher`. */
    method ParseLit(val: seq<int>, ignoreCase: bool) returns (ok: bool)
      requires Valid()
      modifies this`pt
      ensures Valid() && Match(ok, pt.offset) == MatchLit(input, val, ignoreCase, old(pt.offset), old(pt.offset))
    {
      var start := pt;
      for i := 0 to |val|
        invariant Valid()
        invariant MatchLit(input, val[i..], ignoreCase, pt.offset, start.offset)
               == MatchLit(input, val, ignoreCase, start.offset, start.offset)
      {
        if Fold(input, ignoreCase, pt.rn) != val[i] {
          Restore(start);
          return false;
        }
        assert val[i..][1..] == val[i + 1..];
        Read();
      }
      ok := true;
    }

    /** `parseChoiceExpr`. */
    method ParseChoice(alts: seq<NodeId>, ghost fuel: nat) returns (ok: bool)
      requires Valid() && MemoChoice(input, g, fuel, alts, pt.offset, memo).Some?
      modifies this
      ensures Valid() && old(MemoChoice(input, g, fuel, alts, pt.offset, memo)) == Some(Run(Match(ok, pt.offset), memo))
      decreases fuel, 1
    {
      for i := 0 to |alts|
        invariant Valid()
        invariant MemoChoice(input, g, fuel, alts[i..], pt.offset, memo)
                == old(MemoChoice(input, g, fuel, alts, pt.offset, memo))
      {
        assert alts[i..][1..] == alts[i + 1..];
        ok := ParseExpr(alts[i], fuel);
        if ok { return; }
      }
      ok := false;
    }

    /** `parseSeqExpr`. */
    method ParseSeq(exprs: seq<NodeId>, ghost fuel: nat) returns (ok: bool)
      requires Valid() && MemoSeq(input, g, fuel, exprs, pt.offset, pt.offset, memo).Some?
      modifies this
      ensures Valid()
      ensures old(MemoSeq(input, g, fuel, exprs, pt.offset, pt.offset, memo)) == Some(Run(Match(ok, pt.offset), memo))
      decreases fuel, 1
    {
      var start := pt;
      for i := 0 to |exprs|
        invariant Valid()
        invariant MemoSeq(input, g, fuel, exprs[i..], pt.offset, start.offset, memo)
               == old(MemoSeq(input, g, fuel, exprs, pt.offset, pt.offset, memo))
      {
        assert exprs[i..][1..] == exprs[i + 1..];
        ok := ParseExpr(exprs[i], fuel);
        if !ok {
          Restore(start);
          return;
        }
      }
      ok := true;
    }

    /** The loop of `parseZeroOrMoreExpr`, and of `parseOneOrMoreExpr` after its first
        match. */
    method ParseStar(e: NodeId, ghost fuel: nat)
      requires Valid() && MemoStar(input, g, fuel, e, pt.offset, memo).Some?
      modifies this
      ensures Valid() && old(MemoStar(input, g, fuel, e, pt.offset, memo)) == Some(Run(Match(true, pt.offset), memo))
      decreases fuel, 1
    {
      ghost var left: nat := fuel;
      while true
        invariant Valid() && left <= fuel
        invariant MemoStar(input, g, left, e, pt.offset, memo).Some?
        invariant MemoStar(input, g, left, e, pt.offset, memo) == old(MemoStar(input, g, fuel, e, pt.offset, memo))
        decreases left
      {
        var ok := ParseExpr(e, left);
        if !ok { return; }
        left := left - 1;
      }
    }
  }
}
