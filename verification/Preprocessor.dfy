/**
  NestingState's checkpoints at preprocessor conditionals. What the rest of Update does with one line
  (namespaces, classes, braces) is the parameter `step`, a function of the nesting stack and the line;
  the results hold for every such function.
 */
module Preprocessor {
  import opened Brackets
  import opened Wrappers

  datatype Directive = If | Else | Endif | Other

  function SkipSpace(s: string): string {
    if s != [] && IsSpace(s[0]) then SkipSpace(s[1..]) else s
  }

  function Word(s: string): string {
    if s != [] && IsWord(s[0]) then [s[0]] + Word(s[1..]) else []
  }

  /** The three patterns of UpdatePreprocessor. */
  function Kind(line: string): Directive {
    var s := SkipSpace(line);
    if s == [] || s[0] != '#' then Other
    else
      var w := Word(SkipSpace(s[1..]));
      if w == "if" || w == "ifdef" || w == "ifndef" then If
      else if w == "else" || w == "elif" then Else
      else if w == "endif" then Endif
      else Other
  }

  lemma {:induction false} SkipsSpace(a: string, rest: string)
    requires (forall c <- a :: IsSpace(c)) && (rest == [] || !IsSpace(rest[0]))
    ensures SkipSpace(a + rest) == rest
  {
    if a == [] {
      assert a + rest == rest;
    } else {
      assert (a + rest)[1..] == a[1..] + rest && a[0] in a;
      SkipsSpace(a[1..], rest);
    }
  }

  lemma {:induction false} TakesWord(w: string, rest: string)
    requires (forall c <- w :: IsWord(c)) && (rest == [] || !IsWord(rest[0]))
    ensures Word(w + rest) == w
  {
    if w == [] {
      assert w + rest == rest;
    } else {
      assert (w + rest)[1..] == w[1..] + rest && w[0] in w;
      TakesWord(w[1..], rest);
    }
  }

  /** A directive is recognized by its whole first word, whatever space is around the # and whatever follows. */
  lemma KindOfDirective(a: string, b: string, w: string, rest: string)
    requires (forall c <- a :: IsSpace(c)) && (forall c <- b :: IsSpace(c))
    requires (forall c <- w :: IsWord(c)) && (rest == [] || !IsWord(rest[0]))
    requires w == [] && rest != [] ==> !IsSpace(rest[0])
    ensures Kind(a + ("#" + (b + (w + rest)))) ==
            if w in {"if", "ifdef", "ifndef"} then If else if w in {"else", "elif"} then Else
            else if w == "endif" then Endif else Other
  {
    hide SkipSpace, Word;
    SkipsSpace(a, "#" + (b + (w + rest)));
    assert w != [] ==> w[0] in w;
    SkipsSpace(b, w + rest);
    TakesWord(w, rest);
    assert ("#" + (b + (w + rest)))[1..] == b + (w + rest);
  }

  /** A line whose first character behind the space is not # is no directive, and neither is an empty one. */
  lemma KindOfOther(a: string, rest: string)
    requires (forall c <- a :: IsSpace(c)) && (rest == [] || (!IsSpace(rest[0]) && rest[0] != '#'))
    ensures Kind(a + rest) == Other
  {
    hide SkipSpace, Word;
    SkipsSpace(a, rest);
  }

  /** _PreprocessorInfo. */
  datatype Info<B> = Info(beforeIf: seq<B>, beforeElse: seq<B>, seenElse: bool)

  datatype State<B> = State(stack: seq<B>, pp: seq<Info<B>>)

  function PpStep<B>(s: State<B>, d: Directive): State<B> {
    match d
    case If => s.(pp := s.pp + [Info(s.stack, [], false)])
    case Else =>
      if s.pp == [] then s
      else
        var top := s.pp[|s.pp| - 1];
        var top' := if top.seenElse then top else top.(seenElse := true, beforeElse := s.stack);
        State(top.beforeIf, s.pp[..|s.pp| - 1] + [top'])
    case Endif =>
      if s.pp == [] then s
      else
        var top := s.pp[|s.pp| - 1];
        State(if top.seenElse then top.beforeElse else s.stack, s.pp[..|s.pp| - 1])
    case Other => s
  }

  /** Update: first the preprocessor, then the line itself. */
  function LineStep<B, L>(kind: L -> Directive, step: (seq<B>, L) -> seq<B>, s: State<B>, line: L): State<B> {
    var s' := PpStep(s, kind(line));
    s'.(stack := step(s'.stack, line))
  }

  function Lines<B, L>(kind: L -> Directive, step: (seq<B>, L) -> seq<B>, s: State<B>, ls: seq<L>): State<B> {
    if ls == [] then s else LineStep(kind, step, Lines(kind, step, s, ls[..|ls| - 1]), ls[|ls| - 1])
  }

  function Fold<B, L>(step: (seq<B>, L) -> seq<B>, stack: seq<B>, ls: seq<L>): seq<B> {
    if ls == [] then stack else step(Fold(step, stack, ls[..|ls| - 1]), ls[|ls| - 1])
  }

  // ---------- The object ----------

  class NestingState<B> {
    var stack: seq<B>
    var ppStack: seq<Info<B>>

    ghost function Value(): State<B>
      reads this
    {
      State(stack, ppStack)
    }

    constructor ()
      ensures Value() == State([], [])
    {
      stack, ppStack := [], [];
    }

    method UpdatePreprocessor(line: string)
      modifies this
      ensures Value() == PpStep(old(Value()), Kind(line))
    {
      var d, n := Kind(line), |ppStack|;
      if d == If {
        ppStack := ppStack + [Info(stack, [], false)];
      } else if d == Else {
        if n > 0 {
          if !ppStack[n - 1].seenElse {
            ppStack := ppStack[n - 1 := Info(ppStack[n - 1].beforeIf, stack, true)];
          }
          stack := ppStack[n - 1].beforeIf;
          assert ppStack == ppStack[..n - 1] + [ppStack[n - 1]];
        }
      } else if d == Endif {
        if n > 0 {
          if ppStack[n - 1].seenElse { stack := ppStack[n - 1].beforeElse; }
          ppStack := ppStack[..n - 1];
        }
      }
    }

    method Update(lines: seq<string>, linenum: nat, step: (seq<B>, nat) -> seq<B>)
      requires linenum < |lines|
      modifies this
      ensures Value() == LineStep(KindOf(lines), step, old(Value()), linenum)
    {
      UpdatePreprocessor(lines[linenum]);
      stack := step(stack, linenum);
    }
  }

  function KindOf(lines: seq<string>): nat -> Directive {
    (n: nat) => if n < |lines| then Kind(lines[n]) else Other
  }

  // ---------- Every sequence of lines ----------

  /** The stack that counts: the current one, or the one saved at the outermost #else still open. */
  function Trunk<B>(pp: seq<Info<B>>, stack: seq<B>): seq<B> {
    if pp == [] then stack
    else if pp[0].seenElse then pp[0].beforeElse
    else Trunk(pp[1..], stack)
  }

  /** Which conditionals are open, outermost first, and which of them are past an #else or #elif. */
  function Flags<L>(kind: L -> Directive, ls: seq<L>): seq<bool> {
    if ls == [] then [] else FlagStep(Flags(kind, ls[..|ls| - 1]), kind(ls[|ls| - 1]))
  }

  function FlagStep(f: seq<bool>, d: Directive): seq<bool> {
    match d
    case If => f + [false]
    case Else => if f == [] then f else f[|f| - 1 := true]
    case Endif => if f == [] then f else f[..|f| - 1]
    case Other => f
  }

  /** The lines that lie outside every #else and #elif branch. */
  function Kept<L>(kind: L -> Directive, ls: seq<L>): seq<L> {
    if ls == [] then []
    else Kept(kind, ls[..|ls| - 1]) + if true in Flags(kind, ls) then [] else [ls[|ls| - 1]]
  }

  function Seen<B>(pp: seq<Info<B>>): (f: seq<bool>)
    ensures |f| == |pp|
  {
    seq(|pp|, i requires 0 <= i < |pp| => pp[i].seenElse)
  }

  lemma {:induction false} TrunkSnoc<B>(pp: seq<Info<B>>, x: Info<B>, stack: seq<B>)
    ensures Trunk(pp + [x], stack) == Trunk(pp, if x.seenElse then x.beforeElse else stack)
    decreases |pp|
  {
    if pp == [] {
      assert ([x])[1..] == [] && pp + [x] == [x];
    } else {
      assert (pp + [x])[1..] == pp[1..] + [x];
      TrunkSnoc(pp[1..], x, stack);
    }
  }

  lemma {:induction false} TrunkOf<B>(pp: seq<Info<B>>, a: seq<B>, b: seq<B>)
    ensures true !in Seen(pp) ==> Trunk(pp, a) == a
    ensures true in Seen(pp) ==> Trunk(pp, a) == Trunk(pp, b)
    decreases |pp|
  {
    if pp != [] {
      assert Seen(pp) == [pp[0].seenElse] + Seen(pp[1..]);
      TrunkOf(pp[1..], a, b);
    }
  }

  /** No directive changes the stack that counts. */
  lemma PpKeepsTrunk<B>(s: State<B>, d: Directive)
    ensures var s' := PpStep(s, d); Trunk(s'.pp, s'.stack) == Trunk(s.pp, s.stack)
  {
    if d == If {
      TrunkSnoc(s.pp, Info(s.stack, [], false), s.stack);
    } else if s.pp != [] && d != Other {
      var rest, top := s.pp[..|s.pp| - 1], s.pp[|s.pp| - 1];
      assert s.pp == rest + [top];
      TrunkSnoc(rest, top, s.stack);
      if d == Else {
        var top' := if top.seenElse then top else top.(seenElse := true, beforeElse := s.stack);
        TrunkSnoc(rest, top', top.beforeIf);
      }
    }
  }

  lemma SeenFollows<B>(s: State<B>, d: Directive)
    ensures Seen(PpStep(s, d).pp) == FlagStep(Seen(s.pp), d)
  {
  }

  /**
    For every sequence of lines, nested and balanced or not: the stack that counts is the fold of `step`
    over exactly the lines outside #else and #elif branches. Outside them it is the nesting stack itself.
   */
  lemma {:induction false} CheckpointsDeleteBranches<B, L>(
    kind: L -> Directive, step: (seq<B>, L) -> seq<B>, ls: seq<L>)
    ensures var s := Lines(kind, step, State([], []), ls);
            && Seen(s.pp) == Flags(kind, ls)
            && Trunk(s.pp, s.stack) == Fold(step, [], Kept(kind, ls))
            && (true !in Flags(kind, ls) ==> s.stack == Fold(step, [], Kept(kind, ls)))
    decreases |ls|
  {
    hide Seen, PpStep, Trunk, FlagStep;
    if ls == [] {
      TrunkOf<B>([], [], []);
      NothingSeen<B>();
    } else {
      var line := ls[|ls| - 1];
      var s := Lines(kind, step, State([], []), ls[..|ls| - 1]);
      var mid := PpStep(s, kind(line));
      var post := LineStep(kind, step, s, line);
      CheckpointsDeleteBranches(kind, step, ls[..|ls| - 1]);
      PpKeepsTrunk(s, kind(line));
      SeenFollows(s, kind(line));
      TrunkOf(mid.pp, mid.stack, post.stack);
      TrunkOf(post.pp, post.stack, mid.stack);
      var kept := Kept(kind, ls[..|ls| - 1]);
      assert (kept + [line])[..|kept|] == kept && kept + [] == kept;
    }
  }

  lemma NothingSeen<B>()
    ensures Seen<B>([]) == []
  {
  }

  // ---------- The stack at every line ----------

  /** The line of the innermost #if that is open behind these lines. */
  function OpenIf<L>(kind: L -> Directive, ls: seq<L>): (r: Option<nat>)
    ensures r.Some? ==> r.value < |ls|
    decreases |ls|
  {
    if ls == [] then None
    else
      var init, n := ls[..|ls| - 1], |ls| - 1;
      match kind(ls[n])
      case If => Some(n)
      case Endif =>
        var i := OpenIf(kind, init);
        if i.None? then None else OpenIf(kind, ls[..i.value])
      case _ => OpenIf(kind, init)
  }

  /** The line of the first #else or #elif of that conditional. */
  function FirstElse<L>(kind: L -> Directive, ls: seq<L>): (r: Option<nat>)
    ensures r.Some? ==> r.value < |ls|
    decreases |ls|
  {
    if ls == [] then None
    else
      var init, n := ls[..|ls| - 1], |ls| - 1;
      match kind(ls[n])
      case If => None
      case Else => if OpenIf(kind, init).None? || FirstElse(kind, init).Some? then FirstElse(kind, init) else Some(n)
      case Endif =>
        var i := OpenIf(kind, init);
        if i.None? then None else FirstElse(kind, ls[..i.value])
      case Other => FirstElse(kind, init)
  }

  /**
    The lines that the stack behind these lines comes from: an #else or #elif goes on from before its #if, an
    #endif from before the first #else of its conditional if there is one, any other line from the line before.
   */
  function Current<L>(kind: L -> Directive, ls: seq<L>): seq<L>
    decreases |ls|
  {
    if ls == [] then [] else Current(kind, ls[..Resumes(kind, ls)]) + [ls[|ls| - 1]]
  }

  function Resumes<L>(kind: L -> Directive, ls: seq<L>): (r: nat)
    requires ls != []
    ensures r < |ls|
  {
    var init, n := ls[..|ls| - 1], |ls| - 1;
    match kind(ls[n])
    case Else => if OpenIf(kind, init).Some? then OpenIf(kind, init).value else n
    case Endif => if FirstElse(kind, init).Some? then FirstElse(kind, init).value else n
    case _ => n
  }

  /** The checkpoints are the stacks before the #if and before the first #else of each open conditional. */
  ghost predicate Checkpoints<B, L>(
    kind: L -> Directive, step: (seq<B>, L) -> seq<B>, stack: seq<B>, ls: seq<L>, pp: seq<Info<B>>)
    decreases |ls|
  {
    var i, e := OpenIf(kind, ls), FirstElse(kind, ls);
    if i.None? then pp == [] && e.None?
    else
      && pp != []
      && Checkpoints(kind, step, stack, ls[..i.value], pp[..|pp| - 1])
      && var top := pp[|pp| - 1];
         && top.beforeIf == Fold(step, stack, Current(kind, ls[..i.value]))
         && top.seenElse == e.Some?
         && (e.Some? ==> top.beforeElse == Fold(step, stack, Current(kind, ls[..e.value])))
  }

  lemma FoldSnoc<B, L>(step: (seq<B>, L) -> seq<B>, stack: seq<B>, ls: seq<L>, l: L)
    ensures Fold(step, stack, ls + [l]) == step(Fold(step, stack, ls), l)
  {
    assert (ls + [l])[..|ls|] == ls;
  }

  /** Behind an #endif the outer conditionals are those that were open before the #if. */
  lemma CloseStep<B, L>(
    kind: L -> Directive, step: (seq<B>, L) -> seq<B>, stack: seq<B>, ls: seq<L>, pp: seq<Info<B>>)
    requires ls != [] && Checkpoints(kind, step, stack, ls[..|ls| - 1], pp)
    requires kind(ls[|ls| - 1]) == Endif && OpenIf(kind, ls[..|ls| - 1]).Some?
    ensures Checkpoints(kind, step, stack, ls, pp[..|pp| - 1])
  {
    hide Fold, Current;
    var init := ls[..|ls| - 1];
    var i := OpenIf(kind, init).value;
    assert init[..i] == ls[..i];
    var outer := ls[..i];
    var o, e := OpenIf(kind, outer), FirstElse(kind, outer);
    assert o.Some? ==> outer[..o.value] == ls[..o.value];
    assert e.Some? ==> outer[..e.value] == ls[..e.value];
  }

  lemma OpenStep<B, L>(
    kind: L -> Directive, step: (seq<B>, L) -> seq<B>, stack: seq<B>, ls: seq<L>, pp: seq<Info<B>>, info: Info<B>)
    requires ls != [] && kind(ls[|ls| - 1]) == If && Checkpoints(kind, step, stack, ls[..|ls| - 1], pp)
    requires info.beforeIf == Fold(step, stack, Current(kind, ls[..|ls| - 1])) && !info.seenElse
    ensures Checkpoints(kind, step, stack, ls, pp + [info])
  {
    hide Fold, Current;
    assert (pp + [info])[..|pp|] == pp;
  }

  /** A line that opens and closes no conditional keeps the checkpoints, apart from a first #else. */
  lemma StayStep<B, L>(
    kind: L -> Directive, step: (seq<B>, L) -> seq<B>, stack: seq<B>, ls: seq<L>, pp: seq<Info<B>>)
    requires ls != [] && Checkpoints(kind, step, stack, ls[..|ls| - 1], pp)
    requires var d := kind(ls[|ls| - 1]);
             d == Other || (d != If && pp == []) || (d == Else && pp[|pp| - 1].seenElse)
    ensures Checkpoints(kind, step, stack, ls, pp)
  {
    hide Fold, Current;
    var init := ls[..|ls| - 1];
    var i, e := OpenIf(kind, init), FirstElse(kind, init);
    assert i.Some? ==> init[..i.value] == ls[..i.value];
    assert e.Some? ==> init[..e.value] == ls[..e.value];
  }

  lemma ElseStep<B, L>(
    kind: L -> Directive, step: (seq<B>, L) -> seq<B>, stack: seq<B>, ls: seq<L>, pp: seq<Info<B>>, now: seq<B>)
    requires ls != [] && Checkpoints(kind, step, stack, ls[..|ls| - 1], pp)
    requires kind(ls[|ls| - 1]) == Else && pp != [] && !pp[|pp| - 1].seenElse
    requires now == Fold(step, stack, Current(kind, ls[..|ls| - 1]))
    ensures var top := pp[|pp| - 1];
            Checkpoints(kind, step, stack, ls, pp[..|pp| - 1] + [top.(seenElse := true, beforeElse := now)])
  {
    hide Fold, Current;
    var init := ls[..|ls| - 1];
    var i := OpenIf(kind, init);
    assert i.Some? ==> init[..i.value] == ls[..i.value];
    var pp' := pp[..|pp| - 1] + [pp[|pp| - 1].(seenElse := true, beforeElse := now)];
    assert pp'[..|pp'| - 1] == pp[..|pp| - 1];
  }

  /** What the directive restores is the stack that the line goes on from. */
  lemma Restored<B, L>(
    kind: L -> Directive, step: (seq<B>, L) -> seq<B>, stack: seq<B>, ls: seq<L>, s: State<B>)
    requires ls != [] && Checkpoints(kind, step, stack, ls[..|ls| - 1], s.pp)
    requires s.stack == Fold(step, stack, Current(kind, ls[..|ls| - 1]))
    ensures PpStep(s, kind(ls[|ls| - 1])).stack == Fold(step, stack, Current(kind, ls[..Resumes(kind, ls)]))
  {
    hide Fold, Current;
    var init := ls[..|ls| - 1];
    var i, e := OpenIf(kind, init), FirstElse(kind, init);
    assert i.Some? ==> init[..i.value] == ls[..i.value];
    assert e.Some? ==> init[..e.value] == ls[..e.value];
  }

  /** One line more: the stack and the checkpoints. */
  lemma CurrentStep<B, L>(
    kind: L -> Directive, step: (seq<B>, L) -> seq<B>, stack: seq<B>, ls: seq<L>, s: State<B>)
    requires ls != [] && Checkpoints(kind, step, stack, ls[..|ls| - 1], s.pp)
    requires s.stack == Fold(step, stack, Current(kind, ls[..|ls| - 1]))
    ensures var s' := LineStep(kind, step, s, ls[|ls| - 1]);
            s'.stack == Fold(step, stack, Current(kind, ls)) && Checkpoints(kind, step, stack, ls, s'.pp)
  {
    hide Fold, Checkpoints, OpenIf, FirstElse, Resumes, Current;
    var n := |ls| - 1;
    Restored(kind, step, stack, ls, s);
    CurrentSnoc(kind, step, stack, ls);
    SomeOpen(kind, step, stack, ls[..n], s.pp);
    if kind(ls[n]) == If {
      OpenStep(kind, step, stack, ls, s.pp, Info(s.stack, [], false));
    } else if kind(ls[n]) == Other || s.pp == [] {
      StayStep(kind, step, stack, ls, s.pp);
    } else if kind(ls[n]) == Endif {
      CloseStep(kind, step, stack, ls, s.pp);
    } else if s.pp[|s.pp| - 1].seenElse {
      StayStep(kind, step, stack, ls, s.pp);
      assert s.pp == s.pp[..|s.pp| - 1] + [s.pp[|s.pp| - 1]];
    } else {
      ElseStep(kind, step, stack, ls, s.pp, s.stack);
    }
  }

  lemma CurrentSnoc<B, L>(kind: L -> Directive, step: (seq<B>, L) -> seq<B>, stack: seq<B>, ls: seq<L>)
    requires ls != []
    ensures Fold(step, stack, Current(kind, ls))
         == step(Fold(step, stack, Current(kind, ls[..Resumes(kind, ls)])), ls[|ls| - 1])
  {
    hide Resumes, Fold;
    FoldSnoc(step, stack, Current(kind, ls[..Resumes(kind, ls)]), ls[|ls| - 1]);
  }

  lemma SomeOpen<B, L>(
    kind: L -> Directive, step: (seq<B>, L) -> seq<B>, stack: seq<B>, ls: seq<L>, pp: seq<Info<B>>)
    requires Checkpoints(kind, step, stack, ls, pp)
    ensures pp != [] <==> OpenIf(kind, ls).Some?
  {
  }

  /**
    For every sequence of lines, nested and balanced or not, and at every line, inside branches too: the
    nesting stack is the fold of `step` over the lines that it comes from.
   */
  lemma {:induction false} StackIsCurrent<B, L>(
    kind: L -> Directive, step: (seq<B>, L) -> seq<B>, stack: seq<B>, ls: seq<L>)
    ensures var s := Lines(kind, step, State(stack, []), ls);
            s.stack == Fold(step, stack, Current(kind, ls)) && Checkpoints(kind, step, stack, ls, s.pp)
    decreases |ls|
  {
    hide Fold, LineStep;
    if ls == [] {
      FoldNothing(step, stack);
    } else {
      StackIsCurrent(kind, step, stack, ls[..|ls| - 1]);
      CurrentStep(kind, step, stack, ls, Lines(kind, step, State(stack, []), ls[..|ls| - 1]));
    }
  }

  lemma FoldNothing<B, L>(step: (seq<B>, L) -> seq<B>, stack: seq<B>)
    ensures Fold(step, stack, []) == stack
  {
  }

  // ---------- Well-nested conditionals ----------

  /** A line, or a conditional: its #if, its body, its #elif and #else branches, its #endif. */
  datatype Item<L> = Line(line: L) | Cond(start: L, body: seq<Item<L>>, branches: seq<Branch<L>>, end: L)

  datatype Branch<L> = Branch(start: L, body: seq<Item<L>>)

  ghost predicate NestedItem<L>(kind: L -> Directive, i: Item<L>)
    decreases i
  {
    match i
    case Line(l) => kind(l) == Other
    case Cond(s, body, branches, e) =>
      && kind(s) == If && kind(e) == Endif
      && (forall x <- body :: NestedItem(kind, x))
      && (forall b <- branches :: kind(b.start) == Else && forall x <- b.body :: NestedItem(kind, x))
  }

  /** The text of these items, line by line. */
  function Text<L>(items: seq<Item<L>>): seq<L>
    decreases items
  {
    if items == [] then [] else TextOf(items[0]) + Text(items[1..])
  }

  function TextOf<L>(i: Item<L>): seq<L>
    decreases i
  {
    match i
    case Line(l) => [l]
    case Cond(s, body, branches, e) => [s] + Text(body) + BranchText(branches) + [e]
  }

  function BranchText<L>(bs: seq<Branch<L>>): seq<L>
    decreases bs
  {
    if bs == [] then [] else [bs[0].start] + Text(bs[0].body) + BranchText(bs[1..])
  }

  /** The same text with every #elif and #else branch deleted. */
  function Pruned<L>(items: seq<Item<L>>): seq<L>
    decreases items
  {
    if items == [] then [] else PrunedItem(items[0]) + Pruned(items[1..])
  }

  function PrunedItem<L>(i: Item<L>): seq<L>
    decreases i
  {
    match i
    case Line(l) => [l]
    case Cond(s, body, _, e) => [s] + Pruned(body) + [e]
  }

  lemma {:induction false} LinesJoin<B, L>(
    kind: L -> Directive, step: (seq<B>, L) -> seq<B>, s: State<B>, a: seq<L>, b: seq<L>)
    ensures Lines(kind, step, s, a + b) == Lines(kind, step, Lines(kind, step, s, a), b)
    decreases |b|
  {
    if b == [] {
      assert a + b == a;
    } else {
      assert (a + b)[..|a + b| - 1] == a + b[..|b| - 1];
      LinesJoin(kind, step, s, a, b[..|b| - 1]);
    }
  }

  lemma {:induction false} FoldJoin<B, L>(step: (seq<B>, L) -> seq<B>, stack: seq<B>, a: seq<L>, b: seq<L>)
    ensures Fold(step, stack, a + b) == Fold(step, Fold(step, stack, a), b)
    decreases |b|
  {
    if b == [] {
      assert a + b == a;
    } else {
      assert (a + b)[..|a + b| - 1] == a + b[..|b| - 1];
      FoldJoin(step, stack, a, b[..|b| - 1]);
    }
  }

  lemma OneLine<B, L>(kind: L -> Directive, step: (seq<B>, L) -> seq<B>, s: State<B>, l: L)
    ensures Lines(kind, step, s, [l]) == LineStep(kind, step, s, l)
    ensures Fold(step, s.stack, [l]) == step(s.stack, l)
  {
  }

  /**
    For well-nested conditionals at any depth, the nesting stack afterwards is the fold over the text with
    all #elif and #else branches deleted, and no checkpoint is left behind.
   */
  lemma {:induction false} BranchesDeleted<B, L>(
    kind: L -> Directive, step: (seq<B>, L) -> seq<B>, s: State<B>, items: seq<Item<L>>)
    requires forall i <- items :: NestedItem(kind, i)
    ensures Lines(kind, step, s, Text(items)) == State(Fold(step, s.stack, Pruned(items)), s.pp)
    decreases items
  {
    hide PpStep, LineStep, Lines, Fold;
    if items == [] {
      NoLines(kind, step, s);
    } else {
      var i, rest := items[0], items[1..];
      assert i in items;
      ItemDone(kind, step, s, i);
      LinesJoin(kind, step, s, TextOf(i), Text(rest));
      BranchesDeleted(kind, step, State(Fold(step, s.stack, PrunedItem(i)), s.pp), rest);
      FoldJoin(step, s.stack, PrunedItem(i), Pruned(rest));
    }
  }

  lemma NoLines<B, L>(kind: L -> Directive, step: (seq<B>, L) -> seq<B>, s: State<B>)
    ensures Lines(kind, step, s, []) == s && Fold(step, s.stack, []) == s.stack
  {
  }

  lemma {:induction false} ItemDone<B, L>(kind: L -> Directive, step: (seq<B>, L) -> seq<B>, s: State<B>, i: Item<L>)
    requires NestedItem(kind, i)
    ensures Lines(kind, step, s, TextOf(i)) == State(Fold(step, s.stack, PrunedItem(i)), s.pp)
    decreases i
  {
    hide Lines, Fold;
    if i.Line? {
      OneLine(kind, step, s, i.line);
    } else {
      var s1 := LineStep(kind, step, s, i.start);
      OneLine(kind, step, s, i.start);
      LinesJoin(kind, step, s, [i.start], Text(i.body));
      FoldJoin(step, s.stack, [i.start], Pruned(i.body));
      BranchesDeleted(kind, step, s1, i.body);
      var s2 := State(Fold(step, s1.stack, Pruned(i.body)), s1.pp);
      LinesJoin(kind, step, s, [i.start] + Text(i.body), BranchText(i.branches));
      BranchesSkipped(kind, step, s2, i.branches);
      var s3 := Lines(kind, step, s2, BranchText(i.branches));
      LinesJoin(kind, step, s, [i.start] + Text(i.body) + BranchText(i.branches), [i.end]);
      OneLine(kind, step, s3, i.end);
      OneLine(kind, step, s2, i.end);
      FoldJoin(step, s.stack, [i.start] + Pruned(i.body), [i.end]);
      assert s1.pp[..|s.pp|] == s.pp;
    }
  }

  /** The stack that the next #endif goes on with. */
  function Saved<B>(s: State<B>): seq<B>
    requires s.pp != []
  {
    var top := s.pp[|s.pp| - 1];
    if top.seenElse then top.beforeElse else s.stack
  }

  lemma {:induction false} BranchesSkipped<B, L>(
    kind: L -> Directive, step: (seq<B>, L) -> seq<B>, s: State<B>, bs: seq<Branch<L>>)
    requires s.pp != [] && forall b <- bs :: kind(b.start) == Else && forall x <- b.body :: NestedItem(kind, x)
    ensures var s' := Lines(kind, step, s, BranchText(bs));
            |s'.pp| == |s.pp| && s'.pp[..|s.pp| - 1] == s.pp[..|s.pp| - 1] && Saved(s') == Saved(s)
    decreases bs
  {
    hide Lines, Fold;
    if bs == [] {
      NoLines(kind, step, s);
    } else {
      assert bs[0] in bs;
      var s1 := LineStep(kind, step, s, bs[0].start);
      OneLine(kind, step, s, bs[0].start);
      BranchesDeleted(kind, step, s1, bs[0].body);
      LinesJoin(kind, step, s, [bs[0].start], Text(bs[0].body));
      LinesJoin(kind, step, s, [bs[0].start] + Text(bs[0].body), BranchText(bs[1..]));
      BranchesSkipped(kind, step, State(Fold(step, s1.stack, Pruned(bs[0].body)), s1.pp), bs[1..]);
    }
  }
}
