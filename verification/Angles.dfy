/**
  What a match is when it may start at an angle bracket. The matchers of Brackets keep all four kinds on one
  stack and throw angle brackets away again; here the angle brackets of one level are counted, and whatever
  lies inside ( [ or { is passed over whole by the plain matcher.
 */
module Angles {
  import opened Brackets

  /** `\boperator\s*$`: the text ends with the word operator and space. */
  lemma AfterOperatorIff(s: string)
    ensures AfterOperator(s) <==> exists a, b :: OperatorEnds(s, a, b)
  {
    hide AfterOperator, OperatorEnds;
    if AfterOperator(s) { var a, b := OperatorSplit(s); }
    forall a, b | OperatorEnds(s, a, b) ensures AfterOperator(s) { OperatorFound(s, a, b); }
  }

  lemma OperatorSplit(s: string) returns (a: string, b: string)
    requires AfterOperator(s)
    ensures OperatorEnds(s, a, b)
  {
    var t := StripRight(s);
    AllStripped(s);
    a, b := t[..|t| - 8], s[|t|..];
    hide StripRight;
    assert t == a + "operator";
  }

  ghost predicate OperatorEnds(s: string, a: string, b: string) {
    s == a + "operator" + b && (a == [] || !IsWord(a[|a| - 1])) && forall c <- b :: IsSpace(c)
  }

  lemma {:induction false} AllStripped(s: string)
    ensures forall c <- s[|StripRight(s)|..] :: IsSpace(c)
  {
    if s != [] && IsSpace(s[|s| - 1]) {
      AllStripped(s[..|s| - 1]);
      var n := |StripRight(s)|;
      assert s[n..] == s[..|s| - 1][n..] + [s[|s| - 1]];
    }
  }

  lemma {:induction false} Stripped(t: string, b: string)
    requires t != [] && !IsSpace(t[|t| - 1]) && forall c <- b :: IsSpace(c)
    ensures StripRight(t + b) == t
    decreases |b|
  {
    if b == [] {
      assert t + b == t;
    } else {
      assert (t + b)[..|t + b| - 1] == t + b[..|b| - 1] && b[|b| - 1] in b;
      Stripped(t, b[..|b| - 1]);
    }
  }

  lemma OperatorFound(s: string, a: string, b: string)
    requires OperatorEnds(s, a, b)
    ensures AfterOperator(s)
  {
    var t := a + "operator";
    Stripped(t, b);
    assert t[|t| - 8..] == "operator";
  }

  // ---------- Which angle brackets count ----------

  /** The second half of <<. */
  predicate Shifts(line: string, i: nat)
    requires i < |line|
  {
    line[i] == '<' && i > 0 && line[i - 1] == '<'
  }

  /** A < that may open a template argument list: not in a shift, not the name of an operator. */
  predicate OpensAngle(line: string, i: nat)
    requires i < |line|
  {
    line[i] == '<' && !Shifts(line, i) && !(i > 0 && AfterOperator(line[..i]))
  }

  /** A > that may close one: not in an arrow, not in the name of an operator of two characters. */
  predicate ClosesAngle(line: string, i: nat)
    requires i < |line|
  {
    line[i] == '>' && !(i > 0 && (line[i - 1] == '-' || AfterOperator(line[..i - 1])))
  }

  /** The same read from the right, where the comparison >= between spaces counts as an operator too. */
  predicate ClosesAngleBack(line: string, i: nat)
    requires i < |line|
  {
    && line[i] == '>'
    && !(i > 0 && (line[i - 1] == '-' || AfterOperator(line[..i])))
    && !(i > 0 && IsSpace(line[i - 1]) && i + 2 < |line| && line[i + 1] == '=' && IsSpace(line[i + 2]))
  }

  /** Where CloseExpression begins at all: at an opening bracket that does not begin << or <=. */
  lemma StartsIff(line: string, pos: nat)
    requires pos < |line|
    ensures Starts(line, pos) <==> line[pos] in "([{<" && !("<<" <= line[pos..]) && !("<=" <= line[pos..])
  {
    var rest := line[pos..];
    assert rest[0] == line[pos] && (|rest| > 1 ==> rest[1] == line[pos + 1]);
    assert "<<" <= rest <==> |rest| > 1 && rest[0] == '<' && rest[1] == '<' by {
      if |rest| > 1 && rest[0] == '<' && rest[1] == '<' { assert rest[..2] == "<<"; }
    }
    assert "<=" <= rest <==> |rest| > 1 && rest[0] == '<' && rest[1] == '=' by {
      if |rest| > 1 && rest[0] == '<' && rest[1] == '=' { assert rest[..2] == "<="; }
    }
  }

  // ---------- Forward ----------

  lemma {:induction false} PlainEndAhead(line: string, i: nat, s: string)
    ensures PlainEnd(line, i, s).Found? ==> i < PlainEnd(line, i, s).pos <= |line|
    decreases |line| - i
  {
    if i < |line| {
      var t := PlainEndTurn(line[i], i, s);
      if t.Go? { PlainEndAhead(line, i + 1, t.stack); }
    }
  }

  lemma {:induction false} PlainCloseAhead(lines: seq<string>, ln: nat, i: nat, s: string)
    requires ln < |lines|
    ensures var r := PlainClose(lines, ln, i, s);
            r.At? ==> ln <= r.line < |lines| && r.pos <= |lines[r.line]| && (r.line == ln ==> i < r.pos)
    decreases |lines| - ln
  {
    PlainEndAhead(lines[ln], i, s);
    var scan := PlainEnd(lines[ln], i, s);
    if scan.More? && ln + 1 < |lines| { PlainCloseAhead(lines, ln + 1, 0, scan.stack); }
  }

  /** The end of the match from here on, with `k` angle brackets open. Without any, the first bracket decides. */
  function Matching(lines: seq<string>, ln: nat, i: nat, k: nat): (r: Place)
    requires ln < |lines|
    decreases |lines| - ln, if i < |lines[ln]| then |lines[ln]| - i else 0
  {
    var line := lines[ln];
    if |line| <= i then
      if k > 0 && ln + 1 < |lines| then Matching(lines, ln + 1, 0, k) else NoMatch
    else if IsOpen(line[i]) then
      var e := PlainClose(lines, ln, i, []);
      PlainCloseAhead(lines, ln, i, []);
      if k == 0 || e.NoMatch? then e else Matching(lines, e.line, e.pos, k)
    else if IsClose(line[i]) || line[i] == ';' then NoMatch
    else if OpensAngle(line, i) then Matching(lines, ln, i + 1, k + 1)
    else if k > 0 && Shifts(line, i) then
      if k == 1 then NoMatch else Matching(lines, ln, i + 1, k - 1)
    else if k > 0 && ClosesAngle(line, i) then
      if k == 1 then At(ln, i + 1) else Matching(lines, ln, i + 1, k - 1)
    else Matching(lines, ln, i + 1, k)
  }

  /** One character of the code's scan, over many lines. */
  lemma CloseUnroll(lines: seq<string>, ln: nat, i: nat, stack: string)
    requires ln < |lines|
    ensures |lines[ln]| <= i ==>
              CloseFrom(lines, ln, i, stack) ==
              if stack != [] && ln + 1 < |lines| then CloseFrom(lines, ln + 1, 0, stack) else NoMatch
    ensures i < |lines[ln]| ==>
              CloseFrom(lines, ln, i, stack) ==
              match EndTurn(lines[ln], i, stack)
              case Go(st) => CloseFrom(lines, ln, i + 1, st)
              case Stop(Found(e)) => At(ln, e)
              case Stop(_) => NoMatch
  {
    hide PopAll, AfterOperator;
  }

  lemma PlainUnroll(lines: seq<string>, ln: nat, i: nat, stack: string)
    requires ln < |lines| && stack != []
    ensures |lines[ln]| <= i ==>
              PlainClose(lines, ln, i, stack) ==
              if ln + 1 < |lines| then PlainClose(lines, ln + 1, 0, stack) else NoMatch
    ensures i < |lines[ln]| ==>
              PlainClose(lines, ln, i, stack) ==
              match PlainEndTurn(lines[ln][i], i, stack)
              case Go(st) => PlainClose(lines, ln, i + 1, st)
              case Stop(Found(e)) => At(ln, e)
              case Stop(_) => NoMatch
  {
    hide PlainEndTurn;
  }

  lemma {:induction false} PopAllBehind(base: string, t: string, a: char)
    requires Grounded(t) && IsAngle(a)
    ensures PopAll(t, a) != [] && PopAll(base + t, a) == base + PopAll(t, a)
    decreases |t|
  {
    if Top(t) == a {
      PopAllBehind(base, Pop(t), a);
      assert Pop(base + t) == base + Pop(t);
    }
  }

  lemma OnTop(base: string, t: string)
    requires t != []
    ensures Top(base + t) == Top(t) && Pop(base + t) == base + Pop(t) && base + t != []
    ensures forall c :: base + t + [c] == base + (t + [c])
    ensures base + [] == base
  {
    forall c ensures base + t + [c] == base + (t + [c]) { assert base + t + [c] == base + (t + [c]); }
  }

  /** What is below a real bracket plays no part until that bracket is closed. */
  lemma EndTurnBehind(line: string, i: nat, base: string, t: string)
    requires i < |line| && base != [] && Grounded(t)
    ensures match EndTurn(line, i, t)
            case Go(t') => EndTurn(line, i, base + t) == Go(base + t')
            case Stop(Found(e)) => e == i + 1 && EndTurn(line, i, base + t) == Go(base)
            case Stop(_) => EndTurn(line, i, base + t) == EndTurn(line, i, t)
  {
    hide PopAll, AfterOperator;
    OnTop(base, t);
    PopAllBehind(base, t, '<');
    OnTop(base, PopAll(t, '<'));
  }

  /** From inside a real bracket the scan goes on behind its plain match, with what was below. */
  lemma {:induction false} PassesOver(lines: seq<string>, ln: nat, i: nat, base: string, t: string)
    requires ln < |lines| && base != [] && Grounded(t) && Forward(t)
    ensures var r := PlainClose(lines, ln, i, Real(t));
            && (r.At? ==> r.line < |lines|)
            && CloseFrom(lines, ln, i, base + t) ==
               if r.NoMatch? then NoMatch else CloseFrom(lines, r.line, r.pos, base)
    decreases |lines| - ln, if i < |lines[ln]| then |lines[ln]| - i else 0
  {
    hide EndTurn, PlainEndTurn, CloseFrom, PlainClose, Real, Forward;
    RealGrounded(t);
    CloseUnroll(lines, ln, i, base + t);
    PlainUnroll(lines, ln, i, Real(t));
    if |lines[ln]| <= i {
      if ln + 1 < |lines| { PassesOver(lines, ln + 1, 0, base, t); }
    } else {
      EndTurnBehind(lines[ln], i, base, t);
      EndTurnPlain(lines[ln], i, t);
      var turn := EndTurn(lines[ln], i, t);
      if turn.Go? { PassesOver(lines, ln, i + 1, base, turn.stack); }
    }
  }

  function Repeat(c: char, k: nat): (s: string)
    ensures |s| == k && forall i :: 0 <= i < k ==> s[i] == c
  {
    seq(k, _ => c)
  }

  lemma {:induction false} PopAllRepeat(c: char, k: nat)
    ensures PopAll(Repeat(c, k), c) == []
  {
    if k > 0 {
      assert Pop(Repeat(c, k)) == Repeat(c, k - 1);
      PopAllRepeat(c, k - 1);
    }
  }

  /** One character of the scan on a stack of `k` angle brackets. */
  lemma TurnAtLevel(line: string, i: nat, k: nat)
    requires i < |line| && !IsOpen(line[i])
    ensures EndTurn(line, i, Repeat('<', k)) ==
            if IsClose(line[i]) || line[i] == ';' then Stop(Lost)
            else if OpensAngle(line, i) then Go(Repeat('<', k + 1))
            else if k > 0 && Shifts(line, i) then if k == 1 then Stop(Lost) else Go(Repeat('<', k - 1))
            else if k > 0 && ClosesAngle(line, i) then if k == 1 then Stop(Found(i + 1)) else Go(Repeat('<', k - 1))
            else Go(Repeat('<', k))
  {
    hide AfterOperator, PopAll;
    PopAllRepeat('<', k);
    assert Repeat('<', k) + ['<'] == Repeat('<', k + 1);
    if k > 0 { assert Pop(Repeat('<', k)) == Repeat('<', k - 1); }
    assert k == 1 ==> Repeat('<', k - 1) == [];
  }

  /** A real bracket at this level. */
  lemma OpenAtLevel(lines: seq<string>, ln: nat, i: nat, k: nat)
    requires ln < |lines| && i < |lines[ln]| && IsOpen(lines[ln][i])
    ensures var r := PlainClose(lines, ln, i, []);
            && (r.At? ==> r.line < |lines|)
            && CloseFrom(lines, ln, i, Repeat('<', k)) ==
               if r.NoMatch? || k == 0 then r else CloseFrom(lines, r.line, r.pos, Repeat('<', k))
  {
    hide CloseFrom, PlainClose, EndScan, PlainEnd;
    var c, base := lines[ln][i], Repeat('<', k);
    PlainCloseAhead(lines, ln, i, []);
    if k == 0 {
      assert base == [];
      CloseIsPlain(lines, ln, i);
    } else {
      CloseUnroll(lines, ln, i, base);
      RealPush([], c);
      assert [] + [c] == [c];
      PassesOver(lines, ln, i + 1, base, [c]);
      OpensPlain(lines, ln, i);
    }
  }

  lemma OpensPlain(lines: seq<string>, ln: nat, i: nat)
    requires ln < |lines| && i < |lines[ln]| && IsOpen(lines[ln][i])
    ensures PlainClose(lines, ln, i, []) == PlainClose(lines, ln, i + 1, [lines[ln][i]])
  {
    hide PlainEnd;
    FirstTurns(lines[ln], i);
  }

  lemma {:induction false} CloseAtLevel(lines: seq<string>, ln: nat, i: nat, k: nat)
    requires ln < |lines|
    ensures CloseFrom(lines, ln, i, Repeat('<', k)) == Matching(lines, ln, i, k)
    decreases |lines| - ln, if i < |lines[ln]| then |lines[ln]| - i else 0
  {
    hide CloseFrom, PlainClose, EndTurn, OpensAngle, ClosesAngle, Shifts, Repeat;
    var line := lines[ln];
    CloseUnroll(lines, ln, i, Repeat('<', k));
    if |line| <= i {
      if k > 0 && ln + 1 < |lines| { CloseAtLevel(lines, ln + 1, 0, k); }
    } else if IsOpen(line[i]) {
      OpenAtLevel(lines, ln, i, k);
      var e := PlainClose(lines, ln, i, []);
      PlainCloseAhead(lines, ln, i, []);
      if e.At? && k > 0 { CloseAtLevel(lines, e.line, e.pos, k); }
    } else {
      TurnAtLevel(line, i, k);
      CloseAtLevel(lines, ln, i + 1, k);
      CloseAtLevel(lines, ln, i + 1, k + 1);
      if k > 0 { CloseAtLevel(lines, ln, i + 1, k - 1); }
    }
  }

  /** From every bracket, angle brackets included, CloseExpression answers the end of this match. */
  lemma CloseIsMatching(lines: seq<string>, ln: nat, pos: nat)
    requires ln < |lines|
    ensures CloseFrom(lines, ln, pos, []) == Matching(lines, ln, pos, 0)
  {
    CloseAtLevel(lines, ln, pos, 0);
    assert Repeat('<', 0) == [];
  }

  /** With an angle bracket open, the match ends just behind a > that counts. */
  lemma {:induction false} EndsAtAngle(lines: seq<string>, ln: nat, i: nat, k: nat)
    requires ln < |lines| && k > 0
    ensures var r := Matching(lines, ln, i, k);
            r.At? ==> r.line < |lines| && 0 < r.pos <= |lines[r.line]| && ClosesAngle(lines[r.line], r.pos - 1)
    decreases |lines| - ln, if i < |lines[ln]| then |lines[ln]| - i else 0
  {
    hide PlainClose, OpensAngle, ClosesAngle, Shifts;
    var line := lines[ln];
    if |line| <= i {
      if ln + 1 < |lines| { EndsAtAngle(lines, ln + 1, 0, k); }
    } else if IsOpen(line[i]) {
      var e := PlainClose(lines, ln, i, []);
      PlainCloseAhead(lines, ln, i, []);
      if e.At? { EndsAtAngle(lines, e.line, e.pos, k); }
    } else {
      EndsAtAngle(lines, ln, i + 1, k);
      EndsAtAngle(lines, ln, i + 1, k + 1);
      if k > 1 { EndsAtAngle(lines, ln, i + 1, k - 1); }
    }
  }

  /** A match begun at a < that counts ends just behind a > that counts. */
  lemma AngleMatch(lines: seq<string>, ln: nat, pos: nat)
    requires ln < |lines| && pos < |lines[ln]| && OpensAngle(lines[ln], pos)
    ensures var r := CloseFrom(lines, ln, pos, []);
            && r == Matching(lines, ln, pos + 1, 1)
            && (r.At? ==> r.line < |lines| && 0 < r.pos <= |lines[r.line]| && ClosesAngle(lines[r.line], r.pos - 1))
  {
    hide OpensAngle, ClosesAngle, CloseFrom;
    CloseIsMatching(lines, ln, pos);
    EndsAtAngle(lines, ln, pos + 1, 1);
    AngleChar(lines[ln], pos);
  }

  lemma AngleChar(line: string, i: nat)
    requires i < |line|
    ensures OpensAngle(line, i) ==> line[i] == '<'
  {
  }

  // ---------- Backward ----------

  lemma {:induction false} PlainStartBehind(line: string, i: nat, s: string)
    requires i <= |line|
    ensures PlainStart(line, i, s).Found? ==> PlainStart(line, i, s).pos < i
    decreases i
  {
    if i > 0 {
      var t := PlainStartTurn(line[i - 1], i - 1, s);
      if t.Go? { PlainStartBehind(line, i - 1, t.stack); }
    }
  }

  lemma {:induction false} PlainOpenBehind(lines: seq<string>, ln: nat, i: nat, s: string)
    requires ln < |lines| && i <= |lines[ln]|
    ensures var r := PlainOpen(lines, ln, i, s);
            r.At? ==> r.line <= ln && r.pos < |lines[r.line]| && (r.line == ln ==> r.pos < i)
    decreases ln
  {
    PlainStartBehind(lines[ln], i, s);
    var scan := PlainStart(lines[ln], i, s);
    if scan.More? && ln > 0 { PlainOpenBehind(lines, ln - 1, |lines[ln - 1]|, scan.stack); }
  }

  /** The start of the match leftwards from here, with `k` angle brackets open. */
  function MatchingBack(lines: seq<string>, ln: nat, i: nat, k: nat): (r: Place)
    requires ln < |lines| && i <= |lines[ln]|
    decreases ln, i
  {
    var line := lines[ln];
    if i == 0 then
      if k > 0 && ln > 0 then MatchingBack(lines, ln - 1, |lines[ln - 1]|, k) else NoMatch
    else if IsClose(line[i - 1]) then
      var p := PlainOpen(lines, ln, i, []);
      PlainOpenBehind(lines, ln, i, []);
      if k == 0 || p.NoMatch? then p else MatchingBack(lines, p.line, p.pos, k)
    else if IsOpen(line[i - 1]) || line[i - 1] == ';' then NoMatch
    else if ClosesAngleBack(line, i - 1) then MatchingBack(lines, ln, i - 1, k + 1)
    else if Shifts(line, i - 1) then MatchingBack(lines, ln, i - 2, k)
    else if k > 0 && line[i - 1] == '<' then
      if k == 1 then At(ln, i - 1) else MatchingBack(lines, ln, i - 1, k - 1)
    else MatchingBack(lines, ln, i - 1, k)
  }

  lemma OpenUnroll(lines: seq<string>, ln: nat, i: nat, stack: string)
    requires ln < |lines| && i <= |lines[ln]|
    ensures i == 0 ==>
              OpenFrom(lines, ln, i, stack) ==
              if stack != [] && ln > 0 then OpenFrom(lines, ln - 1, |lines[ln - 1]|, stack) else NoMatch
    ensures i > 0 ==>
              OpenFrom(lines, ln, i, stack) ==
              match StartTurn(lines[ln], i - 1, stack)
              case (Go(st), n) => OpenFrom(lines, ln, i - n, st)
              case (Stop(Found(p)), _) => At(ln, p)
              case (Stop(_), _) => NoMatch
  {
    hide PopAll, AfterOperator, IsSpace;
  }

  lemma PlainOpenUnroll(lines: seq<string>, ln: nat, i: nat, stack: string)
    requires ln < |lines| && i <= |lines[ln]| && stack != []
    ensures i == 0 ==>
              PlainOpen(lines, ln, i, stack) ==
              if ln > 0 then PlainOpen(lines, ln - 1, |lines[ln - 1]|, stack) else NoMatch
    ensures i > 0 ==>
              PlainOpen(lines, ln, i, stack) ==
              match PlainStartTurn(lines[ln][i - 1], i - 1, stack)
              case Go(st) => PlainOpen(lines, ln, i - 1, st)
              case Stop(Found(p)) => At(ln, p)
              case Stop(_) => NoMatch
  {
    hide PlainStartTurn;
  }

  lemma StartTurnBehind(line: string, i: nat, base: string, t: string)
    requires i < |line| && base != [] && Grounded(t)
    ensures StartTurn(line, i, base + t).1 == StartTurn(line, i, t).1
    ensures var turn := StartTurn(line, i, base + t).0;
            match StartTurn(line, i, t).0
            case Go(t') => turn == Go(base + t')
            case Stop(Found(p)) => p == i && StartTurn(line, i, t).1 == 1 && turn == Go(base)
            case Stop(scan) => turn == Stop(scan)
  {
    hide PopAll, AfterOperator, IsSpace;
    OnTop(base, t);
    PopAllBehind(base, t, '>');
    OnTop(base, PopAll(t, '>'));
  }

  lemma {:induction false} PassesOverBack(lines: seq<string>, ln: nat, i: nat, base: string, t: string)
    requires ln < |lines| && i <= |lines[ln]| && base != [] && Grounded(t) && Backward(t)
    ensures var r := PlainOpen(lines, ln, i, Real(t));
            && (r.At? ==> r.line < |lines| && r.pos <= |lines[r.line]|)
            && OpenFrom(lines, ln, i, base + t) == if r.NoMatch? then NoMatch else OpenFrom(lines, r.line, r.pos, base)
    decreases ln, i
  {
    hide StartTurn, CloseFrom, PlainOpen, OpenFrom, Real, Backward, Grounded;
    RealGrounded(t);
    OpenUnroll(lines, ln, i, base + t);
    PlainOpenUnroll(lines, ln, i, Real(t));
    if i == 0 {
      if ln > 0 { PassesOverBack(lines, ln - 1, |lines[ln - 1]|, base, t); }
    } else {
      StartTurnBehind(lines[ln], i - 1, base, t);
      StartTurnPlain(lines[ln], i - 1, t);
      var (turn, n) := StartTurn(lines[ln], i - 1, t);
      if turn.Go? {
        PassesOverBack(lines, ln, i - n, base, turn.stack);
        RealGrounded(turn.stack);
        PlainOpenUnroll(lines, ln, i - 1, Real(turn.stack));
      }
    }
  }

  /** One character of the leftward scan on a stack of `k` angle brackets. */
  lemma TurnAtLevelBack(line: string, i: nat, k: nat)
    requires i < |line| && !IsClose(line[i])
    ensures StartTurn(line, i, Repeat('>', k)) ==
            if IsOpen(line[i]) || line[i] == ';' then (Stop(Lost), 1)
            else if ClosesAngleBack(line, i) then (Go(Repeat('>', k + 1)), 1)
            else if line[i] == '>' || Shifts(line, i) then (Go(Repeat('>', k)), 2)
            else if k > 0 && line[i] == '<' then (if k == 1 then Stop(Found(i)) else Go(Repeat('>', k - 1)), 1)
            else (Go(Repeat('>', k)), 1)
    ensures line[i] == '>' && !ClosesAngleBack(line, i) ==> i > 0 && Neutral(line[i - 1])
  {
    hide AfterOperator, PopAll, IsSpace;
    PopAllRepeat('>', k);
    assert Repeat('>', k) + ['>'] == Repeat('>', k + 1);
    if k > 0 { assert Pop(Repeat('>', k)) == Repeat('>', k - 1); }
    assert k == 1 ==> Repeat('>', k - 1) == [];
    SpaceNeutral();
  }

  predicate Neutral(c: char) {
    !IsOpen(c) && !IsClose(c) && !IsAngle(c) && c != ';'
  }

  lemma SpaceNeutral()
    ensures forall c :: IsSpace(c) ==> Neutral(c)
  {
  }

  lemma CloserAtLevel(lines: seq<string>, ln: nat, i: nat, k: nat)
    requires ln < |lines| && i < |lines[ln]| && IsClose(lines[ln][i])
    ensures var r := PlainOpen(lines, ln, i + 1, []);
            && (r.At? ==> r.line < |lines| && r.pos <= |lines[r.line]|)
            && OpenFrom(lines, ln, i + 1, Repeat('>', k)) ==
               if r.NoMatch? || k == 0 then r else OpenFrom(lines, r.line, r.pos, Repeat('>', k))
  {
    hide OpenFrom, PlainOpen, StartScan, PlainStart;
    var c, base := lines[ln][i], Repeat('>', k);
    PlainOpenBehind(lines, ln, i + 1, []);
    if k == 0 {
      assert base == [];
      ReverseIsPlain(lines, ln, i);
    } else {
      OpenUnroll(lines, ln, i + 1, base);
      RealPush([], c);
      assert [] + [c] == [c];
      PassesOverBack(lines, ln, i, base, [c]);
      ClosesPlain(lines, ln, i);
    }
  }

  lemma ClosesPlain(lines: seq<string>, ln: nat, i: nat)
    requires ln < |lines| && i < |lines[ln]| && IsClose(lines[ln][i])
    ensures PlainOpen(lines, ln, i + 1, []) == PlainOpen(lines, ln, i, [lines[ln][i]])
  {
    hide PlainStart;
    FirstTurns(lines[ln], i);
  }

  lemma {:induction false} OpenAtLevelBack(lines: seq<string>, ln: nat, i: nat, k: nat)
    requires ln < |lines| && i <= |lines[ln]|
    ensures OpenFrom(lines, ln, i, Repeat('>', k)) == MatchingBack(lines, ln, i, k)
    decreases ln, i
  {
    hide OpenFrom, PlainOpen, StartTurn, ClosesAngleBack, Repeat;
    var line := lines[ln];
    OpenUnroll(lines, ln, i, Repeat('>', k));
    if i == 0 {
      if k > 0 && ln > 0 { OpenAtLevelBack(lines, ln - 1, |lines[ln - 1]|, k); }
    } else if IsClose(line[i - 1]) {
      CloserAtLevel(lines, ln, i - 1, k);
      var p := PlainOpen(lines, ln, i, []);
      PlainOpenBehind(lines, ln, i, []);
      if p.At? && k > 0 { OpenAtLevelBack(lines, p.line, p.pos, k); }
    } else {
      TurnAtLevelBack(line, i - 1, k);
      OpenAtLevelBack(lines, ln, i - 1, k);
      OpenAtLevelBack(lines, ln, i - 1, k + 1);
      if k > 0 { OpenAtLevelBack(lines, ln, i - 1, k - 1); }
      if i > 1 {
        OpenAtLevelBack(lines, ln, i - 2, k);
        if Neutral(line[i - 2]) { NeutralBack(lines, ln, i - 1, k); }
      }
    }
  }

  lemma NeutralBack(lines: seq<string>, ln: nat, i: nat, k: nat)
    requires ln < |lines| && 0 < i <= |lines[ln]| && Neutral(lines[ln][i - 1])
    ensures MatchingBack(lines, ln, i, k) == MatchingBack(lines, ln, i - 1, k)
  {
    hide PlainOpen;
  }

  /** From every bracket ReverseCloseExpression answers the start of this match. */
  lemma ReverseIsMatching(lines: seq<string>, ln: nat, i: nat)
    requires ln < |lines| && i <= |lines[ln]|
    ensures OpenFrom(lines, ln, i, []) == MatchingBack(lines, ln, i, 0)
  {
    OpenAtLevelBack(lines, ln, i, 0);
    assert Repeat('>', 0) == [];
  }

  lemma {:induction false} StartsAtAngle(lines: seq<string>, ln: nat, i: nat, k: nat)
    requires ln < |lines| && i <= |lines[ln]| && k > 0
    ensures var r := MatchingBack(lines, ln, i, k);
            && (r.At? ==> r.line < |lines| && r.pos < |lines[r.line]|)
            && (r.At? ==> lines[r.line][r.pos] == '<' && !Shifts(lines[r.line], r.pos))
    decreases ln, i
  {
    hide PlainOpen, ClosesAngleBack;
    var line := lines[ln];
    if i == 0 {
      if ln > 0 { StartsAtAngle(lines, ln - 1, |lines[ln - 1]|, k); }
    } else if IsClose(line[i - 1]) {
      var p := PlainOpen(lines, ln, i, []);
      PlainOpenBehind(lines, ln, i, []);
      if p.At? { StartsAtAngle(lines, p.line, p.pos, k); }
    } else {
      StartsAtAngle(lines, ln, i - 1, k);
      StartsAtAngle(lines, ln, i - 1, k + 1);
      if k > 1 { StartsAtAngle(lines, ln, i - 1, k - 1); }
      if i > 1 { StartsAtAngle(lines, ln, i - 2, k); }
    }
  }

  /** A match begun at a > that counts starts at a < that is not in a shift. */
  lemma AngleMatchBack(lines: seq<string>, ln: nat, pos: nat)
    requires ln < |lines| && pos < |lines[ln]| && ClosesAngleBack(lines[ln], pos)
    ensures var r := OpenFrom(lines, ln, pos + 1, []);
            && r == MatchingBack(lines, ln, pos, 1)
            && (r.At? ==> r.line < |lines| && r.pos < |lines[r.line]|)
            && (r.At? ==> lines[r.line][r.pos] == '<' && !Shifts(lines[r.line], r.pos))
  {
    hide OpenFrom;
    ReverseIsMatching(lines, ln, pos + 1);
    StartsAtAngle(lines, ln, pos, 1);
  }

  /** The two directions are not inverse from angle brackets: only the leftward one takes >= for an operator. */
  lemma NotInverse()
    ensures CloseFrom(["<a >= b"], 0, 0, []) == At(0, 4) && OpenFrom(["<a >= b"], 0, 4, []) == NoMatch
  {
    hide CloseFrom, OpenFrom, PlainClose, PlainOpen, AfterOperator;
    var lines := ["<a >= b"];
    CloseIsMatching(lines, 0, 0);
    ReverseIsMatching(lines, 0, 4);
    NoOperator(lines[0]);
    assert Matching(lines, 0, 3, 1) == At(0, 4);
    assert Matching(lines, 0, 2, 1) == At(0, 4);
    assert Matching(lines, 0, 1, 1) == At(0, 4);
    assert MatchingBack(lines, 0, 0, 0) == NoMatch;
    assert MatchingBack(lines, 0, 1, 0) == NoMatch;
    assert MatchingBack(lines, 0, 2, 0) == NoMatch;
    assert MatchingBack(lines, 0, 3, 0) == NoMatch;
  }

  /** A text shorter than the word operator does not end with it. */
  lemma NoOperator(line: string)
    requires |line| < 8
    ensures forall i :: 0 <= i <= |line| ==> !AfterOperator(line[..i])
  {
  }
}
