/**
  The linter's bracket matchers: CloseExpression and ReverseCloseExpression over many lines, with
  their speculative treatment of angle brackets, and the plain three-bracket matchers they agree
  with whenever they start at a real bracket.
 */
module Brackets {
  import opened Wrappers

  predicate IsOpen(c: char) {
    c == '(' || c == '[' || c == '{'
  }

  predicate IsClose(c: char) {
    c == ')' || c == ']' || c == '}'
  }

  predicate IsAngle(c: char) {
    c == '<' || c == '>'
  }

  predicate Pair(o: char, c: char) {
    (o == '(' && c == ')') || (o == '[' && c == ']') || (o == '{' && c == '}')
  }

  function Closer(o: char): char {
    if o == '(' then ')' else if o == '[' then ']' else '}'
  }

  function Opener(c: char): char {
    if c == ')' then '(' else if c == ']' then '[' else '{'
  }

  // ---------- The regular expressions inside the matchers ----------

  predicate IsSpace(c: char) {
    c == ' ' || c == '\t' || c == '\n' || c == '\r' || c == '\U{0B}' || c == '\U{0C}'
  }

  predicate IsWord(c: char) {
    'a' <= c <= 'z' || 'A' <= c <= 'Z' || '0' <= c <= '9' || c == '_'
  }

  function StripRight(s: string): (r: string)
    ensures |r| <= |s| && r == s[..|r|]
    ensures |r| < |s| ==> IsSpace(s[|s| - 1])
  {
    if s != [] && IsSpace(s[|s| - 1]) then StripRight(s[..|s| - 1]) else s
  }

  /** `\boperator\s*$` is found in `s`. */
  predicate AfterOperator(s: string)
    ensures AfterOperator(s) ==> s != [] && (IsSpace(s[|s| - 1]) || s[|s| - 1] == 'r')
  {
    var t := StripRight(s);
    && 8 <= |t| && t[|t| - 8..] == "operator" && (|t| == 8 || !IsWord(t[|t| - 9]))
    && assert t[|t| - 8..][7] == 'r'; true
  }

  // ---------- Scanning one line ----------

  /** Found a match, lost it, or reached the end of the line with this stack. */
  datatype Scan = Found(pos: nat) | Lost | More(stack: string)

  /** What one character does: go on with a stack, or stop. */
  datatype Turn = Go(stack: string) | Stop(scan: Scan)

  function Pop(s: string): string
    requires s != []
  {
    s[..|s| - 1]
  }

  function Top(s: string): char
    requires s != []
  {
    s[|s| - 1]
  }

  /** Pop while the top is `a`. */
  function PopAll(s: string, a: char): (r: string)
    ensures |r| <= |s| && r == s[..|r|]
    ensures r != [] ==> Top(r) != a
  {
    if s != [] && Top(s) == a then PopAll(Pop(s), a) else s
  }

  /** One round of FindEndOfExpressionInLine. */
  function EndTurn(line: string, i: nat, stack: string): Turn
    requires i < |line|
  {
    var c := line[i];
    if IsOpen(c) then Go(stack + [c])
    else if c == '<' then
      if i > 0 && line[i - 1] == '<' then
        if stack != [] && Top(stack) == '<' then
          if Pop(stack) == [] then Stop(Lost) else Go(Pop(stack))
        else Go(stack)
      else if i > 0 && AfterOperator(line[..i]) then Go(stack)
      else Go(stack + ['<'])
    else if IsClose(c) then
      var st := PopAll(stack, '<');
      if st == [] || !Pair(Top(st), c) then Stop(Lost)
      else if Pop(st) == [] then Stop(Found(i + 1))
      else Go(Pop(st))
    else if c == '>' then
      if i > 0 && (line[i - 1] == '-' || AfterOperator(line[..i - 1])) then Go(stack)
      else if stack != [] && Top(stack) == '<' then
        if Pop(stack) == [] then Stop(Found(i + 1)) else Go(Pop(stack))
      else Go(stack)
    else if c == ';' then
      var st := PopAll(stack, '<');
      if st == [] then Stop(Lost) else Go(st)
    else Go(stack)
  }

  function EndScan(line: string, i: nat, stack: string): Scan
    decreases |line| - i
  {
    if |line| <= i then More(stack)
    else match EndTurn(line, i, stack)
      case Stop(scan) => scan
      case Go(st) => EndScan(line, i + 1, st)
  }

  /** One round of FindStartOfExpressionInLine: also how many characters it moves left. */
  function StartTurn(line: string, i: nat, stack: string): (r: (Turn, nat))
    requires i < |line|
    ensures r.1 == 1 || (r.1 == 2 && i > 0)
  {
    var c := line[i];
    if IsClose(c) then (Go(stack + [c]), 1)
    else if c == '>' then
      if i > 0 && (line[i - 1] == '-'
                   || (IsSpace(line[i - 1]) && i + 2 < |line| && line[i + 1] == '=' && IsSpace(line[i + 2]))
                   || AfterOperator(line[..i]))
      then (Go(stack), 2)
      else (Go(stack + ['>']), 1)
    else if c == '<' then
      if i > 0 && line[i - 1] == '<' then (Go(stack), 2)
      else if stack != [] && Top(stack) == '>' then
        if Pop(stack) == [] then (Stop(Found(i)), 1) else (Go(Pop(stack)), 1)
      else (Go(stack), 1)
    else if IsOpen(c) then
      var st := PopAll(stack, '>');
      if st == [] || !Pair(c, Top(st)) then (Stop(Lost), 1)
      else if Pop(st) == [] then (Stop(Found(i)), 1)
      else (Go(Pop(st)), 1)
    else if c == ';' then
      var st := PopAll(stack, '>');
      (if st == [] then Stop(Lost) else Go(st), 1)
    else (Go(stack), 1)
  }

  /** The scan leftwards from `i - 1`. */
  function StartScan(line: string, i: nat, stack: string): Scan
    requires i <= |line|
    decreases i
  {
    if i == 0 then More(stack)
    else match StartTurn(line, i - 1, stack)
      case (Stop(scan), _) => scan
      case (Go(st), n) => StartScan(line, i - n, st)
  }

  method FindEndOfExpressionInLine(line: string, startpos: nat, stack: string) returns (r: Scan)
    ensures r == EndScan(line, startpos, stack)
  {
    var i, st := startpos, stack;
    while i < |line|
      invariant EndScan(line, i, st) == EndScan(line, startpos, stack)
    {
      var c := line[i];
      if IsOpen(c) {
        st := st + [c];
      } else if c == '<' {
        if i > 0 && line[i - 1] == '<' {
          if st != [] && Top(st) == '<' {
            st := Pop(st);
            if st == [] { return Lost; }
          }
        } else if i > 0 && AfterOperator(line[..i]) {
        } else {
          st := st + ['<'];
        }
      } else if IsClose(c) {
        st := PopWhile(st, '<');
        if st == [] { return Lost; }
        if !Pair(Top(st), c) { return Lost; }
        st := Pop(st);
        if st == [] { return Found(i + 1); }
      } else if c == '>' {
        if i > 0 && (line[i - 1] == '-' || AfterOperator(line[..i - 1])) {
        } else if st != [] && Top(st) == '<' {
          st := Pop(st);
          if st == [] { return Found(i + 1); }
        }
      } else if c == ';' {
        st := PopWhile(st, '<');
        if st == [] { return Lost; }
      }
      i := i + 1;
    }
    r := More(st);
  }

  method PopWhile(stack: string, a: char) returns (st: string)
    ensures st == PopAll(stack, a)
  {
    st := stack;
    while st != [] && Top(st) == a
      invariant PopAll(st, a) == PopAll(stack, a)
      decreases |st|
    {
      st := Pop(st);
    }
  }

  method FindStartOfExpressionInLine(line: string, endpos: int, stack: string) returns (r: Scan)
    requires -1 <= endpos < |line|
    ensures r == StartScan(line, endpos + 1, stack)
  {
    var i, st := endpos, stack;
    while i >= 0
      invariant -1 <= i <= endpos
      invariant StartScan(line, i + 1, st) == StartScan(line, endpos + 1, stack)
    {
      var c := line[i];
      if IsClose(c) {
        st := st + [c];
      } else if c == '>' {
        if i > 0 && (line[i - 1] == '-'
                     || (IsSpace(line[i - 1]) && i + 2 < |line| && line[i + 1] == '=' && IsSpace(line[i + 2]))
                     || AfterOperator(line[..i])) {
          i := i - 1;
        } else {
          st := st + ['>'];
        }
      } else if c == '<' {
        if i > 0 && line[i - 1] == '<' {
          i := i - 1;
        } else if st != [] && Top(st) == '>' {
          st := Pop(st);
          if st == [] { return Found(i); }
        }
      } else if IsOpen(c) {
        st := PopWhile(st, '>');
        if st == [] { return Lost; }
        if !Pair(c, Top(st)) { return Lost; }
        st := Pop(st);
        if st == [] { return Found(i); }
      } else if c == ';' {
        st := PopWhile(st, '>');
        if st == [] { return Lost; }
      }
      i := i - 1;
    }
    r := More(st);
  }

  // ---------- Scanning many lines ----------

  /** A line number and a position on that line. */
  datatype Place = At(line: nat, pos: nat) | NoMatch

  function CloseFrom(lines: seq<string>, ln: nat, pos: nat, stack: string): Place
    requires ln < |lines|
    decreases |lines| - ln
  {
    match EndScan(lines[ln], pos, stack)
    case Found(e) => At(ln, e)
    case Lost => NoMatch
    case More(st) => if st != [] && ln + 1 < |lines| then CloseFrom(lines, ln + 1, 0, st) else NoMatch
  }

  function OpenFrom(lines: seq<string>, ln: nat, i: nat, stack: string): Place
    requires ln < |lines| && i <= |lines[ln]|
    decreases ln
  {
    match StartScan(lines[ln], i, stack)
    case Found(p) => At(ln, p)
    case Lost => NoMatch
    case More(st) => if st != [] && ln > 0 then OpenFrom(lines, ln - 1, |lines[ln - 1]|, st) else NoMatch
  }

  predicate Starts(line: string, pos: nat)
    requires pos < |line|
  {
    && (IsOpen(line[pos]) || line[pos] == '<')
    && !(line[pos] == '<' && pos + 1 < |line| && (line[pos + 1] == '<' || line[pos + 1] == '='))
  }

  /** CloseExpression: the place just after the closing bracket. */
  method CloseExpression(lines: seq<string>, linenum: nat, pos: nat) returns (r: Place)
    requires linenum < |lines| && pos < |lines[linenum]|
    ensures r == if Starts(lines[linenum], pos) then CloseFrom(lines, linenum, pos, []) else NoMatch
  {
    if !Starts(lines[linenum], pos) { return NoMatch; }
    var ln := linenum;
    var scan := FindEndOfExpressionInLine(lines[ln], pos, []);
    if scan.Found? { return At(ln, scan.pos); }
    while scan.More? && scan.stack != [] && ln < |lines| - 1
      invariant ln < |lines| && !scan.Found?
      invariant CloseFrom(lines, linenum, pos, []) ==
                if scan.More? && scan.stack != [] && ln + 1 < |lines| then CloseFrom(lines, ln + 1, 0, scan.stack)
                else NoMatch
      decreases |lines| - ln
    {
      ln := ln + 1;
      scan := FindEndOfExpressionInLine(lines[ln], 0, scan.stack);
      if scan.Found? { return At(ln, scan.pos); }
    }
    r := NoMatch;
  }

  /** ReverseCloseExpression: the place of the opening bracket. */
  method ReverseCloseExpression(lines: seq<string>, linenum: nat, pos: nat) returns (r: Place)
    requires linenum < |lines| && pos < |lines[linenum]|
    ensures r == if IsClose(lines[linenum][pos]) || lines[linenum][pos] == '>'
                 then OpenFrom(lines, linenum, pos + 1, []) else NoMatch
  {
    if !IsClose(lines[linenum][pos]) && lines[linenum][pos] != '>' { return NoMatch; }
    var ln := linenum;
    var scan := FindStartOfExpressionInLine(lines[ln], pos, []);
    if scan.Found? { return At(ln, scan.pos); }
    while scan.More? && scan.stack != [] && ln > 0
      invariant ln < |lines| && !scan.Found?
      invariant OpenFrom(lines, linenum, pos + 1, []) ==
                if scan.More? && scan.stack != [] && ln > 0 then OpenFrom(lines, ln - 1, |lines[ln - 1]|, scan.stack)
                else NoMatch
      decreases ln
    {
      ln := ln - 1;
      scan := FindStartOfExpressionInLine(lines[ln], |lines[ln]| - 1, scan.stack);
      if scan.Found? { return At(ln, scan.pos); }
    }
    r := NoMatch;
  }

  // ---------- Plain matching: only ( [ { and their closers ----------

  function PlainEndTurn(c: char, i: nat, stack: string): (t: Turn)
    ensures t.Stop? ==> !t.scan.More?
  {
    if IsOpen(c) then Go(stack + [c])
    else if IsClose(c) then
      if stack == [] || !Pair(Top(stack), c) then Stop(Lost)
      else if Pop(stack) == [] then Stop(Found(i + 1))
      else Go(Pop(stack))
    else Go(stack)
  }

  function PlainEnd(line: string, i: nat, stack: string): Scan
    decreases |line| - i
  {
    if |line| <= i then More(stack)
    else match PlainEndTurn(line[i], i, stack)
      case Stop(scan) => scan
      case Go(st) => PlainEnd(line, i + 1, st)
  }

  function PlainStartTurn(c: char, i: nat, stack: string): (t: Turn)
    ensures t.Stop? ==> !t.scan.More?
  {
    if IsClose(c) then Go(stack + [c])
    else if IsOpen(c) then
      if stack == [] || !Pair(c, Top(stack)) then Stop(Lost)
      else if Pop(stack) == [] then Stop(Found(i))
      else Go(Pop(stack))
    else Go(stack)
  }

  function PlainStart(line: string, i: nat, stack: string): Scan
    requires i <= |line|
    decreases i
  {
    if i == 0 then More(stack)
    else match PlainStartTurn(line[i - 1], i - 1, stack)
      case Stop(scan) => scan
      case Go(st) => PlainStart(line, i - 1, st)
  }

  function PlainClose(lines: seq<string>, ln: nat, pos: nat, stack: string): Place
    requires ln < |lines|
    decreases |lines| - ln
  {
    match PlainEnd(lines[ln], pos, stack)
    case Found(e) => At(ln, e)
    case Lost => NoMatch
    case More(st) => if st != [] && ln + 1 < |lines| then PlainClose(lines, ln + 1, 0, st) else NoMatch
  }

  function PlainOpen(lines: seq<string>, ln: nat, i: nat, stack: string): Place
    requires ln < |lines| && i <= |lines[ln]|
    decreases ln
  {
    match PlainStart(lines[ln], i, stack)
    case Found(p) => At(ln, p)
    case Lost => NoMatch
    case More(st) => if st != [] && ln > 0 then PlainOpen(lines, ln - 1, |lines[ln - 1]|, st) else NoMatch
  }

  // ---------- Angle brackets never affect real ones ----------

  /** The stack without its tentative angle brackets. */
  function Real(s: string): (r: string)
    ensures forall c <- r :: !IsAngle(c)
  {
    if s == [] then [] else if IsAngle(Top(s)) then Real(Pop(s)) else Real(Pop(s)) + [Top(s)]
  }

  /** The scan began at a real bracket, which is still at the bottom of the stack. */
  predicate Grounded(s: string) {
    s != [] && !IsAngle(s[0])
  }

  lemma RealPush(s: string, c: char)
    ensures Real(s + [c]) == if IsAngle(c) then Real(s) else Real(s) + [c]
  {
  }

  lemma {:induction false} RealGrounded(s: string)
    requires Grounded(s)
    ensures Real(s) != [] && Real(s)[0] == s[0]
  {
    if |s| > 1 { RealGrounded(Pop(s)); }
  }

  lemma {:induction false} RealPopAll(s: string, a: char)
    requires IsAngle(a)
    ensures Real(PopAll(s, a)) == Real(s)
    ensures Grounded(s) ==> Grounded(PopAll(s, a))
    decreases |s|
  {
    if s != [] && Top(s) == a { RealPopAll(Pop(s), a); }
  }

  /** The stacks hold nothing else. */
  predicate Forward(s: string) {
    forall i :: 0 <= i < |s| ==> IsOpen(s[i]) || s[i] == '<'
  }

  predicate Backward(s: string) {
    forall i :: 0 <= i < |s| ==> IsClose(s[i]) || s[i] == '>'
  }

  /** One character: the speculative step is the plain step, up to tentative angle brackets. */
  lemma EndTurnPlain(line: string, i: nat, stack: string)
    requires i < |line| && Grounded(stack) && Forward(stack)
    ensures var plain := PlainEndTurn(line[i], i, Real(stack));
            match EndTurn(line, i, stack)
            case Stop(scan) => !scan.More? && plain == Stop(scan)
            case Go(st) => Grounded(st) && Forward(st) && plain == Go(Real(st))
  {
    hide PopAll, Real, AfterOperator;
    var c := line[i];
    if IsOpen(c) || c == '<' {
      RealPush(stack, c);
      RealTop(stack);
    } else if IsClose(c) || c == ';' {
      EndTurnCloses(line, i, stack);
    } else {
      RealTop(stack);
    }
  }

  lemma EndTurnCloses(line: string, i: nat, stack: string)
    requires i < |line| && Grounded(stack) && Forward(stack) && (IsClose(line[i]) || line[i] == ';')
    ensures var plain := PlainEndTurn(line[i], i, Real(stack));
            match EndTurn(line, i, stack)
            case Stop(scan) => !scan.More? && plain == Stop(scan)
            case Go(st) => Grounded(st) && Forward(st) && plain == Go(Real(st))
  {
    hide PopAll, Real, AfterOperator;
    RealPopAll(stack, '<');
    RealTop(PopAll(stack, '<'));
  }

  /** A real bracket on top of the stack is on top of the real stack. */
  lemma RealTop(st: string)
    requires Grounded(st)
    ensures !IsAngle(Top(st)) ==> Real(st) != [] && Top(Real(st)) == Top(st) && Pop(Real(st)) == Real(Pop(st))
    ensures IsAngle(Top(st)) ==> Real(Pop(st)) == Real(st) && Grounded(Pop(st))
    ensures |st| > 1 ==> Grounded(Pop(st))
    ensures !IsAngle(Top(st)) ==> (Pop(st) == [] <==> Real(Pop(st)) == [])
  {
    if |st| > 1 { RealGrounded(Pop(st)); }
  }

  lemma {:induction false} EndScanPlain(line: string, i: nat, stack: string)
    requires Grounded(stack) && Forward(stack)
    ensures var plain := PlainEnd(line, i, Real(stack));
            match EndScan(line, i, stack)
            case More(st) => Grounded(st) && Forward(st) && plain == More(Real(st))
            case scan => plain == scan
    decreases |line| - i
  {
    if i < |line| {
      EndTurnPlain(line, i, stack);
      var t := EndTurn(line, i, stack);
      if t.Go? { EndScanPlain(line, i + 1, t.stack); }
    }
  }

  /** A character that the leftward scan skips is no bracket. */
  lemma SkipsNoBracket(line: string, i: nat, stack: string)
    requires i < |line| && StartTurn(line, i, stack).1 == 2
    ensures !IsOpen(line[i - 1]) && !IsClose(line[i - 1])
  {
    hide PopAll;
  }

  lemma StartTurnPlain(line: string, i: nat, stack: string)
    requires i < |line| && Grounded(stack) && Backward(stack)
    ensures var plain := PlainStartTurn(line[i], i, Real(stack));
            match StartTurn(line, i, stack).0
            case Stop(scan) => !scan.More? && plain == Stop(scan)
            case Go(st) => Grounded(st) && Backward(st) && plain == Go(Real(st))
    ensures StartTurn(line, i, stack).1 == 2 ==> !IsOpen(line[i - 1]) && !IsClose(line[i - 1])
  {
    hide PopAll, Real, AfterOperator, IsSpace;
    if StartTurn(line, i, stack).1 == 2 { SkipsNoBracket(line, i, stack); }
    var c := line[i];
    if IsClose(c) || c == '>' {
      RealPush(stack, c);
      RealTop(stack);
    } else if IsOpen(c) || c == ';' {
      RealPopAll(stack, '>');
      RealTop(PopAll(stack, '>'));
    } else {
      RealTop(stack);
    }
  }

  lemma {:induction false} StartScanPlain(line: string, i: nat, stack: string)
    requires i <= |line| && Grounded(stack) && Backward(stack)
    ensures var plain := PlainStart(line, i, Real(stack));
            match StartScan(line, i, stack)
            case More(st) => Grounded(st) && Backward(st) && plain == More(Real(st))
            case scan => plain == scan
    decreases i
  {
    hide StartTurn, Real, Grounded, Backward;
    if i > 0 {
      StartTurnPlain(line, i - 1, stack);
      var (t, n) := StartTurn(line, i - 1, stack);
      if t.Go? { StartScanPlain(line, i - n, t.stack); }
    }
  }

  lemma {:induction false} CloseFromPlain(lines: seq<string>, ln: nat, pos: nat, stack: string)
    requires ln < |lines| && Grounded(stack) && Forward(stack)
    ensures CloseFrom(lines, ln, pos, stack) == PlainClose(lines, ln, pos, Real(stack))
    decreases |lines| - ln
  {
    hide EndScan, PlainEnd, Real, Forward;
    EndScanPlain(lines[ln], pos, stack);
    var scan := EndScan(lines[ln], pos, stack);
    if scan.More? {
      RealGrounded(scan.stack);
      if ln + 1 < |lines| { CloseFromPlain(lines, ln + 1, 0, scan.stack); }
    }
  }

  lemma {:induction false} OpenFromPlain(lines: seq<string>, ln: nat, i: nat, stack: string)
    requires ln < |lines| && i <= |lines[ln]| && Grounded(stack) && Backward(stack)
    ensures OpenFrom(lines, ln, i, stack) == PlainOpen(lines, ln, i, Real(stack))
    decreases ln
  {
    hide StartScan, PlainStart, Real, Backward;
    StartScanPlain(lines[ln], i, stack);
    var scan := StartScan(lines[ln], i, stack);
    if scan.More? {
      RealGrounded(scan.stack);
      if ln > 0 { OpenFromPlain(lines, ln - 1, |lines[ln - 1]|, scan.stack); }
    }
  }

  /** The bracket that a scan starts at is pushed first, in the speculative and in the plain scan alike. */
  lemma FirstTurns(line: string, pos: nat)
    requires pos < |line|
    ensures IsOpen(line[pos]) ==> EndScan(line, pos, []) == EndScan(line, pos + 1, [line[pos]])
    ensures IsOpen(line[pos]) ==> PlainEnd(line, pos, []) == PlainEnd(line, pos + 1, [line[pos]])
    ensures IsClose(line[pos]) ==> StartScan(line, pos + 1, []) == StartScan(line, pos, [line[pos]])
    ensures IsClose(line[pos]) ==> PlainStart(line, pos + 1, []) == PlainStart(line, pos, [line[pos]])
  {
    hide AfterOperator, PopAll;
    assert [] + [line[pos]] == [line[pos]];
  }

  /** Started at ( [ or {, CloseExpression is the plain matcher, whatever < > ; and operators do. */
  lemma CloseIsPlain(lines: seq<string>, ln: nat, pos: nat)
    requires ln < |lines| && pos < |lines[ln]| && IsOpen(lines[ln][pos])
    ensures CloseFrom(lines, ln, pos, []) == PlainClose(lines, ln, pos, [])
  {
    hide EndScan, PlainEnd;
    FirstTurns(lines[ln], pos);
    RealPush([], lines[ln][pos]);
    assert [] + [lines[ln][pos]] == [lines[ln][pos]];
    CloseFromPlain(lines, ln, pos + 1, [lines[ln][pos]]);
  }

  /** Started at ) ] or }, ReverseCloseExpression is the plain matcher. */
  lemma ReverseIsPlain(lines: seq<string>, ln: nat, pos: nat)
    requires ln < |lines| && pos < |lines[ln]| && IsClose(lines[ln][pos])
    ensures OpenFrom(lines, ln, pos + 1, []) == PlainOpen(lines, ln, pos + 1, [])
  {
    hide StartScan, PlainStart;
    FirstTurns(lines[ln], pos);
    RealPush([], lines[ln][pos]);
    assert [] + [lines[ln][pos]] == [lines[ln][pos]];
    OpenFromPlain(lines, ln, pos, [lines[ln][pos]]);
  }

  // ---------- Forward and backward are inverse ----------

  predicate Opens(s: string) {
    forall i :: 0 <= i < |s| ==> IsOpen(s[i])
  }

  predicate Closes(s: string) {
    forall i :: 0 <= i < |s| ==> IsClose(s[i])
  }

  /** The stack that the backward scan holds where the forward scan holds `s`, and the converse. */
  function Mirror(s: string): (r: string)
    ensures |r| == |s| && (Opens(s) ==> Closes(r))
  {
    seq(|s|, i requires 0 <= i < |s| => Closer(s[i]))
  }

  function Unmirror(s: string): (r: string)
    ensures |r| == |s| && (Closes(s) ==> Opens(r))
  {
    seq(|s|, i requires 0 <= i < |s| => Opener(s[i]))
  }

  /** The plain forward step is undone by the plain backward step on the same character. */
  lemma TurnUndone(c: char, i: nat, s: string)
    requires s != [] && Opens(s)
    ensures match PlainEndTurn(c, i, s)
            case Go(t) => t != [] && Opens(t) && PlainStartTurn(c, i, Mirror(t)) == Go(Mirror(s))
            case Stop(Found(e)) => e == i + 1 && IsClose(c) && PlainStartTurn(c, i, []) == Go(Mirror(s))
            case Stop(_) => true
  {
  }

  lemma TurnRedone(c: char, i: nat, s: string)
    requires s != [] && Closes(s)
    ensures match PlainStartTurn(c, i, s)
            case Go(t) => t != [] && Closes(t) && PlainEndTurn(c, i, Unmirror(t)) == Go(Unmirror(s))
            case Stop(Found(p)) => p == i && IsOpen(c) && PlainEndTurn(c, i, []) == Go(Unmirror(s))
            case Stop(_) => true
  {
  }

  lemma {:induction false} LineBack(line: string, i: nat, s: string)
    requires i <= |line| && s != [] && Opens(s)
    ensures match PlainEnd(line, i, s)
            case More(t) => t != [] && Opens(t) && PlainStart(line, |line|, Mirror(t)) == PlainStart(line, i, Mirror(s))
            case Found(e) =>
              i < e <= |line| && IsClose(line[e - 1]) && PlainStart(line, e, []) == PlainStart(line, i, Mirror(s))
            case Lost => true
    decreases |line| - i
  {
    hide PlainEndTurn, PlainStartTurn, Mirror, Opens;
    if i < |line| {
      TurnUndone(line[i], i, s);
      var t := PlainEndTurn(line[i], i, s);
      if t.Go? { LineBack(line, i + 1, t.stack); }
    }
  }

  lemma {:induction false} LineForth(line: string, i: nat, s: string)
    requires i <= |line| && s != [] && Closes(s)
    ensures match PlainStart(line, i, s)
            case More(t) => t != [] && Closes(t) && PlainEnd(line, 0, Unmirror(t)) == PlainEnd(line, i, Unmirror(s))
            case Found(p) => p < i && IsOpen(line[p]) && PlainEnd(line, p, []) == PlainEnd(line, i, Unmirror(s))
            case Lost => true
    decreases i
  {
    hide PlainEndTurn, PlainStartTurn, Unmirror, Closes;
    if i > 0 {
      TurnRedone(line[i - 1], i - 1, s);
      var t := PlainStartTurn(line[i - 1], i - 1, s);
      if t.Go? { LineForth(line, i - 1, t.stack); }
    }
  }

  /** A place on the text just after a closer; a place at an opener. */
  predicate JustAfter(lines: seq<string>, p: Place) {
    p.At? && p.line < |lines| && 0 < p.pos <= |lines[p.line]| && IsClose(lines[p.line][p.pos - 1])
  }

  predicate Opening(lines: seq<string>, p: Place) {
    p.At? && p.line < |lines| && p.pos < |lines[p.line]| && IsOpen(lines[p.line][p.pos])
  }

  lemma {:induction false} CloseBack(lines: seq<string>, ln: nat, i: nat, s: string)
    requires ln < |lines| && i <= |lines[ln]| && s != [] && Opens(s)
    ensures var r := PlainClose(lines, ln, i, s);
            r.At? ==> JustAfter(lines, r) && PlainOpen(lines, r.line, r.pos, []) == PlainOpen(lines, ln, i, Mirror(s))
    decreases |lines| - ln
  {
    hide PlainEnd, Mirror, Opens;
    LineBack(lines[ln], i, s);
    var scan := PlainEnd(lines[ln], i, s);
    if scan.More? && ln + 1 < |lines| { CloseBack(lines, ln + 1, 0, scan.stack); }
  }

  lemma {:induction false} OpenForth(lines: seq<string>, ln: nat, i: nat, s: string)
    requires ln < |lines| && i <= |lines[ln]| && s != [] && Closes(s)
    ensures var r := PlainOpen(lines, ln, i, s);
            r.At? ==> Opening(lines, r) && PlainClose(lines, r.line, r.pos, []) == PlainClose(lines, ln, i, Unmirror(s))
    decreases ln
  {
    hide PlainStart, Unmirror, Closes;
    LineForth(lines[ln], i, s);
    var scan := PlainStart(lines[ln], i, s);
    if scan.More? && ln > 0 {
      OpenForth(lines, ln - 1, |lines[ln - 1]|, scan.stack);
      assert PlainEnd(lines[ln - 1], |lines[ln - 1]|, Unmirror(scan.stack)) == More(Unmirror(scan.stack));
    }
  }

  lemma PlainBackAtStart(lines: seq<string>, ln: nat, pos: nat)
    requires ln < |lines| && pos < |lines[ln]| && IsOpen(lines[ln][pos])
    ensures var r := PlainClose(lines, ln, pos, []);
            r.At? ==> JustAfter(lines, r) && PlainOpen(lines, r.line, r.pos, []) == At(ln, pos)
  {
    hide PlainEnd;
    var c := lines[ln][pos];
    FirstTurns(lines[ln], pos);
    CloseBack(lines, ln, pos + 1, [c]);
    assert Mirror([c]) == [Closer(c)];
  }

  lemma PlainForthAtEnd(lines: seq<string>, ln: nat, pos: nat)
    requires ln < |lines| && pos < |lines[ln]| && IsClose(lines[ln][pos])
    ensures var r := PlainOpen(lines, ln, pos + 1, []);
            r.At? ==> Opening(lines, r) && PlainClose(lines, r.line, r.pos, []) == At(ln, pos + 1)
  {
    hide PlainStart;
    var c := lines[ln][pos];
    FirstTurns(lines[ln], pos);
    OpenForth(lines, ln, pos, [c]);
    assert Unmirror([c]) == [Opener(c)];
  }

  /**
    For every text and every ( [ or {: CloseExpression answers a place exactly when a closer stands just
    before that place and ReverseCloseExpression, started at it, answers the bracket one began with.
   */
  lemma CloseAndReverseAreInverse(lines: seq<string>, ln: nat, pos: nat, l: nat, e: nat)
    requires ln < |lines| && pos < |lines[ln]| && IsOpen(lines[ln][pos])
    requires l < |lines| && 0 < e <= |lines[l]|
    ensures CloseFrom(lines, ln, pos, []) == At(l, e)
            <==> IsClose(lines[l][e - 1]) && OpenFrom(lines, l, e, []) == At(ln, pos)
  {
    hide CloseFrom, OpenFrom, PlainClose, PlainOpen;
    CloseIsPlain(lines, ln, pos);
    PlainBackAtStart(lines, ln, pos);
    if IsClose(lines[l][e - 1]) {
      ReverseIsPlain(lines, l, e - 1);
      PlainForthAtEnd(lines, l, e - 1);
    }
  }

  // ---------- _GetTextInside ----------

  /** One character of _GetTextInside, whose stack holds the closers it expects. */
  function InsideTurn(c: char, stack: string): Option<string>
    requires stack != []
  {
    if c == Top(stack) then Some(Pop(stack))
    else if IsClose(c) then None
    else if IsOpen(c) then Some(stack + [Closer(c)])
    else Some(stack)
  }

  lemma InsideTurnPlain(c: char, i: nat, stack: string)
    requires stack != [] && Closes(stack)
    ensures match InsideTurn(c, stack)
            case None => PlainEndTurn(c, i, Unmirror(stack)) == Stop(Lost)
            case Some(st) =>
              && Closes(st)
              && PlainEndTurn(c, i, Unmirror(stack)) == if st == [] then Stop(Found(i + 1)) else Go(Unmirror(st))
  {
  }

  /** The text between the bracket just before `start` and its match, once the pattern was found. */
  method GetTextInside(text: string, start: nat) returns (r: Option<string>)
    requires 0 < start <= |text| && IsOpen(text[start - 1])
    ensures var m := PlainEnd(text, start - 1, []);
            if m.Found? then start < m.pos <= |text| && r == Some(text[start..m.pos - 1]) else r == None
  {
    hide Unmirror, PlainEndTurn, Closes, EndScan, StartScan, PlainStart;
    var stack, position := [Closer(text[start - 1])], start;
    InsideStart(text, start);
    while stack != [] && position < |text|
      invariant start <= position <= |text| && Closes(stack)
      invariant stack == [] ==> start < position && PlainEnd(text, start - 1, []) == Found(position)
      invariant stack != [] ==> PlainEnd(text, start - 1, []) == PlainEnd(text, position, Unmirror(stack))
      decreases |text| - position
    {
      var c := text[position];
      InsideTurnPlain(c, position, stack);
      if c == Top(stack) {
        stack := Pop(stack);
      } else if IsClose(c) {
        return None;
      } else if IsOpen(c) {
        stack := stack + [Closer(c)];
      }
      position := position + 1;
    }
    if stack != [] { return None; }
    r := Some(text[start..position - 1]);
  }

  lemma InsideStart(text: string, start: nat)
    requires 0 < start <= |text| && IsOpen(text[start - 1])
    ensures var stack := [Closer(text[start - 1])];
            Closes(stack) && PlainEnd(text, start - 1, []) == PlainEnd(text, start, Unmirror(stack))
  {
    FirstTurns(text, start - 1);
    assert Unmirror([Closer(text[start - 1])]) == [text[start - 1]];
  }
}
