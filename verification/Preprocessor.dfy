/** Preprocessor.py: conditionals handled line by line with one counter and a stack of states,
    against the recursive meaning of the conditional tree. */
module Preprocessor {
  import opened Basics

  datatype Value = Num(n: int) | Str(s: string)
  type Context = map<string, Value>

  datatype Test = If(expr: string) | Ifdef(name: string) | Ifndef(name: string)

  /** One input line, already matched against the instruction pattern. */
  datatype Line =
    | Text(s: string)
    | Comment
    | Define(name: string, val: Value)
    | Undef(name: string)
    | Literal(s: string)
    | Expand(s: string)
    | BadDefinition
    | Error(s: string)
    | Unknown
    | Open(test: Test)
    | Elif(test: Test)
    | Else
    | Endif
  {
    predicate Opens() { Open? }
    predicate Continues() { Elif? || Else? }
    predicate Closes() { Endif? }
    predicate Plain() { !Opens() && !Continues() && !Closes() }
  }

  datatype Fault = InvalidCmd | SyntaxDef | SyntaxErr | InvalidVar | UserError(s: string) | EmptyStack

  datatype Result<+T> = Ok(value: T) | Fail(fault: Fault)

  /** What the model takes from outside: evaluating an expression (None is an exception), the word
      test on variable names, and variable expansion. */
  datatype Library = Library(
    evaluate: (string, Context) -> Option<Value>,
    badName: string -> bool,
    expand: (string, Context) -> string)

  /** The value of a condition; strings are false. */
  function Truth(lib: Library, t: Test, ctx: Context): Result<bool> {
    match t
    case If(e) =>
      (match lib.evaluate(e, ctx)
       case None => Fail(SyntaxErr)
       case Some(Str(_)) => Ok(false)
       case Some(Num(n)) => Ok(n != 0))
    case Ifdef(v) => if lib.badName(v) then Fail(InvalidVar) else Ok(v in ctx)
    case Ifndef(v) => if lib.badName(v) then Fail(InvalidVar) else Ok(v !in ctx)
  }

  // ---------- the streaming machine ----------

  const HAD_TRUE := 0
  const WANTS_TRUE := 1
  const IN_ELSE := 2

  datatype State = State(context: Context, disableLevel: nat, ifStates: seq<int>, output: seq<string>)

  function Top(s: State): int
    requires s.ifStates != []
  {
    s.ifStates[|s.ifStates| - 1]
  }

  function SetTop(s: State, v: int): State
    requires s.ifStates != []
  {
    s.(ifStates := s.ifStates[|s.ifStates| - 1 := v])
  }

  /** do_if, do_ifdef, do_ifndef. */
  function DoTest(lib: Library, s: State, t: Test, replace: bool): Result<State>
    requires replace ==> s.ifStates != []
  {
    if s.disableLevel > 0 && !replace then Ok(s.(disableLevel := s.disableLevel + 1))
    else
      match Truth(lib, t, s.context)
      case Fail(f) => Fail(f)
      case Ok(val) =>
        var level := if !val then 1 else if replace then 0 else s.disableLevel;
        if replace then Ok(SetTop(s.(disableLevel := level), level))
        else Ok(s.(disableLevel := level, ifStates := s.ifStates + [level]))
  }

  function DoElse(s: State, ifState: int): Result<State> {
    if s.ifStates == [] then Fail(EmptyStack)
    else Ok(SetTop(s, ifState).(disableLevel := if Top(s) == HAD_TRUE then 1 else 0))
  }

  /** do_elif, do_elifdef, do_elifndef. */
  function DoElif(lib: Library, s: State, t: Test): Result<State> {
    if s.disableLevel == 1 then
      if s.ifStates == [] then Fail(EmptyStack)
      else if Top(s) == WANTS_TRUE then DoTest(lib, s, t, true)
      else Ok(s)
    else if s.ifStates == [] then Fail(EmptyStack)
    else DoElse(s, Top(s))
  }

  function DoEndif(s: State): Result<State> {
    var level := if s.disableLevel > 0 then s.disableLevel - 1 else 0;
    if level != 0 then Ok(s.(disableLevel := level))
    else if s.ifStates == [] then Fail(EmptyStack)
    else Ok(s.(disableLevel := 0, ifStates := s.ifStates[..|s.ifStates| - 1]))
  }

  /** What a plain line does when it is not disabled. */
  function Act(lib: Library, l: Line, ctx: Context): Result<(Context, seq<string>)>
    requires l.Plain()
  {
    match l
    case Text(t) => Ok((ctx, [t]))
    case Comment => Ok((ctx, []))
    case Define(n, v) => Ok((ctx[n := v], []))
    case Undef(n) => Ok((ctx - {n}, []))
    case Literal(t) => Ok((ctx, [t]))
    case Expand(t) => Ok((ctx, [lib.expand(t, ctx)]))
    case BadDefinition => Fail(SyntaxDef)
    case Error(t) => Fail(UserError(t))
    case Unknown => Fail(InvalidCmd)
  }

  /** handleLine. */
  function Handle(lib: Library, s: State, l: Line): Result<State> {
    match l
    case Unknown => Fail(InvalidCmd)
    case Open(t) => DoTest(lib, s, t, false)
    case Endif => DoEndif(s)
    case Else => if s.disableLevel <= 1 then DoElse(s, IN_ELSE) else Ok(s)
    case Elif(t) => if s.disableLevel <= 1 then DoElif(lib, s, t) else Ok(s)
    case _ =>
      if s.disableLevel > 0 then Ok(s)
      else
        match Act(lib, l, s.context)
        case Fail(f) => Fail(f)
        case Ok((ctx, out)) => Ok(s.(context := ctx, output := s.output + out))
  }

  function Run(lib: Library, s: State, ls: seq<Line>): Result<State>
    decreases |ls|
  {
    if ls == [] then Ok(s)
    else
      match Handle(lib, s, ls[0])
      case Fail(f) => Fail(f)
      case Ok(s') => Run(lib, s', ls[1..])
  }

  function Then(lib: Library, r: Result<State>, ls: seq<Line>): Result<State> {
    match r
    case Fail(f) => Fail(f)
    case Ok(s) => Run(lib, s, ls)
  }

  lemma {:induction false} RunAppend(lib: Library, s: State, a: seq<Line>, b: seq<Line>)
    ensures Run(lib, s, a + b) == Then(lib, Run(lib, s, a), b)
    decreases |a|
  {
    if a == [] {
      assert a + b == b;
    } else {
      assert (a + b)[1..] == a[1..] + b;
      match Handle(lib, s, a[0]) {
        case Fail(_) =>
        case Ok(s') => RunAppend(lib, s', a[1..], b);
      }
    }
  }

  // ---------- the conditional tree ----------

  datatype Block = Nil | Cons(node: Node, tail: Block)
  datatype Node = Leaf(line: Line) | Cond(chain: Chain)
  datatype Chain = End | Otherwise(body: Block) | Branch(test: Test, body: Block, rest: Chain)

  /** Leaves are lines that are not part of the conditional structure; a conditional starts with a test. */
  predicate Proper(b: Block) {
    match b
    case Nil => true
    case Cons(Leaf(l), tail) => l.Plain() && Proper(tail)
    case Cons(Cond(Branch(_, body, rest)), tail) => Proper(body) && ProperChain(rest) && Proper(tail)
    case Cons(Cond(_), _) => false
  }

  predicate ProperChain(c: Chain) {
    match c
    case End => true
    case Otherwise(body) => Proper(body)
    case Branch(_, body, rest) => Proper(body) && ProperChain(rest)
  }

  function Lines(b: Block): seq<Line>
    requires Proper(b)
  {
    match b
    case Nil => []
    case Cons(Leaf(l), tail) => [l] + Lines(tail)
    case Cons(Cond(Branch(t, body, rest)), tail) => [Open(t)] + Lines(body) + RestLines(rest) + Lines(tail)
  }

  /** The lines of what follows a branch, with the endif. */
  function RestLines(c: Chain): (ls: seq<Line>)
    requires ProperChain(c)
    ensures ls != [] && !ls[0].Plain() && !ls[0].Opens()
  {
    match c
    case End => [Endif]
    case Otherwise(body) => [Else] + Lines(body) + [Endif]
    case Branch(t, body, rest) => [Elif(t)] + Lines(body) + RestLines(rest)
  }

  /** Even a branch that is not taken must consist of known commands. */
  predicate Known(b: Block) {
    match b
    case Nil => true
    case Cons(Leaf(l), tail) => l != Unknown && Known(tail)
    case Cons(Cond(chain), tail) => KnownChain(chain) && Known(tail)
  }

  predicate KnownChain(c: Chain) {
    match c
    case End => true
    case Otherwise(body) => Known(body)
    case Branch(_, body, rest) => Known(body) && KnownChain(rest)
  }

  /** Variables and output of a run. */
  datatype Env = Env(context: Context, output: seq<string>)

  /** The recursive meaning: evaluate the branch whose test is the first to hold, pass over the others. */
  function Eval(lib: Library, b: Block, e: Env): Result<Env>
    requires Proper(b)
  {
    match b
    case Nil => Ok(e)
    case Cons(Leaf(l), tail) =>
      (match Act(lib, l, e.context)
       case Fail(f) => Fail(f)
       case Ok((ctx, out)) => Eval(lib, tail, Env(ctx, e.output + out)))
    case Cons(Cond(chain), tail) =>
      assert ProperChain(chain);
      match EvalChain(lib, chain, e)
      case Fail(f) => Fail(f)
      case Ok(e') => Eval(lib, tail, e')
  }

  function EvalChain(lib: Library, c: Chain, e: Env): Result<Env>
    requires ProperChain(c)
  {
    match c
    case End => Ok(e)
    case Otherwise(body) => Eval(lib, body, e)
    case Branch(t, body, rest) =>
      match Truth(lib, t, e.context)
      case Fail(f) => Fail(f)
      case Ok(true) =>
        (match Eval(lib, body, e)
         case Fail(f) => Fail(f)
         case Ok(e') => if KnownChain(rest) then Ok(e') else Fail(InvalidCmd))
      case Ok(false) => if Known(body) then EvalChain(lib, rest, e) else Fail(InvalidCmd)
  }

  // ---------- passing over disabled lines ----------

  function Skipped(ok: bool, s: State): Result<State> { if ok then Ok(s) else Fail(InvalidCmd) }

  /** A disabled block changes nothing, at any depth; it can only fail on an unknown command. */
  lemma {:induction false} SkipBlock(lib: Library, b: Block, s: State)
    requires Proper(b) && s.disableLevel > 0 && s.ifStates != []
    ensures Run(lib, s, Lines(b)) == Skipped(Known(b), s)
  {
    hide Truth, RestLines;
    match b
    case Nil =>
    case Cons(Leaf(l), tail) =>
      SkipBlock(lib, tail, s);
      assert ([l] + Lines(tail))[1..] == Lines(tail);
    case Cons(Cond(Branch(t, body, rest)), tail) =>
      var deeper := s.(disableLevel := s.disableLevel + 1);
      SkipBlock(lib, body, deeper);
      SkipRest(lib, rest, deeper);
      SkipBlock(lib, tail, s);
      var ls := [Open(t)] + Lines(body);
      RunOpen(lib, s, Open(t), Lines(body));
      RunAppend(lib, s, ls, RestLines(rest));
      RunAppend(lib, s, ls + RestLines(rest), Lines(tail));
  }

  lemma RunOpen(lib: Library, s: State, l: Line, ls: seq<Line>)
    ensures Run(lib, s, [l] + ls) == Then(lib, Handle(lib, s, l), ls)
  {
    assert ([l] + ls)[1..] == ls;
  }

  /** Inside a conditional that was itself disabled, the other branches are passed over as well. */
  lemma {:induction false} SkipRest(lib: Library, c: Chain, s: State)
    requires ProperChain(c) && s.disableLevel > 1 && s.ifStates != []
    ensures Run(lib, s, RestLines(c)) == Skipped(KnownChain(c), s.(disableLevel := s.disableLevel - 1))
  {
    hide Lines, Proper, Known, Truth;
    match c
    case End =>
      RunOpen(lib, s, Endif, []);
    case Otherwise(body) =>
      SkipBlock(lib, body, s);
      RunOpen(lib, s, Else, Lines(body));
      RunOpen(lib, s, Endif, []);
      RunAppend(lib, s, [Else] + Lines(body), [Endif]);
    case Branch(t, body, rest) =>
      SkipBlock(lib, body, s);
      SkipRest(lib, rest, s);
      RunOpen(lib, s, Elif(t), Lines(body));
      RunAppend(lib, s, [Elif(t)] + Lines(body), RestLines(rest));
  }

  // ---------- the machine computes the tree's meaning ----------

  /** The state after a conditional: the innermost entry is gone and nothing is disabled. */
  function Popped(s: State): State
    requires s.ifStates != []
  {
    s.(disableLevel := 0, ifStates := s.ifStates[..|s.ifStates| - 1])
  }

  function EnvOf(s: State): Env { Env(s.context, s.output) }

  function WithEnv(s: State, r: Result<Env>): Result<State> {
    match r
    case Fail(f) => Fail(f)
    case Ok(e) => Ok(s.(context := e.context, output := e.output))
  }

  /** Once a branch has been taken the rest of the conditional is passed over. */
  lemma {:induction false} TakenRest(lib: Library, c: Chain, s: State)
    requires ProperChain(c) && s.ifStates != [] && Top(s) == HAD_TRUE && s.disableLevel <= 1
    ensures Run(lib, s, RestLines(c)) == Skipped(KnownChain(c), Popped(s))
  {
    hide Lines, Proper, Known, Truth;
    match c
    case End =>
      RunOpen(lib, s, Endif, []);
    case Otherwise(body) =>
      var s' := SetTop(s, IN_ELSE).(disableLevel := 1);
      RunOpen(lib, s, Else, Lines(body));
      SkipBlock(lib, body, s');
      RunOpen(lib, s', Endif, []);
      RunAppend(lib, s, [Else] + Lines(body), [Endif]);
    case Branch(t, body, rest) =>
      var s' := s.(disableLevel := 1);
      assert SetTop(s, HAD_TRUE) == s;
      RunOpen(lib, s, Elif(t), Lines(body));
      SkipBlock(lib, body, s');
      TakenRest(lib, rest, s');
      RunAppend(lib, s, [Elif(t)] + Lines(body), RestLines(rest));
  }

  /** While no branch has been taken the rest of the conditional is evaluated. */
  lemma {:induction false} WantingRest(lib: Library, c: Chain, s: State)
    requires ProperChain(c) && s.ifStates != [] && Top(s) == WANTS_TRUE && s.disableLevel == 1
    ensures Run(lib, s, RestLines(c)) == WithEnv(Popped(s), EvalChain(lib, c, EnvOf(s)))
    decreases c, 1
  {
    hide Lines, Proper, Eval, Truth;
    match c
    case End =>
      RunOpen(lib, s, Endif, []);
    case Otherwise(body) =>
      var s' := SetTop(s, IN_ELSE).(disableLevel := 0);
      RunOpen(lib, s, Else, Lines(body));
      ActiveBlock(lib, body, s');
      RunAppend(lib, s, [Else] + Lines(body), [Endif]);
      match Eval(lib, body, EnvOf(s)) {
        case Fail(_) =>
        case Ok(e) => RunOpen(lib, s'.(context := e.context, output := e.output), Endif, []);
      }
    case Branch(t, body, rest) =>
      RunOpen(lib, s, Elif(t), Lines(body));
      RunAppend(lib, s, [Elif(t)] + Lines(body), RestLines(rest));
      match Truth(lib, t, s.context) {
        case Fail(_) =>
        case Ok(val) =>
          var s' := SetTop(s, if val then HAD_TRUE else WANTS_TRUE).(disableLevel := if val then 0 else 1);
          BranchBody(lib, Branch(t, body, rest), s', val);
      }
  }

  /** The body of a branch whose test has just been evaluated, and what follows it. */
  lemma BranchBody(lib: Library, c: Chain, s: State, val: bool)
    requires c.Branch? && ProperChain(c) && s.ifStates != []
    requires s.disableLevel == (if val then 0 else 1) && Top(s) == (if val then HAD_TRUE else WANTS_TRUE)
    requires Truth(lib, c.test, s.context) == Ok(val)
    ensures Then(lib, Run(lib, s, Lines(c.body)), RestLines(c.rest)) == WithEnv(Popped(s), EvalChain(lib, c, EnvOf(s)))
    decreases c, 0
  {
    var body, rest := c.body, c.rest;
    if val {
      ActiveBlock(lib, body, s);
      match Eval(lib, body, EnvOf(s)) {
        case Fail(_) =>
        case Ok(e) => TakenRest(lib, rest, s.(context := e.context, output := e.output));
      }
    } else {
      SkipBlock(lib, body, s);
      if Known(body) { WantingRest(lib, rest, s); }
    }
  }

  /** Run on the lines of a tree while nothing is disabled, the machine has the effect the tree
      means, and its counter and its stack are as before. */
  lemma {:induction false} ActiveBlock(lib: Library, b: Block, s: State)
    requires Proper(b) && s.disableLevel == 0
    ensures Run(lib, s, Lines(b)) == WithEnv(s, Eval(lib, b, EnvOf(s)))
    decreases b, 1
  {
    hide RestLines;
    match b
    case Nil =>
    case Cons(Leaf(l), tail) =>
      RunOpen(lib, s, l, Lines(tail));
      match Act(lib, l, s.context) {
        case Fail(_) =>
        case Ok((ctx, out)) => ActiveBlock(lib, tail, s.(context := ctx, output := s.output + out));
      }
    case Cons(Cond(Branch(t, body, rest)), tail) =>
      var ls := [Open(t)] + Lines(body);
      RunOpen(lib, s, Open(t), Lines(body));
      RunAppend(lib, s, ls, RestLines(rest));
      RunAppend(lib, s, ls + RestLines(rest), Lines(tail));
      match Truth(lib, t, s.context) {
        case Fail(_) =>
        case Ok(val) =>
          var level := if val then 0 else 1;
          var s' := s.(disableLevel := level, ifStates := s.ifStates + [level]);
          BranchBody(lib, Branch(t, body, rest), s', val);
          match EvalChain(lib, Branch(t, body, rest), EnvOf(s)) {
            case Fail(_) =>
            case Ok(e) => ActiveBlock(lib, tail, s.(context := e.context, output := e.output));
          }
      }
  }

  // ---------- well-nested inputs ----------

  /** The tree at the start of the lines, up to a line that belongs to an enclosing conditional. */
  function ParseBlock(ls: seq<Line>): (r: Option<(Block, seq<Line>)>)
    ensures r.Some? ==> Proper(r.value.0) && |r.value.1| <= |ls|
    decreases |ls|, 0
  {
    if ls == [] || ls[0].Continues() || ls[0].Closes() then Some((Nil, ls))
    else if ls[0].Plain() then
      match ParseBlock(ls[1..])
      case None => None
      case Some((b, rest)) => Some((Cons(Leaf(ls[0]), b), rest))
    else
      match ParseBlock(ls[1..])
      case None => None
      case Some((body, r1)) =>
        match ParseRest(r1)
        case None => None
        case Some((chain, r2)) =>
          match ParseBlock(r2)
          case None => None
          case Some((tail, r3)) => Some((Cons(Cond(Branch(ls[0].test, body, chain)), tail), r3))
  }

  function ParseRest(ls: seq<Line>): (r: Option<(Chain, seq<Line>)>)
    ensures r.Some? ==> ProperChain(r.value.0) && |r.value.1| < |ls|
    decreases |ls|, 1
  {
    if ls == [] || ls[0].Plain() || ls[0].Opens() then None
    else if ls[0].Closes() then Some((End, ls[1..]))
    else
      match ParseBlock(ls[1..])
      case None => None
      case Some((body, r1)) =>
        if ls[0].Else? then
          if r1 == [] || r1[0] != Endif then None else Some((Otherwise(body), r1[1..]))
        else
          match ParseRest(r1)
          case None => None
          case Some((chain, r2)) => Some((Branch(ls[0].test, body, chain), r2))
  }

  /** A head line and the rest, told apart again. */
  lemma HeadTail(l: Line, a: seq<Line>, b: seq<Line>)
    ensures ([l] + a + b)[0] == l && ([l] + a + b)[1..] == a + b
  {
  }

  lemma Regroup(l: Line, a: seq<Line>, b: seq<Line>, c: seq<Line>)
    ensures [l] + a + b + c == [l] + (a + (b + c)) && [l] + (a + b) + c == [l] + (a + (b + c))
  {
  }

  lemma Glue(l: Line, a: seq<Line>, b: seq<Line>, c: seq<Line>, r: seq<Line>)
    ensures [l] + a + b + c + r == [l] + (a + (b + (c + r)))
  {
    assert c + r + [] == c + r;
    Regroup(l, a, b, c + r);
    assert [l] + a + b + c + r == [l] + a + b + (c + r);
  }

  lemma Uncons(ls: seq<Line>)
    requires ls != []
    ensures ls == [ls[0]] + ls[1..]
  {
  }

  /** The tree that is parsed has the lines it was parsed from. */
  lemma {:induction false} ParseBlockSound(ls: seq<Line>)
    requires ParseBlock(ls).Some?
    ensures Lines(ParseBlock(ls).value.0) + ParseBlock(ls).value.1 == ls
    decreases |ls|, 0
  {
    if ls == [] || ls[0].Continues() || ls[0].Closes() {
      assert [] + ls == ls;
    } else {
      Uncons(ls);
      ParseBlockSound(ls[1..]);
      var (body, r1) := ParseBlock(ls[1..]).value;
      if ls[0].Plain() {
        Regroup(ls[0], Lines(body), r1, []);
      } else {
        ParseRestSound(r1);
        var (chain, r2) := ParseRest(r1).value;
        ParseBlockSound(r2);
        var (tail, r3) := ParseBlock(r2).value;
        Glue(ls[0], Lines(body), RestLines(chain), Lines(tail), r3);
      }
    }
  }

  lemma {:induction false} ParseRestSound(ls: seq<Line>)
    requires ParseRest(ls).Some?
    ensures RestLines(ParseRest(ls).value.0) + ParseRest(ls).value.1 == ls
    decreases |ls|, 1
  {
    Uncons(ls);
    if !ls[0].Closes() {
      ParseBlockSound(ls[1..]);
      var (body, r1) := ParseBlock(ls[1..]).value;
      if ls[0].Else? {
        Uncons(r1);
        Regroup(Else, Lines(body), [Endif], r1[1..]);
      } else {
        ParseRestSound(r1);
        var (chain, r2) := ParseRest(r1).value;
        Regroup(ls[0], Lines(body), RestLines(chain), r2);
      }
    }
  }

  predicate StartsClosing(ls: seq<Line>) {
    ls != [] ==> ls[0].Continues() || ls[0].Closes()
  }

  /** Parsing the lines of a tree gives the tree back. */
  lemma {:induction false} ParseLines(b: Block, r: seq<Line>)
    requires Proper(b) && StartsClosing(r)
    ensures ParseBlock(Lines(b) + r) == Some((b, r))
  {
    match b
    case Nil =>
      assert Lines(b) + r == r;
    case Cons(Leaf(l), tail) =>
      ParseLines(tail, r);
      HeadTail(l, Lines(tail), r);
    case Cons(Cond(Branch(t, body, rest)), tail) =>
      var r2 := Lines(tail) + r;
      var r1 := RestLines(rest) + r2;
      ParseLines(tail, r);
      ParseRestLines(rest, r2);
      assert r1[0] == RestLines(rest)[0];
      ParseLines(body, r1);
      CondLines(t, body, rest, tail, r);
      ParseOpen(t, Lines(body) + r1, body, r1, rest, r2, tail, r);
  }

  lemma CondLines(t: Test, body: Block, rest: Chain, tail: Block, r: seq<Line>)
    requires Proper(body) && ProperChain(rest) && Proper(tail)
    ensures Lines(Cons(Cond(Branch(t, body, rest)), tail)) + r ==
            [Open(t)] + (Lines(body) + (RestLines(rest) + (Lines(tail) + r)))
  {
    Glue(Open(t), Lines(body), RestLines(rest), Lines(tail), r);
  }

  lemma ParseOpen(t: Test, ls: seq<Line>, body: Block, r1: seq<Line>, rest: Chain, r2: seq<Line>, tail: Block, r3: seq<Line>)
    requires ParseBlock(ls) == Some((body, r1)) && ParseRest(r1) == Some((rest, r2)) && ParseBlock(r2) == Some((tail, r3))
    ensures ParseBlock([Open(t)] + ls) == Some((Cons(Cond(Branch(t, body, rest)), tail), r3))
  {
    assert ([Open(t)] + ls)[1..] == ls;
  }

  lemma {:induction false} ParseRestLines(c: Chain, r: seq<Line>)
    requires ProperChain(c)
    ensures ParseRest(RestLines(c) + r) == Some((c, r))
  {
    match c
    case End =>
      assert ([Endif] + r)[1..] == r;
    case Otherwise(body) =>
      ParseLines(body, [Endif] + r);
      Regroup(Else, Lines(body), [Endif], r);
      ParseContinue(Else, Lines(body) + ([Endif] + r), body, [Endif] + r);
      assert ([Endif] + r)[1..] == r;
    case Branch(t, body, rest) =>
      var r1 := RestLines(rest) + r;
      ParseRestLines(rest, r);
      assert r1[0] == RestLines(rest)[0];
      ParseLines(body, r1);
      Regroup(Elif(t), Lines(body), RestLines(rest), r);
      ParseContinue(Elif(t), Lines(body) + r1, body, r1);
  }

  lemma ParseContinue(l: Line, ls: seq<Line>, body: Block, r1: seq<Line>)
    requires l.Continues() && ParseBlock(ls) == Some((body, r1))
    ensures ParseRest([l] + ls) ==
            if l.Else? then (if r1 == [] || r1[0] != Endif then None else Some((Otherwise(body), r1[1..])))
            else if ParseRest(r1).None? then None
            else Some((Branch(l.test, body, ParseRest(r1).value.0), ParseRest(r1).value.1))
  {
    assert ([l] + ls)[1..] == ls;
  }

  predicate WellNested(ls: seq<Line>) {
    ParseBlock(ls).Some? && ParseBlock(ls).value.1 == []
  }

  /** The well-nested inputs are exactly the lines of conditional trees. */
  lemma WellNestedIff(ls: seq<Line>)
    ensures WellNested(ls) <==> exists b :: Proper(b) && Lines(b) == ls
  {
    if WellNested(ls) {
      var b := ParseBlock(ls).value.0;
      ParseBlockSound(ls);
      assert Lines(b) + [] == Lines(b);
    }
    forall b | Proper(b) && Lines(b) == ls ensures WellNested(ls) {
      ParseLines(b, []);
      assert Lines(b) + [] == Lines(b);
    }
  }

  /** For every well-nested input the output, the variables and the first error are those of the
      recursive evaluation of its tree, and the counter and the stack are restored. */
  lemma StreamingMeansTree(lib: Library, ls: seq<Line>, s: State)
    requires WellNested(ls) && s.disableLevel == 0
    ensures Run(lib, s, ls) == WithEnv(s, Eval(lib, ParseBlock(ls).value.0, EnvOf(s)))
  {
    var b := ParseBlock(ls).value.0;
    ParseBlockSound(ls);
    assert Lines(b) + [] == Lines(b);
    ActiveBlock(lib, b, s);
  }

  // ---------- which branch is taken ----------

  lemma {:induction false} KnownLines(b: Block)
    requires Proper(b)
    ensures Known(b) <==> Unknown !in Lines(b)
  {
    match b
    case Nil =>
    case Cons(Leaf(l), tail) => KnownLines(tail);
    case Cons(Cond(Branch(t, body, rest)), tail) =>
      KnownLines(body);
      KnownRestLines(rest);
      KnownLines(tail);
  }

  lemma {:induction false} KnownRestLines(c: Chain)
    requires ProperChain(c)
    ensures KnownChain(c) <==> Unknown !in RestLines(c)
  {
    match c
    case End =>
    case Otherwise(body) => KnownLines(body);
    case Branch(t, body, rest) =>
      KnownLines(body);
      KnownRestLines(rest);
  }

  /** What a conditional does when its first test holds: the effect of the body, the rest is only looked through. */
  function IfTaken(lib: Library, s: State, body: Block, rest: Chain): Result<State>
    requires Proper(body) && ProperChain(rest)
  {
    match Run(lib, s, Lines(body))
    case Fail(f) => Fail(f)
    case Ok(s') => if Unknown in RestLines(rest) then Fail(InvalidCmd) else Ok(s')
  }

  /** And when it does not hold: nothing, the effect of the else body, or that of an if with the test of the elif. */
  function IfPassed(lib: Library, s: State, body: Block, rest: Chain): Result<State>
    requires Proper(body) && ProperChain(rest)
  {
    if Unknown in Lines(body) then Fail(InvalidCmd)
    else
      match rest
      case End => Ok(s)
      case Otherwise(other) => Run(lib, s, Lines(other))
      case Branch(t, b, r) => Run(lib, s, [Open(t)] + Lines(b) + RestLines(r))
  }

  /** An ifdef takes its branch exactly if the name is defined, an ifndef exactly if it is not, and an if exactly if its
      expression evaluates to a number other than 0; behind a branch not taken an elif, elifdef or elifndef does what the
      if, ifdef or ifndef would have done. Names that are none and expressions that raise stop the run. */
  lemma ConditionTable(lib: Library, s: State, t: Test, body: Block, rest: Chain)
    requires s.disableLevel == 0 && Proper(body) && ProperChain(rest)
    ensures var r := Run(lib, s, [Open(t)] + Lines(body) + RestLines(rest));
            var yes, no := IfTaken(lib, s, body, rest), IfPassed(lib, s, body, rest);
            match t
            case Ifdef(v) => r == (if lib.badName(v) then Fail(InvalidVar) else if v in s.context then yes else no)
            case Ifndef(v) => r == (if lib.badName(v) then Fail(InvalidVar) else if v in s.context then no else yes)
            case If(e) =>
              (match lib.evaluate(e, s.context)
               case None => r == Fail(SyntaxErr)
               case Some(Str(_)) => r == no
               case Some(Num(n)) => r == if n == 0 then no else yes)
  {
    hide Lines, RestLines, Run, Proper, Eval;
    CondRun(lib, s, t, body, rest);
    match Truth(lib, t, s.context)
    case Fail(_) =>
    case Ok(true) =>
      ActiveBlock(lib, body, s);
      KnownRestLines(rest);
    case Ok(false) =>
      KnownLines(body);
      match rest {
        case End =>
        case Otherwise(other) => ActiveBlock(lib, other, s);
        case Branch(t', b, r) => CondRun(lib, s, t', b, r);
      }
  }

  /** One conditional on its own. */
  lemma CondRun(lib: Library, s: State, t: Test, body: Block, rest: Chain)
    requires s.disableLevel == 0 && Proper(body) && ProperChain(rest)
    ensures Run(lib, s, [Open(t)] + Lines(body) + RestLines(rest)) == WithEnv(s, EvalChain(lib, Branch(t, body, rest), EnvOf(s)))
  {
    hide RestLines, EvalChain;
    var b := Cons(Cond(Branch(t, body, rest)), Nil);
    assert Lines(b) == [Open(t)] + Lines(body) + RestLines(rest);
    ActiveBlock(lib, b, s);
  }

  /** What the other lines do where nothing is disabled. */
  lemma PlainTable(lib: Library, s: State, text: string, n: string, v: Value)
    requires s.disableLevel == 0
    ensures Run(lib, s, [Text(text)]) == Ok(s.(output := s.output + [text]))
    ensures Run(lib, s, [Literal(text)]) == Ok(s.(output := s.output + [text]))
    ensures Run(lib, s, [Expand(text)]) == Ok(s.(output := s.output + [lib.expand(text, s.context)]))
    ensures Run(lib, s, [Comment]) == Ok(s)
    ensures Run(lib, s, [Error(text)]) == Fail(UserError(text))
    ensures Run(lib, s, [BadDefinition]) == Fail(SyntaxDef) && Run(lib, s, [Unknown]) == Fail(InvalidCmd)
    ensures var r := Run(lib, s, [Define(n, v)]);
            && r.Ok? && n in r.value.context && r.value.context[n] == v && r.value == s.(context := r.value.context)
            && forall m :: m != n ==> (m in r.value.context <==> m in s.context) &&
                                      (m in s.context ==> r.value.context[m] == s.context[m])
    ensures var r := Run(lib, s, [Undef(n)]);
            && r.Ok? && n !in r.value.context && r.value == s.(context := r.value.context)
            && forall m :: m != n ==> (m in r.value.context <==> m in s.context) &&
                                      (m in s.context ==> r.value.context[m] == s.context[m])
  {
    hide DoTest, DoElif, DoElse, DoEndif;
    forall l: Line ensures Run(lib, s, [l]) == Handle(lib, s, l) {
      RunOpen(lib, s, l, []);
      assert [l] + [] == [l];
    }
    assert s.output + [] == s.output;
  }

  /** After a define an ifdef of the name takes its branch, and after an undef it does not. */
  lemma DefinedThenTested(lib: Library, s: State, n: string, v: Value, body: Block)
    requires s.disableLevel == 0 && Proper(body) && !lib.badName(n)
    ensures Run(lib, s, [Define(n, v)] + ([Open(Ifdef(n))] + Lines(body) + [Endif])) == Run(lib, s, [Define(n, v)] + Lines(body))
    ensures Run(lib, s, [Undef(n)] + ([Open(Ifdef(n))] + Lines(body) + [Endif])) ==
            if Unknown in Lines(body) then Fail(InvalidCmd) else Run(lib, s, [Undef(n)])
  {
    hide Lines, Handle;
    var ifdef := [Open(Ifdef(n))] + Lines(body) + [Endif];
    PlainTable(lib, s, "", n, v);
    var defined, undefined := Run(lib, s, [Define(n, v)]).value, Run(lib, s, [Undef(n)]).value;
    RunAppend(lib, s, [Define(n, v)], ifdef);
    RunAppend(lib, s, [Define(n, v)], Lines(body));
    RunAppend(lib, s, [Undef(n)], ifdef);
    ConditionTable(lib, defined, Ifdef(n), body, End);
    ConditionTable(lib, undefined, Ifdef(n), body, End);
  }

  // ---------- behind an else ----------

  /** The state behind an else and some more lines of its body: it is marked, and may be disabled. */
  ghost predicate BehindElse(s: State, r: Result<State>) {
    r.Ok? ==> |r.value.ifStates| == |s.ifStates| + 1 && r.value.ifStates[..|s.ifStates|] == s.ifStates
              && Top(r.value) == IN_ELSE && r.value.disableLevel <= 1
  }

  lemma ElseReached(lib: Library, s: State, t: Test, b: Block, c: Block)
    requires s.disableLevel == 0 && Proper(b) && Proper(c)
    ensures BehindElse(s, Run(lib, s, [Open(t)] + Lines(b) + [Else] + Lines(c)))
  {
    hide Lines, Proper, Eval, Truth, Known;
    var ls := [Open(t)] + Lines(b) + [Else];
    RunOpen(lib, s, Open(t), Lines(b));
    RunAppend(lib, s, [Open(t)] + Lines(b), [Else]);
    RunAppend(lib, s, ls, Lines(c));
    match Truth(lib, t, s.context)
    case Fail(_) =>
    case Ok(val) =>
      var s' := s.(disableLevel := if val then 0 else 1, ifStates := s.ifStates + [if val then HAD_TRUE else WANTS_TRUE]);
      if val { ActiveBlock(lib, b, s'); } else { SkipBlock(lib, b, s'); }
      if Run(lib, s', Lines(b)).Ok? {
        var u := Run(lib, s', Lines(b)).value;
        RunOpen(lib, u, Else, []);
        assert [Else] + [] == [Else];
        var w := SetTop(u, IN_ELSE).(disableLevel := if val then 1 else 0);
        if val { SkipBlock(lib, c, w); } else { ActiveBlock(lib, c, w); }
      }
  }

  /** A second else, on which the code only prints a warning, enables what follows it, whichever branch was taken: the
      conditional might as well have ended there. */
  lemma SecondElse(lib: Library, s: State, t: Test, b: Block, c: Block, d: Block)
    requires s.disableLevel == 0 && Proper(b) && Proper(c) && Proper(d)
    ensures var ls := [Open(t)] + Lines(b) + [Else] + Lines(c);
            Run(lib, s, ls + ([Else] + Lines(d) + [Endif])) == Then(lib, Run(lib, s, ls + [Endif]), Lines(d))
  {
    hide Lines, Proper, Eval, Truth;
    var ls := [Open(t)] + Lines(b) + [Else] + Lines(c);
    ElseReached(lib, s, t, b, c);
    RunAppend(lib, s, ls, [Else] + Lines(d) + [Endif]);
    RunAppend(lib, s, ls, [Endif]);
    if Run(lib, s, ls).Ok? {
      var u := Run(lib, s, ls).value;
      var w := u.(disableLevel := 0);
      assert SetTop(u, IN_ELSE) == u;
      RunOpen(lib, u, Endif, []);
      assert [Endif] + [] == [Endif];
      RunOpen(lib, u, Else, Lines(d));
      RunAppend(lib, u, [Else] + Lines(d), [Endif]);
      ActiveBlock(lib, d, w);
      ActiveBlock(lib, d, Popped(u));
      if Run(lib, w, Lines(d)).Ok? { RunOpen(lib, Run(lib, w, Lines(d)).value, Endif, []); }
    }
  }

  /** And an elif behind an else might as well not be there: the lines behind it are further lines of the else body. */
  lemma ElifBehindElse(lib: Library, s: State, t: Test, b: Block, c: Block, t': Test, rest: seq<Line>)
    requires s.disableLevel == 0 && Proper(b) && Proper(c)
    ensures var ls := [Open(t)] + Lines(b) + [Else] + Lines(c);
            Run(lib, s, ls + ([Elif(t')] + rest)) == Run(lib, s, ls + rest)
  {
    hide Lines, Proper, Truth;
    var ls := [Open(t)] + Lines(b) + [Else] + Lines(c);
    ElseReached(lib, s, t, b, c);
    RunAppend(lib, s, ls, [Elif(t')] + rest);
    RunAppend(lib, s, ls, rest);
    if Run(lib, s, ls).Ok? {
      var u := Run(lib, s, ls).value;
      assert SetTop(u, IN_ELSE) == u;
      RunOpen(lib, u, Elif(t'), rest);
    }
  }

  // ---------- any input ----------

  /** What holds of the counter and the stack in every state a run can reach. */
  predicate Inv(s: State) {
    && (s.disableLevel > 0 ==> s.ifStates != [])
    && forall i :: 0 <= i < |s.ifStates| ==> s.ifStates[i] in {HAD_TRUE, WANTS_TRUE, IN_ELSE}
  }

  /** How many conditionals are open: those on the stack, and those opened while disabled. */
  function Depth(s: State): nat {
    |s.ifStates| + if s.disableLevel > 1 then s.disableLevel - 1 else 0
  }

  function Opened(ls: seq<Line>): int {
    if ls == [] then 0
    else (if ls[0].Opens() then 1 else if ls[0].Closes() then -1 else 0) + Opened(ls[1..])
  }

  lemma HandleDepth(lib: Library, s: State, l: Line)
    requires Inv(s)
    ensures var r := Handle(lib, s, l);
            && (r.Ok? ==> Inv(r.value) && Depth(r.value) == Depth(s) + Opened([l]))
            && (r == Fail(EmptyStack) <==> Depth(s) == 0 && !l.Plain() && !l.Opens())
  {
    assert Opened([l]) == (if l.Opens() then 1 else if l.Closes() then -1 else 0) + Opened([]);
  }

  /** On every input, well-nested or not: as long as no error stops the run the open depth is the
      number of conditionals opened less the number closed, and it runs out of stack exactly where
      an else, elif or endif comes at depth 0. */
  lemma {:induction false} RunDepth(lib: Library, s: State, ls: seq<Line>)
    requires Inv(s)
    ensures var r := Run(lib, s, ls);
            && (r.Ok? ==> Inv(r.value) && Depth(r.value) == Depth(s) + Opened(ls))
            && (r == Fail(EmptyStack) ==> exists k :: 0 <= k < |ls| && StackEndsAt(lib, s, ls, k))
    decreases |ls|
  {
    if ls != [] {
      HandleDepth(lib, s, ls[0]);
      match Handle(lib, s, ls[0]) {
        case Fail(_) =>
          if Handle(lib, s, ls[0]) == Fail(EmptyStack) {
            assert ls[..0] == [];
            assert StackEndsAt(lib, s, ls, 0);
          }
        case Ok(s') =>
          RunDepth(lib, s', ls[1..]);
          if Run(lib, s', ls[1..]) == Fail(EmptyStack) {
            var k :| 0 <= k < |ls[1..]| && StackEndsAt(lib, s', ls[1..], k);
            assert ls[..k + 1] == [ls[0]] + ls[1..][..k];
            RunOpen(lib, s, ls[0], ls[1..][..k]);
            assert StackEndsAt(lib, s, ls, k + 1);
          }
      }
    }
  }

  predicate StackEndsAt(lib: Library, s: State, ls: seq<Line>, k: nat)
    requires k < |ls|
  {
    var r := Run(lib, s, ls[..k]);
    r.Ok? && Depth(r.value) == 0 && (ls[k].Continues() || ls[k].Closes())
  }

  // ---------- the class ----------

  class Processor {
    const lib: Library
    var context: Context
    var disableLevel: nat
    var ifStates: seq<int>
    var output: seq<string>

    constructor (library: Library, defines: Context)
      ensures lib == library && St() == State(defines, 0, [], [])
    {
      lib, context, disableLevel, ifStates, output := library, defines, 0, [], [];
    }

    function St(): State
      reads this
    {
      State(context, disableLevel, ifStates, output)
    }

    /** The new state, unless an exception leaves the method. */
    ghost predicate Became(r: Result<State>, fault: Option<Fault>)
      reads this
    {
      match r
      case Ok(s) => fault == None && St() == s
      case Fail(f) => fault == Some(f)
    }

    method DoIf(t: Test, replace: bool) returns (fault: Option<Fault>)
      requires replace ==> ifStates != []
      modifies this
      ensures Became(DoTest(lib, old(St()), t, replace), fault)
    {
      if disableLevel != 0 && !replace {
        disableLevel := disableLevel + 1;
        return None;
      }
      var r := Truth(lib, t, context);
      if r.Fail? {
        return Some(r.fault);
      }
      var val := r.value;
      if !val {
        disableLevel := 1;
      }
      if replace {
        if val {
          disableLevel := 0;
        }
        ifStates := ifStates[|ifStates| - 1 := disableLevel];
      } else {
        ifStates := ifStates + [disableLevel];
      }
      fault := None;
    }

    method DoElseLine(ifState: int) returns (fault: Option<Fault>)
      modifies this
      ensures Became(DoElse(old(St()), ifState), fault)
    {
      if ifStates == [] {
        return Some(EmptyStack);
      }
      var hadTrue := ifStates[|ifStates| - 1] == HAD_TRUE;
      ifStates := ifStates[|ifStates| - 1 := ifState];
      if hadTrue {
        disableLevel := 1;
        return None;
      }
      disableLevel := 0;
      fault := None;
    }

    method DoElifLine(t: Test) returns (fault: Option<Fault>)
      modifies this
      ensures Became(DoElif(lib, old(St()), t), fault)
    {
      if ifStates == [] {
        return Some(EmptyStack);
      }
      fault := None;
      if disableLevel == 1 {
        if ifStates[|ifStates| - 1] == WANTS_TRUE {
          fault := DoIf(t, true);
        }
      } else {
        fault := DoElseLine(ifStates[|ifStates| - 1]);
      }
    }

    method DoEndifLine() returns (fault: Option<Fault>)
      modifies this
      ensures Became(DoEndif(old(St())), fault)
    {
      if disableLevel > 0 {
        disableLevel := disableLevel - 1;
      }
      if disableLevel == 0 {
        if ifStates == [] {
          return Some(EmptyStack);
        }
        ifStates := ifStates[..|ifStates| - 1];
      }
      fault := None;
    }

    method HandleLine(l: Line) returns (fault: Option<Fault>)
      modifies this
      ensures Became(Handle(lib, old(St()), l), fault)
    {
      fault := None;
      if l.Unknown? {
        fault := Some(InvalidCmd);
      } else if l.Open? {
        fault := DoIf(l.test, false);
      } else if l.Endif? {
        fault := DoEndifLine();
      } else if l.Else? {
        if 1 >= disableLevel {
          fault := DoElseLine(IN_ELSE);
        }
      } else if l.Elif? {
        if 1 >= disableLevel {
          fault := DoElifLine(l.test);
        }
      } else if 0 >= disableLevel {
        var r := Act(lib, l, context);
        if r.Fail? {
          return Some(r.fault);
        }
        context, output := r.value.0, output + r.value.1;
      }
    }

    /** The loop of do_include over the lines of a file. */
    method Process(ls: seq<Line>) returns (fault: Option<Fault>)
      modifies this
      ensures Became(Run(lib, old(St()), ls), fault)
    {
      fault := None;
      for i := 0 to |ls|
        invariant fault == None && Run(lib, old(St()), ls) == Run(lib, St(), ls[i..])
      {
        fault := HandleLine(ls[i]);
        assert ls[i..][1..] == ls[i + 1..];
        if fault.Some? {
          return;
        }
      }
    }
  }
}
