/**
  The tree-walking evaluator of `src/interpreter.rs`: truthiness, binary
  operators, expression evaluation with native calls, and statement
  execution over the scope stack of `Environment`.

  Native functions are host code: `Host.call` gives the value a native
  function returns for its arguments, and `Host.divide` the quotient of two
  numbers. Every native call is recorded in a trace, so the order in which
  the evaluator makes its calls is part of every result.
*/
module Interpreter {
  import opened Ast
  import opened Environment

  /** One call of the native function `callee` with the arguments `args`. */
  datatype Call = Call(callee: nat, args: seq<Value>)

  /** What the evaluator takes from its host. */
  datatype Host = Host(call: (nat, seq<Value>) -> Value, divide: (int, int) -> int)

  /**
    Why an evaluation stops early: calling a value that is not a native
    function (a panic in the source), or a `While` that ran out of fuel.
  */
  datatype Error = NotAFunction | OutOfFuel

  /** A result together with the native calls made while computing it, in order. */
  datatype Outcome<T> =
    | Normal(value: T, calls: seq<Call>)
    | Abort(error: Error, calls: seq<Call>)
  {
    /** This outcome, preceded by the calls `before`. */
    function After(before: seq<Call>): (r: Outcome<T>)
      ensures r.calls == before + calls
      ensures r.Normal? == Normal?
      ensures Normal? ==> r.value == value
      ensures Abort? ==> r.error == error
    {
      match this
      case Normal(v, cs) => Normal(v, before + cs)
      case Abort(e, cs) => Abort(e, before + cs)
    }
  }

  // ---------------------------------------------------------------------
  // is_true
  // ---------------------------------------------------------------------

  /** Every value except `False` and `Nil` counts as true. */
  function IsTrue(v: Value): (r: bool)
    ensures !r <==> v == False || v == Nil
  {
    match v
    case False | Nil => false
    case _ => true
  }

  /** Zero, the empty string and native functions are all true. */
  lemma TruthyValues(id: nat)
    ensures IsTrue(Number(0)) && IsTrue(String([])) && IsTrue(RustFunction(id)) && IsTrue(True)
  {
  }

  // ---------------------------------------------------------------------
  // Binop
  // ---------------------------------------------------------------------

  predicate IsComparison(op: Binop) {
    op in {Lt, Le, Gt, Ge, Eq, Neq}
  }

  /** The boolean value of a comparison. */
  function Truth(b: bool): (r: Value)
    ensures r == True || r == False
    ensures IsTrue(r) == b
  {
    if b then True else False
  }

  /**
    A binary operator applied to two operand values: only two numbers
    combine; any other operand makes the result `Nil`.
  */
  function ApplyBinop(host: Host, op: Binop, a: Value, b: Value): (r: Value)
    ensures !(a.Number? && b.Number?) ==> r == Nil
    ensures a.Number? && b.Number? ==> (IsComparison(op) <==> (r == True || r == False))
    ensures a.Number? && b.Number? && !IsComparison(op) ==> r.Number?
  {
    if a.Number? && b.Number? then
      var x, y := a.n, b.n;
      match op
      case Add => Number(x + y)
      case Sub => Number(x - y)
      case Mul => Number(x * y)
      case Div => Number(host.divide(x, y))
      case Lt => Truth(x < y)
      case Le => Truth(x <= y)
      case Gt => Truth(x > y)
      case Ge => Truth(x >= y)
      case Eq => Truth(x == y)
      case Neq => Truth(x != y)
    else
      Nil
  }

  /**
    The value of each operator on two numbers: the integer sum, difference
    and product, the host's quotient, and `True` exactly when the comparison
    holds.
  */
  lemma ApplyBinopValues(host: Host, op: Binop, a: Value, b: Value)
    requires a.Number? && b.Number?
    ensures var r := ApplyBinop(host, op, a, b);
      match op
      case Add => r == Number(a.n + b.n)
      case Sub => r == Number(a.n - b.n)
      case Mul => r == Number(a.n * b.n)
      case Div => r == Number(host.divide(a.n, b.n))
      case Lt => (r == True <==> a.n < b.n)
      case Le => (r == True <==> a.n <= b.n)
      case Gt => (r == True <==> a.n > b.n)
      case Ge => (r == True <==> a.n >= b.n)
      case Eq => (r == True <==> a.n == b.n)
      case Neq => (r == True <==> a.n != b.n)
  {
  }

  /** The comparisons agree with each other as orderings of numbers do. */
  lemma ComparisonsAgree(host: Host, a: Value, b: Value)
    requires a.Number? && b.Number?
    ensures ApplyBinop(host, Lt, a, b) == ApplyBinop(host, Gt, b, a)
    ensures ApplyBinop(host, Le, a, b) == ApplyBinop(host, Ge, b, a)
    ensures ApplyBinop(host, Eq, a, b) == ApplyBinop(host, Eq, b, a)
    ensures IsTrue(ApplyBinop(host, Neq, a, b)) == !IsTrue(ApplyBinop(host, Eq, a, b))
    ensures IsTrue(ApplyBinop(host, Le, a, b)) ==
            (IsTrue(ApplyBinop(host, Lt, a, b)) || IsTrue(ApplyBinop(host, Eq, a, b)))
    ensures IsTrue(ApplyBinop(host, Ge, a, b)) == !IsTrue(ApplyBinop(host, Lt, a, b))
  {
  }

  // ---------------------------------------------------------------------
  // evaluate
  // ---------------------------------------------------------------------

  /** The number of function-call nodes in an expression. */
  function CallCount(e: Expression): nat
    decreases e
  {
    match e
    case Constant(_) => 0
    case Variable(_) => 0
    case FunctionCall(callee, args) => 1 + CallCount(callee) + CallCountAll(args)
    case Binop(_, l, r) => CallCount(l) + CallCount(r)
  }

  function CallCountAll(es: seq<Expression>): nat
    decreases es
  {
    if es == [] then 0 else CallCount(es[0]) + CallCountAll(es[1..])
  }

  /**
    `evaluate`. A call evaluates its callee first; if that is not a native
    function the evaluation stops with `NotAFunction` before any argument is
    evaluated; otherwise the arguments are evaluated left to right and the
    native function is called last. A `Binop` evaluates left, then right.
    A successful evaluation makes exactly one native call per call node; a
    failed one stops short of that.
  */
  function Evaluate(host: Host, env: Env, e: Expression): (r: Outcome<Value>)
    requires InBounds(env)
    decreases e
    ensures r.Normal? ==> |r.calls| == CallCount(e)
    ensures r.Abort? ==> r.error == NotAFunction && |r.calls| < CallCount(e)
  {
    match e
    case Constant(c) => Normal(c, [])
    case Variable(Name(n)) => Normal(GetVariable(env, n), [])
    case FunctionCall(callee, args) =>
      var f := Evaluate(host, env, callee);
      if f.Abort? then Abort(f.error, f.calls)
      else if !f.value.RustFunction? then Abort(NotAFunction, f.calls)
      else
        var a := EvalArgs(host, env, args);
        if a.Abort? then Abort(a.error, f.calls + a.calls)
        else Normal(host.call(f.value.id, a.value), f.calls + a.calls + [Call(f.value.id, a.value)])
    case Binop(op, left, right) =>
      var x := Evaluate(host, env, left);
      if x.Abort? then Abort(x.error, x.calls)
      else
        var y := Evaluate(host, env, right);
        if y.Abort? then Abort(y.error, x.calls + y.calls)
        else Normal(ApplyBinop(host, op, x.value, y.value), x.calls + y.calls)
  }

  /**
    The argument loop of a call: the arguments left to right, one value per
    argument, each the value that argument evaluates to; it fails exactly
    when some argument does.
  */
  function EvalArgs(host: Host, env: Env, args: seq<Expression>): (r: Outcome<seq<Value>>)
    requires InBounds(env)
    decreases args
    ensures r.Normal? ==> |r.calls| == CallCountAll(args)
    ensures r.Abort? ==> r.error == NotAFunction && |r.calls| < CallCountAll(args)
    ensures r.Normal? <==> forall i :: 0 <= i < |args| ==> Evaluate(host, env, args[i]).Normal?
    ensures r.Normal? ==> |r.value| == |args|
    ensures r.Normal? ==> forall i :: 0 <= i < |r.value| && i < |args| ==>
      r.value[i] == Evaluate(host, env, args[i]).value
  {
    if args == [] then Normal([], [])
    else
      var h := Evaluate(host, env, args[0]);
      var t := EvalArgs(host, env, args[1..]);
      assert forall i :: 1 <= i < |args| ==> args[1..][i - 1] == args[i];
      if h.Abort? then Abort(h.error, h.calls)
      else if t.Abort? then Abort(t.error, h.calls + t.calls)
      else Normal([h.value] + t.value, h.calls + t.calls)
  }

  /** The calls of the arguments, first argument first: each argument's calls in turn. */
  function ArgCalls(host: Host, env: Env, args: seq<Expression>): seq<Call>
    requires InBounds(env)
    decreases args
  {
    if args == [] then [] else Evaluate(host, env, args[0]).calls + ArgCalls(host, env, args[1..])
  }

  /** The calls of two runs of arguments, one after the other, are those of the first run, then the second. */
  lemma {:induction false} ArgCallsAppend(host: Host, env: Env, args1: seq<Expression>, args2: seq<Expression>)
    requires InBounds(env)
    decreases args1
    ensures ArgCalls(host, env, args1 + args2) == ArgCalls(host, env, args1) + ArgCalls(host, env, args2)
  {
    if args1 == [] {
      assert args1 + args2 == args2;
    } else {
      assert (args1 + args2)[0] == args1[0];
      assert (args1 + args2)[1..] == args1[1..] + args2;
      ArgCallsAppend(host, env, args1[1..], args2);
    }
  }

  /** The position of the first argument that fails, or the number of arguments when none does. */
  function FirstFailure(host: Host, env: Env, args: seq<Expression>): (k: nat)
    requires InBounds(env)
    decreases args
    ensures k <= |args|
    ensures forall i :: 0 <= i < k ==> Evaluate(host, env, args[i]).Normal?
    ensures k < |args| ==> Evaluate(host, env, args[k]).Abort?
  {
    if args == [] then 0
    else if Evaluate(host, env, args[0]).Abort? then 0
    else
      assert forall i :: 1 <= i < |args| ==> args[1..][i - 1] == args[i];
      1 + FirstFailure(host, env, args[1..])
  }

  /** A successful argument loop makes the calls of its arguments, first argument first. */
  lemma {:induction false} EvalArgsCalls(host: Host, env: Env, args: seq<Expression>)
    requires InBounds(env)
    requires EvalArgs(host, env, args).Normal?
    decreases args
    ensures EvalArgs(host, env, args).calls == ArgCalls(host, env, args)
  {
    if args != [] {
      EvalArgsCalls(host, env, args[1..]);
    }
  }

  /**
    A failing argument loop stops at the first argument that fails: the
    calls are those of the arguments before it, in order, followed by the
    failing one's; no later argument is evaluated.
  */
  lemma {:induction false} EvalArgsStopsAtFirstFailure(host: Host, env: Env, args: seq<Expression>)
    requires InBounds(env)
    requires EvalArgs(host, env, args).Abort?
    decreases args
    ensures FirstFailure(host, env, args) < |args|
    ensures EvalArgs(host, env, args).calls ==
            ArgCalls(host, env, args[..FirstFailure(host, env, args)]) +
            Evaluate(host, env, args[FirstFailure(host, env, args)]).calls
  {
    var h := Evaluate(host, env, args[0]);
    if h.Abort? {
      assert args[..0] == [];
    } else {
      var t := args[1..];
      EvalArgsStopsAtFirstFailure(host, env, t);
      var k := FirstFailure(host, env, t);
      assert FirstFailure(host, env, args) == k + 1;
      assert args[k + 1] == t[k];
      assert args[..k + 1][0] == args[0];
      assert args[..k + 1][1..] == t[..k];
    }
  }

  /** An expression without calls always evaluates, and calls nothing. */
  lemma NoCallsNoTrace(host: Host, env: Env, e: Expression)
    requires InBounds(env)
    requires CallCount(e) == 0
    ensures Evaluate(host, env, e).Normal? && Evaluate(host, env, e).calls == []
  {
  }

  /** Calling a value that is not a native function fails before any argument is evaluated. */
  lemma NotCallable(host: Host, env: Env, callee: Expression, args: seq<Expression>)
    requires InBounds(env)
    requires Evaluate(host, env, callee).Normal? && !Evaluate(host, env, callee).value.RustFunction?
    ensures Evaluate(host, env, Expression.FunctionCall(callee, args)) ==
            Abort(NotAFunction, Evaluate(host, env, callee).calls)
  {
  }

  /**
    A call that evaluates makes its own native call last, with one argument
    value per argument expression, each the value of that expression; the
    calls of the callee come first.
  */
  lemma CallOrder(host: Host, env: Env, callee: Expression, args: seq<Expression>)
    requires InBounds(env)
    requires Evaluate(host, env, Expression.FunctionCall(callee, args)).Normal?
    ensures var f := Evaluate(host, env, callee);
            var r := Evaluate(host, env, Expression.FunctionCall(callee, args));
            && f.Normal? && f.value.RustFunction?
            && |r.calls| > |f.calls|
            && r.calls[..|f.calls|] == f.calls
            && r.calls == f.calls + ArgCalls(host, env, args) + [r.calls[|r.calls| - 1]]
            && r.calls[|r.calls| - 1].callee == f.value.id
            && |r.calls[|r.calls| - 1].args| == |args|
            && (forall i :: 0 <= i < |args| ==>
                  r.calls[|r.calls| - 1].args[i] == Evaluate(host, env, args[i]).value)
            && r.value == host.call(f.value.id, r.calls[|r.calls| - 1].args)
  {
    var f := Evaluate(host, env, callee);
    var a := EvalArgs(host, env, args);
    EvalArgsCalls(host, env, args);
    var r := Evaluate(host, env, Expression.FunctionCall(callee, args));
    assert r.calls == f.calls + a.calls + [Call(f.value.id, a.value)];
    assert r.calls[..|f.calls|] == f.calls;
  }

  /**
    A `Binop` evaluates its left operand, then its right one, and if the
    left fails the right is never evaluated.
  */
  lemma BinopLeftThenRight(host: Host, env: Env, op: Binop, left: Expression, right: Expression)
    requires InBounds(env)
    ensures var x := Evaluate(host, env, left);
            var y := Evaluate(host, env, right);
            var r := Evaluate(host, env, Binop(op, left, right));
            && (x.Abort? ==> r == Abort(x.error, x.calls))
            && (x.Normal? && y.Abort? ==> r == Abort(y.error, x.calls + y.calls))
            && (x.Normal? && y.Normal? ==> r == Normal(ApplyBinop(host, op, x.value, y.value), x.calls + y.calls))
  {
  }

  /** A `Binop` whose operands evaluate to anything but two numbers gives `Nil`. */
  lemma BinopNonNumberIsNil(host: Host, env: Env, op: Binop, left: Expression, right: Expression)
    requires InBounds(env)
    requires Evaluate(host, env, Binop(op, left, right)).Normal?
    requires !Evaluate(host, env, left).value.Number? || !Evaluate(host, env, right).value.Number?
    ensures Evaluate(host, env, Binop(op, left, right)).value == Nil
  {
  }

  /** Evaluation only depends on what variables read as. */
  lemma {:induction false} EvaluateAgrees(host: Host, env1: Env, env2: Env, e: Expression)
    requires InBounds(env1) && InBounds(env2)
    requires forall n :: GetVariable(env1, n) == GetVariable(env2, n)
    decreases e
    ensures Evaluate(host, env1, e) == Evaluate(host, env2, e)
  {
    match e
    case Constant(_) =>
    case Variable(Name(n)) =>
    case FunctionCall(callee, args) =>
      EvaluateAgrees(host, env1, env2, callee);
      EvalArgsAgree(host, env1, env2, args);
    case Binop(_, l, r) =>
      EvaluateAgrees(host, env1, env2, l);
      EvaluateAgrees(host, env1, env2, r);
  }

  lemma {:induction false} EvalArgsAgree(host: Host, env1: Env, env2: Env, args: seq<Expression>)
    requires InBounds(env1) && InBounds(env2)
    requires forall n :: GetVariable(env1, n) == GetVariable(env2, n)
    decreases args
    ensures EvalArgs(host, env1, args) == EvalArgs(host, env2, args)
  {
    if args != [] {
      EvaluateAgrees(host, env1, env2, args[0]);
      EvalArgsAgree(host, env1, env2, args[1..]);
    }
  }

  // ---------------------------------------------------------------------
  // exec_statement
  // ---------------------------------------------------------------------

  /**
    `exec_statement`. `fuel` bounds the number of `While` iterations on any
    path of nested loops; a loop whose condition is still true when the fuel
    is spent stops with `OutOfFuel`. A statement that completes leaves the
    number of scopes and the cursor as they were, so the invariant
    `stack_indice == |stack| - 1` is kept.
  */
  function Exec(host: Host, env: Env, s: Statement, fuel: nat): (r: Outcome<Env>)
    requires InBounds(env)
    decreases fuel, s, 1
    ensures r.Normal? ==> |r.value.stack| == |env.stack| && r.value.stackIndice == env.stackIndice
    ensures r.Normal? && Valid(env) ==> Valid(r.value)
  {
    match s
    case Assignment(Name(n), e) =>
      var v := Evaluate(host, env, e);
      if v.Abort? then Abort(v.error, v.calls)
      else Normal(SetVariable(env, n, v.value), v.calls)
    case SetLocal(Name(n)) =>
      Normal(DeclareLocal(env, n), [])
    case FunctionCall(callee, args) =>
      var v := Evaluate(host, env, Expression.FunctionCall(callee, args));
      if v.Abort? then Abort(v.error, v.calls)
      else Normal(env, v.calls)
    case Block(body) =>
      var inner := ExecList(host, Push(env), body, fuel);
      if inner.Abort? then inner
      else Normal(Pop(inner.value), inner.calls)
    case While(cond, body) =>
      Loop(host, env, cond, body, fuel)
    case If(cond, thenBody, _) =>
      // Both arms run the then-list, as the source does.
      var v := Evaluate(host, env, cond);
      if v.Abort? then Abort(v.error, v.calls)
      else if IsTrue(v.value) then ExecList(host, env, thenBody, fuel).After(v.calls)
      else ExecList(host, env, thenBody, fuel).After(v.calls)
  }

  /**
    `While(cond, body)`: evaluate the condition; while it is true, run the
    body with one unit of fuel less and loop again.
  */
  function Loop(host: Host, env: Env, cond: Expression, body: seq<Statement>, fuel: nat): (r: Outcome<Env>)
    requires InBounds(env)
    decreases fuel, While(cond, body), 0
    ensures r.Normal? ==> |r.value.stack| == |env.stack| && r.value.stackIndice == env.stackIndice
    ensures r.Normal? && Valid(env) ==> Valid(r.value)
  {
    var v := Evaluate(host, env, cond);
    if v.Abort? then Abort(v.error, v.calls)
    else if !IsTrue(v.value) then Normal(env, v.calls)
    else if fuel == 0 then Abort(OutOfFuel, v.calls)
    else
      var b := ExecList(host, env, body, fuel - 1);
      if b.Abort? then b.After(v.calls)
      else Loop(host, b.value, cond, body, fuel - 1).After(v.calls + b.calls)
  }

  /** A statement list, executed in order, stopping at the first failure. */
  function ExecList(host: Host, env: Env, body: seq<Statement>, fuel: nat): (r: Outcome<Env>)
    requires InBounds(env)
    decreases fuel, body, 1
    ensures r.Normal? ==> |r.value.stack| == |env.stack| && r.value.stackIndice == env.stackIndice
    ensures r.Normal? && Valid(env) ==> Valid(r.value)
  {
    if body == [] then Normal(env, [])
    else
      var h := Exec(host, env, body[0], fuel);
      if h.Abort? then h
      else ExecList(host, h.value, body[1..], fuel).After(h.calls)
  }

  // ---------------------------------------------------------------------
  // Properties of exec_statement
  // ---------------------------------------------------------------------

  /** The outcome did not depend on running out of fuel. */
  predicate Finished<T>(r: Outcome<T>) {
    r.Normal? || r.error != OutOfFuel
  }

  /** More fuel changes nothing once an execution finished without running out. */
  lemma {:induction false} ExecFuelMonotone(host: Host, env: Env, s: Statement, fuel: nat, more: nat)
    requires InBounds(env)
    requires fuel <= more
    requires Finished(Exec(host, env, s, fuel))
    decreases fuel, s, 1
    ensures Exec(host, env, s, more) == Exec(host, env, s, fuel)
  {
    match s
    case Assignment(_, _) =>
    case SetLocal(_) =>
    case FunctionCall(_, _) =>
    case Block(body) =>
      ExecListFuelMonotone(host, Push(env), body, fuel, more);
    case While(cond, body) =>
      LoopFuelMonotone(host, env, cond, body, fuel, more);
    case If(cond, thenBody, _) =>
      if Evaluate(host, env, cond).Normal? {
        ExecListFuelMonotone(host, env, thenBody, fuel, more);
      }
  }

  lemma {:induction false} LoopFuelMonotone(host: Host, env: Env, cond: Expression, body: seq<Statement>,
                                            fuel: nat, more: nat)
    requires InBounds(env)
    requires fuel <= more
    requires Finished(Loop(host, env, cond, body, fuel))
    decreases fuel, While(cond, body), 0
    ensures Loop(host, env, cond, body, more) == Loop(host, env, cond, body, fuel)
  {
    var v := Evaluate(host, env, cond);
    if v.Normal? && IsTrue(v.value) && fuel > 0 {
      var b := ExecList(host, env, body, fuel - 1);
      ExecListFuelMonotone(host, env, body, fuel - 1, more - 1);
      if b.Normal? {
        LoopFuelMonotone(host, b.value, cond, body, fuel - 1, more - 1);
      }
    }
  }

  lemma {:induction false} ExecListFuelMonotone(host: Host, env: Env, body: seq<Statement>, fuel: nat, more: nat)
    requires InBounds(env)
    requires fuel <= more
    requires Finished(ExecList(host, env, body, fuel))
    decreases fuel, body
    ensures ExecList(host, env, body, more) == ExecList(host, env, body, fuel)
  {
    if body != [] {
      ExecFuelMonotone(host, env, body[0], fuel, more);
      var h := Exec(host, env, body[0], fuel);
      if h.Normal? {
        ExecListFuelMonotone(host, h.value, body[1..], fuel, more);
      }
    }
  }

  /**
    `If` evaluates its condition once and then runs the then-list whatever
    the condition gave: the source's else arm repeats the then arm.
  */
  lemma IfRunsThenList(host: Host, env: Env, cond: Expression, thenBody: seq<Statement>,
                       elseBody: seq<Statement>, fuel: nat)
    requires InBounds(env)
    requires Evaluate(host, env, cond).Normal?
    ensures Exec(host, env, If(cond, thenBody, elseBody), fuel) ==
            ExecList(host, env, thenBody, fuel).After(Evaluate(host, env, cond).calls)
  {
  }

  /** The else-list of an `If` is never run: replacing it changes nothing. */
  lemma IfIgnoresElse(host: Host, env: Env, cond: Expression, thenBody: seq<Statement>,
                      else1: seq<Statement>, else2: seq<Statement>, fuel: nat)
    requires InBounds(env)
    ensures Exec(host, env, If(cond, thenBody, else1), fuel) ==
            Exec(host, env, If(cond, thenBody, else2), fuel)
  {
  }

  /**
    `If` as its syntax and the unused `elseBlock` binding mean it: the
    then-list when the condition is true, the else-list otherwise. `Exec`
    keeps the source's behaviour; this is the corrected arm.
  */
  function ExecIfIntended(host: Host, env: Env, cond: Expression, thenBody: seq<Statement>,
                          elseBody: seq<Statement>, fuel: nat): (r: Outcome<Env>)
    requires InBounds(env)
    ensures r.Normal? ==> |r.value.stack| == |env.stack| && r.value.stackIndice == env.stackIndice
    ensures r.Normal? && Valid(env) ==> Valid(r.value)
    ensures Evaluate(host, env, cond).Abort? ==> r == Abort(Evaluate(host, env, cond).error, Evaluate(host, env, cond).calls)
  {
    var v := Evaluate(host, env, cond);
    if v.Abort? then Abort(v.error, v.calls)
    else if IsTrue(v.value) then ExecList(host, env, thenBody, fuel).After(v.calls)
    else ExecList(host, env, elseBody, fuel).After(v.calls)
  }

  /**
    The corrected `If` and the source's differ only when the condition is
    false: with a failing or a true condition they give the same outcome.
  */
  lemma IfIntendedAgreesUnlessFalse(host: Host, env: Env, cond: Expression, thenBody: seq<Statement>,
                                    elseBody: seq<Statement>, fuel: nat)
    requires InBounds(env)
    requires Evaluate(host, env, cond).Abort? || IsTrue(Evaluate(host, env, cond).value)
    ensures ExecIfIntended(host, env, cond, thenBody, elseBody, fuel) ==
            Exec(host, env, If(cond, thenBody, elseBody), fuel)
  {
  }

  /** The corrected `If` with a false condition runs exactly the else-list. */
  lemma IfIntendedFalseRunsElse(host: Host, env: Env, thenBody: seq<Statement>,
                                elseBody: seq<Statement>, fuel: nat)
    requires InBounds(env)
    ensures ExecIfIntended(host, env, Constant(False), thenBody, elseBody, fuel) ==
            ExecList(host, env, elseBody, fuel)
  {
  }

  /**
    `if false then x = 1 else x = 2 end` from a new environment: the
    source's `If` leaves `x = 1`, the corrected one `x = 2`.
  */
  lemma IfDefectExample(host: Host, fuel: nat)
    ensures var s := If(Constant(False), [Assignment(Name("x"), Constant(Number(1)))],
                                         [Assignment(Name("x"), Constant(Number(2)))]);
            var asWritten := Exec(host, New(), s, fuel);
            var intended := ExecIfIntended(host, New(), s.cond, s.thenBody, s.elseBody, fuel);
            && asWritten.Normal? && intended.Normal?
            && GetVariable(asWritten.value, "x") == Number(1)
            && GetVariable(intended.value, "x") == Number(2)
  {
    var env := New();
    var a := [Assignment(Name("x"), Constant(Number(1)))];
    var b := [Assignment(Name("x"), Constant(Number(2)))];
    assert a[1..] == [] && b[1..] == [];
    SetThenGet(env, "x", Number(1));
    SetThenGet(env, "x", Number(2));
    assert ExecList(host, env, a, fuel) == Normal(SetVariable(env, "x", Number(1)), []);
    assert ExecList(host, env, b, fuel) == Normal(SetVariable(env, "x", Number(2)), []);
  }

  /** A `While` whose condition is false runs nothing and changes nothing. */
  lemma WhileStopsWhenFalse(host: Host, env: Env, cond: Expression, body: seq<Statement>, fuel: nat)
    requires InBounds(env)
    requires Evaluate(host, env, cond).Normal? && !IsTrue(Evaluate(host, env, cond).value)
    ensures Exec(host, env, While(cond, body), fuel) == Normal(env, Evaluate(host, env, cond).calls)
  {
  }

  /**
    A `While` whose condition is true runs its body once and then is the same
    loop again, with one unit of fuel less.
  */
  lemma WhileUnrolls(host: Host, env: Env, cond: Expression, body: seq<Statement>, fuel: nat)
    requires InBounds(env)
    requires Evaluate(host, env, cond).Normal? && IsTrue(Evaluate(host, env, cond).value)
    requires fuel > 0 && ExecList(host, env, body, fuel - 1).Normal?
    ensures var b := ExecList(host, env, body, fuel - 1);
            Exec(host, env, While(cond, body), fuel) ==
            Exec(host, b.value, While(cond, body), fuel - 1).After(Evaluate(host, env, cond).calls + b.calls)
  {
  }

  /**
    After an assignment the target reads as the assigned value and every
    other name reads as before.
  */
  lemma AssignThenRead(host: Host, env: Env, n: string, e: Expression, fuel: nat, other: string)
    requires InBounds(env)
    ensures var r := Exec(host, env, Assignment(Name(n), e), fuel);
            && (r.Normal? <==> Evaluate(host, env, e).Normal?)
            && (r.Normal? ==> GetVariable(r.value, n) == Evaluate(host, env, e).value)
            && (r.Normal? && other != n ==> GetVariable(r.value, other) == GetVariable(env, other))
  {
    var v := Evaluate(host, env, e);
    if v.Normal? {
      SetThenGet(env, n, v.value);
      if other != n {
        SetThenGetOther(env, n, v.value, other);
      }
    }
  }

  /** `local n` makes no call and leaves `n` reading as `Nil`. */
  lemma SetLocalThenRead(host: Host, env: Env, n: string, fuel: nat)
    requires InBounds(env)
    ensures Exec(host, env, SetLocal(Name(n)), fuel).Normal?
    ensures Exec(host, env, SetLocal(Name(n)), fuel).calls == []
    ensures GetVariable(Exec(host, env, SetLocal(Name(n)), fuel).value, n) == Nil
  {
    DeclareLocalThenGet(env, n);
  }

  /** A call statement discards the call's value and changes no variable. */
  lemma CallStatementKeepsEnv(host: Host, env: Env, callee: Expression, args: seq<Expression>, fuel: nat)
    requires InBounds(env)
    ensures var r := Exec(host, env, Statement.FunctionCall(callee, args), fuel);
            && r.calls == Evaluate(host, env, Expression.FunctionCall(callee, args)).calls
            && (r.Normal? ==> r.value == env)
  {
  }

  /** A block holding only an assignment does exactly what the assignment does. */
  lemma BlockOfAssignment(host: Host, env: Env, n: string, e: Expression, fuel: nat)
    requires Valid(env)
    ensures Exec(host, env, Block([Assignment(Name(n), e)]), fuel) ==
            Exec(host, env, Assignment(Name(n), e), fuel)
  {
    var p := Push(env);
    forall m | true
      ensures GetVariable(p, m) == GetVariable(env, m)
    {
      PushReadsThrough(env, m);
    }
    EvaluateAgrees(host, p, env, e);
    var body := [Assignment(Name(n), e)];
    assert body[1..] == [];
    var v := Evaluate(host, env, e);
    assert Evaluate(host, p, e) == v;
    if v.Normal? {
      var q := SetVariable(p, n, v.value);
      SetInsidePush(env, n, v.value);
      assert Exec(host, p, body[0], fuel) == Normal(q, v.calls);
      assert ExecList(host, p, body, fuel) == Normal(q, v.calls + []);
    } else {
      assert Exec(host, p, body[0], fuel) == Abort(v.error, v.calls);
    }
  }

  /**
    Assigning a name no enclosing local scope declares, from inside a
    block, creates it in the global scope, where it survives the block.
  */
  lemma GlobalFallback(host: Host, env: Env, n: string, e: Expression, fuel: nat)
    requires Valid(env)
    requires forall j :: 1 <= j <= env.stackIndice ==> n !in env.stack[j]
    ensures var r := Exec(host, env, Block([Assignment(Name(n), e)]), fuel);
            && (r.Normal? <==> Evaluate(host, env, e).Normal?)
            && (r.Normal? ==> n in r.value.stack[0] && r.value.stack[0][n] == Evaluate(host, env, e).value)
  {
    BlockOfAssignment(host, env, n, e, fuel);
    assert IsWriteTarget(env.stack, env.stackIndice, n, 0);
  }

  /**
    A local declared and assigned inside a block reads as the assigned value
    there, and leaving the block restores the environment exactly: the
    local does not leak.
  */
  lemma LocalDoesNotLeak(host: Host, env: Env, n: string, e: Expression, fuel: nat)
    requires Valid(env)
    ensures var body := [SetLocal(Name(n)), Assignment(Name(n), e)];
            var inner := ExecList(host, Push(env), body, fuel);
            var v := Evaluate(host, DeclareLocal(Push(env), n), e);
            && (inner.Normal? <==> v.Normal?)
            && (inner.Normal? ==> v.Normal? && GetVariable(inner.value, n) == v.value)
            && (Exec(host, env, Block(body), fuel).Normal? ==> Exec(host, env, Block(body), fuel).value == env)
  {
    var body := [SetLocal(Name(n)), Assignment(Name(n), e)];
    assert body[1..] == [Assignment(Name(n), e)];
    assert body[1..][1..] == [];
    var p := Push(env);
    var d := DeclareLocal(p, n);
    var v := Evaluate(host, d, e);
    if v.Normal? {
      var a := SetVariable(d, n, v.value);
      SetThenGet(d, n, v.value);
      DeclareLocalThenGet(p, n);
      WriteTargetUnique(d.stack, d.stackIndice, n);
      assert forall j :: 0 <= j < |env.stack| ==> a.stack[j] == env.stack[j] by {
        forall j | 0 <= j < |env.stack|
          ensures a.stack[j] == env.stack[j]
        {
          assert !IsWriteTarget(d.stack, d.stackIndice, n, j);
        }
      }
      assert Exec(host, p, body[0], fuel) == Normal(d, []);
      assert Exec(host, d, body[1..][0], fuel) == Normal(a, v.calls);
      assert ExecList(host, d, body[1..], fuel) == Normal(a, v.calls + []);
      assert ExecList(host, p, body, fuel) == Normal(a, [] + (v.calls + []));
      assert a.stack[..|env.stack|] == env.stack;
    } else {
      assert Exec(host, p, body[0], fuel) == Normal(d, []);
      assert Exec(host, d, body[1..][0], fuel) == Abort(v.error, v.calls);
      assert ExecList(host, p, body, fuel).Abort?;
    }
  }

  /** Outside any block, the local of `LocalDoesNotLeak` is not visible once the block is left. */
  lemma LocalExample(host: Host, fuel: nat)
    ensures var s := Block([SetLocal(Name("x")), Assignment(Name("x"), Constant(Number(5)))]);
            var r := Exec(host, New(), s, fuel);
            && r.Normal?
            && r.value == New()
            && GetVariable(r.value, "x") == Nil
  {
    var env := New();
    LocalDoesNotLeak(host, env, "x", Constant(Number(5)), fuel);
    var body := [SetLocal(Name("x")), Assignment(Name("x"), Constant(Number(5)))];
    assert body[1..] == [Assignment(Name("x"), Constant(Number(5)))];
    assert body[1..][1..] == [];
  }

  /**
    One iteration of a loop, from `a` to `b`: the condition is true at `a`
    and makes no call, and the body takes `a` to `b` without a call, with
    any fuel.
  */
  ghost predicate LoopStep(host: Host, cond: Expression, body: seq<Statement>, a: Env, b: Env)
    requires InBounds(a)
  {
    && Evaluate(host, a, cond).Normal?
    && IsTrue(Evaluate(host, a, cond).value)
    && Evaluate(host, a, cond).calls == []
    && forall f: nat :: ExecList(host, a, body, f) == Normal(b, [])
  }

  /** `trace` is a run of the loop: one iteration per step, the condition false at the end. */
  ghost predicate IsLoopRun(host: Host, cond: Expression, body: seq<Statement>, trace: seq<Env>) {
    && |trace| > 0
    && (forall i :: 0 <= i < |trace| ==> InBounds(trace[i]))
    && (forall i :: 0 <= i < |trace| - 1 ==> LoopStep(host, cond, body, trace[i], trace[i + 1]))
    && (Evaluate(host, trace[|trace| - 1], cond) == Normal(False, [])
        || Evaluate(host, trace[|trace| - 1], cond) == Normal(Nil, []))
  }

  /**
    A loop started at any point `i` of a run ends at the run's last
    environment, given fuel for the remaining iterations.
  */
  lemma {:induction false} WhileRunsFrom(host: Host, cond: Expression, body: seq<Statement>,
                                         trace: seq<Env>, i: nat, fuel: nat)
    requires IsLoopRun(host, cond, body, trace)
    requires i < |trace| && fuel >= |trace| - 1 - i
    decreases |trace| - i
    ensures Exec(host, trace[i], While(cond, body), fuel) == Normal(trace[|trace| - 1], [])
  {
    if i == |trace| - 1 {
      WhileStopsWhenFalse(host, trace[i], cond, body, fuel);
    } else {
      WhileRunsFrom(host, cond, body, trace, i + 1, fuel - 1);
      LoopStepUnrolls(host, cond, body, trace[i], trace[i + 1], fuel);
    }
  }

  /** One iteration of a run: the loop from `a` is the loop from `b`, with one unit of fuel less. */
  lemma LoopStepUnrolls(host: Host, cond: Expression, body: seq<Statement>, a: Env, b: Env, fuel: nat)
    requires InBounds(a) && InBounds(b)
    requires LoopStep(host, cond, body, a, b)
    requires fuel > 0
    ensures Exec(host, a, While(cond, body), fuel) == Exec(host, b, While(cond, body), fuel - 1)
  {
    assert ExecList(host, a, body, fuel - 1) == Normal(b, []);
    WhileUnrolls(host, a, cond, body, fuel);
    var r := Exec(host, b, While(cond, body), fuel - 1);
    assert r.After([] + []) == r;
  }

  /**
    A loop passing through the environments of a run, one iteration per
    step, ends at the last one, given fuel for every iteration, and makes
    no call.
  */
  lemma WhileRuns(host: Host, cond: Expression, body: seq<Statement>, trace: seq<Env>, fuel: nat)
    requires IsLoopRun(host, cond, body, trace)
    requires fuel >= |trace| - 1
    ensures Exec(host, trace[0], While(cond, body), fuel) == Normal(trace[|trace| - 1], [])
  {
    WhileRunsFrom(host, cond, body, trace, 0, fuel);
  }

  /** `while x < 3 do x = x + 1 end`. */
  const CountTest: Expression := Binop(Lt, Variable(Name("x")), Constant(Number(3)))
  const CountStep: Statement := Assignment(Name("x"), Binop(Add, Variable(Name("x")), Constant(Number(1))))

  lemma CountTestValue(host: Host, env: Env, k: int)
    requires InBounds(env)
    requires GetVariable(env, "x") == Number(k)
    ensures Evaluate(host, env, CountTest) == Normal(Truth(k < 3), [])
  {
  }

  /** From `x = k < 3`, one pass of the loop leads to `next`, where `x = k + 1`. */
  lemma CountPass(host: Host, env: Env, k: int, next: Env)
    requires InBounds(env)
    requires GetVariable(env, "x") == Number(k) && k < 3
    requires next == SetVariable(env, "x", Number(k + 1))
    ensures InBounds(next)
    ensures GetVariable(next, "x") == Number(k + 1)
    ensures LoopStep(host, CountTest, [CountStep], env, next)
  {
    CountTestValue(host, env, k);
    assert [CountStep][1..] == [];
    forall f: nat
      ensures ExecList(host, env, [CountStep], f) == Normal(next, [])
    {
      assert Evaluate(host, env, CountStep.value) == Normal(Number(k + 1), []);
    }
    SetThenGet(env, "x", Number(k + 1));
  }

  /** The environments a run of the loop passes through, from a new environment with `x = 0`. */
  function CountTrace(): (r: seq<Env>)
    ensures |r| == 4 && r[0] == SetVariable(New(), "x", Number(0))
    ensures forall i :: 0 <= i < 4 ==> InBounds(r[i])
    ensures forall i :: 0 <= i < 3 ==> r[i + 1] == SetVariable(r[i], "x", Number(i + 1))
  {
    var e0 := SetVariable(New(), "x", Number(0));
    var e1 := SetVariable(e0, "x", Number(1));
    var e2 := SetVariable(e1, "x", Number(2));
    [e0, e1, e2, SetVariable(e2, "x", Number(3))]
  }

  /** At step `i` of the trace, `x = i`. */
  lemma CountTraceReads(i: nat)
    requires i < 4
    ensures GetVariable(CountTrace()[i], "x") == Number(i)
  {
    var t := CountTrace();
    if i == 0 {
      SetThenGet(New(), "x", Number(0));
    } else {
      assert t[i] == SetVariable(t[i - 1], "x", Number(i));
      SetThenGet(t[i - 1], "x", Number(i));
    }
  }

  /** `CountTrace` is a run of the loop. */
  lemma CountTraceIsRun(host: Host)
    ensures IsLoopRun(host, CountTest, [CountStep], CountTrace())
    ensures GetVariable(CountTrace()[3], "x") == Number(3)
  {
    var t := CountTrace();
    forall i | 0 <= i < 3
      ensures LoopStep(host, CountTest, [CountStep], t[i], t[i + 1])
    {
      CountTraceReads(i);
      CountPass(host, t[i], i, t[i + 1]);
    }
    CountTraceReads(3);
    CountTestValue(host, t[3], 3);
  }

  /**
    The loop re-evaluates its condition before every pass: started with
    `x = 0` in a new environment it runs three passes and stops with `x = 3`.
  */
  lemma CountLoopExample(host: Host, fuel: nat)
    requires fuel >= 3
    ensures var env := SetVariable(New(), "x", Number(0));
            var r := Exec(host, env, While(CountTest, [CountStep]), fuel);
            && r.Normal? && r.calls == []
            && GetVariable(r.value, "x") == Number(3)
  {
    CountTraceIsRun(host);
    WhileRuns(host, CountTest, [CountStep], CountTrace(), fuel);
  }

}
