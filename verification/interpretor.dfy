/**
  `src/interpretor.rs`, an earlier copy of `src/interpreter.rs` whose
  variable accessors are named `set_value` and `get_value`. Its logic is the
  same, so its members are names for the ones of `Environment` and
  `Interpreter`, with the same contracts.
*/
module Interpretor {
  import opened Ast
  import E = Environment
  import I = Interpreter

  /** `Environment::new`: one empty global scope, with the cursor on it. */
  function New(): (r: E.Env)
    ensures E.Valid(r) && |r.stack| == 1
    ensures forall name :: E.Unbound(r.stack, r.stackIndice, name)
  {
    E.New()
  }

  /** `is_true`: false exactly for `False` and `Nil`. */
  function IsTrue(v: Value): (r: bool)
    ensures !r <==> v == False || v == Nil
  {
    I.IsTrue(v)
  }

  /** `set_value`: overwrite the innermost local binding, else write the global scope. */
  function SetValue(env: E.Env, name: string, value: Value): (r: E.Env)
    requires E.InBounds(env)
    ensures E.IsWrite(env, name, value, r)
  {
    E.SetVariable(env, name, value)
  }

  /** `get_value`: the innermost binding of `name`, or `Nil`. */
  function GetValue(env: E.Env, name: string): (r: Value)
    requires E.InBounds(env)
    ensures E.IsLookup(env.stack, env.stackIndice, name, r)
  {
    E.GetVariable(env, name)
  }

  /** After `set_value`, `get_value` of the same name gives the written value. */
  lemma SetValueThenGetValue(env: E.Env, name: string, value: Value)
    requires E.InBounds(env)
    ensures GetValue(SetValue(env, name, value), name) == value
  {
    E.SetThenGet(env, name, value);
  }

  /** `evaluate`: one native call per call node when it succeeds, fewer when it fails. */
  function Evaluate(host: I.Host, env: E.Env, e: Expression): (r: I.Outcome<Value>)
    requires E.InBounds(env)
    ensures r.Normal? ==> |r.calls| == I.CallCount(e)
    ensures r.Abort? ==> r.error == I.NotAFunction && |r.calls| < I.CallCount(e)
  {
    I.Evaluate(host, env, e)
  }

  /** A `Binop` with an operand that is not a number gives `Nil`. */
  lemma BinopNonNumberIsNil(host: I.Host, env: E.Env, op: Binop, left: Expression, right: Expression)
    requires E.InBounds(env)
    requires Evaluate(host, env, Binop(op, left, right)).Normal?
    requires !Evaluate(host, env, left).value.Number? || !Evaluate(host, env, right).value.Number?
    ensures Evaluate(host, env, Binop(op, left, right)).value == Nil
  {
    I.BinopNonNumberIsNil(host, env, op, left, right);
  }

  /** `exec_statement`: a completed statement, `Block` included, restores the stack size and cursor. */
  function ExecStatement(host: I.Host, env: E.Env, s: Statement, fuel: nat): (r: I.Outcome<E.Env>)
    requires E.InBounds(env)
    ensures r.Normal? ==> |r.value.stack| == |env.stack| && r.value.stackIndice == env.stackIndice
    ensures r.Normal? && E.Valid(env) ==> E.Valid(r.value)
  {
    I.Exec(host, env, s, fuel)
  }

  /** `If` runs the then-list whatever its condition gives, and never the else-list. */
  lemma IfRunsThenList(host: I.Host, env: E.Env, cond: Expression, thenBody: seq<Statement>,
                       elseBody: seq<Statement>, fuel: nat)
    requires E.InBounds(env)
    requires Evaluate(host, env, cond).Normal?
    ensures ExecStatement(host, env, If(cond, thenBody, elseBody), fuel) ==
            I.ExecList(host, env, thenBody, fuel).After(Evaluate(host, env, cond).calls)
    ensures ExecStatement(host, env, If(cond, thenBody, elseBody), fuel) ==
            ExecStatement(host, env, If(cond, thenBody, []), fuel)
  {
    I.IfRunsThenList(host, env, cond, thenBody, elseBody, fuel);
    I.IfIgnoresElse(host, env, cond, thenBody, elseBody, [], fuel);
  }

}
