/**
  The values and syntax trees the interpreter walks. `src/interpreter.rs`
  imports them from a `parser` module that is not part of this model; they
  are reconstructed here from the interpreter's match arms.
*/
module Ast {

  /**
    A run-time value. `Number` is an `f32` in the source and an integer
    here; `RustFunction` names a host-supplied native function by an
    identifier, its code being a parameter of the evaluator.
  */
  datatype Value =
    | True
    | False
    | Nil
    | String(s: string)
    | Number(n: int)
    | RustFunction(id: nat)

  datatype Binop = Add | Sub | Mul | Div | Lt | Le | Gt | Ge | Eq | Neq

  datatype Variable = Name(name: string)

  datatype Expression =
    | Constant(value: Value)
    | Variable(v: Variable)
    | FunctionCall(callee: Expression, args: seq<Expression>)
    | Binop(op: Binop, left: Expression, right: Expression)

  datatype Statement =
    | Assignment(target: Variable, value: Expression)
    | SetLocal(local: Variable)
    | FunctionCall(callee: Expression, args: seq<Expression>)
    | Block(body: seq<Statement>)
    | While(cond: Expression, body: seq<Statement>)
    | If(cond: Expression, thenBody: seq<Statement>, elseBody: seq<Statement>)

}
