/**
  The scope stack of `Environment` in `src/interpreter.rs`: a stack of
  `name -> Value` maps and the index `stack_indice` of the innermost scope.
  Scope 0 is the global scope.
*/
module Environment {
  import opened Ast

  type Scope = map<string, Value>

  datatype Env = Env(stack: seq<Scope>, stackIndice: nat)

  /** What indexing `stack[stack_indice]` needs. */
  predicate InBounds(env: Env) {
    env.stackIndice < |env.stack|
  }

  /** The invariant the interpreter keeps: the cursor designates the top of the stack. */
  predicate Valid(env: Env) {
    |env.stack| > 0 && env.stackIndice == |env.stack| - 1
  }

  // ---------------------------------------------------------------------
  // Where a name is bound
  // ---------------------------------------------------------------------

  /** Scope `j` is the innermost scope at or below `top` binding `name`. */
  predicate Innermost(stack: seq<Scope>, top: nat, name: string, j: nat)
    requires top < |stack|
  {
    j <= top && name in stack[j] && forall j' :: j < j' <= top ==> name !in stack[j']
  }

  /** No scope at or below `top` binds `name`. */
  predicate Unbound(stack: seq<Scope>, top: nat, name: string)
    requires top < |stack|
  {
    forall j :: 0 <= j <= top ==> name !in stack[j]
  }

  /**
    The scope a write to `name` goes to: the innermost scope from 1 to `top`
    that already binds it, otherwise the global scope 0.
  */
  predicate IsWriteTarget(stack: seq<Scope>, top: nat, name: string, j: nat)
    requires top < |stack|
  {
    (1 <= j && Innermost(stack, top, name, j))
    || (j == 0 && forall j' :: 1 <= j' <= top ==> name !in stack[j'])
  }

  /** `r` is what a read of `name` from scope `top` outward must give. */
  predicate IsLookup(stack: seq<Scope>, top: nat, name: string, r: Value)
    requires top < |stack|
  {
    && (forall j :: 0 <= j <= top && Innermost(stack, top, name, j) ==> r == stack[j][name])
    && (Unbound(stack, top, name) ==> r == Nil)
  }

  /** `r` is `env` after writing `value` to `name`: only the write target changes. */
  predicate IsWrite(env: Env, name: string, value: Value, r: Env)
    requires InBounds(env)
  {
    && r.stackIndice == env.stackIndice
    && |r.stack| == |env.stack|
    && forall j :: 0 <= j < |env.stack| ==>
         r.stack[j] == if IsWriteTarget(env.stack, env.stackIndice, name, j)
                       then env.stack[j][name := value]
                       else env.stack[j]
  }

  // ---------------------------------------------------------------------
  // Environment::new
  // ---------------------------------------------------------------------

  /** One empty global scope, with the cursor on it. */
  function New(): (r: Env)
    ensures Valid(r) && |r.stack| == 1
    ensures forall name :: Unbound(r.stack, r.stackIndice, name)
  {
    Env([map[]], 0)
  }

  // ---------------------------------------------------------------------
  // get_variable
  // ---------------------------------------------------------------------

  /** The search of `get_variable`, from scope `top` down to scope 0. */
  function Lookup(stack: seq<Scope>, top: nat, name: string): (r: Value)
    requires top < |stack|
    decreases top
    ensures IsLookup(stack, top, name, r)
  {
    if name in stack[top] then stack[top][name]
    else if top == 0 then Nil
    else Lookup(stack, top - 1, name)
  }

  /** `get_variable`: the innermost binding of `name`, or `Nil`. */
  function GetVariable(env: Env, name: string): (r: Value)
    requires InBounds(env)
    ensures IsLookup(env.stack, env.stackIndice, name, r)
  {
    Lookup(env.stack, env.stackIndice, name)
  }

  /** A read only depends on how the scopes it searches bind that name. */
  lemma {:induction false} LookupAgrees(s1: seq<Scope>, s2: seq<Scope>, top: nat, name: string)
    requires top < |s1| && top < |s2|
    requires forall j :: 0 <= j <= top ==> (name in s1[j] <==> name in s2[j])
    requires forall j :: 0 <= j <= top && name in s1[j] ==> s1[j][name] == s2[j][name]
    decreases top
    ensures Lookup(s1, top, name) == Lookup(s2, top, name)
  {
    if name !in s1[top] && top > 0 {
      LookupAgrees(s1, s2, top - 1, name);
    }
  }

  // ---------------------------------------------------------------------
  // set_variable
  // ---------------------------------------------------------------------

  /**
    The recursion of `set_variable`, which lowers `stack_indice` by one per
    level and restores it on return: `top` is the lowered cursor.
  */
  function SetAt(stack: seq<Scope>, top: nat, name: string, value: Value): (r: seq<Scope>)
    requires top < |stack|
    decreases top
    ensures |r| == |stack|
    ensures forall j :: 0 <= j < |stack| ==>
      r[j] == if IsWriteTarget(stack, top, name, j) then stack[j][name := value] else stack[j]
  {
    if top == 0 then stack[0 := stack[0][name := value]]
    else if name in stack[top] then stack[top := stack[top][name := value]]
    else SetAt(stack, top - 1, name, value)
  }

  /** `set_variable`: overwrite the innermost local binding, else write the global scope. */
  function SetVariable(env: Env, name: string, value: Value): (r: Env)
    requires InBounds(env)
    ensures IsWrite(env, name, value, r)
  {
    Env(SetAt(env.stack, env.stackIndice, name, value), env.stackIndice)
  }

  /** Every write has exactly one target scope. */
  lemma {:induction false} WriteTargetUnique(stack: seq<Scope>, top: nat, name: string)
    requires top < |stack|
    decreases top
    ensures exists j: nat :: IsWriteTarget(stack, top, name, j)
    ensures forall j1: nat, j2: nat :: IsWriteTarget(stack, top, name, j1) && IsWriteTarget(stack, top, name, j2) ==> j1 == j2
  {
    if top == 0 {
      assert IsWriteTarget(stack, top, name, 0);
    } else if name in stack[top] {
      assert IsWriteTarget(stack, top, name, top);
    } else {
      WriteTargetUnique(stack, top - 1, name);
      var j: nat :| IsWriteTarget(stack, top - 1, name, j);
      assert IsWriteTarget(stack, top, name, j);
    }
  }

  /** After a write, reading the same name gives the written value. */
  lemma SetThenGet(env: Env, name: string, value: Value)
    requires InBounds(env)
    ensures GetVariable(SetVariable(env, name, value), name) == value
  {
    var r := SetVariable(env, name, value);
    WriteTargetUnique(env.stack, env.stackIndice, name);
    var j: nat :| IsWriteTarget(env.stack, env.stackIndice, name, j);
    assert r.stack[j] == env.stack[j][name := value];
    assert Innermost(r.stack, r.stackIndice, name, j);
  }

  /** A write leaves every other name's reading unchanged. */
  lemma SetThenGetOther(env: Env, name: string, value: Value, other: string)
    requires InBounds(env)
    requires other != name
    ensures GetVariable(SetVariable(env, name, value), other) == GetVariable(env, other)
  {
    var r := SetVariable(env, name, value);
    LookupAgrees(r.stack, env.stack, env.stackIndice, other);
  }

  // ---------------------------------------------------------------------
  // SetLocal and the scope push / pop of Block
  // ---------------------------------------------------------------------

  /** `SetLocal`: bind `name` to `Nil` in the current scope only. */
  function DeclareLocal(env: Env, name: string): (r: Env)
    requires InBounds(env)
    ensures r.stackIndice == env.stackIndice && |r.stack| == |env.stack|
    ensures forall j :: 0 <= j < |env.stack| && j != env.stackIndice ==> r.stack[j] == env.stack[j]
    ensures r.stack[env.stackIndice] == env.stack[env.stackIndice][name := Nil]
  {
    Env(env.stack[env.stackIndice := env.stack[env.stackIndice][name := Nil]], env.stackIndice)
  }

  /**
    After a local declaration the name reads as `Nil`, and inside a block a
    later write to it lands in the current scope.
  */
  lemma DeclareLocalThenGet(env: Env, name: string)
    requires InBounds(env)
    ensures GetVariable(DeclareLocal(env, name), name) == Nil
    ensures env.stackIndice >= 1 ==>
      IsWriteTarget(DeclareLocal(env, name).stack, env.stackIndice, name, env.stackIndice)
  {
    var r := DeclareLocal(env, name);
    assert Innermost(r.stack, r.stackIndice, name, r.stackIndice);
  }

  /** Entering a block: one new empty scope becomes the innermost one. */
  function Push(env: Env): (r: Env)
    ensures |r.stack| == |env.stack| + 1 && r.stackIndice == env.stackIndice + 1
    ensures r.stack[|env.stack|] == map[]
    ensures forall j :: 0 <= j < |env.stack| ==> r.stack[j] == env.stack[j]
    ensures Valid(env) ==> Valid(r)
  {
    Env(env.stack + [map[]], env.stackIndice + 1)
  }

  /** Leaving a block: drop the last scope and move the cursor down. */
  function Pop(env: Env): (r: Env)
    requires |env.stack| > 0 && env.stackIndice > 0
    ensures |r.stack| == |env.stack| - 1 && r.stackIndice == env.stackIndice - 1
    ensures forall j :: 0 <= j < |r.stack| ==> r.stack[j] == env.stack[j]
    ensures Valid(env) ==> Valid(r)
  {
    Env(env.stack[..|env.stack| - 1], env.stackIndice - 1)
  }

  /** An empty innermost scope hides nothing: every read is as before the push. */
  lemma PushReadsThrough(env: Env, name: string)
    requires Valid(env)
    ensures GetVariable(Push(env), name) == GetVariable(env, name)
  {
    var s := env.stack + [map[]];
    assert Push(env) == Env(s, env.stackIndice + 1);
    assert Lookup(s, env.stackIndice + 1, name) == Lookup(s, env.stackIndice, name) by {
      assert s[env.stackIndice + 1] == map[];
    }
    assert forall j :: 0 <= j <= env.stackIndice ==> s[j] == env.stack[j];
    LookupAgrees(s, env.stack, env.stackIndice, name);
  }

  /** A write below an extra scope on top is the same write, with the extra scope kept. */
  lemma {:induction false} SetAtAppend(stack: seq<Scope>, top: nat, name: string, value: Value, extra: Scope)
    requires top < |stack|
    decreases top
    ensures SetAt(stack + [extra], top, name, value) == SetAt(stack, top, name, value) + [extra]
  {
    var s := stack + [extra];
    if top == 0 {
      assert s[0 := s[0][name := value]] == stack[0 := stack[0][name := value]] + [extra];
    } else if name in stack[top] {
      assert s[top := s[top][name := value]] == stack[top := stack[top][name := value]] + [extra];
    } else {
      SetAtAppend(stack, top - 1, name, value, extra);
    }
  }

  /** A write made inside a fresh block, once the block is left, is the same write made outside it. */
  lemma SetInsidePush(env: Env, name: string, value: Value)
    requires Valid(env)
    ensures SetVariable(Push(env), name, value).stackIndice > 0
    ensures Pop(SetVariable(Push(env), name, value)) == SetVariable(env, name, value)
  {
    var p := Push(env);
    var w := SetAt(env.stack, env.stackIndice, name, value);
    SetAtAppend(env.stack, env.stackIndice, name, value, map[]);
    assert p.stack == env.stack + [map[]];
    assert name !in p.stack[p.stackIndice];
    assert SetAt(p.stack, p.stackIndice, name, value) == SetAt(p.stack, env.stackIndice, name, value);
    assert SetVariable(p, name, value) == Env(w + [map[]], env.stackIndice + 1);
    assert (w + [map[]])[..|w|] == w;
  }

  /** Leaving a block restores the environment as it was on entry. */
  lemma PopPush(env: Env)
    ensures Pop(Push(env)) == env
  {
    assert (env.stack + [map[]])[..|env.stack|] == env.stack;
  }

}
