/** The meaning of edge conditions in a context of string variables. */
module ConditionMeaning {
  import opened IR
  import opened Text

  /** A variable reads from the context without its ctx. prefix, then under its full name; the
      workflow goal is available as graph.goal; everything else is empty. */
  function ResolveVariable(variable: string, ctx: map<string, string>, goal: string): string {
    var key := TrimPrefix(variable, "ctx.");
    if key in ctx then ctx[key]
    else if variable in ctx then ctx[variable]
    else if variable == "graph.goal" then goal
    else ""
  }

  /** Membership in a comma-separated list. */
  predicate EvalIn(ctxVal: string, list: string) {
    exists p :: p in Split(list, ',') && ctxVal == TrimSpace(p)
  }

  predicate EvalOp(op: string, ctxVal: string, value: string) {
    if op == "=" || op == "==" then ctxVal == value
    else if op == "!=" then ctxVal != value
    else if op == "contains" then Contains(ctxVal, value)
    else if op == "startswith" then HasPrefix(ctxVal, value)
    else if op == "endswith" then HasSuffix(ctxVal, value)
    else if op == "in" then EvalIn(ctxVal, value)
    else false
  }

  predicate Eval(e: CondExpr, ctx: map<string, string>, goal: string) {
    match e
    case Compare(variable, op, value) => EvalOp(op, ResolveVariable(variable, ctx, goal), value)
    case And(l, r) => Eval(l, ctx, goal) && Eval(r, ctx, goal)
    case Or(l, r) => Eval(l, ctx, goal) || Eval(r, ctx, goal)
    case Not(inner) => !Eval(inner, ctx, goal)
  }
}
