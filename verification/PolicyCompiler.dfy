/** The checkpoint-condition compiler of crp_mcp/checkpoint_policy.py, from the parsed tree on.

    Python's arithmetic and ordering on mixed values are arbitrary partial operations here; nothing
    below depends on what they compute. */
module PolicyCompiler {

  import opened Common

  datatype Value =
    | Null
    | Bool(b: bool)
    | Int(i: int)
    | Float(r: real)
    | Str(s: string)
    | List(items: seq<Value>)
    | Dict(entries: map<string, Value>)

  type Context = map<string, Value>

  predicate Truthy(v: Value) {
    match v
    case Null => false
    case Bool(b) => b
    case Int(i) => i != 0
    case Float(r) => r != 0.0
    case Str(s) => s != ""
    case List(items) => items != []
    case Dict(entries) => entries != map[]
  }

  datatype BoolOperator = And | Or
  datatype UnaryOperator = Not | USub | UAdd | Invert
  datatype BinOperator = Add | Sub | Mult | Div | Mod | OtherBin(name: string)
  datatype CmpOperator = Eq | NotEq | Lt | LtE | Gt | GtE | OtherCmp(name: string)

  /** Python's operations; None stands for an exception. */
  datatype Python = Python(
    arithmetic: (BinOperator, Value, Value) -> Option<Value>,
    signed: (UnaryOperator, Value) -> Option<Value>,
    ordered: (CmpOperator, Value, Value) -> Option<bool>,
    upper: string -> string,
    isUpper: string -> bool)

  datatype Node =
    | Expression(body: Node)
    | Constant(value: Value)
    | Name(id: string)
    | BoolOp(bop: BoolOperator, values: seq<Node>)
    | UnaryOp(uop: UnaryOperator, operand: Node)
    | BinOp(left: Node, op: BinOperator, right: Node)
    | Compare(first: Node, ops: seq<CmpOperator>, comparators: seq<Node>)
    | Foreign(kind: string, children: seq<Node>)

  // ---------------------------------------------------------------------------------------------
  // The whitelist

  function Children(n: Node): seq<Node> {
    match n
    case Expression(body) => [body]
    case BoolOp(_, values) => values
    case UnaryOp(_, operand) => [operand]
    case BinOp(left, _, right) => [left, right]
    case Compare(first, _, comparators) => [first] + comparators
    case Foreign(_, children) => children
    case _ => []
  }

  /** The node itself and its operator nodes are on the list. */
  predicate AllowedHere(n: Node) {
    match n
    case UnaryOp(op, _) => !op.Invert?
    case BinOp(_, op, _) => !op.OtherBin?
    case Compare(_, ops, _) => forall o | o in ops :: !o.OtherCmp?
    case Foreign(_, _) => false
    case _ => true
  }

  predicate Allowed(n: Node)
    decreases n
  {
    AllowedHere(n) &&
    match n
    case Expression(body) => Allowed(body)
    case BoolOp(_, values) => forall v | v in values :: Allowed(v)
    case UnaryOp(_, operand) => Allowed(operand)
    case BinOp(left, _, right) => Allowed(left) && Allowed(right)
    case Compare(first, _, comparators) => Allowed(first) && forall c | c in comparators :: Allowed(c)
    case _ => true
  }

  function Size(n: Node): (k: nat)
    ensures k > 0
    decreases n
  {
    match n
    case Expression(body) => 1 + Size(body)
    case BoolOp(_, values) => 1 + SizeAll(values)
    case UnaryOp(_, operand) => 1 + Size(operand)
    case BinOp(left, _, right) => 1 + Size(left) + Size(right)
    case Compare(first, _, comparators) => 1 + Size(first) + SizeAll(comparators)
    case Foreign(_, children) => 1 + SizeAll(children)
    case _ => 1
  }

  function SizeAll(ns: seq<Node>): nat
    decreases ns
  {
    if ns == [] then 0 else Size(ns[0]) + SizeAll(ns[1..])
  }

  lemma {:induction false} SizeAllAppend(a: seq<Node>, b: seq<Node>)
    ensures SizeAll(a + b) == SizeAll(a) + SizeAll(b)
  {
    if a == [] {
      assert a + b == b;
    } else {
      SizeAllAppend(a[1..], b);
      assert (a + b)[1..] == a[1..] + b;
    }
  }

  lemma ChildrenSmaller(n: Node)
    ensures SizeAll(Children(n)) < Size(n)
  {
    match n
    case Expression(body) => assert SizeAll([body]) == Size(body) + SizeAll([]);
    case UnaryOp(_, operand) => assert SizeAll([operand]) == Size(operand) + SizeAll([]);
    case BinOp(left, _, right) =>
      assert [left, right][1..] == [right];
      assert SizeAll([right]) == Size(right) + SizeAll([]);
    case Compare(first, _, comparators) => assert ([first] + comparators)[1..] == comparators;
    case _ =>
  }

  lemma AllowedByChildren(n: Node)
    ensures Allowed(n) <==> AllowedHere(n) && forall c | c in Children(n) :: Allowed(c)
  {
    match n
    case Expression(body) => assert body in Children(n);
    case UnaryOp(_, operand) => assert operand in Children(n);
    case BinOp(left, _, right) => assert left in Children(n) && right in Children(n);
    case Compare(first, _, comparators) =>
      assert first in Children(n) && forall c | c in comparators :: c in Children(n);
    case _ =>
  }

  ghost predicate AllAllowed(ns: seq<Node>) {
    forall n | n in ns :: Allowed(n)
  }

  /** `ast.walk` visits the tree breadth first; the first node off the list ends the check. */
  method CheckTree(tree: Node) returns (ok: bool)
    ensures ok == Allowed(tree)
  {
    var todo := [tree];
    while todo != []
      invariant AllAllowed(todo) <==> Allowed(tree)
      decreases SizeAll(todo)
    {
      var n, rest := todo[0], todo[1..];
      assert todo == [n] + rest;
      AllowedByChildren(n);
      if !AllowedHere(n) {
        assert n in todo;
        return false;
      }
      ChildrenSmaller(n);
      SizeAllAppend(rest, Children(n));
      assert AllAllowed(todo) <==> AllAllowed(rest + Children(n));
      todo := rest + Children(n);
    }
    return true;
  }

  // ---------------------------------------------------------------------------------------------
  // Evaluation

  datatype Problem = Disallowed | Unsupported | Raised

  datatype Outcome = Ok(value: Value) | Error(problem: Problem)

  datatype Outcomes = OkAll(values: seq<Value>) | ErrorIn(problem: Problem)

  function FromPython(r: Option<Value>): Outcome {
    if r.None? then Error(Raised) else Ok(r.value)
  }

  function RiskLevel(name: string): Option<int> {
    if name == "CRITICAL" then Some(4)
    else if name == "HIGH" then Some(3)
    else if name == "MEDIUM" then Some(2)
    else if name == "LOW" then Some(1)
    else None
  }

  function Coerce(py: Python, v: Value): Value {
    if v.Str? && RiskLevel(py.upper(v.s)).Some? then Int(RiskLevel(py.upper(v.s)).value) else v
  }

  /** Booleans are integers in Python. */
  predicate IsInt(v: Value) { v.Int? || v.Bool? }

  function CompareValues(py: Python, left: Value, op: CmpOperator, right: Value): Outcome {
    if op.OtherCmp? then Error(Unsupported)
    else
      var (l, r) :=
        if (left.Str? || right.Str?) && IsInt(Coerce(py, left)) && IsInt(Coerce(py, right))
        then (Coerce(py, left), Coerce(py, right)) else (left, right);
      var result := py.ordered(op, l, r);
      if result.None? then Error(Raised) else Ok(Bool(result.value))
  }

  /** All-caps names are literals; other names are context variables, absent ones null. */
  function Variable(py: Python, ctx: Context, id: string): Value {
    if py.isUpper(id) then Str(id) else if id in ctx then ctx[id] else Null
  }

  function Unary(py: Python, op: UnaryOperator, v: Value): Outcome {
    match op
    case Not => Ok(Bool(!Truthy(v)))
    case Invert => Error(Unsupported)
    case _ => FromPython(py.signed(op, v))
  }

  function Binary(py: Python, left: Value, op: BinOperator, right: Value): Outcome {
    if op.OtherBin? then Error(Unsupported) else FromPython(py.arithmetic(op, left, right))
  }

  predicate AllTruthy(vs: seq<Value>) { forall v | v in vs :: Truthy(v) }

  predicate AnyTruthy(vs: seq<Value>) { exists v | v in vs :: Truthy(v) }

  /** The evaluator: every operand is evaluated before an operator is applied. */
  function Eval(py: Python, n: Node, ctx: Context): Outcome
    decreases n, 1
  {
    match n
    case Foreign(_, _) => Error(Disallowed)
    case Expression(body) => Eval(py, body, ctx)
    case Constant(v) => Ok(v)
    case Name(id) => Ok(Variable(py, ctx, id))
    case BoolOp(op, values) =>
      var vs := EvalAll(py, values, ctx);
      if vs.ErrorIn? then Error(vs.problem)
      else Ok(Bool(if op.And? then AllTruthy(vs.values) else AnyTruthy(vs.values)))
    case UnaryOp(op, operand) =>
      var v := Eval(py, operand, ctx);
      if v.Error? then v else Unary(py, op, v.value)
    case BinOp(left, op, right) =>
      var l := Eval(py, left, ctx);
      if l.Error? then l
      else
        var r := Eval(py, right, ctx);
        if r.Error? then r else Binary(py, l.value, op, r.value)
    case Compare(first, ops, comparators) =>
      var l := Eval(py, first, ctx);
      if l.Error? then l else Chain(py, l.value, true, ops, comparators, ctx)
  }

  function EvalAll(py: Python, ns: seq<Node>, ctx: Context): Outcomes
    decreases ns, 0
  {
    if ns == [] then OkAll([])
    else
      var v := Eval(py, ns[0], ctx);
      if v.Error? then ErrorIn(v.problem)
      else
        var rest := EvalAll(py, ns[1..], ctx);
        if rest.ErrorIn? then rest else OkAll([v.value] + rest.values)
  }

  /** The comparison loop: operands are always evaluated, but once a pair failed no more pairs are
      compared. */
  function Chain(
      py: Python, left: Value, sofar: bool, ops: seq<CmpOperator>, comparators: seq<Node>, ctx: Context): Outcome
    decreases comparators, 0
  {
    if ops == [] || comparators == [] then Ok(Bool(sofar))
    else
      var right := Eval(py, comparators[0], ctx);
      if right.Error? then right
      else if !sofar then Chain(py, right.value, false, ops[1..], comparators[1..], ctx)
      else
        var c := CompareValues(py, left, ops[0], right.value);
        if c.Error? then c
        else Chain(py, right.value, Truthy(c.value), ops[1..], comparators[1..], ctx)
  }

  // ---------------------------------------------------------------------------------------------
  // Accepted trees never meet an operator or a node that is off the list

  ghost predicate Clean(o: Outcome) { o.Error? ==> o.problem == Raised }

  lemma {:induction false} AllowedEvaluatesCleanly(py: Python, n: Node, ctx: Context)
    requires Allowed(n)
    ensures Clean(Eval(py, n, ctx))
    decreases n, 1
  {
    match n
    case Expression(body) => AllowedEvaluatesCleanly(py, body, ctx);
    case BoolOp(_, values) => AllEvaluateCleanly(py, values, ctx);
    case UnaryOp(_, operand) => AllowedEvaluatesCleanly(py, operand, ctx);
    case BinOp(left, _, right) =>
      AllowedEvaluatesCleanly(py, left, ctx);
      AllowedEvaluatesCleanly(py, right, ctx);
    case Compare(first, ops, comparators) =>
      AllowedEvaluatesCleanly(py, first, ctx);
      var l := Eval(py, first, ctx);
      if l.Ok? {
        ChainEvaluatesCleanly(py, l.value, true, ops, comparators, ctx);
      }
    case _ =>
  }

  lemma {:induction false} AllEvaluateCleanly(py: Python, ns: seq<Node>, ctx: Context)
    requires forall n | n in ns :: Allowed(n)
    ensures EvalAll(py, ns, ctx).ErrorIn? ==> EvalAll(py, ns, ctx).problem == Raised
    decreases ns, 0
  {
    if ns != [] {
      AllowedEvaluatesCleanly(py, ns[0], ctx);
      AllEvaluateCleanly(py, ns[1..], ctx);
    }
  }

  lemma {:induction false} ChainEvaluatesCleanly(
      py: Python, left: Value, sofar: bool, ops: seq<CmpOperator>, comparators: seq<Node>, ctx: Context)
    requires (forall o | o in ops :: !o.OtherCmp?) && (forall c | c in comparators :: Allowed(c))
    ensures Clean(Chain(py, left, sofar, ops, comparators, ctx))
    decreases comparators, 0
  {
    if ops != [] && comparators != [] {
      AllowedEvaluatesCleanly(py, comparators[0], ctx);
      var right := Eval(py, comparators[0], ctx);
      if right.Ok? {
        ChainEvaluatesCleanly(py, right.value, false, ops[1..], comparators[1..], ctx);
        var c := CompareValues(py, left, ops[0], right.value);
        if c.Ok? {
          ChainEvaluatesCleanly(py, right.value, Truthy(c.value), ops[1..], comparators[1..], ctx);
        }
      }
    }
  }

  // ---------------------------------------------------------------------------------------------
  // The short-circuit reference

  /** Operands are evaluated only while they can still matter. */
  function Short(py: Python, n: Node, ctx: Context): Outcome
    decreases n, 1
  {
    match n
    case Foreign(_, _) => Error(Disallowed)
    case Expression(body) => Short(py, body, ctx)
    case Constant(v) => Ok(v)
    case Name(id) => Ok(Variable(py, ctx, id))
    case BoolOp(op, values) => ShortBool(py, op, values, ctx)
    case UnaryOp(op, operand) =>
      var v := Short(py, operand, ctx);
      if v.Error? then v else Unary(py, op, v.value)
    case BinOp(left, op, right) =>
      var l := Short(py, left, ctx);
      if l.Error? then l
      else
        var r := Short(py, right, ctx);
        if r.Error? then r else Binary(py, l.value, op, r.value)
    case Compare(first, ops, comparators) =>
      var l := Short(py, first, ctx);
      if l.Error? then l else ShortChain(py, l.value, ops, comparators, ctx)
  }

  /** The first operand that decides ends the evaluation. */
  function ShortBool(py: Python, op: BoolOperator, ns: seq<Node>, ctx: Context): Outcome
    decreases ns, 0
  {
    if ns == [] then Ok(Bool(op.And?))
    else
      var v := Short(py, ns[0], ctx);
      if v.Error? then v
      else if Truthy(v.value) == op.Or? then Ok(Bool(op.Or?))
      else ShortBool(py, op, ns[1..], ctx)
  }

  /** a < b < c is (a < b) and (b < c), with b evaluated once. */
  function ShortChain(py: Python, left: Value, ops: seq<CmpOperator>, comparators: seq<Node>, ctx: Context): Outcome
    decreases comparators, 0
  {
    if ops == [] || comparators == [] then Ok(Bool(true))
    else
      var right := Short(py, comparators[0], ctx);
      if right.Error? then right
      else
        var c := CompareValues(py, left, ops[0], right.value);
        if c.Error? then c
        else if !Truthy(c.value) then Ok(Bool(false))
        else ShortChain(py, right.value, ops[1..], comparators[1..], ctx)
  }

  /** Whenever the eager evaluation succeeds, the short-circuit one succeeds with the same value. */
  lemma {:induction false} EagerAgreesWithShort(py: Python, n: Node, ctx: Context)
    requires Eval(py, n, ctx).Ok?
    ensures Short(py, n, ctx) == Eval(py, n, ctx)
    decreases n, 1
  {
    match n
    case Expression(body) => EagerAgreesWithShort(py, body, ctx);
    case BoolOp(op, values) => BoolAgrees(py, op, values, ctx);
    case UnaryOp(_, operand) => EagerAgreesWithShort(py, operand, ctx);
    case BinOp(left, _, right) =>
      EagerAgreesWithShort(py, left, ctx);
      EagerAgreesWithShort(py, right, ctx);
    case Compare(first, ops, comparators) =>
      EagerAgreesWithShort(py, first, ctx);
      ChainAgrees(py, Eval(py, first, ctx).value, ops, comparators, ctx);
    case _ =>
  }

  lemma {:induction false} BoolAgrees(py: Python, op: BoolOperator, ns: seq<Node>, ctx: Context)
    requires EvalAll(py, ns, ctx).OkAll?
    ensures var vs := EvalAll(py, ns, ctx).values;
            ShortBool(py, op, ns, ctx) == Ok(Bool(if op.And? then AllTruthy(vs) else AnyTruthy(vs)))
    decreases ns, 0
  {
    if ns != [] {
      EagerAgreesWithShort(py, ns[0], ctx);
      BoolAgrees(py, op, ns[1..], ctx);
      var v, rest := Eval(py, ns[0], ctx).value, EvalAll(py, ns[1..], ctx).values;
      assert EvalAll(py, ns, ctx).values == [v] + rest;
      assert AllTruthy([v] + rest) <==> Truthy(v) && AllTruthy(rest) by {
        assert forall x | x in rest :: x in [v] + rest;
        assert v in [v] + rest;
      }
      assert AnyTruthy([v] + rest) <==> Truthy(v) || AnyTruthy(rest) by {
        assert forall x | x in rest :: x in [v] + rest;
        assert v in [v] + rest;
      }
    }
  }

  lemma {:induction false} FailedChainStaysFalse(
      py: Python, left: Value, ops: seq<CmpOperator>, comparators: seq<Node>, ctx: Context)
    ensures var r := Chain(py, left, false, ops, comparators, ctx); r.Ok? ==> r == Ok(Bool(false))
    decreases comparators
  {
    if ops != [] && comparators != [] {
      var right := Eval(py, comparators[0], ctx);
      if right.Ok? {
        FailedChainStaysFalse(py, right.value, ops[1..], comparators[1..], ctx);
      }
    }
  }

  lemma {:induction false} ChainAgrees(
      py: Python, left: Value, ops: seq<CmpOperator>, comparators: seq<Node>, ctx: Context)
    requires Chain(py, left, true, ops, comparators, ctx).Ok?
    ensures ShortChain(py, left, ops, comparators, ctx) == Chain(py, left, true, ops, comparators, ctx)
    decreases comparators, 0
  {
    if ops != [] && comparators != [] {
      EagerAgreesWithShort(py, comparators[0], ctx);
      var right := Eval(py, comparators[0], ctx).value;
      var c := CompareValues(py, left, ops[0], right);
      if Truthy(c.value) {
        ChainAgrees(py, right, ops[1..], comparators[1..], ctx);
      } else {
        FailedChainStaysFalse(py, right, ops[1..], comparators[1..], ctx);
      }
    }
  }

  // ---------------------------------------------------------------------------------------------
  // A chain is the conjunction of its adjacent pairs

  /** Pair i compares operand i with operand i + 1. */
  function Pair(py: Python, vs: seq<Value>, ops: seq<CmpOperator>, i: nat): Outcome
    requires i < |ops| && i + 1 < |vs|
  {
    CompareValues(py, vs[i], ops[i], vs[i + 1])
  }

  lemma ShiftPairs(py: Python, vs: seq<Value>, inner: seq<Value>, ops: seq<CmpOperator>)
    requires ops != [] && |inner| == |ops| && |vs| == |ops| + 1 && vs == [vs[0]] + inner
    ensures (forall i | 0 <= i < |ops| :: Pair(py, vs, ops, i) == Ok(Bool(true))) <==>
            Pair(py, vs, ops, 0) == Ok(Bool(true)) &&
            forall i | 0 <= i < |ops| - 1 :: Pair(py, inner, ops[1..], i) == Ok(Bool(true))
  {
    hide CompareValues;
    assert forall i | 0 <= i < |ops| - 1 :: Pair(py, inner, ops[1..], i) == Pair(py, vs, ops, i + 1);
    if forall i | 0 <= i < |ops| - 1 :: Pair(py, inner, ops[1..], i) == Ok(Bool(true)) {
      forall i | 0 < i < |ops|
        ensures Pair(py, vs, ops, i) == Pair(py, inner, ops[1..], i - 1)
      {
      }
    }
  }

  lemma {:induction false} ChainIsConjunction(
      py: Python, left: Value, ops: seq<CmpOperator>, comparators: seq<Node>, ctx: Context)
    requires |ops| == |comparators| && Chain(py, left, true, ops, comparators, ctx).Ok?
    ensures EvalAll(py, comparators, ctx).OkAll?
    ensures |EvalAll(py, comparators, ctx).values| == |ops|
    ensures var vs := [left] + EvalAll(py, comparators, ctx).values;
            Chain(py, left, true, ops, comparators, ctx) ==
              Ok(Bool(forall i | 0 <= i < |ops| :: Pair(py, vs, ops, i) == Ok(Bool(true))))
    decreases comparators
  {
    if comparators != [] {
      var right := Eval(py, comparators[0], ctx).value;
      var c := CompareValues(py, left, ops[0], right);
      if Truthy(c.value) {
        ChainIsConjunction(py, right, ops[1..], comparators[1..], ctx);
        var inner := [right] + EvalAll(py, comparators[1..], ctx).values;
        var vs := [left] + EvalAll(py, comparators, ctx).values;
        assert vs == [left] + inner;
        ShiftPairs(py, vs, inner, ops);
      } else {
        FailedChainStaysFalse(py, right, ops[1..], comparators[1..], ctx);
        FailedChainEvaluates(py, right, ops[1..], comparators[1..], ctx);
        var vs := [left] + EvalAll(py, comparators, ctx).values;
        assert Pair(py, vs, ops, 0) == c;
      }
    }
  }

  lemma {:induction false} FailedChainEvaluates(
      py: Python, left: Value, ops: seq<CmpOperator>, comparators: seq<Node>, ctx: Context)
    requires |ops| == |comparators| && Chain(py, left, false, ops, comparators, ctx).Ok?
    ensures EvalAll(py, comparators, ctx).OkAll? && |EvalAll(py, comparators, ctx).values| == |ops|
    decreases comparators
  {
    if comparators != [] {
      FailedChainEvaluates(py, Eval(py, comparators[0], ctx).value, ops[1..], comparators[1..], ctx);
    }
  }

  // ---------------------------------------------------------------------------------------------
  // Compiled conditions and routing

  /** What the parser makes of a condition; None is a syntax error. */
  type Condition = Option<Node>

  /** Compiling and running a condition: None is a policy error. */
  function Evaluate(py: Python, c: Condition, ctx: Context): Option<bool> {
    if c.None? || !Allowed(c.value) then None
    else
      var r := Eval(py, c.value, ctx);
      if r.Error? then None else Some(Truthy(r.value))
  }

  /** A condition that compiles and runs has the truth value of the short-circuit semantics. */
  lemma EvaluateIsShort(py: Python, c: Condition, ctx: Context)
    ensures Evaluate(py, c, ctx).Some? ==>
              c.Some? && Allowed(c.value) && Short(py, c.value, ctx).Ok? &&
              Evaluate(py, c, ctx).value == Truthy(Short(py, c.value, ctx).value)
    ensures c.Some? && Allowed(c.value) && Evaluate(py, c, ctx).None? ==> Eval(py, c.value, ctx) == Error(Raised)
  {
    if c.Some? && Allowed(c.value) {
      AllowedEvaluatesCleanly(py, c.value, ctx);
      if Eval(py, c.value, ctx).Ok? {
        EagerAgreesWithShort(py, c.value, ctx);
      }
    }
  }

  datatype RouteRule = NotADict | Rule(condition: Option<Condition>, connector: Option<string>, routeTo: Option<string>)

  predicate Matches(py: Python, rule: RouteRule, ctx: Context) {
    rule.Rule? && rule.condition.Some? && Evaluate(py, rule.condition.value, ctx) == Some(true)
  }

  /** Rule `i` is the first one that matches. */
  ghost predicate FirstMatch(py: Python, rules: seq<RouteRule>, ctx: Context, i: nat)
    requires i < |rules|
  {
    Matches(py, rules[i], ctx) && forall j | 0 <= j < i :: !Matches(py, rules[j], ctx)
  }

  function OrElse(o: Option<string>, default: string): string { if o.Some? then o.value else default }

  /** The loop over the configured rules. */
  method ResolveRoute(py: Python, rules: seq<RouteRule>, ctx: Context, default: string)
    returns (connector: string, routeTo: string)
    ensures forall i | 0 <= i < |rules| && FirstMatch(py, rules, ctx, i) ::
              && (if rules[i].connector.Some? then connector == rules[i].connector.value else connector == default)
              && (if rules[i].routeTo.Some? then routeTo == rules[i].routeTo.value else routeTo == "")
    ensures (forall i | 0 <= i < |rules| :: !Matches(py, rules[i], ctx)) ==> connector == default && routeTo == ""
  {
    for i := 0 to |rules|
      invariant forall j | 0 <= j < i :: !Matches(py, rules[j], ctx)
    {
      var rule := rules[i];
      if rule.NotADict? || rule.condition.None? || rule.condition.value.None? {
        continue;
      }
      var compiled := CheckTree(rule.condition.value.value);
      if !compiled {
        continue;
      }
      var result := Eval(py, rule.condition.value.value, ctx);
      if result.Ok? && Truthy(result.value) {
        return OrElse(rule.connector, default), OrElse(rule.routeTo, "");
      }
    }
    return default, "";
  }

  // ---------------------------------------------------------------------------------------------
  // What compiled conditions mean

  /** The risk words, from the lowest to the highest. */
  const RISKS: seq<string> := ["LOW", "MEDIUM", "HIGH", "CRITICAL"]

  /** In upper or lower case, `v` is the risk word in place i, counted from 1. */
  ghost predicate IsRisk(py: Python, v: Value, i: int) {
    1 <= i <= |RISKS| && v.Str? && py.upper(v.s) == RISKS[i - 1]
  }

  /** A risk word stands for its place, an integer or boolean for itself. */
  ghost predicate StandsFor(py: Python, v: Value, n: Value) {
    if v.Int? || v.Bool? then n == v else n.Int? && IsRisk(py, v, n.i)
  }

  /** What a Python operation yields, an exception included. */
  ghost predicate Yields(o: Outcome, r: Option<Value>) {
    match r
    case None => o == Error(Raised)
    case Some(v) => o == Ok(v)
  }

  ghost predicate YieldsTruth(o: Outcome, r: Option<bool>) {
    match r
    case None => o == Error(Raised)
    case Some(b) => o == Ok(Bool(b))
  }

  lemma RiskWords(py: Python, v: Value)
    ensures forall i :: IsRisk(py, v, i) ==> Coerce(py, v) == Int(i)
    ensures (forall i :: !IsRisk(py, v, i)) ==> Coerce(py, v) == v
  {
    if v.Str? {
      var name := py.upper(v.s);
      assert RISKS[0] == "LOW" && RISKS[1] == "MEDIUM" && RISKS[2] == "HIGH" && RISKS[3] == "CRITICAL";
      assert name == RISKS[0] ==> IsRisk(py, v, 1);
      assert name == RISKS[1] ==> IsRisk(py, v, 2);
      assert name == RISKS[2] ==> IsRisk(py, v, 3);
      assert name == RISKS[3] ==> IsRisk(py, v, 4);
    }
  }

  /** Two risk words compare as their places in the list, and a risk word and a number as its place
      and the number. As soon as one side is neither, both are compared as they are. */
  lemma ComparisonMeaning(py: Python, a: Node, op: CmpOperator, b: Node, ctx: Context, x: Value, y: Value)
    requires !op.OtherCmp? && Eval(py, a, ctx) == Ok(x) && Eval(py, b, ctx) == Ok(y)
    ensures forall m, n | StandsFor(py, x, m) && StandsFor(py, y, n) ::
              YieldsTruth(Eval(py, Compare(a, [op], [b]), ctx), py.ordered(op, m, n))
    ensures (forall m :: !StandsFor(py, x, m)) || (forall n :: !StandsFor(py, y, n)) ==>
              YieldsTruth(Eval(py, Compare(a, [op], [b]), ctx), py.ordered(op, x, y))
  {
    RiskWords(py, x);
    RiskWords(py, y);
    SinglePair(py, a, op, b, ctx, x, y);
    hide Eval, Coerce;
    if !(x.Int? || x.Bool?) {
      assert forall i :: IsRisk(py, x, i) ==> StandsFor(py, x, Int(i));
    } else {
      assert StandsFor(py, x, x);
    }
    if !(y.Int? || y.Bool?) {
      assert forall i :: IsRisk(py, y, i) ==> StandsFor(py, y, Int(i));
    } else {
      assert StandsFor(py, y, y);
    }
  }

  lemma SinglePair(py: Python, a: Node, op: CmpOperator, b: Node, ctx: Context, x: Value, y: Value)
    requires Eval(py, a, ctx) == Ok(x) && Eval(py, b, ctx) == Ok(y)
    ensures Eval(py, Compare(a, [op], [b]), ctx) == CompareValues(py, x, op, y)
  {
    assert [op][1..] == [] && [b][1..] == [];
    assert Chain(py, x, true, [op], [b], ctx) == CompareValues(py, x, op, y);
  }

  /** Python compares integers as integers. */
  ghost predicate OrdersIntegers(py: Python) {
    forall i: int, j: int ::
      && py.ordered(Eq, Int(i), Int(j)) == Some(i == j)
      && py.ordered(NotEq, Int(i), Int(j)) == Some(i != j)
      && py.ordered(Lt, Int(i), Int(j)) == Some(i < j)
      && py.ordered(LtE, Int(i), Int(j)) == Some(i <= j)
      && py.ordered(Gt, Int(i), Int(j)) == Some(i > j)
      && py.ordered(GtE, Int(i), Int(j)) == Some(i >= j)
  }

  /** All six comparisons of two risk words are those of their places. */
  lemma RiskOrder(py: Python, a: Node, b: Node, ctx: Context, x: Value, y: Value, i: int, j: int)
    requires OrdersIntegers(py)
    requires Eval(py, a, ctx) == Ok(x) && Eval(py, b, ctx) == Ok(y) && IsRisk(py, x, i) && IsRisk(py, y, j)
    ensures Eval(py, Compare(a, [Eq], [b]), ctx) == Ok(Bool(i == j))
    ensures Eval(py, Compare(a, [NotEq], [b]), ctx) == Ok(Bool(i != j))
    ensures Eval(py, Compare(a, [Lt], [b]), ctx) == Ok(Bool(i < j))
    ensures Eval(py, Compare(a, [LtE], [b]), ctx) == Ok(Bool(i <= j))
    ensures Eval(py, Compare(a, [Gt], [b]), ctx) == Ok(Bool(i > j))
    ensures Eval(py, Compare(a, [GtE], [b]), ctx) == Ok(Bool(i >= j))
  {
    assert StandsFor(py, x, Int(i)) && StandsFor(py, y, Int(j));
    hide Eval;
    forall op: CmpOperator | !op.OtherCmp?
      ensures YieldsTruth(Eval(py, Compare(a, [op], [b]), ctx), py.ordered(op, Int(i), Int(j)))
    {
      ComparisonMeaning(py, a, op, b, ctx, x, y);
    }
  }

  /** The documented `risk >= HIGH`. A risk word meets it exactly when it is HIGH or CRITICAL; other
      text is compared with "HIGH" as text. */
  lemma {:induction false} RiskThreshold(py: Python, ctx: Context, risk: string)
    requires OrdersIntegers(py) && py.isUpper("HIGH") && py.upper("HIGH") == "HIGH" && !py.isUpper("risk")
    requires "risk" in ctx && ctx["risk"] == Str(risk)
    ensures var met := Evaluate(py, Some(Expression(Compare(Name("risk"), [GtE], [Name("HIGH")]))), ctx);
            if py.upper(risk) in ["LOW", "MEDIUM", "HIGH", "CRITICAL"]
            then met == Some(py.upper(risk) == "HIGH" || py.upper(risk) == "CRITICAL")
            else met == py.ordered(GtE, Str(risk), Str("HIGH"))
  {
    var a, b, x, y := Name("risk"), Name("HIGH"), Str(risk), Str("HIGH");
    var tree := Compare(a, [GtE], [b]);
    assert Eval(py, a, ctx) == Ok(x) && Eval(py, b, ctx) == Ok(y);
    assert Eval(py, Expression(tree), ctx) == Eval(py, tree, ctx);
    assert AllowedHere(tree) && Allowed(a) && Allowed(b) && Allowed(tree);
    assert Evaluate(py, Some(Expression(tree)), ctx) ==
             var r := Eval(py, tree, ctx); if r.Error? then None else Some(Truthy(r.value));
    hide Eval, Allowed;
    assert IsRisk(py, y, 3);
    RiskNames(py, x, risk);
    if i :| IsRisk(py, x, i) {
      RiskOrder(py, a, b, ctx, x, y, i, 3);
    } else {
      ComparisonMeaning(py, a, GtE, b, ctx, x, y);
    }
  }

  lemma RiskNames(py: Python, x: Value, risk: string)
    requires x == Str(risk)
    ensures IsRisk(py, x, 1) <==> py.upper(risk) == "LOW"
    ensures IsRisk(py, x, 2) <==> py.upper(risk) == "MEDIUM"
    ensures IsRisk(py, x, 3) <==> py.upper(risk) == "HIGH"
    ensures IsRisk(py, x, 4) <==> py.upper(risk) == "CRITICAL"
    ensures forall i | IsRisk(py, x, i) :: i == 1 || i == 2 || i == 3 || i == 4
  {
    assert RISKS[0] == "LOW" && RISKS[1] == "MEDIUM" && RISKS[2] == "HIGH" && RISKS[3] == "CRITICAL";
  }

  lemma {:induction false} EvalAllMeaning(py: Python, ns: seq<Node>, ctx: Context)
    ensures var vs := EvalAll(py, ns, ctx);
            if vs.ErrorIn? then exists n | n in ns :: Eval(py, n, ctx).Error?
            else |vs.values| == |ns| && forall i | 0 <= i < |ns| :: Eval(py, ns[i], ctx) == Ok(vs.values[i])
    decreases |ns|
  {
    if ns != [] {
      EvalAllMeaning(py, ns[1..], ctx);
      hide Eval;
      assert ns[0] in ns && forall n | n in ns[1..] :: n in ns;
    }
  }

  /** A condition that compiles, runs and is true. */
  ghost predicate IsTrue(py: Python, n: Node, ctx: Context) { Evaluate(py, Some(n), ctx) == Some(true) }

  ghost predicate Fails(py: Python, n: Node, ctx: Context) { Evaluate(py, Some(n), ctx) == None }

  lemma ConnectiveValues(py: Python, ns: seq<Node>, ctx: Context)
    requires (forall n | n in ns :: Allowed(n)) && EvalAll(py, ns, ctx).OkAll?
    ensures var vs := EvalAll(py, ns, ctx).values;
            && Evaluate(py, Some(BoolOp(And, ns)), ctx) == Some(AllTruthy(vs))
            && Evaluate(py, Some(BoolOp(Or, ns)), ctx) == Some(AnyTruthy(vs))
  {
    hide AllTruthy, AnyTruthy;
  }

  lemma PartValue(py: Python, n: Node, ctx: Context)
    ensures Fails(py, n, ctx) <==> !Allowed(n) || Eval(py, n, ctx).Error?
    ensures !Fails(py, n, ctx) ==> (IsTrue(py, n, ctx) <==> Truthy(Eval(py, n, ctx).value))
  {
    hide Allowed, Eval, Truthy;
  }

  /** `and`, `or` and `not` on conditions: they fail when a part fails, and otherwise are the
      conjunction, the disjunction and the negation. */
  lemma Connectives(py: Python, ns: seq<Node>, ctx: Context)
    requires !exists n | n in ns :: Fails(py, n, ctx)
    ensures Evaluate(py, Some(BoolOp(And, ns)), ctx) == Some(forall n | n in ns :: IsTrue(py, n, ctx))
    ensures Evaluate(py, Some(BoolOp(Or, ns)), ctx) == Some(exists n | n in ns :: IsTrue(py, n, ctx))
  {
    EvalAllMeaning(py, ns, ctx);
    hide *;
    forall n | n in ns
      ensures Allowed(n) && Eval(py, n, ctx).Ok? && (IsTrue(py, n, ctx) <==> Truthy(Eval(py, n, ctx).value))
    {
      PartValue(py, n, ctx);
    }
    ConnectiveValues(py, ns, ctx);
    TruthOfValues(py, ns, ctx, EvalAll(py, ns, ctx).values);
  }

  lemma TruthOfValues(py: Python, ns: seq<Node>, ctx: Context, vs: seq<Value>)
    requires |vs| == |ns| && forall i | 0 <= i < |ns| :: IsTrue(py, ns[i], ctx) <==> Truthy(vs[i])
    ensures AllTruthy(vs) <==> forall n | n in ns :: IsTrue(py, n, ctx)
    ensures AnyTruthy(vs) <==> exists n | n in ns :: IsTrue(py, n, ctx)
  {
    hide IsTrue, Truthy;
    assert forall i | 0 <= i < |ns| :: ns[i] in ns && vs[i] in vs;
  }

  lemma ConnectiveFails(py: Python, op: BoolOperator, ns: seq<Node>, ctx: Context)
    ensures Fails(py, BoolOp(op, ns), ctx) <==> exists n | n in ns :: Fails(py, n, ctx)
  {
    EvalAllMeaning(py, ns, ctx);
    assert Allowed(BoolOp(op, ns)) <==> forall n | n in ns :: Allowed(n);
    assert Eval(py, BoolOp(op, ns), ctx).Error? <==> EvalAll(py, ns, ctx).ErrorIn?;
    forall n
      ensures Fails(py, n, ctx) <==> !Allowed(n) || Eval(py, n, ctx).Error?
    {
      PartValue(py, n, ctx);
    }
    hide Eval, Allowed, Fails;
    assert forall i | 0 <= i < |ns| :: ns[i] in ns;
  }

  lemma Negation(py: Python, n: Node, ctx: Context)
    ensures Fails(py, UnaryOp(Not, n), ctx) <==> Fails(py, n, ctx)
    ensures !Fails(py, n, ctx) ==> (IsTrue(py, UnaryOp(Not, n), ctx) <==> !IsTrue(py, n, ctx))
  {
  }

  /** Constants are false exactly when Python's `bool` makes them so; upper-case names stand for
      themselves, and other names for what the context has, or for null. */
  lemma LeafMeaning(py: Python, ctx: Context, v: Value, id: string)
    ensures Evaluate(py, Some(Constant(v)), ctx) ==
              Some(v !in [Null, Bool(false), Int(0), Float(0.0), Str(""), List([]), Dict(map[])])
    ensures Eval(py, Name(id), ctx) ==
              Ok(if py.isUpper(id) then Str(id) else if id in ctx then ctx[id] else Null)
  {
  }

  /** Signs and arithmetic apply Python's operation to the values of their operands, in order. */
  lemma {:induction false} ArithmeticMeaning(py: Python, a: Node, b: Node, ctx: Context, x: Value, y: Value)
    requires Eval(py, a, ctx) == Ok(x) && Eval(py, b, ctx) == Ok(y)
    ensures forall op | op in [USub, UAdd] :: Yields(Eval(py, UnaryOp(op, a), ctx), py.signed(op, x))
    ensures forall op | op in [Add, Sub, Mult, Div, Mod] ::
              Yields(Eval(py, BinOp(a, op, b), ctx), py.arithmetic(op, x, y))
  {
  }

  /** What is off the list is refused by the evaluator as well, whatever its operands are. */
  lemma OffTheListFails(py: Python, a: Node, b: Node, ctx: Context, x: Value, y: Value, name: string, ns: seq<Node>)
    requires Eval(py, a, ctx) == Ok(x) && Eval(py, b, ctx) == Ok(y)
    ensures Eval(py, Compare(a, [OtherCmp(name)], [b]), ctx) == Error(Unsupported)
    ensures Eval(py, BinOp(a, OtherBin(name), b), ctx) == Error(Unsupported)
    ensures Eval(py, UnaryOp(Invert, a), ctx) == Error(Unsupported)
    ensures Eval(py, Foreign(name, ns), ctx) == Error(Disallowed)
  {
    SinglePair(py, a, OtherCmp(name), b, ctx, x, y);
  }

  /** A rule applies exactly when it is a dict with a condition that compiles, runs and is true. */
  lemma RuleApplies(py: Python, rule: RouteRule, ctx: Context)
    ensures Matches(py, rule, ctx) <==>
              exists n, connector, routeTo ::
                && rule == Rule(Some(Some(n)), connector, routeTo)
                && Allowed(n) && Short(py, n, ctx).Ok? && !Wastes(py, n, ctx)
                && Short(py, n, ctx).value !in [Null, Bool(false), Int(0), Float(0.0), Str(""), List([]), Dict(map[])]
  {
    if rule.Rule? && rule.condition.Some? && rule.condition.value.Some? {
      var n := rule.condition.value.value;
      assert rule == Rule(Some(Some(n)), rule.connector, rule.routeTo);
      EvaluateIsShort(py, Some(n), ctx);
      if Allowed(n) {
        EvaluateFailsIff(py, n, ctx);
      }
      hide Allowed, Short, Wastes, Evaluate;
    }
  }

  // ---------------------------------------------------------------------------------------------
  // Where the code departs from its documentation

  /** The node `x` occurs somewhere in the tree `n`. */
  ghost predicate Inside(x: Node, n: Node)
    decreases n
  {
    x == n ||
    match n
    case Expression(body) => Inside(x, body)
    case BoolOp(_, values) => exists v | v in values :: Inside(x, v)
    case UnaryOp(_, operand) => Inside(x, operand)
    case BinOp(left, _, right) => Inside(x, left) || Inside(x, right)
    case Compare(first, _, comparators) => Inside(x, first) || exists c | c in comparators :: Inside(x, c)
    case Foreign(_, children) => exists c | c in children :: Inside(x, c)
    case _ => false
  }

  lemma {:induction false} InsideAllowed(x: Node, n: Node)
    requires Inside(x, n) && Allowed(n)
    ensures AllowedHere(x)
    decreases n
  {
    if x != n {
      match n
      case Expression(body) => InsideAllowed(x, body);
      case BoolOp(_, values) =>
        var v :| v in values && Inside(x, v);
        InsideAllowed(x, v);
      case UnaryOp(_, operand) => InsideAllowed(x, operand);
      case BinOp(left, _, right) => InsideAllowed(x, if Inside(x, left) then left else right);
      case Compare(first, _, comparators) =>
        if Inside(x, first) {
          InsideAllowed(x, first);
        } else {
          var c :| c in comparators && Inside(x, c);
          InsideAllowed(x, c);
        }
    }
  }

  lemma {:induction false} OffTheList(n: Node) returns (x: Node)
    requires !Allowed(n)
    ensures Inside(x, n) && !AllowedHere(x)
    decreases n
  {
    x := n;
    if AllowedHere(n) {
      match n
      case Expression(body) => x := OffTheList(body);
      case BoolOp(_, values) =>
        var v :| v in values && !Allowed(v);
        x := OffTheList(v);
      case UnaryOp(_, operand) => x := OffTheList(operand);
      case BinOp(left, _, right) => x := OffTheList(if Allowed(left) then right else left);
      case Compare(first, _, comparators) =>
        if Allowed(first) {
          var c :| c in comparators && !Allowed(c);
          x := OffTheList(c);
        } else {
          x := OffTheList(first);
        }
    }
  }

  /** The whitelist covers the whole tree, at every depth. */
  lemma {:induction false} AllowedIffInside(n: Node)
    ensures Allowed(n) <==> forall x | Inside(x, n) :: AllowedHere(x)
  {
    if Allowed(n) {
      forall x | Inside(x, n)
        ensures AllowedHere(x)
      {
        InsideAllowed(x, n);
      }
    } else {
      var x := OffTheList(n);
    }
  }

  /** Dotted paths are attribute nodes, which are not on the list: no condition that has one
      anywhere compiles. */
  lemma {:induction false} DottedPathsRejected(py: Python, n: Node, attribute: Node, ctx: Context)
    requires attribute.Foreign? && Inside(attribute, n)
    ensures !Allowed(n) && Evaluate(py, Some(n), ctx) == None
  {
    if Allowed(n) {
      InsideAllowed(attribute, n);
    }
  }

  /** The documented `risk.level`, compared as in `risk.level >= HIGH`. */
  lemma RiskLevelRejected(py: Python, ctx: Context)
    ensures var path := Foreign("Attribute", [Name("risk")]);
            Evaluate(py, Some(Expression(Compare(path, [GtE], [Name("HIGH")]))), ctx) == None
  {
    var path := Foreign("Attribute", [Name("risk")]);
    var compare := Compare(path, [GtE], [Name("HIGH")]);
    assert Inside(path, compare);
    DottedPathsRejected(py, Expression(compare), path, ctx);
  }

  /** What the documentation says the lower-case words stand for. */
  function Literal(word: string): Option<Value> {
    if word == "true" then Some(Bool(true))
    else if word == "false" then Some(Bool(false))
    else if word == "null" then Some(Null)
    else None
  }

  /** The condition with these words read as literals. */
  function WithLiterals(n: Node): Node
    decreases n, 1
  {
    match n
    case Expression(body) => Expression(WithLiterals(body))
    case Constant(_) => n
    case Name(id) => if Literal(id).Some? then Constant(Literal(id).value) else n
    case BoolOp(op, values) => BoolOp(op, AllWithLiterals(values))
    case UnaryOp(op, operand) => UnaryOp(op, WithLiterals(operand))
    case BinOp(left, op, right) => BinOp(WithLiterals(left), op, WithLiterals(right))
    case Compare(first, ops, comparators) => Compare(WithLiterals(first), ops, AllWithLiterals(comparators))
    case Foreign(_, _) => n
  }

  function AllWithLiterals(ns: seq<Node>): seq<Node>
    decreases ns, 0
  {
    if ns == [] then [] else [WithLiterals(ns[0])] + AllWithLiterals(ns[1..])
  }

  /** The context binds true and false to themselves, and null to null or not at all. */
  predicate BindsLiterals(ctx: Context) {
    && "true" in ctx && ctx["true"] == Bool(true)
    && "false" in ctx && ctx["false"] == Bool(false)
    && ("null" in ctx ==> ctx["null"] == Null)
  }

  predicate LiteralsAreLower(py: Python) {
    !py.isUpper("true") && !py.isUpper("false") && !py.isUpper("null")
  }

  /** Each word has its documented value exactly when the context says so, or it is an absent null. */
  lemma LiteralWord(py: Python, ctx: Context)
    requires LiteralsAreLower(py)
    ensures Eval(py, Name("true"), ctx) == Ok(Bool(true)) <==> "true" in ctx && ctx["true"] == Bool(true)
    ensures Eval(py, Name("false"), ctx) == Ok(Bool(false)) <==> "false" in ctx && ctx["false"] == Bool(false)
    ensures Eval(py, Name("null"), ctx) == Ok(Null) <==> "null" !in ctx || ctx["null"] == Null
  {
  }

  lemma {:induction false} LiteralsEvaluate(py: Python, n: Node, ctx: Context)
    requires LiteralsAreLower(py) && BindsLiterals(ctx)
    ensures Eval(py, WithLiterals(n), ctx) == Eval(py, n, ctx)
    decreases n, 1
  {
    hide Unary, Binary;
    match n
    case Expression(body) => LiteralsEvaluate(py, body, ctx);
    case BoolOp(_, values) => AllLiteralsEvaluate(py, values, ctx);
    case UnaryOp(_, operand) => LiteralsEvaluate(py, operand, ctx);
    case BinOp(left, _, right) =>
      LiteralsEvaluate(py, left, ctx);
      LiteralsEvaluate(py, right, ctx);
    case Compare(first, ops, comparators) =>
      LiteralsEvaluate(py, first, ctx);
      var l := Eval(py, first, ctx);
      if l.Ok? {
        ChainLiteralsEvaluate(py, l.value, true, ops, comparators, ctx);
      }
    case _ =>
  }

  lemma {:induction false} AllLiteralsEvaluate(py: Python, ns: seq<Node>, ctx: Context)
    requires LiteralsAreLower(py) && BindsLiterals(ctx)
    ensures EvalAll(py, AllWithLiterals(ns), ctx) == EvalAll(py, ns, ctx)
    decreases ns, 0
  {
    if ns != [] {
      LiteralsEvaluate(py, ns[0], ctx);
      AllLiteralsEvaluate(py, ns[1..], ctx);
      assert AllWithLiterals(ns)[1..] == AllWithLiterals(ns[1..]);
    }
  }

  lemma {:induction false} ChainLiteralsEvaluate(
      py: Python, left: Value, sofar: bool, ops: seq<CmpOperator>, comparators: seq<Node>, ctx: Context)
    requires LiteralsAreLower(py) && BindsLiterals(ctx)
    ensures Chain(py, left, sofar, ops, AllWithLiterals(comparators), ctx) ==
            Chain(py, left, sofar, ops, comparators, ctx)
    decreases comparators, 0
  {
    if ops != [] && comparators != [] {
      LiteralsEvaluate(py, comparators[0], ctx);
      assert AllWithLiterals(comparators)[1..] == AllWithLiterals(comparators[1..]);
      var right := Eval(py, comparators[0], ctx);
      if right.Ok? {
        ChainLiteralsEvaluate(py, right.value, false, ops[1..], comparators[1..], ctx);
        var c := CompareValues(py, left, ops[0], right.value);
        if c.Ok? {
          ChainLiteralsEvaluate(py, right.value, Truthy(c.value), ops[1..], comparators[1..], ctx);
        }
      }
    }
  }

  ghost predicate SameMeaning(py: Python, n: Node, ctx: Context) {
    Eval(py, WithLiterals(n), ctx) == Eval(py, n, ctx)
  }

  /** The lower-case words are looked up like any other variable: conditions have their documented
      meaning in exactly the contexts that bind true and false to themselves and null to null or
      not at all. */
  lemma LiteralsNeedBinding(py: Python, ctx: Context)
    requires LiteralsAreLower(py)
    ensures (forall n: Node :: SameMeaning(py, n, ctx)) <==> BindsLiterals(ctx)
  {
    if BindsLiterals(ctx) {
      forall n: Node
        ensures SameMeaning(py, n, ctx)
      {
        LiteralsEvaluate(py, n, ctx);
      }
    } else {
      LiteralWord(py, ctx);
      var word := if Eval(py, Name("true"), ctx) != Ok(Bool(true)) then "true"
                  else if Eval(py, Name("false"), ctx) != Ok(Bool(false)) then "false" else "null";
      var n := Name(word);
      assert Literal(word).Some? && WithLiterals(n) == Constant(Literal(word).value);
      assert !SameMeaning(py, n, ctx);
    }
  }

  /** In the empty context the condition `true` is false. */
  lemma TrueIsFalse(py: Python)
    requires LiteralsAreLower(py)
    ensures Evaluate(py, Some(Expression(Name("true"))), map[]) == Some(false)
    ensures !BindsLiterals(map[])
  {
    assert Eval(py, Expression(Name("true")), map[]) == Eval(py, Name("true"), map[]);
  }

  // Eager evaluation raises where short-circuit evaluation would not get to.

  /** Evaluating the tree only as far as it matters passes by something that raises. */
  predicate Wastes(py: Python, n: Node, ctx: Context)
    decreases n, 2
  {
    match n
    case Expression(body) => Wastes(py, body, ctx)
    case BoolOp(op, values) => WastesOperand(py, op, values, ctx)
    case UnaryOp(_, operand) => Wastes(py, operand, ctx)
    case BinOp(left, _, right) => Wastes(py, left, ctx) || Wastes(py, right, ctx)
    case Compare(first, ops, comparators) =>
      var l := Short(py, first, ctx);
      Wastes(py, first, ctx) || (l.Ok? && WastesComparator(py, l.value, ops, comparators, ctx))
    case _ => false
  }

  /** The tree raises, or passes by something that does. */
  predicate Raises(py: Python, n: Node, ctx: Context)
    decreases n, 3
  {
    Short(py, n, ctx).Error? || Wastes(py, n, ctx)
  }

  predicate SomeRaises(py: Python, ns: seq<Node>, ctx: Context)
    decreases ns, 0
  {
    ns != [] && (Raises(py, ns[0], ctx) || SomeRaises(py, ns[1..], ctx))
  }

  /** An operand behind the first one that decides raises, or one before it wastes. */
  predicate WastesOperand(py: Python, op: BoolOperator, ns: seq<Node>, ctx: Context)
    decreases ns, 1
  {
    ns != [] &&
    var v := Short(py, ns[0], ctx);
    Wastes(py, ns[0], ctx) ||
    (v.Ok? && if Truthy(v.value) == op.Or? then SomeRaises(py, ns[1..], ctx) else WastesOperand(py, op, ns[1..], ctx))
  }

  /** A comparator behind the first pair that fails raises, or one before it wastes. */
  predicate WastesComparator(
      py: Python, left: Value, ops: seq<CmpOperator>, comparators: seq<Node>, ctx: Context)
    decreases comparators, 1
  {
    ops != [] && comparators != [] &&
    var right := Short(py, comparators[0], ctx);
    Wastes(py, comparators[0], ctx) ||
    (right.Ok? &&
     var c := CompareValues(py, left, ops[0], right.value);
     c.Ok? &&
     if Truthy(c.value) then WastesComparator(py, right.value, ops[1..], comparators[1..], ctx)
     else SomePairedRaises(py, ops[1..], comparators[1..], ctx))
  }

  /** Behind a failed pair, the comparators are still evaluated as far as there are operators. */
  predicate SomePairedRaises(py: Python, ops: seq<CmpOperator>, comparators: seq<Node>, ctx: Context)
    decreases comparators, 0
  {
    ops != [] && comparators != [] &&
    (Raises(py, comparators[0], ctx) || SomePairedRaises(py, ops[1..], comparators[1..], ctx))
  }

  /** `and` and `or`: everything is evaluated, so it raises when any operand does. */
  lemma {:induction false} OperandsRaise(py: Python, op: BoolOperator, ns: seq<Node>, ctx: Context)
    ensures SomeRaises(py, ns, ctx) <==> ShortBool(py, op, ns, ctx).Error? || WastesOperand(py, op, ns, ctx)
    decreases |ns|
  {
    if ns != [] {
      OperandsRaise(py, op, ns[1..], ctx);
      hide Short, Wastes;
    }
  }

  /** For every tree: eager evaluation raises exactly when short-circuit evaluation does, or passes
      by something that raises. */
  lemma {:induction false} EvalRaisesIff(py: Python, n: Node, ctx: Context)
    ensures Eval(py, n, ctx).Error? <==> Raises(py, n, ctx)
    decreases n, 1
  {
    match n
    case Expression(body) => EvalRaisesIff(py, body, ctx);
    case BoolOp(op, values) =>
      AllRaiseIff(py, values, ctx);
      OperandsRaise(py, op, values, ctx);
    case UnaryOp(_, operand) =>
      EvalRaisesIff(py, operand, ctx);
      AgreesIfOk(py, operand, ctx);
    case BinOp(left, _, right) =>
      EvalRaisesIff(py, left, ctx);
      EvalRaisesIff(py, right, ctx);
      AgreesIfOk(py, left, ctx);
      AgreesIfOk(py, right, ctx);
    case Compare(first, ops, comparators) =>
      EvalRaisesIff(py, first, ctx);
      AgreesIfOk(py, first, ctx);
      var l := Eval(py, first, ctx);
      if l.Ok? {
        ChainRaisesIff(py, l.value, ops, comparators, ctx);
      }
    case _ =>
  }

  lemma AgreesIfOk(py: Python, n: Node, ctx: Context)
    ensures Eval(py, n, ctx).Ok? ==> Short(py, n, ctx) == Eval(py, n, ctx)
  {
    if Eval(py, n, ctx).Ok? {
      EagerAgreesWithShort(py, n, ctx);
    }
  }

  lemma {:induction false} AllRaiseIff(py: Python, ns: seq<Node>, ctx: Context)
    ensures EvalAll(py, ns, ctx).ErrorIn? <==> SomeRaises(py, ns, ctx)
    decreases ns, 0
  {
    if ns != [] {
      EvalRaisesIff(py, ns[0], ctx);
      AllRaiseIff(py, ns[1..], ctx);
      hide Eval, Raises;
    }
  }

  lemma {:induction false} FailedChainRaisesIff(
      py: Python, left: Value, ops: seq<CmpOperator>, comparators: seq<Node>, ctx: Context)
    ensures Chain(py, left, false, ops, comparators, ctx).Error? <==> SomePairedRaises(py, ops, comparators, ctx)
    decreases comparators, 0
  {
    if ops != [] && comparators != [] {
      EvalRaisesIff(py, comparators[0], ctx);
      var right := Eval(py, comparators[0], ctx);
      if right.Ok? {
        FailedChainRaisesIff(py, right.value, ops[1..], comparators[1..], ctx);
      }
      hide Eval, Raises;
    }
  }

  lemma {:induction false} ChainRaisesIff(
      py: Python, left: Value, ops: seq<CmpOperator>, comparators: seq<Node>, ctx: Context)
    ensures Chain(py, left, true, ops, comparators, ctx).Error? <==>
              || ShortChain(py, left, ops, comparators, ctx).Error?
              || WastesComparator(py, left, ops, comparators, ctx)
    decreases comparators, 0
  {
    if ops != [] && comparators != [] {
      EvalRaisesIff(py, comparators[0], ctx);
      AgreesIfOk(py, comparators[0], ctx);
      var right := Eval(py, comparators[0], ctx);
      if right.Ok? {
        ChainRaisesIff(py, right.value, ops[1..], comparators[1..], ctx);
        FailedChainRaisesIff(py, right.value, ops[1..], comparators[1..], ctx);
      }
      hide Eval, Short, Wastes, CompareValues;
    }
  }

  /** A tree whose value is settled still raises exactly when something that is passed by does; and
      if nothing is, both semantics agree. */
  lemma SettledRaisesIff(py: Python, n: Node, ctx: Context)
    requires Short(py, n, ctx).Ok?
    ensures Eval(py, n, ctx).Error? <==> Wastes(py, n, ctx)
    ensures Eval(py, n, ctx) == Short(py, n, ctx) <==> !Wastes(py, n, ctx)
  {
    EvalRaisesIff(py, n, ctx);
    AgreesIfOk(py, n, ctx);
  }

  /** An accepted condition fails exactly when its tree raises or passes by something that does. */
  lemma EvaluateFailsIff(py: Python, n: Node, ctx: Context)
    requires Allowed(n)
    ensures Evaluate(py, Some(n), ctx).None? <==> Short(py, n, ctx).Error? || Wastes(py, n, ctx)
  {
    EvalRaisesIff(py, n, ctx);
  }

  predicate DecidesAt(py: Python, op: BoolOperator, n: Node, ctx: Context) {
    var v := Eval(py, n, ctx);
    v.Ok? && Truthy(v.value) == op.Or?
  }

  /** The first operand that decides; their number when none does. */
  function FirstDeciding(py: Python, op: BoolOperator, ns: seq<Node>, ctx: Context): (i: nat)
    ensures i <= |ns| && (forall k | 0 <= k < i :: !DecidesAt(py, op, ns[k], ctx))
    ensures i < |ns| ==> DecidesAt(py, op, ns[i], ctx)
  {
    if ns == [] || DecidesAt(py, op, ns[0], ctx) then 0 else 1 + FirstDeciding(py, op, ns[1..], ctx)
  }

  /** The first operand that raises; their number when none does. */
  function FirstRaising(py: Python, ns: seq<Node>, ctx: Context): (j: nat)
    ensures j <= |ns| && (forall k | 0 <= k < j :: Eval(py, ns[k], ctx).Ok?)
    ensures j < |ns| ==> Eval(py, ns[j], ctx).Error?
  {
    if ns == [] || Eval(py, ns[0], ctx).Error? then 0 else 1 + FirstRaising(py, ns[1..], ctx)
  }

  /** Both semantics agree on the operands. */
  ghost predicate Agree(py: Python, ns: seq<Node>, ctx: Context) {
    forall n | n in ns :: Short(py, n, ctx) == Eval(py, n, ctx)
  }

  lemma {:induction false} BoolOutcomes(py: Python, op: BoolOperator, ns: seq<Node>, ctx: Context)
    requires Agree(py, ns, ctx)
    ensures var i, j := FirstDeciding(py, op, ns, ctx), FirstRaising(py, ns, ctx);
            && (EvalAll(py, ns, ctx).ErrorIn? <==> j < |ns|)
            && (ShortBool(py, op, ns, ctx).Ok? <==> i < j || j == |ns|)
    decreases |ns|
  {
    if ns != [] {
      hide Eval, Short, Truthy;
      assert ns[0] in ns && forall n | n in ns[1..] :: n in ns;
      BoolOutcomes(py, op, ns[1..], ctx);
    }
  }

  /** The special case of one `and` or `or` on whose operands both semantics agree: it raises although
      its value is settled exactly when the first operand that raises comes after the first one that
      decides. */
  lemma {:induction false} EagerRaisesIff(py: Python, op: BoolOperator, ns: seq<Node>, ctx: Context)
    requires Agree(py, ns, ctx)
    ensures var n := BoolOp(op, ns);
            var late := FirstDeciding(py, op, ns, ctx) < FirstRaising(py, ns, ctx) < |ns|;
            && (Short(py, n, ctx).Ok? && Eval(py, n, ctx).Error? <==> late)
            && (Short(py, n, ctx).Ok? && Wastes(py, n, ctx) <==> late)
  {
    BoolOutcomes(py, op, ns, ctx);
    EvalRaisesIff(py, BoolOp(op, ns), ctx);
  }

  /** 1 / 0 */
  function Bad(): Node { BinOp(Constant(Int(1)), Div, Constant(Int(0))) }

  lemma BadRaises(py: Python, ctx: Context)
    requires py.arithmetic(Div, Int(1), Int(0)) == None
    ensures Allowed(Bad()) && Short(py, Bad(), ctx) == Eval(py, Bad(), ctx) == Error(Raised)
  {
  }

  /** `False and 1 / 0` compiles and is settled, and still raises. */
  lemma EagerRaises(py: Python, ctx: Context)
    requires py.arithmetic(Div, Int(1), Int(0)) == None
    ensures var n := BoolOp(And, [Constant(Bool(false)), Bad()]);
            Allowed(n) && Short(py, n, ctx) == Ok(Bool(false)) && Evaluate(py, Some(n), ctx) == None
  {
    BadRaises(py, ctx);
    hide Bad;
    var ns := [Constant(Bool(false)), Bad()];
    assert ns[1..] == [Bad()];
    assert SomeRaises(py, [Bad()], ctx);
    EvaluateFailsIff(py, BoolOp(And, ns), ctx);
  }

  /** So does the chain `1 < 0 < 1 / 0`: every comparator is evaluated. */
  lemma ChainRaises(py: Python, ctx: Context)
    requires py.arithmetic(Div, Int(1), Int(0)) == None && py.ordered(Lt, Int(1), Int(0)) == Some(false)
    ensures var n := Compare(Constant(Int(1)), [Lt, Lt], [Constant(Int(0)), Bad()]);
            Allowed(n) && Short(py, n, ctx) == Ok(Bool(false)) && Evaluate(py, Some(n), ctx) == None
  {
    BadRaises(py, ctx);
    hide Bad;
    var ops, comparators := [Lt, Lt], [Constant(Int(0)), Bad()];
    assert ops[1..] == [Lt] && comparators[1..] == [Bad()];
    assert SomePairedRaises(py, [Lt], [Bad()], ctx);
    assert WastesComparator(py, Int(1), ops, comparators, ctx);
    EvaluateFailsIff(py, Compare(Constant(Int(1)), ops, comparators), ctx);
  }

  /** And `(False and 1 / 0) or True`, where the raising operand comes before the deciding one. */
  lemma NestedRaises(py: Python, ctx: Context)
    requires py.arithmetic(Div, Int(1), Int(0)) == None
    ensures var ns := [BoolOp(And, [Constant(Bool(false)), Bad()]), Constant(Bool(true))];
            var n := BoolOp(Or, ns);
            && Allowed(n) && Short(py, n, ctx) == Ok(Bool(true)) && Evaluate(py, Some(n), ctx) == None
            && FirstRaising(py, ns, ctx) < FirstDeciding(py, Or, ns, ctx)
  {
    EagerRaises(py, ctx);
    var inner := BoolOp(And, [Constant(Bool(false)), Bad()]);
    SettledRaisesIff(py, inner, ctx);
    EvalRaisesIff(py, inner, ctx);
    AllowedEvaluatesCleanly(py, inner, ctx);
    assert Eval(py, inner, ctx).Error?;
    hide Bad;
    var ns := [inner, Constant(Bool(true))];
    assert ns[1..] == [Constant(Bool(true))];
    EvaluateFailsIff(py, BoolOp(Or, ns), ctx);
  }
}
