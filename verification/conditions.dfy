/** The comparison conditions of the narrative tree (lib.rs `Condition`):
    two operands, each a variable name or a literal, and one of four
    strict integer comparators. */
module Conditions {
  import opened Results
  import opened Numbers

  datatype Comparison = Equals | NotEquals | MoreThan | LessThan

  /** An operand: a variable looked up at evaluation time, or a literal. */
  datatype Operand = Variable(name: string) | Number(n: i32)

  datatype Condition = Condition(first: Operand, compare: Comparison, second: Operand)

  /** Which operands of a condition named variables that were not set;
      one variant per failure the evaluator distinguishes. */
  datatype CheckError =
    | BothUndefined(first: Operand, second: Operand)
    | FirstUndefined(operand: Operand)
    | SecondUndefined(operand: Operand)

  /** The meaning of a comparator on two integers. */
  predicate Holds(compare: Comparison, a: int, b: int) {
    match compare
    case Equals => a == b
    case NotEquals => a != b
    case MoreThan => a > b
    case LessThan => a < b
  }

  /** An operand has a value under `vars`: literals always do. */
  predicate Defined(o: Operand, vars: map<string, i32>) {
    o.Number? || o.name in vars
  }

  function ValueOf(o: Operand, vars: map<string, i32>): i32
    requires Defined(o, vars)
  {
    if o.Number? then o.n else vars[o.name]
  }

  function Lookup(o: Operand, vars: map<string, i32>): (r: Option<i32>)
    ensures r.Some? <==> Defined(o, vars)
    ensures r.Some? ==> r.value == ValueOf(o, vars)
  {
    match o
    case Number(n) => Some(n)
    case Variable(name) => if name in vars then Some(vars[name]) else None
  }

  /** Evaluates a condition: the comparison of both operand values when both
      are defined, and an error naming the undefined operands otherwise. */
  function Check(c: Condition, vars: map<string, i32>): (r: Result<bool, CheckError>)
    ensures r.Ok? <==> Defined(c.first, vars) && Defined(c.second, vars)
    ensures r.Ok? ==> r.value == Holds(c.compare, ValueOf(c.first, vars), ValueOf(c.second, vars))
    ensures r.Err? ==> match r.error
                       case BothUndefined(a, b) => a == c.first && b == c.second && !Defined(a, vars) && !Defined(b, vars)
                       case FirstUndefined(a) => a == c.first && !Defined(a, vars) && Defined(c.second, vars)
                       case SecondUndefined(b) => b == c.second && Defined(c.first, vars) && !Defined(b, vars)
  {
    match (Lookup(c.first, vars), Lookup(c.second, vars))
    case (Some(a), Some(b)) =>
      Ok(match c.compare
         case Equals => a == b
         case NotEquals => a != b
         case MoreThan => a > b
         case LessThan => a < b)
    case (None, None) => Err(BothUndefined(c.first, c.second))
    case (None, _) => Err(FirstUndefined(c.first))
    case (_, None) => Err(SecondUndefined(c.second))
  }

  /** A literal operand means itself, whatever the variables hold. */
  lemma NumberIgnoresVariables(n: i32, vars: map<string, i32>, vars': map<string, i32>)
    ensures Lookup(Number(n), vars) == Lookup(Number(n), vars') == Some(n)
  {
  }

  /** The condition with its comparator swapped: Equals with NotEquals and
      MoreThan with LessThan, operands untouched. */
  function Reverse(c: Condition): (r: Condition)
    ensures r.first == c.first && r.second == c.second
    ensures r.compare != c.compare
    ensures (c.compare == Equals || c.compare == NotEquals) <==> (r.compare == Equals || r.compare == NotEquals)
  {
    c.(compare := match c.compare
                  case Equals => NotEquals
                  case NotEquals => Equals
                  case MoreThan => LessThan
                  case LessThan => MoreThan)
  }

  /** Reversing twice gives the original condition back. */
  lemma ReverseInvolution(c: Condition)
    ensures Reverse(Reverse(c)) == c
  {
  }

  /** For Equals and NotEquals, the reversed condition is the logical negation. */
  lemma ReverseNegatesEquality(c: Condition, vars: map<string, i32>)
    requires c.compare == Equals || c.compare == NotEquals
    requires Check(c, vars).Ok?
    ensures Check(Reverse(c), vars) == Ok(!Check(c, vars).value)
  {
  }

  /** For MoreThan and LessThan it is not: on equal operands both the condition
      and its reverse are false. */
  lemma ReverseIsNotNegationOnTies(o: Operand, vars: map<string, i32>)
    requires Defined(o, vars)
    ensures Check(Condition(o, MoreThan, o), vars) == Ok(false)
    ensures Check(Reverse(Condition(o, MoreThan, o)), vars) == Ok(false)
  {
  }
}
