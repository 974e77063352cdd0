// Variable substitution in macro bodies
// (src/MulleScionObjectModel+MacroExpansion.m:44-485).

module Expressions {
  import opened Wrappers


  datatype BinaryOperator = And | Or | Indexing

  /** `line` is lineNumber_. NilExpr is the nil pointer: it answers nil to every message. */
  datatype Expr =
    | NilExpr
    | Constant(line: nat, value: string)           // numbers, strings, selectors
    | Variable(line: nat, name: string)
    | ParameterAssignment(line: nat, name: string, expr: Expr)
    | Function(line: nat, name: string, args: seq<Expr>)
    | Method(line: nat, target: Expr, action: string, args: seq<Expr>)
    | Array(line: nat, args: seq<Expr>)
    | Dictionary(line: nat, keys: seq<Expr>, args: seq<Expr>)
    | Not(line: nat, expr: Expr)
    | Binary(line: nat, op: BinaryOperator, left: Expr, right: Expr)
    | Comparison(line: nat, code: int, left: Expr, right: Expr)
    | Pipe(line: nat, left: Expr, right: Expr)
    | Dot(line: nat, left: Expr, right: Expr)
    | Conditional(line: nat, left: Expr, middle: Expr, right: Expr)
    | Assignment(line: nat, left: Expr, right: Expr)

  /** What a rebuilt comparison compares with: MulleScionEqual, the zero it was allocated with. */
  const EQUAL: int := 0

  // ---- plain substitution ----

  /** Every variable that `env` names becomes its value there, all at once, but for targets of
      assignments and for variables that a method is called on. */
  function SubstIn(e: Expr, env: map<string, Expr>): Expr
    decreases e, 1
  {
    match e
    case NilExpr => e
    case Constant(_, _) => e
    case Variable(_, name) => if name in env then env[name] else e
    case ParameterAssignment(line, name, inner) => ParameterAssignment(line, name, SubstIn(inner, env))
    case Function(line, name, args) => Function(line, name, SubstInAll(args, env))
    case Method(line, target, action, args) =>
      Method(line, if target.Variable? then target else SubstIn(target, env), action, SubstInAll(args, env))
    case Array(line, args) => Array(line, SubstInAll(args, env))
    case Dictionary(line, keys, args) => Dictionary(line, SubstInAll(keys, env), SubstInAll(args, env))
    case Not(line, inner) => Not(line, SubstIn(inner, env))
    case Binary(line, op, left, right) => Binary(line, op, SubstIn(left, env), SubstIn(right, env))
    case Comparison(line, code, left, right) => Comparison(line, code, SubstIn(left, env), SubstIn(right, env))
    case Pipe(line, left, right) => Pipe(line, SubstIn(left, env), SubstIn(right, env))
    case Dot(line, left, right) => Dot(line, SubstIn(left, env), SubstIn(right, env))
    case Conditional(line, left, middle, right) =>
      Conditional(line, SubstIn(left, env), SubstIn(middle, env), SubstIn(right, env))
    case Assignment(line, left, right) => Assignment(line, left, SubstIn(right, env))
  }

  function SubstInAll(es: seq<Expr>, env: map<string, Expr>): seq<Expr>
    decreases es, 0
  {
    if es == [] then [] else [SubstIn(es[0], env)] + SubstInAll(es[1..], env)
  }

  /** Plain substitution of one variable. */
  function Subst(e: Expr, x: string, arg: Expr): Expr { SubstIn(e, map[x := arg]) }

  function SubstAll(es: seq<Expr>, x: string, arg: Expr): seq<Expr> { SubstInAll(es, map[x := arg]) }

  /** There is something to substitute. */
  predicate Occurs(e: Expr, x: string)
    decreases e, 1
  {
    match e
    case NilExpr => false
    case Constant(_, _) => false
    case Variable(_, name) => name == x
    case ParameterAssignment(_, _, inner) => Occurs(inner, x)
    case Function(_, _, args) => OccursAny(args, x)
    case Method(_, target, _, args) => (!target.Variable? && Occurs(target, x)) || OccursAny(args, x)
    case Array(_, args) => OccursAny(args, x)
    case Dictionary(_, keys, args) => OccursAny(keys, x) || OccursAny(args, x)
    case Not(_, inner) => Occurs(inner, x)
    case Binary(_, _, left, right) => Occurs(left, x) || Occurs(right, x)
    case Comparison(_, _, left, right) => Occurs(left, x) || Occurs(right, x)
    case Pipe(_, left, right) => Occurs(left, x) || Occurs(right, x)
    case Dot(_, left, right) => Occurs(left, x) || Occurs(right, x)
    case Conditional(_, left, middle, right) => Occurs(left, x) || Occurs(middle, x) || Occurs(right, x)
    case Assignment(_, left, right) => Occurs(right, x)
  }

  predicate OccursAny(es: seq<Expr>, x: string)
    decreases es, 0
  {
    es != [] && (Occurs(es[0], x) || OccursAny(es[1..], x))
  }

  // ---- the code ----

  function OrElse<T>(o: Option<T>, t: T): T {
    if o.Some? then o.value else t
  }

  /** The right side of a pipe or a dot only takes a replacement it can apply. */
  predicate Applicable(e: Expr, dot: bool) {
    e.Method? || e.Pipe? || e.Variable? || (dot && e.Dot?)
  }

  function Accepted(o: Option<Expr>, dot: bool): Option<Expr> {
    if o.Some? && !Applicable(o.value, dot) then None else o
  }

  /** replaceVariableWithIdentifier:withExpression: — None for nil, that is no change. */
  function Replace(e: Expr, x: string, arg: Expr): Option<Expr>
    decreases e, 1
  {
    match e
    case NilExpr => None
    case Constant(_, _) => None
    case Variable(_, name) => if name == x then Some(arg) else None
    case ParameterAssignment(_, name, _) => if name == x then Some(arg) else None   // inherited
    case Function(line, name, args) =>
      (match ReplaceAll(args, x, arg)
       case None => None
       case Some(result) => Some(Function(line, name, result)))
    case Method(line, target, action, args) =>
      var copy1 := if target.Variable? then None else Replace(target, x, arg);
      var result := ReplaceAll(args, x, arg);
      if copy1.None? && result.None? then None
      else Some(Method(line, OrElse(copy1, target), action, OrElse(result, args)))
    case Array(line, args) =>
      (match ReplaceAll(args, x, arg)
       case None => None
       case Some(result) => Some(Array(line, result)))
    case Dictionary(line, keys, args) =>
      var keyCopies, copies := ReplaceAll(keys, x, arg), ReplaceAll(args, x, arg);
      if keyCopies.None? && copies.None? then None
      else Some(Dictionary(line, OrElse(keyCopies, keys), OrElse(copies, args)))
    case Not(line, inner) =>
      (match Replace(inner, x, arg)
       case None => None
       case Some(copy1) => Some(Not(line, copy1)))
    case Binary(line, op, left, right) =>
      var copy1, copy2 := Replace(left, x, arg), Replace(right, x, arg);
      if copy1.None? && copy2.None? then None
      else Some(Binary(line, op, OrElse(copy1, left), OrElse(copy2, right)))
    case Comparison(line, _, left, right) =>
      var copy1, copy2 := Replace(left, x, arg), Replace(right, x, arg);
      if copy1.None? && copy2.None? then None
      else Some(Comparison(line, EQUAL, OrElse(copy1, left), OrElse(copy2, right)))
    case Pipe(line, left, right) =>
      var copy1, copy2 := Replace(left, x, arg), Accepted(Replace(right, x, arg), false);
      if copy1.None? && copy2.None? then None
      else Some(Pipe(line, OrElse(copy1, NilExpr), OrElse(copy2, right)))
    case Dot(line, left, right) =>
      var copy1, copy2 := Replace(left, x, arg), Accepted(Replace(right, x, arg), true);
      if copy1.None? && copy2.None? then None
      else Some(Dot(line, OrElse(copy1, NilExpr), OrElse(copy2, right)))
    case Conditional(line, left, middle, right) =>
      var copy1, copy2, copy3 := Replace(left, x, arg), Replace(middle, x, arg), Replace(right, x, arg);
      if copy1.None? && copy2.None? && copy3.None? then None
      else Some(Conditional(line, OrElse(copy1, left), OrElse(copy2, middle), OrElse(copy3, right)))
    case Assignment(line, left, right) =>
      (match Replace(right, x, arg)
       case None => None
       case Some(copy2) => Some(Assignment(line, left, copy2)))
  }

  /** Replacements for those that have one; None when none has. */
  function ReplaceAll(es: seq<Expr>, x: string, arg: Expr): Option<seq<Expr>>
    decreases es, 0
  {
    if es == [] then None
    else
      var copy, rest := Replace(es[0], x, arg), ReplaceAll(es[1..], x, arg);
      if copy.None? && rest.None? then None
      else Some([OrElse(copy, es[0])] + OrElse(rest, es[1..]))
  }

  lemma {:induction false} ReplaceAllAppend(es: seq<Expr>, e: Expr, x: string, arg: Expr)
    ensures var front, last := ReplaceAll(es, x, arg), Replace(e, x, arg);
      ReplaceAll(es + [e], x, arg) ==
        if front.None? && last.None? then None else Some(OrElse(front, es) + [OrElse(last, e)])
    decreases |es|
  {
    if es == [] {
      assert es + [e] == [e] && [e][1..] == [];
      assert [OrElse(Replace(e, x, arg), e)] + [] == [] + [OrElse(Replace(e, x, arg), e)];
    } else {
      assert (es + [e])[0] == es[0] && (es + [e])[1..] == es[1..] + [e];
      ReplaceAllAppend(es[1..], e, x, arg);
      var first, rest, last := OrElse(Replace(es[0], x, arg), es[0]), ReplaceAll(es[1..], x, arg), Replace(e, x, arg);
      assert es == [es[0]] + es[1..];
      assert [first] + (OrElse(rest, es[1..]) + [OrElse(last, e)])
          == [first] + OrElse(rest, es[1..]) + [OrElse(last, e)];
    }
  }

  /** The loop of replaceVariablesWithIdentifierInArray. */
  method ReplaceVariablesInArray(elements: seq<Expr>, x: string, arg: Expr) returns (r: Option<seq<Expr>>)
    ensures r == ReplaceAll(elements, x, arg)
  {
    var hasChanges, result := false, [];
    for i := 0 to |elements|
      invariant hasChanges == ReplaceAll(elements[..i], x, arg).Some?
      invariant result == OrElse(ReplaceAll(elements[..i], x, arg), elements[..i])
    {
      assert elements[..i + 1] == elements[..i] + [elements[i]];
      ReplaceAllAppend(elements[..i], elements[i], x, arg);
      var copy := Replace(elements[i], x, arg);
      if copy.Some? {
        result := result + [copy.value];
        hasChanges := true;
      } else {
        result := result + [elements[i]];
      }
    }
    assert elements[..|elements|] == elements;
    r := if hasChanges then Some(result) else None;
  }

  /** The loop of replaceVariablesWithIdentifierInDictionary, entry by entry. */
  method ReplaceVariablesInDictionary(keys: seq<Expr>, values: seq<Expr>, x: string, arg: Expr)
    returns (hasChanges: bool, newKeys: seq<Expr>, newValues: seq<Expr>)
    requires |keys| == |values|
    ensures hasChanges == (ReplaceAll(keys, x, arg).Some? || ReplaceAll(values, x, arg).Some?)
    ensures newKeys == OrElse(ReplaceAll(keys, x, arg), keys)
    ensures newValues == OrElse(ReplaceAll(values, x, arg), values)
  {
    hasChanges, newKeys, newValues := false, [], [];
    for i := 0 to |keys|
      invariant hasChanges == (ReplaceAll(keys[..i], x, arg).Some? || ReplaceAll(values[..i], x, arg).Some?)
      invariant newKeys == OrElse(ReplaceAll(keys[..i], x, arg), keys[..i])
      invariant newValues == OrElse(ReplaceAll(values[..i], x, arg), values[..i])
    {
      assert keys[..i + 1] == keys[..i] + [keys[i]] && values[..i + 1] == values[..i] + [values[i]];
      ReplaceAllAppend(keys[..i], keys[i], x, arg);
      ReplaceAllAppend(values[..i], values[i], x, arg);
      var keyCopy, copy := Replace(keys[i], x, arg), Replace(values[i], x, arg);
      if copy.Some? || keyCopy.Some? { hasChanges := true; }
      newKeys, newValues := newKeys + [OrElse(keyCopy, keys[i])], newValues + [OrElse(copy, values[i])];
    }
    assert keys[..|keys|] == keys && values[..|values|] == values;
  }

  // ---- when substitutions agree ----

  function ValueOf(v: Expr, env: map<string, Expr>): Expr
    requires v.Variable?
  {
    if v.name in env then env[v.name] else v
  }

  /** At every place where a variable can be replaced, both environments have the same for it. */
  predicate SameValues(e: Expr, env: map<string, Expr>, other: map<string, Expr>)
    decreases e, 1
  {
    match e
    case NilExpr => true
    case Constant(_, _) => true
    case Variable(_, _) => ValueOf(e, env) == ValueOf(e, other)
    case ParameterAssignment(_, _, inner) => SameValues(inner, env, other)
    case Function(_, _, args) => SameValuesAll(args, env, other)
    case Method(_, target, _, args) =>
      (target.Variable? || SameValues(target, env, other)) && SameValuesAll(args, env, other)
    case Array(_, args) => SameValuesAll(args, env, other)
    case Dictionary(_, keys, args) => SameValuesAll(keys, env, other) && SameValuesAll(args, env, other)
    case Not(_, inner) => SameValues(inner, env, other)
    case Binary(_, _, left, right) => SameValues(left, env, other) && SameValues(right, env, other)
    case Comparison(_, _, left, right) => SameValues(left, env, other) && SameValues(right, env, other)
    case Pipe(_, left, right) => SameValues(left, env, other) && SameValues(right, env, other)
    case Dot(_, left, right) => SameValues(left, env, other) && SameValues(right, env, other)
    case Conditional(_, left, middle, right) =>
      SameValues(left, env, other) && SameValues(middle, env, other) && SameValues(right, env, other)
    case Assignment(_, _, right) => SameValues(right, env, other)
  }

  predicate SameValuesAll(es: seq<Expr>, env: map<string, Expr>, other: map<string, Expr>)
    decreases es, 0
  {
    es == [] || (SameValues(es[0], env, other) && SameValuesAll(es[1..], env, other))
  }

  /** Two substitutions give the same exactly when they agree at every such place. */
  lemma {:induction false} SameIffSameValues(e: Expr, env: map<string, Expr>, other: map<string, Expr>)
    ensures SubstIn(e, env) == SubstIn(e, other) <==> SameValues(e, env, other)
    decreases e, 1
  {
    match e
    case NilExpr =>
    case Constant(_, _) =>
    case Variable(_, _) =>
    case ParameterAssignment(_, _, inner) => SameIffSameValues(inner, env, other);
    case Function(_, _, args) => SameIffSameValuesAll(args, env, other);
    case Method(_, target, _, args) =>
      if !target.Variable? { SameIffSameValues(target, env, other); }
      SameIffSameValuesAll(args, env, other);
    case Array(_, args) => SameIffSameValuesAll(args, env, other);
    case Dictionary(_, keys, args) => SameIffSameValuesAll(keys, env, other); SameIffSameValuesAll(args, env, other);
    case Not(_, inner) => SameIffSameValues(inner, env, other);
    case Binary(_, _, left, right) => SameIffSameValues(left, env, other); SameIffSameValues(right, env, other);
    case Comparison(_, _, left, right) => SameIffSameValues(left, env, other); SameIffSameValues(right, env, other);
    case Pipe(_, left, right) => SameIffSameValues(left, env, other); SameIffSameValues(right, env, other);
    case Dot(_, left, right) => SameIffSameValues(left, env, other); SameIffSameValues(right, env, other);
    case Conditional(_, left, middle, right) =>
      SameIffSameValues(left, env, other); SameIffSameValues(middle, env, other); SameIffSameValues(right, env, other);
    case Assignment(_, _, right) => SameIffSameValues(right, env, other);
  }

  lemma {:induction false} SameIffSameValuesAll(es: seq<Expr>, env: map<string, Expr>, other: map<string, Expr>)
    ensures SubstInAll(es, env) == SubstInAll(es, other) <==> SameValuesAll(es, env, other)
    decreases es, 0
  {
    if es != [] {
      var all, plain := SubstInAll(es, env), SubstInAll(es, other);
      SameIffSameValues(es[0], env, other);
      SameIffSameValuesAll(es[1..], env, other);
      assert all[1..] == SubstInAll(es[1..], env) && plain[1..] == SubstInAll(es[1..], other);
    }
  }

  /** The argument shows: it has a place in e where not the same stands already. */
  predicate Visible(e: Expr, x: string, arg: Expr) { !SameValues(e, map[x := arg], map[]) }

  lemma VisibleIffChanged(e: Expr, x: string, arg: Expr)
    ensures Visible(e, x, arg) <==> Subst(e, x, arg) != e
  {
    SameIffSameValues(e, map[x := arg], map[]);
    SubstNothing(e);
  }

  // ---- when the code substitutes plainly ----

  /** The code rebuilds e. */
  predicate Touched(e: Expr, x: string, arg: Expr) { Replace(e, x, arg).Some? }

  /** Nothing makes the code deviate: no comparison other than `==` is rebuilt, no pipe or dot for
      the sake of its right side alone; no argument that would show belongs into the right side of
      one that cannot take it, or into a parameter assignment; none has that name. */
  predicate Exact(e: Expr, x: string, arg: Expr)
    decreases e, 1
  {
    match e
    case NilExpr => true
    case Constant(_, _) => true
    case Variable(_, _) => true
    case ParameterAssignment(_, name, inner) => name != x && !Visible(inner, x, arg)
    case Function(_, _, args) => ExactAll(args, x, arg)
    case Method(_, target, _, args) => (target.Variable? || Exact(target, x, arg)) && ExactAll(args, x, arg)
    case Array(_, args) => ExactAll(args, x, arg)
    case Dictionary(_, keys, args) => ExactAll(keys, x, arg) && ExactAll(args, x, arg)
    case Not(_, inner) => Exact(inner, x, arg)
    case Binary(_, _, left, right) => Exact(left, x, arg) && Exact(right, x, arg)
    case Comparison(_, code, left, right) =>
      Exact(left, x, arg) && Exact(right, x, arg) && (Touched(left, x, arg) || Touched(right, x, arg) ==> code == EQUAL)
    case Pipe(_, left, right) => Exact(left, x, arg) && ExactRight(left, right, x, arg, false)
    case Dot(_, left, right) => Exact(left, x, arg) && ExactRight(left, right, x, arg, true)
    case Conditional(_, left, middle, right) =>
      Exact(left, x, arg) && Exact(middle, x, arg) && Exact(right, x, arg)
    case Assignment(_, _, right) => Exact(right, x, arg)
  }

  /** What kind of node a replacement of `e` is. */
  function Kind(e: Expr, x: string, arg: Expr): Expr {
    if (e.Variable? || e.ParameterAssignment?) && e.name == x then arg else e
  }

  predicate ExactRight(left: Expr, right: Expr, x: string, arg: Expr, dot: bool)
    decreases right, 2
  {
    if Applicable(Kind(right, x, arg), dot) then
      Exact(right, x, arg) && (Touched(right, x, arg) ==> Touched(left, x, arg) || left.NilExpr?)
    else !Visible(right, x, arg)
  }

  predicate ExactAll(es: seq<Expr>, x: string, arg: Expr)
    decreases es, 0
  {
    es == [] || (Exact(es[0], x, arg) && ExactAll(es[1..], x, arg))
  }

  /** The answer nil means exactly that nothing was changed; what was not inside a deviation
      comes out as plain substitution has it. */
  lemma {:induction false} ExactIsPlain(e: Expr, x: string, arg: Expr)
    requires Exact(e, x, arg)
    ensures Touched(e, x, arg) ==> Occurs(e, x)
    ensures OrElse(Replace(e, x, arg), e) == Subst(e, x, arg)
    decreases e, 1
  {
    match e
    case Function(_, _, args) => ExactAllIsPlain(args, x, arg);
    case Method(_, target, _, args) =>
      if !target.Variable? { ExactIsPlain(target, x, arg); }
      ExactAllIsPlain(args, x, arg);
    case Array(_, args) => ExactAllIsPlain(args, x, arg);
    case Dictionary(_, keys, args) => ExactAllIsPlain(keys, x, arg); ExactAllIsPlain(args, x, arg);
    case Not(_, inner) => ExactIsPlain(inner, x, arg);
    case Binary(_, _, left, right) => ExactIsPlain(left, x, arg); ExactIsPlain(right, x, arg);
    case Comparison(_, _, left, right) =>
      ExactIsPlain(left, x, arg);
      ExactIsPlain(right, x, arg);
      ExactComparison(e, x, arg);
    case Pipe(_, left, right) =>
      ExactIsPlain(left, x, arg);
      ExactRightIsPlain(left, right, x, arg, false);
      ExactPipe(e, x, arg);
    case Dot(_, left, right) =>
      ExactIsPlain(left, x, arg);
      ExactRightIsPlain(left, right, x, arg, true);
      ExactDot(e, x, arg);
    case Conditional(_, left, middle, right) =>
      ExactIsPlain(left, x, arg); ExactIsPlain(middle, x, arg); ExactIsPlain(right, x, arg);
    case Assignment(_, _, right) => ExactIsPlain(right, x, arg);
    case ParameterAssignment(_, _, inner) => VisibleIffChanged(inner, x, arg);
    case _ =>
  }

  predicate IsPlain(e: Expr, x: string, arg: Expr) {
    (Touched(e, x, arg) ==> Occurs(e, x)) && OrElse(Replace(e, x, arg), e) == Subst(e, x, arg)
  }

  predicate RightIsPlain(right: Expr, x: string, arg: Expr, dot: bool) {
    var copy := Accepted(Replace(right, x, arg), dot);
    (copy.Some? ==> Occurs(right, x)) && OrElse(copy, right) == Subst(right, x, arg)
  }

  lemma ExactComparison(e: Expr, x: string, arg: Expr)
    requires e.Comparison? && Exact(e, x, arg) && IsPlain(e.left, x, arg) && IsPlain(e.right, x, arg)
    ensures IsPlain(e, x, arg)
  {}

  lemma ExactPipe(e: Expr, x: string, arg: Expr)
    requires e.Pipe? && Exact(e, x, arg) && IsPlain(e.left, x, arg) && RightIsPlain(e.right, x, arg, false)
    ensures IsPlain(e, x, arg)
  {}

  lemma ExactDot(e: Expr, x: string, arg: Expr)
    requires e.Dot? && Exact(e, x, arg) && IsPlain(e.left, x, arg) && RightIsPlain(e.right, x, arg, true)
    ensures IsPlain(e, x, arg)
  {}

  lemma {:induction false} ExactRightIsPlain(left: Expr, right: Expr, x: string, arg: Expr, dot: bool)
    requires ExactRight(left, right, x, arg, dot)
    ensures Accepted(Replace(right, x, arg), dot).Some? ==> Occurs(right, x)
    ensures OrElse(Accepted(Replace(right, x, arg), dot), right) == Subst(right, x, arg)
    decreases right, 2
  {
    if Replace(right, x, arg).Some? { SameShape(right, x, arg, dot); }
    if Applicable(Kind(right, x, arg), dot) {
      ExactIsPlain(right, x, arg);
    } else {
      VisibleIffChanged(right, x, arg);
    }
  }

  lemma {:induction false} ExactAllIsPlain(es: seq<Expr>, x: string, arg: Expr)
    requires ExactAll(es, x, arg)
    ensures ReplaceAll(es, x, arg).Some? ==> OccursAny(es, x)
    ensures OrElse(ReplaceAll(es, x, arg), es) == SubstAll(es, x, arg)
    decreases es, 0
  {
    if es != [] {
      ExactIsPlain(es[0], x, arg);
      ExactAllIsPlain(es[1..], x, arg);
      assert es == [es[0]] + es[1..];
    }
  }

  lemma SameShape(e: Expr, x: string, arg: Expr, dot: bool)
    requires Replace(e, x, arg).Some?
    ensures Applicable(Replace(e, x, arg).value, dot) == Applicable(Kind(e, x, arg), dot)
  {
  }

  /** Environments that agree on what occurs give the same result. */
  ghost predicate Agree(e: Expr, env: map<string, Expr>, other: map<string, Expr>) {
    forall x :: Occurs(e, x) ==> SameIn(x, env, other)
  }

  predicate SameIn(x: string, env: map<string, Expr>, other: map<string, Expr>) {
    if x in env then x in other && env[x] == other[x] else x !in other
  }

  ghost predicate AgreeAll(es: seq<Expr>, env: map<string, Expr>, other: map<string, Expr>) {
    forall x :: OccursAny(es, x) ==> SameIn(x, env, other)
  }

  lemma {:induction false} AgreeingSubst(e: Expr, env: map<string, Expr>, other: map<string, Expr>)
    requires Agree(e, env, other)
    ensures SubstIn(e, env) == SubstIn(e, other)
    decreases e, 1
  {
    match e
    case NilExpr =>
    case Constant(_, _) =>
    case Variable(_, name) => assert Occurs(e, name);
    case ParameterAssignment(_, _, inner) => assert Agree(inner, env, other); AgreeingSubst(inner, env, other);
    case Function(_, _, args) => assert AgreeAll(args, env, other); AgreeingSubstAll(args, env, other);
    case Method(_, target, _, args) =>
      if !target.Variable? { assert Agree(target, env, other); AgreeingSubst(target, env, other); }
      assert AgreeAll(args, env, other);
      AgreeingSubstAll(args, env, other);
    case Array(_, args) => assert AgreeAll(args, env, other); AgreeingSubstAll(args, env, other);
    case Dictionary(_, keys, args) =>
      assert AgreeAll(keys, env, other) && AgreeAll(args, env, other);
      AgreeingSubstAll(keys, env, other);
      AgreeingSubstAll(args, env, other);
    case Not(_, inner) => assert Agree(inner, env, other); AgreeingSubst(inner, env, other);
    case Assignment(_, _, right) => assert Agree(right, env, other); AgreeingSubst(right, env, other);
    case Conditional(_, left, middle, right) =>
      assert Agree(left, env, other) && Agree(middle, env, other) && Agree(right, env, other);
      AgreeingSubst(left, env, other); AgreeingSubst(middle, env, other); AgreeingSubst(right, env, other);
    case _ =>
      assert Agree(e.left, env, other) && Agree(e.right, env, other);
      AgreeingSubst(e.left, env, other); AgreeingSubst(e.right, env, other);
  }

  lemma {:induction false} AgreeingSubstAll(es: seq<Expr>, env: map<string, Expr>, other: map<string, Expr>)
    requires AgreeAll(es, env, other)
    ensures SubstInAll(es, env) == SubstInAll(es, other)
    decreases es, 0
  {
    if es != [] {
      assert Agree(es[0], env, other) && AgreeAll(es[1..], env, other);
      AgreeingSubst(es[0], env, other);
      AgreeingSubstAll(es[1..], env, other);
    }
  }

  lemma {:induction false} SubstNothing(e: Expr)
    ensures SubstIn(e, map[]) == e
    decreases e, 1
  {
    match e
    case NilExpr =>
    case Constant(_, _) =>
    case Variable(_, _) =>
    case ParameterAssignment(_, _, inner) => SubstNothing(inner);
    case Function(_, _, args) => SubstNothingAll(args);
    case Method(_, target, _, args) => SubstNothing(target); SubstNothingAll(args);
    case Array(_, args) => SubstNothingAll(args);
    case Dictionary(_, keys, args) => SubstNothingAll(keys); SubstNothingAll(args);
    case Not(_, inner) => SubstNothing(inner);
    case Assignment(_, _, right) => SubstNothing(right);
    case Conditional(_, left, middle, right) => SubstNothing(left); SubstNothing(middle); SubstNothing(right);
    case _ => SubstNothing(e.left); SubstNothing(e.right);
  }

  lemma {:induction false} SubstNothingAll(es: seq<Expr>)
    ensures SubstInAll(es, map[]) == es
    decreases es, 0
  {
    if es != [] {
      SubstNothing(es[0]);
      SubstNothingAll(es[1..]);
    }
  }

  lemma NoOccurrence(e: Expr, x: string, arg: Expr)
    requires !Occurs(e, x)
    ensures Subst(e, x, arg) == e
  {
    AgreeingSubst(e, map[x := arg], map[]);
    SubstNothing(e);
  }

  /** What ends up in the template for `e`. */
  function Replaced(e: Expr, x: string, arg: Expr): Expr {
    OrElse(Replace(e, x, arg), e)
  }

  /** The statement proved for `e` below. */
  predicate Shows(e: Expr, x: string, arg: Expr) {
    !Exact(e, x, arg) ==> Replaced(e, x, arg) != Subst(e, x, arg)
  }

  lemma {:induction false} DeviationShows(e: Expr, x: string, arg: Expr)
    requires !arg.ParameterAssignment?
    ensures Shows(e, x, arg)
    decreases e, 1
  {
    match e
    case ParameterAssignment(_, name, inner) =>
      VisibleIffChanged(inner, x, arg);
    case Function(_, _, args) => DeviationShowsIn(args, x, arg);
    case Array(_, args) => DeviationShowsIn(args, x, arg);
    case Method(line, target, action, args) =>
      DeviationShowsIn(args, x, arg);
      DeviationShows(target, x, arg);
      MethodShows(line, target, action, args, x, arg);
    case Dictionary(line, keys, args) =>
      DeviationShowsIn(keys, x, arg);
      DeviationShowsIn(args, x, arg);
      DictionaryShows(line, keys, args, x, arg);
    case Not(_, inner) => DeviationShows(inner, x, arg);
    case Assignment(_, _, right) => DeviationShows(right, x, arg);
    case Binary(line, op, left, right) =>
      DeviationShows(left, x, arg); DeviationShows(right, x, arg);
      BinaryShows(line, op, left, right, x, arg);
    case Comparison(line, code, left, right) =>
      DeviationShows(left, x, arg); DeviationShows(right, x, arg);
      ComparisonShows(line, code, left, right, x, arg);
    case Pipe(line, left, right) =>
      DeviationShows(left, x, arg); DeviationShows(right, x, arg);
      PipeShows(line, left, right, x, arg);
    case Dot(line, left, right) =>
      DeviationShows(left, x, arg); DeviationShows(right, x, arg);
      DotShows(line, left, right, x, arg);
    case Conditional(line, left, middle, right) =>
      DeviationShows(left, x, arg); DeviationShows(middle, x, arg); DeviationShows(right, x, arg);
      ConditionalShows(line, left, middle, right, x, arg);
    case _ =>
  }

  lemma MethodShows(line: nat, target: Expr, action: string, args: seq<Expr>, x: string, arg: Expr)
    requires Shows(target, x, arg)
    requires !ExactAll(args, x, arg) ==> OrElse(ReplaceAll(args, x, arg), args) != SubstAll(args, x, arg)
    ensures Shows(Method(line, target, action, args), x, arg)
  {
  }

  lemma DictionaryShows(line: nat, keys: seq<Expr>, args: seq<Expr>, x: string, arg: Expr)
    requires !ExactAll(keys, x, arg) ==> OrElse(ReplaceAll(keys, x, arg), keys) != SubstAll(keys, x, arg)
    requires !ExactAll(args, x, arg) ==> OrElse(ReplaceAll(args, x, arg), args) != SubstAll(args, x, arg)
    ensures Shows(Dictionary(line, keys, args), x, arg)
  {
  }

  lemma BinaryShows(line: nat, op: BinaryOperator, left: Expr, right: Expr, x: string, arg: Expr)
    requires Shows(left, x, arg) && Shows(right, x, arg)
    ensures Shows(Binary(line, op, left, right), x, arg)
  {
  }

  lemma ComparisonShows(line: nat, code: int, left: Expr, right: Expr, x: string, arg: Expr)
    requires Shows(left, x, arg) && Shows(right, x, arg)
    ensures Shows(Comparison(line, code, left, right), x, arg)
  {
    if Exact(left, x, arg) && Exact(right, x, arg) {
      ExactIsPlain(left, x, arg);
      ExactIsPlain(right, x, arg);
    }
  }

  /** The operands of a rebuilt pipe or dot, or of one left alone. */
  function NewLeft(left: Expr, right: Expr, x: string, arg: Expr, dot: bool): Expr {
    var copy1, copy2 := Replace(left, x, arg), Accepted(Replace(right, x, arg), dot);
    if copy1.None? && copy2.None? then left else OrElse(copy1, NilExpr)
  }

  function NewRight(right: Expr, x: string, arg: Expr, dot: bool): Expr {
    OrElse(Accepted(Replace(right, x, arg), dot), right)
  }

  lemma PipeShows(line: nat, left: Expr, right: Expr, x: string, arg: Expr)
    requires Shows(left, x, arg) && Shows(right, x, arg)
    ensures Shows(Pipe(line, left, right), x, arg)
  {
    assert Replaced(Pipe(line, left, right), x, arg)
        == Pipe(line, NewLeft(left, right, x, arg, false), NewRight(right, x, arg, false));
    if !Exact(Pipe(line, left, right), x, arg) { RightDeviationShows(left, right, x, arg, false); }
  }

  lemma DotShows(line: nat, left: Expr, right: Expr, x: string, arg: Expr)
    requires Shows(left, x, arg) && Shows(right, x, arg)
    ensures Shows(Dot(line, left, right), x, arg)
  {
    assert Replaced(Dot(line, left, right), x, arg)
        == Dot(line, NewLeft(left, right, x, arg, true), NewRight(right, x, arg, true));
    if !Exact(Dot(line, left, right), x, arg) { RightDeviationShows(left, right, x, arg, true); }
  }

  lemma ConditionalShows(line: nat, left: Expr, middle: Expr, right: Expr, x: string, arg: Expr)
    requires Shows(left, x, arg) && Shows(middle, x, arg) && Shows(right, x, arg)
    ensures Shows(Conditional(line, left, middle, right), x, arg)
  {
  }

  lemma RightDeviationShows(left: Expr, right: Expr, x: string, arg: Expr, dot: bool)
    requires !(Exact(left, x, arg) && ExactRight(left, right, x, arg, dot))
    requires !Exact(left, x, arg) ==> Replaced(left, x, arg) != Subst(left, x, arg)
    requires !Exact(right, x, arg) ==> Replaced(right, x, arg) != Subst(right, x, arg)
    ensures
      || NewLeft(left, right, x, arg, dot) != Subst(left, x, arg)
      || NewRight(right, x, arg, dot) != Subst(right, x, arg)
  {
    if Replace(right, x, arg).Some? { SameShape(right, x, arg, dot); }
    if !Exact(left, x, arg) {
      if Subst(left, x, arg) == NilExpr { NilComesFromNil(left, x, arg); }
    } else {
      ExactIsPlain(left, x, arg);
      if !Applicable(Kind(right, x, arg), dot) {
        VisibleIffChanged(right, x, arg);
      } else if Exact(right, x, arg) {
        ExactIsPlain(right, x, arg);
      }
    }
  }

  lemma NilComesFromNil(e: Expr, x: string, arg: Expr)
    requires Subst(e, x, arg) == NilExpr
    ensures e == NilExpr || Replace(e, x, arg) == Some(NilExpr)
  {
  }

  lemma {:induction false} DeviationShowsIn(es: seq<Expr>, x: string, arg: Expr)
    requires !arg.ParameterAssignment?
    ensures !ExactAll(es, x, arg) ==> OrElse(ReplaceAll(es, x, arg), es) != SubstAll(es, x, arg)
    decreases es, 0
  {
    if es == [] { return; }
    var all, plain := OrElse(ReplaceAll(es, x, arg), es), SubstAll(es, x, arg);
    assert es == [es[0]] + es[1..];
    assert all[0] == Replaced(es[0], x, arg) && all[1..] == OrElse(ReplaceAll(es[1..], x, arg), es[1..]);
    assert plain[0] == Subst(es[0], x, arg) && plain[1..] == SubstAll(es[1..], x, arg);
    DeviationShows(es[0], x, arg);
    DeviationShowsIn(es[1..], x, arg);
  }

  /** The code substitutes plainly exactly where Exact says so. */
  lemma PlainIffExact(e: Expr, x: string, arg: Expr)
    requires !arg.ParameterAssignment?
    ensures Replaced(e, x, arg) == Subst(e, x, arg) <==> Exact(e, x, arg)
  {
    if Exact(e, x, arg) { ExactIsPlain(e, x, arg); } else { DeviationShows(e, x, arg); }
  }

  /** There it answers nil only when no argument would show; and exactly when the variable does not
      occur, unless the argument is that very variable again. */
  lemma NilIffNoOccurrence(e: Expr, x: string, arg: Expr)
    requires Exact(e, x, arg)
    ensures !Touched(e, x, arg) ==> !Visible(e, x, arg)
    ensures !(arg.Variable? && arg.name == x) ==> (Touched(e, x, arg) <==> Occurs(e, x))
  {
    ExactIsPlain(e, x, arg);
    VisibleIffChanged(e, x, arg);
    if !(arg.Variable? && arg.name == x) && Occurs(e, x) { OccurrenceIsVisible(e, x, map[x := arg], map[]); }
  }

  /** Another value than a variable's own shows wherever the variable occurs. */
  lemma {:induction false} OccurrenceIsVisible(e: Expr, x: string, env: map<string, Expr>, other: map<string, Expr>)
    requires Occurs(e, x) && x in env && x !in other && !(env[x].Variable? && env[x].name == x)
    ensures !SameValues(e, env, other)
    decreases e, 1
  {
    match e
    case NilExpr =>
    case Constant(_, _) =>
    case Variable(_, _) =>
    case ParameterAssignment(_, _, inner) => OccurrenceIsVisible(inner, x, env, other);
    case Function(_, _, args) => OccurrenceIsVisibleIn(args, x, env, other);
    case Method(_, target, _, args) =>
      if OccursAny(args, x) {
        OccurrenceIsVisibleIn(args, x, env, other);
      } else {
        OccurrenceIsVisible(target, x, env, other);
      }
    case Array(_, args) => OccurrenceIsVisibleIn(args, x, env, other);
    case Dictionary(_, keys, args) =>
      OccurrenceIsVisibleIn(if OccursAny(keys, x) then keys else args, x, env, other);
    case Not(_, inner) => OccurrenceIsVisible(inner, x, env, other);
    case Binary(_, _, left, right) => OccurrenceIsVisible(if Occurs(left, x) then left else right, x, env, other);
    case Comparison(_, _, left, right) => OccurrenceIsVisible(if Occurs(left, x) then left else right, x, env, other);
    case Pipe(_, left, right) => OccurrenceIsVisible(if Occurs(left, x) then left else right, x, env, other);
    case Dot(_, left, right) => OccurrenceIsVisible(if Occurs(left, x) then left else right, x, env, other);
    case Conditional(_, left, middle, right) =>
      OccurrenceIsVisible(if Occurs(left, x) then left else if Occurs(middle, x) then middle else right, x, env, other);
    case Assignment(_, _, right) => OccurrenceIsVisible(right, x, env, other);
  }

  lemma {:induction false} OccurrenceIsVisibleIn(es: seq<Expr>, x: string,
                                                 env: map<string, Expr>, other: map<string, Expr>)
    requires OccursAny(es, x) && x in env && x !in other && !(env[x].Variable? && env[x].name == x)
    ensures !SameValuesAll(es, env, other)
    decreases es, 0
  {
    if Occurs(es[0], x) {
      OccurrenceIsVisible(es[0], x, env, other);
    } else {
      OccurrenceIsVisibleIn(es[1..], x, env, other);
    }
  }

  /** A comparison that is not an equality becomes one when its operand is replaced. */
  lemma ComparisonTurnsEqual(line: nat, code: int, x: string, right: Expr, arg: Expr)
    requires code != 0 && !Occurs(right, x) && Replace(right, x, arg).None?
    ensures Replace(Comparison(line, code, Variable(line, x), right), x, arg)
         == Some(Comparison(line, 0, arg, right))
    ensures Subst(Comparison(line, code, Variable(line, x), right), x, arg) == Comparison(line, code, arg, right)
  {
    NoOccurrence(right, x, arg);
    assert SubstIn(Variable(line, x), map[x := arg]) == arg;
  }

  /** A pipe loses its left side when only its right side is replaced. */
  lemma PipeLosesLeft(line: nat, x: string, left: Expr, arg: Expr)
    requires Replace(left, x, arg).None? && Applicable(arg, false)
    ensures Replace(Pipe(line, left, Variable(line, x)), x, arg) == Some(Pipe(line, NilExpr, arg))
  {}

  /** What a pipe and a dot take for their right side. */
  lemma RightSideTakes(line: nat, x: string, arg: Expr)
    ensures Touched(Pipe(line, NilExpr, Variable(line, x)), x, arg) <==> arg.Method? || arg.Pipe? || arg.Variable?
    ensures Touched(Dot(line, NilExpr, Variable(line, x)), x, arg)
       <==> arg.Method? || arg.Pipe? || arg.Variable? || arg.Dot?
  {
    assert Replace(NilExpr, x, arg) == None && Replace(Variable(line, x), x, arg) == Some(arg);
  }
}
