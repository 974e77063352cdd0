// Expanding a macro body, element by element
// (src/MulleScionObjectModel+MacroExpansion.m:405-485, 528-596).

module MacroBody {
  import opened Wrappers
  import opened Expressions

  datatype Element =
    | Plain(line: nat, text: string)       // whatever holds no expression; the body's template
    | Print(expr: Expr)
    | SetCommand(isFor: bool, line: nat, left: Expr, right: Expr)
    | ExpressionCommand(cls: string, line: nat, expr: Expr)
    | Filter(line: nat, expr: Expr, flags: nat)

  function ReplaceElement(el: Element, x: string, arg: Expr): Option<Element> {
    match el
    case Plain(_, _) => None
    case Print(e) =>
      (match Replace(e, x, arg)
       case None => None
       case Some(copy) => Some(Print(copy)))
    case SetCommand(isFor, line, left, right) =>
      (match Replace(right, x, arg)
       case None => None
       case Some(copy) => Some(SetCommand(isFor, line, left, copy)))
    case ExpressionCommand(cls, line, e) =>
      (match Replace(e, x, arg)
       case None => None
       case Some(copy) => Some(ExpressionCommand(cls, line, copy)))
    case Filter(line, e, _) =>      // rebuilt by the superclass, so without its flags
      (match Replace(e, x, arg)
       case None => None
       case Some(copy) => Some(Filter(line, copy, 0)))
  }

  /** The expression of an element that substitution looks at. */
  function Target(el: Element): Expr {
    match el
    case Plain(_, _) => NilExpr
    case Print(e) => e
    case SetCommand(_, _, _, right) => right
    case ExpressionCommand(_, _, e) => e
    case Filter(_, e, _) => e
  }

  function WithTarget(el: Element, e: Expr): Element {
    match el
    case Plain(_, _) => el
    case Print(_) => Print(e)
    case SetCommand(isFor, line, left, _) => SetCommand(isFor, line, left, e)
    case ExpressionCommand(cls, line, _) => ExpressionCommand(cls, line, e)
    case Filter(line, _, flags) => Filter(line, e, flags)
  }

  /** One parameter and its argument; None where the call gives none. */
  datatype Parameter = Parameter(name: string, arg: Option<Expr>)

  predicate Complete(ps: seq<Parameter>) { forall p <- ps :: p.arg.Some? }

  /** Only the first parameter with something to replace counts. */
  function ExpandElement(el: Element, ps: seq<Parameter>): Element
    requires Complete(ps)
  {
    if ps == [] then el
    else
      match ReplaceElement(el, ps[0].name, ps[0].arg.value)
      case Some(replacement) => replacement
      case None => ExpandElement(el, ps[1..])
  }

  datatype Expansion = MissingArgument(name: string) | Body(elements: seq<Element>)

  /** The loop over the copied chain. `ps` is the order in which the parameter dictionary
      enumerates; the stored body is a value and stays what it was. */
  method ExpandedBodyWithParameters(body: seq<Element>, ps: seq<Parameter>) returns (r: Expansion)
    requires body != [] && body[0].Plain?
    ensures if Complete(ps)
            then r.Body? && |r.elements| == |body|
              && forall i :: 0 <= i < |body| ==> r.elements[i] == ExpandElement(body[i], ps)
            else exists i :: 0 <= i < |ps| && r == MissingArgument(ps[i].name) && ps[i].arg.None? && Complete(ps[..i])
  {
    for i := 0 to |ps|
      invariant Complete(ps[..i])
    {
      if ps[i].arg.None? {
        assert ps[i] in ps;
        return MissingArgument(ps[i].name);
      }
      assert ps[..i + 1] == ps[..i] + [ps[i]];
    }
    assert ps[..|ps|] == ps;
    var copy := body;
    for k := 0 to |body|
      invariant |copy| == |body|
      invariant forall i :: 0 <= i < k ==> copy[i] == ExpandElement(body[i], ps)
      invariant forall i :: k <= i < |body| ==> copy[i] == body[i]
    {
      var p := 0;
      while p < |ps|
        invariant p <= |ps| && copy[k] == body[k]
        invariant ExpandElement(body[k], ps) == ExpandElement(body[k], ps[p..])
        invariant forall i :: 0 <= i < k ==> copy[i] == ExpandElement(body[i], ps)
        invariant forall i :: k < i < |body| ==> copy[i] == body[i]
        invariant |copy| == |body|
      {
        assert ps[p] in ps;
        var replacement := ReplaceElement(copy[k], ps[p].name, ps[p].arg.value);
        if replacement.Some? {
          assert k > 0;
          copy := copy[k := replacement.value];
          break;
        }
        assert ps[p..][1..] == ps[p + 1..];
        p := p + 1;
      }
    }
    r := Body(copy);
  }

  // ---- against simultaneous substitution ----

  /** Every parameter once, each with an argument. A named argument is taken apart before. */
  ghost predicate IsCall(ps: seq<Parameter>) {
    && Complete(ps)
    && (forall i, j :: 0 <= i < j < |ps| ==> ps[i].name != ps[j].name)
    && (forall p <- ps :: !p.arg.value.ParameterAssignment?)
  }

  /** An argument that is its parameter's own name. */
  predicate IsOwnName(p: Parameter)
    requires p.arg.Some?
  {
    p.arg.value.Variable? && p.arg.value.name == p.name
  }

  function EnvOf(ps: seq<Parameter>): (env: map<string, Expr>)
    requires Complete(ps)
    ensures forall x <- env :: exists p <- ps :: p.name == x
  {
    if ps == [] then map[] else EnvOf(ps[1..])[ps[0].name := ps[0].arg.value]
  }

  lemma CallTail(ps: seq<Parameter>)
    requires IsCall(ps) && ps != []
    ensures IsCall(ps[1..])
  {
    var rest := ps[1..];
    assert Complete(rest) by { assert forall p <- rest :: p in ps; }
    forall i, j | 0 <= i < j < |rest| ensures rest[i].name != rest[j].name {
      assert rest[i] == ps[i + 1] && rest[j] == ps[j + 1];
    }
    forall p | p in rest ensures !p.arg.value.ParameterAssignment? { assert p in ps; }
  }

  lemma {:induction false} EnvHas(ps: seq<Parameter>, i: nat)
    requires IsCall(ps) && i < |ps|
    ensures ps[i].name in EnvOf(ps) && EnvOf(ps)[ps[i].name] == ps[i].arg.value
  {
    if i > 0 {
      CallTail(ps);
      EnvHas(ps[1..], i - 1);
      assert ps[1..][i - 1] == ps[i] && ps[0].name != ps[i].name;
    }
  }

  /** All parameters at once, and nothing else. */
  function SubstElement(el: Element, env: map<string, Expr>): Element {
    WithTarget(el, SubstIn(Target(el), env))
  }

  predicate TouchedElement(el: Element, p: Parameter)
    requires p.arg.Some?
  {
    Touched(Target(el), p.name, p.arg.value)
  }

  /** The code handles this parameter in this element plainly; a rebuilt filter forgets its flags. */
  predicate ExactElement(el: Element, p: Parameter)
    requires p.arg.Some?
  {
    Exact(Target(el), p.name, p.arg.value) && (el.Filter? && TouchedElement(el, p) ==> el.flags == 0)
  }

  /** Nil leaves everything as substitution has it; anything else is the substitution. */
  lemma ReplaceIsSubst(el: Element, p: Parameter)
    requires p.arg.Some? && ExactElement(el, p)
    ensures ReplaceElement(el, p.name, p.arg.value)
         == if TouchedElement(el, p) then Some(SubstElement(el, map[p.name := p.arg.value])) else None
    ensures !TouchedElement(el, p) ==> SubstElement(el, map[p.name := p.arg.value]) == el
    ensures !IsOwnName(p) ==> (TouchedElement(el, p) <==> Occurs(Target(el), p.name))
  {
    ExactIsPlain(Target(el), p.name, p.arg.value);
    NilIffNoOccurrence(Target(el), p.name, p.arg.value);
  }

  /** And only such an element: a deviation of the expression shows, and so do lost flags. */
  lemma ElementIsPlainIffExact(el: Element, p: Parameter)
    requires p.arg.Some? && !p.arg.value.ParameterAssignment?
    ensures OrElse(ReplaceElement(el, p.name, p.arg.value), el) == SubstElement(el, map[p.name := p.arg.value])
       <==> ExactElement(el, p)
  {
    var e, x, arg := Target(el), p.name, p.arg.value;
    PlainIffExact(e, x, arg);
    if Replace(e, x, arg).None? {
      assert OrElse(ReplaceElement(el, x, arg), el) == el == WithTarget(el, e);
    }
  }

  /** A filter with flags, and the parameter in it. */
  lemma FilterLosesFlags(line: nat, flags: nat, p: Parameter)
    requires p.arg.Some? && flags != 0
    ensures var el := Filter(line, Variable(line, p.name), flags);
      ReplaceElement(el, p.name, p.arg.value) == Some(Filter(line, p.arg.value, 0)) && !ExactElement(el, p)
  {}

  /** The index of the first parameter for which the element is rebuilt, |ps| when there is none. */
  function FirstHit(el: Element, ps: seq<Parameter>): (k: nat)
    requires Complete(ps)
    ensures k <= |ps| && (forall i :: 0 <= i < k ==> !TouchedElement(el, ps[i]))
    ensures k < |ps| ==> TouchedElement(el, ps[k])
  {
    if ps == [] || TouchedElement(el, ps[0]) then 0 else 1 + FirstHit(el, ps[1..])
  }

  /** The one parameter that is substituted. */
  function HitEnv(el: Element, ps: seq<Parameter>): map<string, Expr>
    requires Complete(ps)
  {
    var k := FirstHit(el, ps);
    if k == |ps| then map[] else map[ps[k].name := ps[k].arg.value]
  }

  lemma {:induction false} ExpandsFirstHit(el: Element, ps: seq<Parameter>)
    requires Complete(ps) && forall p <- ps :: ExactElement(el, p)
    ensures ExpandElement(el, ps) == SubstElement(el, HitEnv(el, ps))
  {
    if ps == [] {
      SubstNothing(Target(el));
    } else {
      ReplaceIsSubst(el, ps[0]);
      assert forall p <- ps[1..] :: p in ps;
      ExpandsFirstHit(el, ps[1..]);
    }
  }

  /** Where each parameter alone is handled plainly, the loop, which leaves an element after its first
      replacement, substitutes all of them exactly when no other argument would show in it. */
  lemma SimultaneousIffOthersDoNotShow(el: Element, ps: seq<Parameter>)
    requires IsCall(ps) && forall p <- ps :: ExactElement(el, p)
    ensures ExpandElement(el, ps) == SubstElement(el, EnvOf(ps))
       <==> SameValues(Target(el), HitEnv(el, ps), EnvOf(ps))
  {
    ExpandsFirstHit(el, ps);
    SameIffSameValues(Target(el), HitEnv(el, ps), EnvOf(ps));
  }

  predicate AtMostOneOccurs(el: Element, ps: seq<Parameter>) {
    forall i, j :: 0 <= i < j < |ps| ==> !(Occurs(Target(el), ps[i].name) && Occurs(Target(el), ps[j].name))
  }

  lemma NoneOccurs(el: Element, ps: seq<Parameter>)
    requires IsCall(ps) && forall p <- ps :: !Occurs(Target(el), p.name)
    ensures SubstElement(el, EnvOf(ps)) == el
  {
    var e, env := Target(el), EnvOf(ps);
    forall x | Occurs(e, x) ensures SameIn(x, env, map[]) {}
    AgreeingSubst(e, env, map[]);
    SubstNothing(e);
  }

  lemma OneOccurs(el: Element, ps: seq<Parameter>, k: nat)
    requires IsCall(ps) && AtMostOneOccurs(el, ps) && k < |ps| && Occurs(Target(el), ps[k].name)
    ensures SubstElement(el, EnvOf(ps)) == SubstElement(el, map[ps[k].name := ps[k].arg.value])
  {
    var e, env, one := Target(el), EnvOf(ps), map[ps[k].name := ps[k].arg.value];
    EnvHas(ps, k);
    forall x | Occurs(e, x) ensures SameIn(x, env, one) { OthersAbsent(el, ps, k, x); }
    AgreeingSubst(e, env, one);
  }

  lemma SecondIsMissed(el: Element, ps: seq<Parameter>, k: nat, j: nat)
    requires IsCall(ps) && k < j < |ps| && Occurs(Target(el), ps[j].name) && !IsOwnName(ps[j])
    ensures SubstElement(el, EnvOf(ps)) != SubstElement(el, map[ps[k].name := ps[k].arg.value])
  {
    var env, one := EnvOf(ps), map[ps[k].name := ps[k].arg.value];
    EnvHas(ps, j);
    assert ps[j].name != ps[k].name;
    OccurrenceIsVisible(Target(el), ps[j].name, env, one);
    SameIffSameValues(Target(el), env, one);
  }

  /** So where no argument is its parameter's own name: exactly when at most one of them occurs. */
  lemma SimultaneousIffOneOccurs(el: Element, ps: seq<Parameter>)
    requires IsCall(ps) && forall p <- ps :: ExactElement(el, p) && !IsOwnName(p)
    ensures ExpandElement(el, ps) == SubstElement(el, EnvOf(ps)) <==> AtMostOneOccurs(el, ps)
  {
    var k := FirstHit(el, ps);
    ExpandsFirstHit(el, ps);
    forall i | 0 <= i < |ps| ensures TouchedElement(el, ps[i]) <==> Occurs(Target(el), ps[i].name) {
      assert ps[i] in ps;
      ReplaceIsSubst(el, ps[i]);
    }
    if k == |ps| {
      NoneOccurs(el, ps);
      SubstNothing(Target(el));
    } else if AtMostOneOccurs(el, ps) {
      OneOccurs(el, ps, k);
    } else {
      var i, j :| 0 <= i < j < |ps| && Occurs(Target(el), ps[i].name) && Occurs(Target(el), ps[j].name);
      assert ps[j] in ps;
      SecondIsMissed(el, ps, k, j);
    }
  }

  /** `x && y` with numbers for both: the second stays. */
  lemma TwoParameters(line: nat, x: string, y: string, a: string, b: string)
    requires x != y
    ensures var el := Print(Binary(line, And, Variable(line, x), Variable(line, y)));
      var ps := [Parameter(x, Some(Constant(line, a))), Parameter(y, Some(Constant(line, b)))];
      && ExpandElement(el, ps) == Print(Binary(line, And, Constant(line, a), Variable(line, y)))
      && SubstElement(el, EnvOf(ps)) == Print(Binary(line, And, Constant(line, a), Constant(line, b)))
  {
    var el := Print(Binary(line, And, Variable(line, x), Variable(line, y)));
    var ps := [Parameter(x, Some(Constant(line, a))), Parameter(y, Some(Constant(line, b)))];
    assert Replace(Variable(line, x), x, Constant(line, a)) == Some(Constant(line, a));
    assert Replace(Variable(line, y), x, Constant(line, a)) == None;
    assert Replace(el.expr, x, Constant(line, a)) == Some(Binary(line, And, Constant(line, a), Variable(line, y)));
    assert ps[0].name == x && ReplaceElement(el, x, Constant(line, a)).Some?;
    assert EnvOf(ps[1..][1..]) == map[] && EnvOf(ps[1..]) == map[y := Constant(line, b)];
    assert SubstIn(Variable(line, x), EnvOf(ps)) == Constant(line, a);
    assert SubstIn(Variable(line, y), EnvOf(ps)) == Constant(line, b);
  }

  lemma OthersAbsent(el: Element, ps: seq<Parameter>, k: nat, x: string)
    requires IsCall(ps) && AtMostOneOccurs(el, ps) && k < |ps|
    requires Occurs(Target(el), ps[k].name) && Occurs(Target(el), x)
    ensures x in EnvOf(ps) ==> x == ps[k].name
  {
    if x in EnvOf(ps) {
      var i :| 0 <= i < |ps| && ps[i].name == x;
    }
  }

  /** What in which element is substituted. */
  lemma ElementsSubstituted(e: Expr, left: Expr, isFor: bool, line: nat, cls: string, text: string, flags: nat,
                            env: map<string, Expr>)
    ensures SubstElement(Plain(line, text), env) == Plain(line, text)
    ensures SubstElement(Print(e), env) == Print(SubstIn(e, env))
    ensures SubstElement(SetCommand(isFor, line, left, e), env) == SetCommand(isFor, line, left, SubstIn(e, env))
    ensures SubstElement(ExpressionCommand(cls, line, e), env) == ExpressionCommand(cls, line, SubstIn(e, env))
    ensures SubstElement(Filter(line, e, flags), env) == Filter(line, SubstIn(e, env), flags)
  {}
}
