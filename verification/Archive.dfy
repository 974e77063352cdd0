// What archiving keeps of a template, and what therefore `copy` does
// (src/MulleScionObjectModel+NSCoding.m:53-113, 118-401).

module Archive {
  import opened Wrappers


  /** The classes that have coding methods of their own. Every other class is coded by the nearest
      of its ancestors that has; MulleScionMacro, outside of debug builds, by MulleScionValueObject. */
  datatype Coder =
    | Object | ValueObject | AssignmentExpression | ParameterAssignment | Function | Method
    | BinaryOperator | Comparison | Conditional | ExpressionCommand | Filter | Set | Block | Requires

  function Super(c: Coder): Option<Coder> {
    match c
    case Object => None
    case ValueObject | ExpressionCommand | Set | Block | Requires => Some(Object)
    case AssignmentExpression | ParameterAssignment | Function | Method | BinaryOperator | Conditional =>
      Some(ValueObject)
    case Comparison => Some(BinaryOperator)
    case Filter => Some(ExpressionCommand)
  }

  function Depth(c: Coder): (d: nat)
    ensures Super(c).Some? ==> d > 0
  {
    match c
    case Object => 0
    case ValueObject | ExpressionCommand | Set | Block | Requires => 1
    case AssignmentExpression | ParameterAssignment | Function | Method | BinaryOperator | Conditional | Filter => 2
    case Comparison => 3
  }

  /** @, C and I of the archiver. */
  datatype Type = Id | Char | Int

  /** The instance variables that a class codes itself, in order. */
  function Own(c: Coder): seq<Type> {
    match c
    case Object => []
    case ValueObject | AssignmentExpression | ParameterAssignment | Function | BinaryOperator => [Id]
    case ExpressionCommand | Requires => [Id]
    case Method | Conditional | Set | Block => [Id, Id]
    case Comparison => [Char]
    case Filter => [Int]
  }

  /** All of them, the inherited ones first. */
  function Layout(c: Coder): seq<Type>
    decreases Depth(c)
  {
    match Super(c)
    case None => []
    case Some(s) => Layout(s) + Own(c)
  }

  /** A class by its name; `lost` counts the instance variables that nobody codes. */
  datatype Class = Class(name: string, coder: Coder, lost: nat)

  datatype Tree =
    | Nil
    | Text(text: string)        // strings; a selector goes by its name
    | Number(number: int)
    | List(items: seq<Tree>)
    | Dictionary(keys: seq<Tree>, values: seq<Tree>)
    | Node(cls: Class, line: nat, next: Tree, fields: seq<Field>, lost: seq<Tree>)

  datatype Field = Reference(tree: Tree) | Code(code: int) | Flags(flags: nat)

  predicate HasType(f: Field, t: Type) {
    match t
    case Id => f.Reference?
    case Char => f.Code?
    case Int => f.Flags? && f.flags < 0x1_0000_0000
  }

  predicate HasTypes(fs: seq<Field>, ts: seq<Type>) {
    |fs| == |ts| && forall i :: 0 <= i < |fs| ==> HasType(fs[i], ts[i])
  }

  predicate WellFormed(t: Tree) {
    match t
    case List(items) => forall i <- items :: WellFormed(i)
    case Dictionary(keys, values) =>
      |keys| == |values| && (forall k <- keys :: WellFormed(k)) && (forall v <- values :: WellFormed(v))
    case Node(cls, _, next, fields, lost) =>
      && WellFormed(next) && HasTypes(fields, Layout(cls.coder))
      && (forall f <- fields :: f.Reference? ==> WellFormed(f.tree))
      && |lost| == cls.lost && (forall l <- lost :: WellFormed(l))
    case _ => true
  }

  datatype Token =
    | NilToken | TextToken(text: string) | NumberToken(number: int)
    | ListToken(count: nat) | DictionaryToken(count: nat)
    | ClassToken(cls: Class) | LineToken(line: nat) | CharToken(c: nat) | IntToken(i: nat)

  // ---- encoding ----

  function Encoded(t: Tree): (r: seq<Token>)
    decreases t, 0
  {
    match t
    case Nil => [NilToken]
    case Text(s) => [TextToken(s)]
    case Number(n) => [NumberToken(n)]
    case List(items) => [ListToken(|items|)] + EncodedAll(items)
    case Dictionary(keys, values) => [DictionaryToken(|keys|)] + EncodedAll(keys) + EncodedAll(values)
    case Node(cls, line, next, fields, _) =>
      [ClassToken(cls)] + EncodedObject(line, next) + EncodedFields(fields)
  }

  function EncodedObject(line: nat, next: Tree): seq<Token>
    decreases next, 1
  {
    [LineToken(line % 0x1_0000_0000)] + Encoded(next)
  }

  function EncodedAll(ts: seq<Tree>): seq<Token>
    decreases ts, 0
  {
    if ts == [] then [] else Encoded(ts[0]) + EncodedAll(ts[1..])
  }

  function EncodedFields(fs: seq<Field>): seq<Token>
    decreases fs, 0
  {
    if fs == [] then [] else EncodedField(fs[0]) + EncodedFields(fs[1..])
  }

  function EncodedField(f: Field): seq<Token>
    decreases f, 0
  {
    match f
    case Reference(t) => Encoded(t)
    case Code(c) => [CharToken(c % 256)]
    case Flags(i) => [IntToken(i)]
  }

  // ---- decoding ----

  /** What is read first from the tokens, and the tokens behind it; None where they do not fit. */
  function Decoded(ts: seq<Token>): (r: Option<(Tree, seq<Token>)>)
    ensures r.Some? ==> |r.value.1| < |ts|
    decreases |ts|, 0, 0
  {
    if ts == [] then None
    else
      match ts[0]
      case NilToken => Some((Nil, ts[1..]))
      case TextToken(s) => Some((Text(s), ts[1..]))
      case NumberToken(n) => Some((Number(n), ts[1..]))
      case ListToken(n) =>
        (match DecodedAll(n, ts[1..])
         case None => None
         case Some(items) => Some((List(items.0), items.1)))
      case DictionaryToken(n) =>
        (match DecodedAll(n, ts[1..])
         case None => None
         case Some(keys) =>
           match DecodedAll(n, keys.1)
           case None => None
           case Some(values) => Some((Dictionary(keys.0, values.0), values.1)))
      case ClassToken(cls) => DecodedNode(cls, ts[1..])
      case LineToken(_) => None
      case CharToken(_) => None
      case IntToken(_) => None
  }

  function DecodedNode(cls: Class, ts: seq<Token>): (r: Option<(Tree, seq<Token>)>)
    ensures r.Some? ==> |r.value.1| <= |ts|
    decreases |ts|, 4, 0
  {
    match DecodedAs(cls.coder, ts)
    case None => None
    case Some(i) => Some((NewNode(cls, i.0), i.1))
  }

  /** What initWithCoder: fills in: the line, the next object and the fields. */
  datatype Instance = Instance(line: nat, next: Tree, fields: seq<Field>)

  function NewNode(cls: Class, i: Instance): Tree {
    Node(cls, i.line, i.next, i.fields, seq(cls.lost, _ => Nil))
  }

  function DecodedAs(c: Coder, ts: seq<Token>): (r: Option<(Instance, seq<Token>)>)
    ensures r.Some? ==> |r.value.1| <= |ts|
    decreases |ts|, 3, 0
  {
    if ts == [] || !ts[0].LineToken? then None
    else
      match Decoded(ts[1..])
      case None => None
      case Some(next) =>
        match DecodedFields(Layout(c), next.1)
        case None => None
        case Some(fields) => Some((Instance(ts[0].line, next.0, fields.0), fields.1))
  }

  function DecodedAll(n: nat, ts: seq<Token>): (r: Option<(seq<Tree>, seq<Token>)>)
    ensures r.Some? ==> |r.value.1| <= |ts|
    decreases |ts|, 1, n
  {
    if n == 0 then Some(([], ts))
    else
      match Decoded(ts)
      case None => None
      case Some(first) =>
        match DecodedAll(n - 1, first.1)
        case None => None
        case Some(rest) => Some(([first.0] + rest.0, rest.1))
  }

  function DecodedFields(types: seq<Type>, ts: seq<Token>): (r: Option<(seq<Field>, seq<Token>)>)
    ensures r.Some? ==> |r.value.1| <= |ts|
    decreases |ts|, 2, |types|
  {
    if types == [] then Some(([], ts))
    else
      match DecodedField(types[0], ts)
      case None => None
      case Some(first) =>
        match DecodedFields(types[1..], first.1)
        case None => None
        case Some(rest) => Some(([first.0] + rest.0, rest.1))
  }

  function DecodedField(type_: Type, ts: seq<Token>): (r: Option<(Field, seq<Token>)>)
    ensures r.Some? ==> |r.value.1| < |ts|
    decreases |ts|, 1, 0
  {
    match type_
    case Id =>
      (match Decoded(ts)
       case None => None
       case Some(t) => Some((Reference(t.0), t.1)))
    case Char => if ts == [] || !ts[0].CharToken? then None else Some((Code(ts[0].c), ts[1..]))
    case Int => if ts == [] || !ts[0].IntToken? then None else Some((Flags(ts[0].i), ts[1..]))
  }

  // ---- the round trip ----

  /** What an archive keeps: lines modulo 2^32, codes modulo 256, and nothing that nobody codes. */
  function Stored(t: Tree): Tree
    decreases t, 0
  {
    match t
    case Nil => t
    case Text(_) => t
    case Number(_) => t
    case List(items) => List(StoredAll(items))
    case Dictionary(keys, values) => Dictionary(StoredAll(keys), StoredAll(values))
    case Node(cls, line, next, fields, lost) =>
      Node(cls, line % 0x1_0000_0000, Stored(next), StoredFields(fields), seq(|lost|, _ => Nil))
  }

  function StoredAll(ts: seq<Tree>): (r: seq<Tree>)
    ensures |r| == |ts|
    decreases ts, 0
  {
    if ts == [] then [] else [Stored(ts[0])] + StoredAll(ts[1..])
  }

  function StoredFields(fs: seq<Field>): (r: seq<Field>)
    ensures |r| == |fs|
    decreases fs, 0
  {
    if fs == [] then [] else [StoredField(fs[0])] + StoredFields(fs[1..])
  }

  function StoredField(f: Field): Field
    decreases f, 0
  {
    match f
    case Reference(t) => Reference(Stored(t))
    case Code(c) => Code(c % 256)
    case Flags(_) => f
  }

  /** Decoding what was encoded gives what was stored and takes up exactly its tokens. */
  lemma {:induction false} DecodesEncoded(t: Tree, rest: seq<Token>)
    requires WellFormed(t)
    ensures Decoded(Encoded(t) + rest) == Some((Stored(t), rest))
    decreases t, 0
  {
    match t
    case Nil =>
    case Text(_) =>
    case Number(_) =>
    case List(items) =>
      DecodesAll(items, rest);
      DecodesList(items, rest);
    case Dictionary(keys, values) =>
      DecodesAll(keys, EncodedAll(values) + rest);
      DecodesAll(values, rest);
      DecodesDictionary(keys, values, rest);
    case Node(cls, line, next, fields, lost) =>
      DecodesEncoded(next, EncodedFields(fields) + rest);
      DecodesFields(fields, Layout(cls.coder), rest);
      DecodesNode(cls, line, next, fields, lost, rest);
  }

  lemma DecodesList(items: seq<Tree>, rest: seq<Token>)
    requires DecodedAll(|items|, EncodedAll(items) + rest) == Some((StoredAll(items), rest))
    ensures Decoded(Encoded(List(items)) + rest) == Some((Stored(List(items)), rest))
  {
    var ts := Encoded(List(items)) + rest;
    assert ts[0] == ListToken(|items|) && ts[1..] == EncodedAll(items) + rest;
  }

  lemma DecodesDictionary(keys: seq<Tree>, values: seq<Tree>, rest: seq<Token>)
    requires |keys| == |values|
    requires DecodedAll(|keys|, EncodedAll(keys) + (EncodedAll(values) + rest))
          == Some((StoredAll(keys), EncodedAll(values) + rest))
    requires DecodedAll(|keys|, EncodedAll(values) + rest) == Some((StoredAll(values), rest))
    ensures Decoded(Encoded(Dictionary(keys, values)) + rest) == Some((Stored(Dictionary(keys, values)), rest))
  {
    var ts := Encoded(Dictionary(keys, values)) + rest;
    assert ts[0] == DictionaryToken(|keys|) && ts[1..] == EncodedAll(keys) + (EncodedAll(values) + rest);
  }

  lemma DecodesNode(cls: Class, line: nat, next: Tree, fields: seq<Field>, lost: seq<Tree>, rest: seq<Token>)
    requires |lost| == cls.lost
    requires Decoded(Encoded(next) + (EncodedFields(fields) + rest))
          == Some((Stored(next), EncodedFields(fields) + rest))
    requires DecodedFields(Layout(cls.coder), EncodedFields(fields) + rest) == Some((StoredFields(fields), rest))
    ensures var t := Node(cls, line, next, fields, lost); Decoded(Encoded(t) + rest) == Some((Stored(t), rest))
  {
    var t, l, more := Node(cls, line, next, fields, lost), line % 0x1_0000_0000, EncodedFields(fields) + rest;
    assert Encoded(t) == [ClassToken(cls)] + ([LineToken(l)] + Encoded(next)) + EncodedFields(fields);
    NodeTokens(cls, l, Encoded(next), EncodedFields(fields), rest);
    var i := Instance(l, Stored(next), StoredFields(fields));
    DecodesInstance(cls.coder, (Encoded(t) + rest)[1..], i, Encoded(next) + more, more, rest);
    assert NewNode(cls, i) == Stored(t);
  }

  lemma DecodesInstance(c: Coder, ts: seq<Token>, i: Instance,
                        fromNext: seq<Token>, fromFields: seq<Token>, rest: seq<Token>)
    requires ts != [] && ts[0] == LineToken(i.line) && ts[1..] == fromNext
    requires Decoded(fromNext) == Some((i.next, fromFields))
    requires DecodedFields(Layout(c), fromFields) == Some((i.fields, rest))
    ensures DecodedAs(c, ts) == Some((i, rest))
  {}

  lemma NodeTokens(cls: Class, line: nat, next: seq<Token>, fields: seq<Token>, rest: seq<Token>)
    ensures var ts := [ClassToken(cls)] + ([LineToken(line)] + next) + fields + rest;
      ts[0] == ClassToken(cls) && ts[1] == LineToken(line) && ts[1..][1..] == next + (fields + rest)
  {}

  lemma {:induction false} DecodesAll(trees: seq<Tree>, rest: seq<Token>)
    requires forall t <- trees :: WellFormed(t)
    ensures DecodedAll(|trees|, EncodedAll(trees) + rest) == Some((StoredAll(trees), rest))
    decreases trees, 0
  {
    if trees == [] {
      assert EncodedAll(trees) + rest == rest;
    } else {
      assert EncodedAll(trees) + rest == Encoded(trees[0]) + (EncodedAll(trees[1..]) + rest);
      DecodesEncoded(trees[0], EncodedAll(trees[1..]) + rest);
      DecodesAll(trees[1..], rest);
    }
  }

  lemma {:induction false} DecodesFields(fs: seq<Field>, types: seq<Type>, rest: seq<Token>)
    requires HasTypes(fs, types) && forall f <- fs :: f.Reference? ==> WellFormed(f.tree)
    ensures DecodedFields(types, EncodedFields(fs) + rest) == Some((StoredFields(fs), rest))
    decreases fs, 0
  {
    if fs == [] {
      assert EncodedFields(fs) + rest == rest;
    } else {
      var more := EncodedFields(fs[1..]) + rest;
      assert EncodedFields(fs) + rest == EncodedField(fs[0]) + more;
      DecodesField(fs[0], types[0], more);
      DecodesFields(fs[1..], types[1..], rest);
    }
  }

  lemma {:induction false} DecodesField(f: Field, type_: Type, rest: seq<Token>)
    requires HasType(f, type_) && (f.Reference? ==> WellFormed(f.tree))
    ensures DecodedField(type_, EncodedField(f) + rest) == Some((StoredField(f), rest))
    decreases f, 0
  {
    if f.Reference? { DecodesEncoded(f.tree, rest); }
  }

  /** Archived and unarchived. */
  function Copy(t: Tree): Option<Tree> {
    match Decoded(Encoded(t))
    case None => None
    case Some(r) => if r.1 == [] then Some(r.0) else None
  }

  /** Nothing is cut off. */
  predicate Faithful(t: Tree)
    decreases t, 0
  {
    match t
    case Nil => true
    case Text(_) => true
    case Number(_) => true
    case List(items) => FaithfulAll(items)
    case Dictionary(keys, values) => FaithfulAll(keys) && FaithfulAll(values)
    case Node(_, line, next, fields, lost) =>
      line < 0x1_0000_0000 && Faithful(next) && FaithfulFields(fields) && forall i :: 0 <= i < |lost| ==> lost[i] == Nil
  }

  predicate FaithfulAll(ts: seq<Tree>)
    decreases ts, 0
  {
    ts == [] || (Faithful(ts[0]) && FaithfulAll(ts[1..]))
  }

  predicate FaithfulFields(fs: seq<Field>)
    decreases fs, 0
  {
    fs == [] || (FaithfulField(fs[0]) && FaithfulFields(fs[1..]))
  }

  predicate FaithfulField(f: Field)
    decreases f, 0
  {
    match f
    case Reference(t) => Faithful(t)
    case Code(c) => 0 <= c < 256
    case Flags(_) => true
  }

  lemma {:induction false} StoredIffFaithful(t: Tree)
    ensures Stored(t) == t <==> Faithful(t)
    decreases t, 0
  {
    match t
    case Nil =>
    case Text(_) =>
    case Number(_) =>
    case List(items) => StoredIffFaithfulAll(items);
    case Dictionary(keys, values) => StoredIffFaithfulAll(keys); StoredIffFaithfulAll(values);
    case Node(_, line, next, fields, lost) =>
      StoredIffFaithful(next);
      StoredIffFaithfulFields(fields);
      AllNil(lost);
  }

  lemma AllNil(lost: seq<Tree>)
    ensures seq(|lost|, _ => Nil) == lost <==> forall i :: 0 <= i < |lost| ==> lost[i] == Nil
  {
    var nils: seq<Tree> := seq(|lost|, _ => Nil);
    if nils == lost {
      forall i | 0 <= i < |lost| ensures lost[i] == Nil { assert nils[i] == Nil; }
    }
  }

  lemma SameCons<T>(first: T, rest: seq<T>, s: seq<T>)
    requires s != []
    ensures [first] + rest == s <==> first == s[0] && rest == s[1..]
  {
    assert ([first] + rest)[1..] == rest && s == [s[0]] + s[1..];
  }

  lemma {:induction false} StoredIffFaithfulAll(ts: seq<Tree>)
    ensures StoredAll(ts) == ts <==> FaithfulAll(ts)
    decreases ts, 0
  {
    if ts != [] {
      StoredIffFaithful(ts[0]);
      StoredIffFaithfulAll(ts[1..]);
      SameCons(Stored(ts[0]), StoredAll(ts[1..]), ts);
    }
  }

  lemma {:induction false} StoredIffFaithfulFields(fs: seq<Field>)
    ensures StoredFields(fs) == fs <==> FaithfulFields(fs)
    decreases fs, 0
  {
    if fs != [] {
      StoredIffFaithfulField(fs[0]);
      StoredIffFaithfulFields(fs[1..]);
      SameCons(StoredField(fs[0]), StoredFields(fs[1..]), fs);
    }
  }

  lemma {:induction false} StoredIffFaithfulField(f: Field)
    ensures StoredField(f) == f <==> FaithfulField(f)
    decreases f, 0
  {
    if f.Reference? { StoredIffFaithful(f.tree); }
  }

  /** A copy is the template itself exactly when nothing in it is cut off. */
  lemma CopyIsIdentityIffFaithful(t: Tree)
    requires WellFormed(t)
    ensures Copy(t) == Some(t) <==> Faithful(t)
  {
    DecodesEncoded(t, []);
    assert Encoded(t) + [] == Encoded(t);
    StoredIffFaithful(t);
  }

  /** A line number of 2^32 comes back as 0. */
  lemma LongLine(cls: Class)
    requires cls.coder.Object? && cls.lost == 0
    ensures Copy(Node(cls, 0x1_0000_0000, Nil, [], [])) == Some(Node(cls, 0, Nil, [], []))
  {
    var t := Node(cls, 0x1_0000_0000, Nil, [], []);
    DecodesEncoded(t, []);
    assert Encoded(t) + [] == Encoded(t);
    assert Stored(t) == Node(cls, 0, Nil, [], []);
  }

  /** What nobody codes, like identifier, function and body of a macro, comes back as nil. */
  lemma UncodedIsLost(t: Tree)
    requires WellFormed(t) && t.Node?
    ensures Copy(t).Some? && Copy(t).value.Node? && |Copy(t).value.lost| == |t.lost|
    ensures forall i :: 0 <= i < |t.lost| ==> Copy(t).value.lost[i] == Nil
  {
    DecodesEncoded(t, []);
    assert Encoded(t) + [] == Encoded(t);
  }

  /** What is archived of an object of each class, behind its line and the next object. */
  lemma LayoutsAre()
    ensures Layout(Object) == [] && Layout(ValueObject) == [Id]
    ensures Layout(AssignmentExpression) == Layout(ParameterAssignment) == Layout(Function) == [Id, Id]
    ensures Layout(Method) == Layout(Conditional) == [Id, Id, Id]
    ensures Layout(BinaryOperator) == [Id, Id] && Layout(Comparison) == [Id, Id, Char]
  {}

  lemma CommandLayoutsAre()
    ensures Layout(ExpressionCommand) == [Id] && Layout(Filter) == [Id, Int]
    ensures Layout(Set) == Layout(Block) == [Id, Id] && Layout(Requires) == [Id]
  {}

  /** A comparison in an archive: its class, its line, what comes next, its operands and the code. */
  lemma ComparisonTokens(cls: Class, line: nat, left: Tree, right: Tree, code: nat)
    requires cls.coder.Comparison? && line < 0x1_0000_0000 && code < 256
    ensures Encoded(Node(cls, line, Nil, [Reference(left), Reference(right), Code(code)], []))
         == [ClassToken(cls), LineToken(line), NilToken] + Encoded(left) + Encoded(right) + [CharToken(code)]
  {
    var fs := [Reference(left), Reference(right), Code(code)];
    assert fs[1..] == [Reference(right), Code(code)] && fs[1..][1..] == [Code(code)] && fs[1..][1..][1..] == [];
    assert EncodedField(Code(code)) == [CharToken(code)];
    assert EncodedFields(fs[1..][1..]) == [CharToken(code)];
    assert EncodedFields(fs[1..]) == Encoded(right) + [CharToken(code)];
    assert EncodedFields(fs) == Encoded(left) + (Encoded(right) + [CharToken(code)]);
    assert EncodedObject(line, Nil) == [LineToken(line)] + [NilToken];
  }
}
