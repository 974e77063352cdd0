// The coding methods themselves: every class has its superclass code first, and then its own
// instance variables (src/MulleScionObjectModel+NSCoding.m:81-381).

module ArchiveCoding {
  import opened Wrappers
  import opened Archive

  class Archiver {
    var tokens: seq<Token>

    constructor ()
      ensures tokens == []
    {
      tokens := [];
    }

    method EncodeObject(t: Tree)
      requires WellFormed(t)
      modifies this
      ensures tokens == old(tokens) + Encoded(t)
      decreases t, 5
    {
      match t
      case Nil => tokens := tokens + [NilToken];
      case Text(s) => tokens := tokens + [TextToken(s)];
      case Number(n) => tokens := tokens + [NumberToken(n)];
      case List(items) => EncodeList(items);
      case Dictionary(_, _) => EncodeDictionary(t);
      case Node(_, _, _, _, _) => EncodeNode(t);
    }

    method EncodeList(items: seq<Tree>)
      requires forall t <- items :: WellFormed(t)
      modifies this
      ensures tokens == old(tokens) + ([ListToken(|items|)] + EncodedAll(items))
      decreases items, 6
    {
      tokens := tokens + [ListToken(|items|)];
      EncodeAll(items);
      Reassociate(old(tokens), [ListToken(|items|)], EncodedAll(items), []);
    }

    method EncodeDictionary(t: Tree)
      requires t.Dictionary? && WellFormed(t)
      modifies this
      ensures tokens == old(tokens) + Encoded(t)
      decreases t, 4
    {
      tokens := tokens + [DictionaryToken(|t.keys|)];
      EncodeAll(t.keys);
      EncodeAll(t.values);
      Reassociate(old(tokens), [DictionaryToken(|t.keys|)], EncodedAll(t.keys), EncodedAll(t.values));
    }

    method EncodeNode(t: Tree)
      requires t.Node? && WellFormed(t)
      modifies this
      ensures tokens == old(tokens) + Encoded(t)
      decreases t, 4
    {
      tokens := tokens + [ClassToken(t.cls)];
      EncodeWithCoder(t.cls.coder, t);
      assert t.fields[..|Layout(t.cls.coder)|] == t.fields;
      Reassociate(old(tokens), [ClassToken(t.cls)], EncodedObject(t.line, t.next), EncodedFields(t.fields));
    }

    method EncodeAll(ts: seq<Tree>)
      requires forall t <- ts :: WellFormed(t)
      modifies this
      ensures tokens == old(tokens) + EncodedAll(ts)
      decreases ts, 5
    {
      if ts != [] {
        EncodeObject(ts[0]);
        EncodeAll(ts[1..]);
        Reassociate(old(tokens), Encoded(ts[0]), EncodedAll(ts[1..]), []);
      }
    }

    method EncodeWithCoder(c: Coder, t: Tree)
      requires t.Node? && WellFormed(t) && |Layout(c)| <= |t.fields|
      modifies this
      ensures tokens == old(tokens) + EncodedObject(t.line, t.next) + EncodedFields(t.fields[..|Layout(c)|])
      decreases t, Depth(c)
    {
      match Super(c)
      case None =>
        EncodeInstance(t.line, t.next);
        assert old(tokens) + EncodedObject(t.line, t.next) + [] == tokens;
      case Some(s) =>
        EncodeWithCoder(s, t);
        EncodeOwn(t, |Layout(s)|, |Layout(c)|);
        OwnFollows(old(tokens) + EncodedObject(t.line, t.next), t.fields, |Layout(s)|, |Layout(c)|);
    }

    method EncodeInstance(line: nat, next: Tree)
      requires WellFormed(next)
      modifies this
      ensures tokens == old(tokens) + EncodedObject(line, next)
      decreases next, 6
    {
      tokens := tokens + [LineToken(line % 0x1_0000_0000)];
      EncodeObject(next);
      Reassociate(old(tokens), [LineToken(line % 0x1_0000_0000)], Encoded(next), []);
    }

    method EncodeOwn(t: Tree, from: nat, end: nat)
      requires t.Node? && WellFormed(t) && from <= end <= |t.fields|
      modifies this
      ensures tokens == old(tokens) + EncodedFields(t.fields[from..end])
      decreases t, 0
    {
      for i := from to end
        invariant tokens == old(tokens) + EncodedFields(t.fields[from..i])
      {
        EncodeValue(t.fields[i]);
        OneMore(t.fields, from, i);
        Reassociate(old(tokens), EncodedFields(t.fields[from..i]), EncodedField(t.fields[i]), []);
      }
    }

    method EncodeValue(f: Field)
      requires f.Reference? ==> WellFormed(f.tree)
      modifies this
      ensures tokens == old(tokens) + EncodedField(f)
      decreases f, 5
    {
      match f
      case Reference(t) => EncodeObject(t);
      case Code(code) => tokens := tokens + [CharToken(code % 256)];
      case Flags(flags) => tokens := tokens + [IntToken(flags)];
    }
  }

  lemma Reassociate(a: seq<Token>, b: seq<Token>, c: seq<Token>, d: seq<Token>)
    ensures a + b + c + d == a + (b + c + d)
    ensures d == [] ==> a + b + c == a + (b + c)
  {
    assert a + (b + c) == a + b + c;
  }

  lemma OwnFollows(before: seq<Token>, fs: seq<Field>, from: nat, end: nat)
    requires from <= end <= |fs|
    ensures before + EncodedFields(fs[..from]) + EncodedFields(fs[from..end]) == before + EncodedFields(fs[..end])
  {
    assert fs[..from] + fs[from..end] == fs[..end];
    EncodedFieldsAppend(fs[..from], fs[from..end]);
    Reassociate(before, EncodedFields(fs[..from]), EncodedFields(fs[from..end]), []);
  }

  lemma {:induction false} EncodedFieldsAppend(fs: seq<Field>, gs: seq<Field>)
    ensures EncodedFields(fs + gs) == EncodedFields(fs) + EncodedFields(gs)
  {
    if fs == [] {
      assert fs + gs == gs;
    } else {
      assert (fs + gs)[1..] == fs[1..] + gs;
      EncodedFieldsAppend(fs[1..], gs);
    }
  }

  lemma OneMore(fs: seq<Field>, from: nat, i: nat)
    requires from <= i < |fs|
    ensures EncodedFields(fs[from..i + 1]) == EncodedFields(fs[from..i]) + EncodedField(fs[i])
  {
    assert fs[from..i + 1] == fs[from..i] + [fs[i]];
    EncodedFieldsAppend(fs[from..i], [fs[i]]);
    assert EncodedFields([fs[i]]) == EncodedField(fs[i]);
  }

  // ---- decoding ----

  /** `r` and the tokens left over are what a decoding function says. */
  predicate Reads<T(==)>(r: Option<T>, left: seq<Token>, expected: Option<(T, seq<Token>)>) {
    match expected
    case None => r == None
    case Some(e) => r == Some(e.0) && left == e.1
  }

  class Unarchiver {
    var tokens: seq<Token>

    constructor (tokens: seq<Token>)
      ensures this.tokens == tokens
    {
      this.tokens := tokens;
    }

    method Next() returns (t: Token)
      requires tokens != []
      modifies this
      ensures t == old(tokens)[0] && tokens == old(tokens)[1..]
    {
      t := tokens[0];
      tokens := tokens[1..];
    }

    method DecodeObject() returns (r: Option<Tree>)
      modifies this
      ensures Reads(r, tokens, Decoded(old(tokens)))
      decreases |tokens|, 0, 0
    {
      if tokens == [] { return None; }
      var t := Next();
      match t
      case NilToken => r := Some(Nil);
      case TextToken(s) => r := Some(Text(s));
      case NumberToken(n) => r := Some(Number(n));
      case ListToken(n) =>
        var items := DecodeAll(n);
        assert items.None? ==> Decoded(old(tokens)) == None;
        r := if items.None? then None else Some(List(items.value));
      case DictionaryToken(n) =>
        var keys := DecodeAll(n);
        if keys.None? { assert Decoded(old(tokens)) == None; return None; }
        var values := DecodeAll(n);
        assert values.None? ==> Decoded(old(tokens)) == None;
        assert values.Some? ==> Decoded(old(tokens)).Some?;
        r := if values.None? then None else Some(Dictionary(keys.value, values.value));
      case ClassToken(cls) =>
        var i := InitWithCoder(cls.coder);
        assert i.None? ==> Decoded(old(tokens)) == None;
        assert i.Some? ==> Decoded(old(tokens)).Some?;
        r := if i.None? then None else Some(NewNode(cls, i.value));
      case LineToken(_) => r := None;
      case CharToken(_) => r := None;
      case IntToken(_) => r := None;
    }

    method DecodeAll(n: nat) returns (r: Option<seq<Tree>>)
      modifies this
      ensures Reads(r, tokens, DecodedAll(n, old(tokens)))
      decreases |tokens|, 1, n
    {
      if n == 0 { return Some([]); }
      var first := DecodeObject();
      if first.None? { return None; }
      var rest := DecodeAll(n - 1);
      r := if rest.None? then None else Some([first.value] + rest.value);
    }

    method InitWithCoder(c: Coder) returns (r: Option<Instance>)
      modifies this
      ensures Reads(r, tokens, DecodedAs(c, old(tokens)))
      decreases |tokens|, 3, Depth(c)
    {
      match Super(c)
      case None =>
        if tokens == [] || !tokens[0].LineToken? { return None; }
        var line := Next();
        var next := DecodeObject();
        assert next.None? ==> DecodedAs(c, old(tokens)) == None;
        assert next.Some? ==> DecodedAs(c, old(tokens)).Some?;
        r := if next.None? then None else Some(Instance(line.line, next.value, []));
      case Some(s) =>
        var i := InitWithCoder(s);
        OwnFieldsLast(c, old(tokens));
        if i.None? { return None; }
        var own := DecodeFields(Own(c));
        assert own.None? ==> DecodedAs(c, old(tokens)) == None;
        assert own.Some? ==> DecodedAs(c, old(tokens)).Some?;
        r := if own.None? then None else Some(i.value.(fields := i.value.fields + own.value));
    }

    method DecodeFields(types: seq<Type>) returns (r: Option<seq<Field>>)
      modifies this
      ensures Reads(r, tokens, DecodedFields(types, old(tokens)))
      decreases |tokens|, 2, |types|
    {
      if types == [] { return Some([]); }
      var first := DecodeValue(types[0]);
      if first.None? { return None; }
      var rest := DecodeFields(types[1..]);
      r := if rest.None? then None else Some([first.value] + rest.value);
    }

    method DecodeValue(type_: Type) returns (r: Option<Field>)
      modifies this
      ensures Reads(r, tokens, DecodedField(type_, old(tokens)))
      decreases |tokens|, 1, 0
    {
      match type_
      case Id =>
        var t := DecodeObject();
        r := if t.None? then None else Some(Reference(t.value));
      case Char =>
        if tokens == [] || !tokens[0].CharToken? { return None; }
        var t := Next();
        r := Some(Code(t.c));
      case Int =>
        if tokens == [] || !tokens[0].IntToken? { return None; }
        var t := Next();
        r := Some(Flags(t.i));
    }
  }

  lemma {:induction false} DecodedFieldsAppend(types: seq<Type>, more: seq<Type>, ts: seq<Token>)
    ensures DecodedFields(types + more, ts)
         == match DecodedFields(types, ts)
            case None => None
            case Some(a) =>
              match DecodedFields(more, a.1)
              case None => None
              case Some(b) => Some((a.0 + b.0, b.1))
  {
    if types == [] {
      assert types + more == more;
      var b := DecodedFields(more, ts);
      if b.Some? { assert [] + b.value.0 == b.value.0; }
    } else {
      assert (types + more)[1..] == types[1..] + more;
      var first := DecodedField(types[0], ts);
      if first.Some? {
        DecodedFieldsAppend(types[1..], more, first.value.1);
        var a := DecodedFields(types[1..], first.value.1);
        if a.Some? {
          var b := DecodedFields(more, a.value.1);
          if b.Some? { assert [first.value.0] + (a.value.0 + b.value.0) == [first.value.0] + a.value.0 + b.value.0; }
        }
      }
    }
  }

  /** What class c reads is what its superclass reads, and then its own. */
  lemma OwnFieldsLast(c: Coder, ts: seq<Token>)
    requires Super(c).Some?
    ensures DecodedAs(c, ts)
         == match DecodedAs(Super(c).value, ts)
            case None => None
            case Some(i) =>
              match DecodedFields(Own(c), i.1)
              case None => None
              case Some(own) => Some((i.0.(fields := i.0.fields + own.0), own.1))
  {
    if ts != [] && ts[0].LineToken? {
      var next := Decoded(ts[1..]);
      if next.Some? { DecodedFieldsAppend(Layout(Super(c).value), Own(c), next.value.1); }
    }
  }

  /** copy: archive, then unarchive. */
  method CopyOf(t: Tree) returns (r: Option<Tree>)
    requires WellFormed(t)
    ensures r == Some(Stored(t))
    ensures r == Some(t) <==> Faithful(t)
  {
    var archiver := new Archiver();
    archiver.EncodeObject(t);
    var unarchiver := new Unarchiver(archiver.tokens);
    r := unarchiver.DecodeObject();
    DecodesEncoded(t, []);
    assert Encoded(t) + [] == Encoded(t) == [] + Encoded(t);
    StoredIffFaithful(t);
  }
}
