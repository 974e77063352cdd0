// Block expansion as a recursion on the tree of nested blocks, and the proof that the
// flat loop refines it (src/MulleScionObjectModel+BlockExpansion.m:102-145).

module BlockTree {
  import opened ObjectModel
  import opened BlockRun

  /** A balanced chain, read as first-child / next-sibling. */
  datatype Forest =
    | Nil
    | Plain(item: Item, rest: Forest)
    | Nested(open: Item, body: Forest, close: Item, rest: Forest)

  ghost predicate WellFormed(f: Forest) {
    match f
    case Nil => true
    case Plain(item, rest) => !item.IsBlock() && !item.IsEndBlock() && WellFormed(rest)
    case Nested(open, body, close, rest) =>
      open.IsBlock() && close.IsEndBlock() && WellFormed(body) && WellFormed(rest)
  }

  function Flatten(f: Forest): seq<Item> {
    match f
    case Nil => []
    case Plain(item, rest) => [item] + Flatten(rest)
    case Nested(open, body, close, rest) => [open] + Flatten(body) + [close] + Flatten(rest)
  }

  datatype Override = Override(open: Item, body: Forest, close: Item)

  /** The parser stores a block under its own identifier. */
  type Overrides = t: map<string, Override> |
    forall id <- t :: t[id].open.IsBlock() && t[id].open.identifier == id
                      && WellFormed(t[id].body) && t[id].close.IsEndBlock()
    witness map[]

  /** The block that ends up in the chain for a block command. */
  function Chosen(open: Item, body: Forest, close: Item, table: Overrides): Override {
    if open.identifier in table then table[open.identifier] else Override(open, body, close)
  }

  datatype Expansion =
    | Expansion(forest: Forest)
    | Recursion(lineNumber: nat, identifier: string, stack: seq<string>)

  ghost function Unopened(table: Overrides, stack: seq<string>): set<string> {
    set id <- table.Keys | id !in stack
  }

  /** The plain recursion: an overridden block is replaced whole, then expanded inside
      with its identifier on the stack. */
  ghost function Expand(f: Forest, table: Overrides, stack: seq<string>): Expansion
    decreases |Unopened(table, stack)|, f
  {
    match f
    case Nil => Expansion(Nil)
    case Plain(item, rest) =>
      (match Expand(rest, table, stack)
       case Expansion(g) => Expansion(Plain(item, g))
       case e => e)
    case Nested(open, body, close, rest) =>
      var id := open.identifier;
      if id in stack then Recursion(open.lineNumber, id, stack)
      else
        var o := Chosen(open, body, close, table);
        OpeningShrinks(table, stack, id);
        match Expand(o.body, table, stack + [id])
        case Recursion(_, _, _) => Expand(o.body, table, stack + [id])
        case Expansion(b) =>
          match Expand(rest, table, stack)
          case Expansion(g) => Expansion(Nested(o.open, b, o.close, g))
          case e => e
  }

  lemma OpeningShrinks(table: Overrides, stack: seq<string>, id: string)
    requires id !in stack
    ensures |Unopened(table, stack + [id])| <= |Unopened(table, stack)|
    ensures id in table ==> |Unopened(table, stack + [id])| < |Unopened(table, stack)|
  {
    assert Unopened(table, stack + [id]) == Unopened(table, stack) - {id};
    Cardinality(Unopened(table, stack + [id]), Unopened(table, stack));
  }

  // ---- the flat side of trees ----

  function FlattenOverride(o: Override): seq<Item> {
    [o.open] + Flatten(o.body) + [o.close]
  }

  lemma {:induction false} FindEndSkipsForest(f: Forest, s: seq<Item>, depth: nat)
    requires WellFormed(f) && depth > 0
    ensures FindEnd(Flatten(f) + s, Block, depth) == |Flatten(f)| + FindEnd(s, Block, depth)
    decreases f
  {
    match f
    case Nil => assert Flatten(f) + s == s;
    case Plain(item, rest) =>
      assert (Flatten(f) + s)[1..] == Flatten(rest) + s;
      FindEndSkipsForest(rest, s, depth);
    case Nested(open, body, close, rest) =>
      var tail := Flatten(rest) + s;
      assert (Flatten(f) + s)[1..] == Flatten(body) + ([close] + tail);
      FindEndSkipsForest(body, [close] + tail, depth + 1);
      assert ([close] + tail)[1..] == tail;
      FindEndSkipsForest(rest, s, depth);
  }

  lemma OverrideIsSingleBlock(o: Override)
    requires o.open.IsBlock() && WellFormed(o.body) && o.close.IsEndBlock()
    ensures IsSingleBlock(FlattenOverride(o))
  {
    assert FlattenOverride(o)[1..] == Flatten(o.body) + [o.close];
    FindEndSkipsForest(o.body, [o.close], 1);
  }

  ghost function FlatTable(table: Overrides): BlockTable {
    assert forall id <- table :: IsSingleBlock(FlattenOverride(table[id])) by {
      forall id <- table ensures IsSingleBlock(FlattenOverride(table[id])) {
        OverrideIsSingleBlock(table[id]);
      }
    }
    map id <- table :: FlattenOverride(table[id])
  }

  /** One visit of a block header whose block is well nested. */
  lemma RunOpensBlock(done: seq<Item>, open: Item, body: Forest, close: Item, tail: seq<Item>,
                      stack: seq<string>, table: Overrides)
    requires open.IsBlock() && WellFormed(body) && close.IsEndBlock()
    requires open.identifier !in stack
    ensures var o := Chosen(open, body, close, table);
      Run(done, [open] + Flatten(body) + [close] + tail, stack, FlatTable(table))
      == Run(done + [o.open], Flatten(o.body) + ([o.close] + tail), stack + [open.identifier], FlatTable(table))
  {
    var rest := [open] + Flatten(body) + [close] + tail;
    assert rest[1..] == Flatten(body) + ([close] + tail);
    if open.identifier in table { SplicedOverride(open, body, close, tail, table); }
  }

  lemma SplicedOverride(open: Item, body: Forest, close: Item, tail: seq<Item>, table: Overrides)
    requires WellFormed(body) && close.IsEndBlock() && open.identifier in table
    ensures var rest := [open] + Flatten(body) + [close] + tail;
      && FindEnd(rest[1..], Block, 1) < |rest| - 1
      && Spliced(rest, FlatTable(table))
         == Flatten(table[open.identifier].body) + ([table[open.identifier].close] + tail)
  {
    BlockEnd(open, body, close, tail);
    BehindHeader(table[open.identifier], tail);
  }

  lemma BehindHeader(o: Override, tail: seq<Item>)
    ensures FlattenOverride(o)[1..] + tail == Flatten(o.body) + ([o.close] + tail)
  {
    assert FlattenOverride(o)[1..] == Flatten(o.body) + [o.close];
  }

  lemma BlockEnd(open: Item, body: Forest, close: Item, tail: seq<Item>)
    requires WellFormed(body) && close.IsEndBlock()
    ensures var rest := [open] + Flatten(body) + [close] + tail;
      FindEnd(rest[1..], Block, 1) == |Flatten(body)| && rest[|Flatten(body)| + 2..] == tail
  {
    var rest := [open] + Flatten(body) + [close] + tail;
    assert rest[1..] == Flatten(body) + ([close] + tail);
    FindEndSkipsForest(body, [close] + tail, 1);
  }

  lemma RunClosesBlock(done: seq<Item>, close: Item, tail: seq<Item>, stack: seq<string>, id: string, t: BlockTable)
    requires close.IsEndBlock()
    ensures Run(done, [close] + tail, stack + [id], t) == Run(done + [close], tail, stack, t)
  {
    assert ([close] + tail)[1..] == tail;
    assert (stack + [id])[..|stack|] == stack;
  }

  /** The loop started at `from` follows the recursion's result `e` up to `rest`. */
  ghost predicate Follows(from: Final, e: Expansion, done: seq<Item>, rest: seq<Item>,
                          stack: seq<string>, t: BlockTable)
  {
    match e
    case Expansion(g) => WellFormed(g) && from == Run(done + Flatten(g), rest, stack, t)
    case Recursion(line, id, path) => from.outcome == RecursiveBlock(line, id, path)
  }

  /** The flat loop, started on a flattened forest, does what the recursion does and then
      goes on with the rest of the chain; it raises iff the recursion meets an identifier
      on its own stack, with the same line, identifier and stack. */
  lemma {:induction false} RunRefinesExpand(done: seq<Item>, f: Forest, rest: seq<Item>,
                                            stack: seq<string>, table: Overrides)
    requires WellFormed(f)
    ensures Follows(Run(done, Flatten(f) + rest, stack, FlatTable(table)),
                    Expand(f, table, stack), done, rest, stack, FlatTable(table))
    decreases |Unopened(table, stack)|, f, 1
  {
    match f
    case Nil =>
      assert Flatten(f) + rest == rest && done + Flatten(Nil) == done;
    case Plain(item, f') =>
      RunRefinesExpand(done + [item], f', rest, stack, table);
      assert (Flatten(f) + rest)[1..] == Flatten(f') + rest;
      if Expand(f', table, stack).Expansion? {
        var g := Expand(f', table, stack).forest;
        assert done + [item] + Flatten(g) == done + Flatten(Plain(item, g));
      }
    case Nested(open, body, close, f') =>
      var tail := Flatten(f') + rest;
      assert Flatten(f) + rest == [open] + Flatten(body) + [close] + tail;
      if open.identifier !in stack {
        RunOpensBlock(done, open, body, close, tail, stack, table);
        RunRefinesInside(done, f, Chosen(open, body, close, table), rest, stack, table);
      }
  }

  /** The same from behind a block header that was not on the stack. */
  lemma {:induction false} RunRefinesInside(done: seq<Item>, f: Forest, o: Override, rest: seq<Item>,
                                            stack: seq<string>, table: Overrides)
    requires WellFormed(f) && f.Nested? && f.open.identifier !in stack
    requires o == Chosen(f.open, f.body, f.close, table)
    ensures Follows(Run(done + [o.open], Flatten(o.body) + ([o.close] + (Flatten(f.rest) + rest)),
                        stack + [f.open.identifier], FlatTable(table)),
                    Expand(f, table, stack), done, rest, stack, FlatTable(table))
    decreases |Unopened(table, stack)|, f, 0
  {
    var id := f.open.identifier;
    var tail := Flatten(f.rest) + rest;
    OpeningShrinks(table, stack, id);
    RunRefinesExpand(done + [o.open], o.body, [o.close] + tail, stack + [id], table);
    var eb := Expand(o.body, table, stack + [id]);
    if eb.Expansion? {
      var done' := done + [o.open] + Flatten(eb.forest);
      RunClosesBlock(done', o.close, tail, stack, id, FlatTable(table));
      RunRefinesExpand(done' + [o.close], f.rest, rest, stack, table);
      var er := Expand(f.rest, table, stack);
      if er.Expansion? { FlattenNested(done, o, eb.forest, er.forest); }
    }
  }

  lemma FlattenNested(done: seq<Item>, o: Override, b: Forest, g: Forest)
    ensures done + [o.open] + Flatten(b) + [o.close] + Flatten(g)
         == done + Flatten(Nested(o.open, b, o.close, g))
  {
  }

  /** A whole template: `head` is the template object that starts the chain. */
  lemma ExpansionIsTreeRecursion(head: Item, f: Forest, table: Overrides)
    requires WellFormed(f)
    ensures match Expand(f, table, [])
            case Expansion(g) =>
              Run([head], Flatten(f), [], FlatTable(table)) == Final(Expanded, [head] + Flatten(g))
            case Recursion(line, id, path) =>
              Run([head], Flatten(f), [], FlatTable(table)).outcome == RecursiveBlock(line, id, path)
  {
    RunRefinesExpand([head], f, [], [], table);
    assert Flatten(f) + [] == Flatten(f);
  }
}
