// What an expanded chain consists of (src/MulleScionObjectModel+BlockExpansion.m:102-145).

module BlockContent {
  import opened ObjectModel
  import opened BlockRun
  import opened BlockTree

  // ---- items ----

  /** Nothing is made up: every item was in the chain or is one of an override's. */
  lemma {:induction false} NothingMadeUp(done: seq<Item>, rest: seq<Item>, stack: seq<string>, table: BlockTable,
                                         x: Item)
    requires x in Run(done, rest, stack, table).items
    ensures x in done || x in rest || exists id :: id in table && x in table[id]
    decreases Weight(rest, stack, table)
  {
    if rest != [] {
      var b, stack' := rest[0], StackAfter(rest[0], stack);
      if b.IsEndBlock() {
        if stack != [] { NothingMadeUp(done + [b], rest[1..], stack', table, x); }
      } else if !b.IsBlock() || (b.identifier !in stack && b.identifier !in table) {
        NothingMadeUp(done + [b], rest[1..], stack', table, x);
      } else if b.identifier !in stack && FindEnd(rest[1..], Block, 1) < |rest| - 1 {
        SpliceLowersWeight(rest, stack, table);
        NothingMadeUp(done + [table[b.identifier][0]], Spliced(rest, table), stack', table, x);
      }
    }
  }

  /** Without an override for any of its blocks a chain stays as it is, raising or not. */
  lemma {:induction false} NothingToOverride(done: seq<Item>, rest: seq<Item>, stack: seq<string>, table: BlockTable)
    requires forall x <- rest :: x.IsBlock() ==> x.identifier !in table
    ensures Run(done, rest, stack, table).items == done + rest
    decreases Weight(rest, stack, table)
  {
    if rest == [] {
      assert done + rest == done;
    } else {
      assert rest[0] in rest && forall x <- rest[1..] :: x in rest;
      assert done + [rest[0]] + rest[1..] == done + rest;
      if !(rest[0].IsEndBlock() && stack == []) && !(rest[0].IsBlock() && rest[0].identifier in stack) {
        NothingToOverride(done + [rest[0]], rest[1..], StackAfter(rest[0], stack), table);
      }
    }
  }

  // ---- trees ----

  /** What lies outside of overridden blocks; of those, that there is one. */
  function Outside(f: Forest, table: Overrides): Forest {
    match f
    case Nil => Nil
    case Plain(item, rest) => Plain(item, Outside(rest, table))
    case Nested(open, body, close, rest) =>
      if open.identifier in table then
        Nested(table[open.identifier].open, Nil, table[open.identifier].close, Outside(rest, table))
      else Nested(open, Outside(body, table), close, Outside(rest, table))
  }

  /** Every block that has an override, however deep, is that override, up to the blocks in it that
      have overrides themselves. */
  predicate FromTable(g: Forest, table: Overrides) {
    match g
    case Nil => true
    case Plain(_, rest) => FromTable(rest, table)
    case Nested(open, body, close, rest) =>
      && FromTable(body, table) && FromTable(rest, table)
      && (open.identifier in table ==>
           open == table[open.identifier].open && close == table[open.identifier].close
           && Outside(body, table) == Outside(table[open.identifier].body, table))
  }

  /** Expansion keeps what lies outside of overridden blocks and puts the overrides in their place. */
  lemma {:induction false} ExpandPutsOverridesIn(f: Forest, table: Overrides, stack: seq<string>)
    requires Expand(f, table, stack).Expansion?
    ensures var g := Expand(f, table, stack).forest;
      Outside(g, table) == Outside(f, table) && FromTable(g, table)
    decreases |Unopened(table, stack)|, f
  {
    match f
    case Nil =>
    case Plain(_, rest) => ExpandPutsOverridesIn(rest, table, stack);
    case Nested(open, body, close, rest) =>
      var id := open.identifier;
      var o := Chosen(open, body, close, table);
      OpeningShrinks(table, stack, id);
      ExpandPutsOverridesIn(o.body, table, stack + [id]);
      ExpandPutsOverridesIn(rest, table, stack);
  }

  lemma {:induction false} OnlyOne(g: Forest, h: Forest, table: Overrides)
    requires Outside(g, table) == Outside(h, table) && FromTable(g, table) && FromTable(h, table)
    ensures g == h
  {
    match g
    case Nil =>
    case Plain(_, rest) =>
      OnlyOne(rest, h.rest, table);
    case Nested(open, body, close, rest) =>
      assert Outside(h, table).Nested?;
      OnlyOne(body, h.body, table);
      OnlyOne(rest, h.rest, table);
  }

  /** The expansion is the one forest that keeps what lies outside of overridden blocks and has every
      override in its place. */
  lemma ExpansionIsTheOnlyOne(f: Forest, table: Overrides, stack: seq<string>, g: Forest)
    requires Expand(f, table, stack).Expansion?
    ensures g == Expand(f, table, stack).forest
       <==> Outside(g, table) == Outside(f, table) && FromTable(g, table)
  {
    ExpandPutsOverridesIn(f, table, stack);
    if Outside(g, table) == Outside(f, table) && FromTable(g, table) {
      OnlyOne(g, Expand(f, table, stack).forest, table);
    }
  }
}
