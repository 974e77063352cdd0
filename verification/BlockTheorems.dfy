// What block expansion means: when it raises, that it is a projection, which chains it
// covers, what it conserves (src/MulleScionObjectModel+BlockExpansion.m:102-145).

module BlockTheorems {
  import opened Wrappers
  import opened ObjectModel
  import opened BlockRun
  import opened BlockTree

  // ---- when it raises ----

  /** `path` lists identifiers of blocks opened one directly inside the other, each in
      the body the table chooses for the one before. */
  ghost predicate Opens(f: Forest, table: Overrides, path: seq<string>)
    decreases |path|, f
  {
    match f
    case Nil => false
    case Plain(_, rest) => Opens(rest, table, path)
    case Nested(open, body, close, rest) =>
      || (path != [] && path[0] == open.identifier &&
          (|path| == 1 || Opens(Chosen(open, body, close, table).body, table, path[1..])))
      || Opens(rest, table, path)
  }

  /** The last block of `path` is already open, either before it started or on it. */
  predicate Reopens(path: seq<string>, stack: seq<string>) {
    path != [] && path[|path| - 1] in stack + path[..|path| - 1]
  }

  lemma {:induction false} ReopeningRaises(f: Forest, table: Overrides, stack: seq<string>, path: seq<string>)
    requires Opens(f, table, path) && Reopens(path, stack)
    ensures Expand(f, table, stack).Recursion?
    decreases |path|, f
  {
    match f
    case Plain(_, rest) => ReopeningRaises(rest, table, stack, path);
    case Nested(open, body, close, rest) =>
      var id := open.identifier;
      var o := Chosen(open, body, close, table);
      if Opens(rest, table, path) {
        ReopeningRaises(rest, table, stack, path);
      } else if id !in stack {
        assert (stack + [id]) + path[1..][..|path| - 2] == stack + path[..|path| - 1];
        ReopeningRaises(o.body, table, stack + [id], path[1..]);
      }
  }

  lemma {:induction false} RaisingReopens(f: Forest, table: Overrides, stack: seq<string>) returns (path: seq<string>)
    requires Expand(f, table, stack).Recursion?
    ensures Opens(f, table, path) && Reopens(path, stack)
    decreases |Unopened(table, stack)|, f
  {
    match f
    case Plain(_, rest) => path := RaisingReopens(rest, table, stack);
    case Nested(open, body, close, rest) =>
      var id := open.identifier;
      if id in stack { return [id]; }
      var o := Chosen(open, body, close, table);
      OpeningShrinks(table, stack, id);
      if Expand(o.body, table, stack + [id]).Recursion? {
        var inner := RaisingReopens(o.body, table, stack + [id]);
        path := [id] + inner;
        assert path[1..] == inner;
        assert (stack + [id]) + inner[..|inner| - 1] == stack + path[..|path| - 1];
      } else {
        path := RaisingReopens(rest, table, stack);
      }
  }

  /** The exception means exactly that some block would end up nested inside itself. */
  lemma RaisesIffSelfNested(head: Item, f: Forest, table: Overrides)
    requires WellFormed(f)
    ensures Run([head], Flatten(f), [], FlatTable(table)).outcome.RecursiveBlock?
       <==> exists path :: Opens(f, table, path) && Reopens(path, [])
  {
    ExpansionIsTreeRecursion(head, f, table);
    if Expand(f, table, []).Recursion? {
      var path := RaisingReopens(f, table, []);
    } else if path :| Opens(f, table, path) && Reopens(path, []) {
      ReopeningRaises(f, table, [], path);
    }
  }

  /** A block with a block of the same name in it. */
  lemma BlockInItself(head: Item, outer: Item, inner: Item, close: Item, table: BlockTable)
    requires outer.IsBlock() && inner.IsBlock() && close.IsEndBlock()
    requires outer.identifier == inner.identifier && inner.identifier !in table
    ensures Run([head], [outer, inner, close, close], [], table).outcome
         == RecursiveBlock(inner.lineNumber, inner.identifier, [inner.identifier])
  {
    var rest := [inner, close, close];
    assert [outer, inner, close, close][1..] == rest;
    assert Run([head, outer], rest, [outer.identifier], table).outcome
        == RecursiveBlock(inner.lineNumber, inner.identifier, [inner.identifier]);
    assert [head] + [outer] == [head, outer] && [] + [outer.identifier] == [outer.identifier];
  }

  // ---- expanding twice ----

  lemma {:induction false} ExpandTwice(f: Forest, table: Overrides, stack: seq<string>)
    requires Expand(f, table, stack).Expansion?
    ensures Expand(Expand(f, table, stack).forest, table, stack) == Expand(f, table, stack)
    decreases |Unopened(table, stack)|, f
  {
    match f
    case Nil =>
    case Plain(_, rest) => ExpandTwice(rest, table, stack);
    case Nested(open, body, close, rest) =>
      var id := open.identifier;
      OpeningShrinks(table, stack, id);
      if id !in table { ExpandTwice(body, table, stack + [id]); }
      ExpandTwice(rest, table, stack);
  }

  /** Running the loop on its own result changes nothing. */
  lemma ExpansionIsIdempotent(head: Item, f: Forest, table: Overrides)
    requires WellFormed(f) && Run([head], Flatten(f), [], FlatTable(table)).outcome.Expanded?
    ensures var once := Run([head], Flatten(f), [], FlatTable(table));
      once.items != [] && once.items[0] == head
      && Run([head], once.items[1..], [], FlatTable(table)) == once
  {
    ExpansionIsTreeRecursion(head, f, table);
    RunRefinesExpand([head], f, [], [], table);
    var g := Expand(f, table, []).forest;
    ExpandTwice(f, table, []);
    ExpansionIsTreeRecursion(head, g, table);
    assert ([head] + Flatten(g))[1..] == Flatten(g);
  }

  // ---- chains without a parse ----

  lemma {:induction false} BalanceAppend(a: seq<Item>, b: seq<Item>, open: Class)
    ensures Balance(a + b, open) == Balance(a, open) + Balance(b, open)
  {
    if a == [] {
      assert a + b == b;
    } else {
      assert (a + b)[1..] == a[1..] + b;
      BalanceAppend(a[1..], b, open);
    }
  }

  /** No prefix of the first n elements closes more blocks than it opens. */
  ghost predicate NeverNegative(s: seq<Item>, n: nat)
    requires n <= |s|
  {
    forall i :: 0 <= i <= n ==> Balance(s[..i], Block) >= 0
  }

  /** A balanced chain never closes more than it opened and ends with everything closed. */
  ghost predicate IsBalanced(s: seq<Item>) {
    Balance(s, Block) == 0 && NeverNegative(s, |s|)
  }

  /** Every balanced chain is the flattening of a forest. */
  lemma {:induction false} BalancedParses(s: seq<Item>) returns (f: Forest)
    requires IsBalanced(s)
    ensures WellFormed(f) && Flatten(f) == s
    decreases |s|
  {
    if s == [] { return Nil; }
    assert s[..1] == [s[0]];
    if !s[0].IsBlock() {
      assert s == [s[0]] + s[1..];
      BalancedSuffix([s[0]], s[1..]);
      var rest := BalancedParses(s[1..]);
      return Plain(s[0], rest);
    }
    var body, after := BalancedSplits(s);
    var close := s[|body| + 1];
    var b := BalancedParses(body);
    var rest := BalancedParses(after);
    f := Nested(s[0], b, close, rest);
    assert s == [s[0]] + body + [close] + after;
  }

  /** A balanced chain that starts with a block falls into that block and the rest. */
  lemma BalancedSplits(s: seq<Item>) returns (body: seq<Item>, after: seq<Item>)
    requires IsBalanced(s) && s != [] && s[0].IsBlock()
    ensures |body| + 1 < |s| && s[|body| + 1].IsEndBlock()
    ensures s == [s[0]] + body + [s[|body| + 1]] + after
    ensures IsBalanced(body) && IsBalanced(after)
  {
    var t := s[1..];
    var k := FindEnd(t, Block, 1);
    assert s == [s[0]] + t;
    BalanceAppend([s[0]], t, Block);
    FindEndIsFirstClose(t, Block, 1);
    assert t[..|t|] == t;
    assert k < |t|;
    body, after := t[..k], t[k + 1..];
    BalancedStretch(t, k);
    var front := [s[0]] + t[..k + 1];
    BalanceAppend([s[0]], t[..k + 1], Block);
    assert s == front + after;
    BalancedSuffix(front, after);
  }

  lemma BalancedSuffix(a: seq<Item>, b: seq<Item>)
    requires IsBalanced(a + b) && Balance(a, Block) == 0
    ensures IsBalanced(b)
  {
    BalanceAppend(a, b, Block);
    forall i | 0 <= i <= |b| ensures Balance(b[..i], Block) >= 0 {
      BalanceAppend(a, b[..i], Block);
      assert (a + b)[..|a| + i] == a + b[..i];
    }
  }

  lemma BalancedStretch(s: seq<Item>, k: nat)
    requires k == FindEnd(s, Block, 1) < |s|
    ensures IsBalanced(s[..k]) && s[k].IsEndBlock()
  {
    EndIsTerminator(s, Block, 1);
    BeforeClose(s, k);
    StaysOpen(s, k);
    PrefixesStay(s, k);
  }

  lemma StaysOpen(s: seq<Item>, k: nat)
    requires k == FindEnd(s, Block, 1) < |s|
    ensures NeverNegative(s, k) && Balance(s[..k + 1], Block) == -1
  {
    FindEndIsFirstClose(s, Block, 1);
  }

  lemma PrefixesStay(s: seq<Item>, k: nat)
    requires k <= |s| && NeverNegative(s, k)
    ensures NeverNegative(s[..k], k)
  {
    forall i | 0 <= i <= k ensures Balance(s[..k][..i], Block) >= 0 {
      assert s[..k][..i] == s[..i];
    }
  }

  lemma BeforeClose(s: seq<Item>, k: nat)
    requires k < |s| && s[k].IsEndBlock()
    ensures Balance(s[..k + 1], Block) == Balance(s[..k], Block) - 1
  {
    assert s[..k + 1] == s[..k] + [s[k]];
    BalanceAppend(s[..k], [s[k]], Block);
    assert Balance([s[k]], Block) == -1;
  }

  lemma OverrideParses(r: seq<Item>) returns (o: Override)
    requires IsSingleBlock(r)
    ensures IsOverride(o, r)
  {
    var k := |r| - 2;
    BalancedStretch(r[1..], k);
    var b := BalancedParses(r[1..][..k]);
    assert r == [r[0]] + r[1..][..k] + [r[1..][k]];
    o := Override(r[0], b, r[1..][k]);
  }

  ghost predicate IsOverride(o: Override, r: seq<Item>) {
    o.open.IsBlock() && WellFormed(o.body) && o.close.IsEndBlock() && FlattenOverride(o) == r
  }

  /** Well-formed block tables are exactly the flattened override tables. */
  lemma TableParses(table: BlockTable) returns (overrides: Overrides)
    requires forall id <- table :: table[id][0].identifier == id
    ensures FlatTable(overrides) == table
  {
    overrides := map id <- table :: ParseOf(table[id]);
  }

  ghost function ParseOf(r: seq<Item>): (o: Override)
    requires IsSingleBlock(r)
    ensures IsOverride(o, r) && o.open == r[0]
  {
    assert exists o :: IsOverride(o, r) by { var o := OverrideParses(r); }
    var o :| IsOverride(o, r);
    assert FlattenOverride(o)[0] == o.open;
    o
  }

  /** Every balanced chain and every table of single blocks has a tree, and the loop over the chain
      is the recursion over that tree. */
  lemma ChainExpandsAsTree(head: Item, s: seq<Item>, table: BlockTable) returns (f: Forest, overrides: Overrides)
    requires IsBalanced(s)
    requires forall id <- table :: table[id][0].identifier == id
    ensures WellFormed(f) && Flatten(f) == s && FlatTable(overrides) == table
    ensures match Expand(f, overrides, [])
            case Expansion(g) => Run([head], s, [], table) == Final(Expanded, [head] + Flatten(g))
            case Recursion(line, id, path) => Run([head], s, [], table).outcome == RecursiveBlock(line, id, path)
  {
    f := BalancedParses(s);
    overrides := TableParses(table);
    ExpansionIsTreeRecursion(head, f, overrides);
  }

  /** On balanced chains the loop either finishes, and then its result is balanced, or
      raises for recursion: no assertion fails and no empty stack is popped. */
  lemma BalancedNeverFails(head: Item, s: seq<Item>, table: BlockTable)
    requires IsBalanced(s)
    requires forall id <- table :: table[id][0].identifier == id
    ensures var r := Run([head], s, [], table);
      || (r.outcome.Expanded? && r.items != [] && r.items[0] == head && IsBalanced(r.items[1..]))
      || r.outcome.RecursiveBlock?
  {
    var f := BalancedParses(s);
    var overrides := TableParses(table);
    ExpansionIsTreeRecursion(head, f, overrides);
    RunRefinesExpand([head], f, [], [], overrides);
    if Expand(f, overrides, []).Expansion? {
      var g := Expand(f, overrides, []).forest;
      assert ([head] + Flatten(g))[1..] == Flatten(g);
      ForestBalanced(g);
    }
  }

  lemma {:induction false} ForestBalanced(f: Forest)
    requires WellFormed(f)
    ensures IsBalanced(Flatten(f))
  {
    match f
    case Nil =>
    case Plain(item, rest) =>
      ForestBalanced(rest);
      assert Balance([item], Block) == 0;
      BalancedAppend([item], Flatten(rest));
    case Nested(open, body, close, rest) =>
      ForestBalanced(body);
      ForestBalanced(rest);
      BalancedBracket(open, Flatten(body), close);
      BalancedAppend([open] + Flatten(body) + [close], Flatten(rest));
  }

  lemma BalancedAppend(a: seq<Item>, b: seq<Item>)
    requires IsBalanced(a) && IsBalanced(b)
    ensures IsBalanced(a + b)
  {
    BalanceAppend(a, b, Block);
    forall i | 0 <= i <= |a + b| ensures Balance((a + b)[..i], Block) >= 0 {
      if i <= |a| {
        assert (a + b)[..i] == a[..i];
      } else {
        assert (a + b)[..i] == a + b[..i - |a|];
        BalanceAppend(a, b[..i - |a|], Block);
      }
    }
  }

  lemma BalancedBracket(open: Item, s: seq<Item>, close: Item)
    requires open.IsBlock() && close.IsEndBlock() && IsBalanced(s)
    ensures IsBalanced([open] + s + [close])
  {
    var t := [open] + s;
    forall i | 0 <= i <= |s| ensures Balance([open] + s[..i], Block) >= 1 {
      BalanceAppend([open], s[..i], Block);
    }
    assert s[..|s|] == s;
    BalanceAppend(t, [close], Block);
    forall i | 0 <= i <= |s| + 2 ensures Balance((t + [close])[..i], Block) >= 0 {
      if 0 < i <= |s| + 1 {
        assert (t + [close])[..i] == [open] + s[..i - 1];
      } else if i == |s| + 2 {
        assert (t + [close])[..i] == t + [close];
      }
    }
  }

  /** Whatever the chain, expansion keeps its count of open minus closed blocks. */
  lemma {:induction false} ExpansionConservesBalance(done: seq<Item>, rest: seq<Item>,
                                                     stack: seq<string>, table: BlockTable)
    ensures Balance(Run(done, rest, stack, table).items, Block) == Balance(done + rest, Block)
    decreases Weight(rest, stack, table)
  {
    if rest == [] {
      assert done + rest == done;
    } else {
      var x := rest[0];
      var stack' := StackAfter(x, stack);
      assert done + [x] + rest[1..] == done + rest;
      if x.IsEndBlock() {
        if stack != [] { ExpansionConservesBalance(done + [x], rest[1..], stack', table); }
      } else if !x.IsBlock() || (x.identifier !in stack && x.identifier !in table) {
        ExpansionConservesBalance(done + [x], rest[1..], stack', table);
      } else if x.identifier !in stack && FindEnd(rest[1..], Block, 1) < |rest| - 1 {
        SpliceLowersWeight(rest, stack, table);
        SpliceConservesBalance(done, rest, table);
        ExpansionConservesBalance(done + [table[x.identifier][0]], Spliced(rest, table), stack', table);
      }
    }
  }

  lemma SpliceConservesBalance(done: seq<Item>, rest: seq<Item>, table: BlockTable)
    requires rest != [] && rest[0].IsBlock() && rest[0].identifier in table
    requires FindEnd(rest[1..], Block, 1) < |rest| - 1
    ensures Balance(done + [table[rest[0].identifier][0]] + Spliced(rest, table), Block)
         == Balance(done + rest, Block)
  {
    var r := table[rest[0].identifier];
    var k := FindEnd(rest[1..], Block, 1);
    var after := rest[k + 2..];
    BlockIsNeutral(rest[..k + 2]);
    BlockIsNeutral(r);
    var front := rest[..k + 2];
    assert rest == front + after;
    assert [r[0]] + r[1..] == r;
    assert done + [r[0]] + Spliced(rest, table) == done + (r + after);
    BalanceAppend(done, rest, Block);
    BalanceAppend(front, after, Block);
    BalanceAppend(done, r + after, Block);
    BalanceAppend(r, after, Block);
  }

  lemma BlockIsNeutral(s: seq<Item>)
    requires |s| >= 2 && s[0].IsBlock()
    requires exists t: seq<Item> :: s <= t && FindEnd(t[1..], Block, 1) == |s| - 2
    ensures Balance(s, Block) == 0
  {
    var t: seq<Item> :| s <= t && FindEnd(t[1..], Block, 1) == |s| - 2;
    FindEndIsFirstClose(t[1..], Block, 1);
    if |t| > |s| - 1 { assert t[1..][..|s| - 1] == s[1..]; }
  }

  // ---- one splice ----

  lemma SingleBlockIsBalanced(r: seq<Item>)
    requires IsSingleBlock(r)
    ensures IsBalanced(r)
  {
    var k := |r| - 2;
    BalancedStretch(r[1..], k);
    BalancedBracket(r[0], r[1..][..k], r[1..][k]);
    assert r == [r[0]] + r[1..][..k] + [r[1..][k]];
  }

  /** Replacing a block, from its header at k to its end at e, by something balanced keeps a chain
      balanced; what is taken out is balanced too. */
  lemma SpliceIsBalanced(s: seq<Item>, k: nat, e: nat, r: seq<Item>)
    requires IsBalanced(s) && k < |s| && s[k].IsBlock() && e == k + 1 + FindEnd(s[k + 1..], Block, 1) < |s|
    requires IsBalanced(r)
    ensures IsBalanced(s[k..e + 1]) && IsBalanced(s[..k] + r + s[e + 1..])
  {
    var front, old_, after := s[..k], s[k..e + 1], s[e + 1..];
    assert old_[1..] == s[k + 1..][..e - k] && old_[0] == s[k];
    StretchIsSingleBlock(s, k, e);
    SingleBlockIsBalanced(old_);
    assert s == front + (old_ + after) && s[..k] + r + s[e + 1..] == front + (r + after);
    SwapBalanced(front, old_, r, after);
  }

  /** If the chain and what is put in are balanced, so are what is taken out and what results. */
  ghost predicate KeepsBalance(s: seq<Item>, r: seq<Item>, taken: seq<Item>, result: seq<Item>) {
    IsBalanced(s) && IsBalanced(r) ==> IsBalanced(taken) && IsBalanced(result)
  }

  lemma SpliceKeepsBalance(s: seq<Item>, k: nat, e: nat, r: seq<Item>)
    requires k < |s| && s[k].IsBlock() && e == k + 1 + FindEnd(s[k + 1..], Block, 1) < |s|
    ensures KeepsBalance(s, r, s[k..e + 1], s[..k] + r + s[e + 1..])
  {
    if IsBalanced(s) && IsBalanced(r) { SpliceIsBalanced(s, k, e, r); }
  }

  lemma StretchIsSingleBlock(s: seq<Item>, k: nat, e: nat)
    requires k < |s| && s[k].IsBlock() && e == k + 1 + FindEnd(s[k + 1..], Block, 1) < |s|
    ensures IsSingleBlock(s[k..e + 1])
  {
    var n := e - k;
    assert s[k..e + 1][1..] == s[k + 1..][..n];
    FindEndOfPrefix(s[k + 1..], n, Block, 1);
  }

  lemma {:induction false} FindEndOfPrefix(s: seq<Item>, n: nat, open: Class, depth: nat)
    requires depth > 0 && FindEnd(s, open, depth) < n <= |s|
    ensures FindEnd(s[..n], open, depth) == FindEnd(s, open, depth)
  {
    var p := s[..n];
    assert p[0] == s[0] && p[1..] == s[1..][..n - 1];
    var d := if s[0].cls == open then depth + 1
             else if Some(s[0].cls) == TerminatorClass(open) then depth - 1 else depth;
    if d > 0 {
      assert FindEnd(s, open, depth) == 1 + FindEnd(s[1..], open, d);
      FindEndOfPrefix(s[1..], n - 1, open, d);
    }
  }

  lemma SwapBalanced(front: seq<Item>, a: seq<Item>, b: seq<Item>, after: seq<Item>)
    requires IsBalanced(front + (a + after)) && IsBalanced(a) && IsBalanced(b)
    ensures IsBalanced(front + (b + after))
  {
    var s, t := front + (a + after), front + (b + after);
    BalanceAppend(front, a + after, Block);
    BalanceAppend(a, after, Block);
    BalanceAppend(front, b + after, Block);
    BalanceAppend(b, after, Block);
    forall i | 0 <= i <= |t| ensures Balance(t[..i], Block) >= 0 {
      SwappedPrefix(front, a, b, after, i);
    }
  }

  lemma SwappedPrefix(front: seq<Item>, a: seq<Item>, b: seq<Item>, after: seq<Item>, i: nat)
    requires IsBalanced(front + (a + after)) && IsBalanced(a) && IsBalanced(b) && i <= |front + (b + after)|
    ensures Balance((front + (b + after))[..i], Block) >= 0
  {
    var s, t := front + (a + after), front + (b + after);
    if i <= |front| {
      assert t[..i] == s[..i];
    } else if i <= |front| + |b| {
      var j := i - |front|;
      assert t[..i] == front + b[..j] && s[..|front|] == front;
      BalanceAppend(front, b[..j], Block);
    } else {
      var j := i - |front| - |b|;
      assert t[..i] == front + (b + after[..j]) && s[..|front| + |a| + j] == front + (a + after[..j]);
      BalanceAppend(front, b + after[..j], Block);
      BalanceAppend(b, after[..j], Block);
      BalanceAppend(front, a + after[..j], Block);
      BalanceAppend(a, after[..j], Block);
    }
  }
}
