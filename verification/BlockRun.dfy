// The loop of expandBlocksUsingTable: on item sequences, with its termination measure
// (src/MulleScionObjectModel+BlockExpansion.m:102-145).

module BlockRun {
  import opened ObjectModel

  datatype Outcome =
    | Expanded
    | RecursiveBlock(lineNumber: nat, identifier: string, stack: seq<string>)
    | EmptyStackPop        // removeLastObject on an empty array raises
    | MissingEndblock(identifier: string)

  /** How the loop stopped and the items of the chain it left behind. */
  datatype Final = Final(outcome: Outcome, items: seq<Item>)

  ghost function Open(table: BlockTable, stack: seq<string>): set<string> {
    set id <- table.Keys | id !in stack
  }

  ghost function Longest(table: BlockTable): (m: nat)
    ensures forall id <- table :: |table[id]| <= m
    decreases |table|
  {
    if table == map[] then 0
    else
      var id :| id in table;
      var rest := map k | k in table && k != id :: table[k];
      assert rest.Keys == table.Keys - {id};
      assert |rest.Keys| < |table.Keys|;
      var m := Longest(rest);
      assert forall k <- table :: k != id ==> k in rest && table[k] == rest[k];
      if m < |table[id]| then |table[id]| else m
  }

  function Power(base: nat, n: nat): (p: nat)
    requires base > 0
    ensures p > 0
  {
    if n == 0 then 1 else base * Power(base, n - 1)
  }

  lemma {:induction false} PowerMonotone(base: nat, m: nat, n: nat)
    requires base > 0 && m <= n
    ensures Power(base, m) <= Power(base, n)
    decreases n
  {
    if m < n { PowerMonotone(base, m, n - 1); }
  }

  /** What visiting one element may cost with `stack` open. */
  ghost function Cost(table: BlockTable, stack: seq<string>): (c: nat)
    ensures c > 0
  {
    Power(Longest(table) + 1, |Open(table, stack)|)
  }

  lemma CostMonotone(table: BlockTable, inner: seq<string>, outer: seq<string>)
    requires forall id <- outer :: id in inner
    ensures Cost(table, inner) <= Cost(table, outer)
  {
    assert Open(table, inner) <= Open(table, outer);
    Cardinality(Open(table, inner), Open(table, outer));
    PowerMonotone(Longest(table) + 1, |Open(table, inner)|, |Open(table, outer)|);
  }

  lemma {:induction false} Cardinality<T>(a: set<T>, b: set<T>)
    requires a <= b
    ensures |a| <= |b|
  {
    assert |b - a| + |a| == |b| by { assert (b - a) + a == b; }
  }

  function StackAfter(x: Item, stack: seq<string>): seq<string> {
    if x.IsBlock() then stack + [x.identifier]
    else if x.IsEndBlock() && stack != [] then stack[..|stack| - 1]
    else stack
  }

  /** Bound on the visits left: each element costs what its own stack allows. */
  ghost function Weight(rest: seq<Item>, stack: seq<string>, table: BlockTable): nat {
    if rest == [] then 0
    else Cost(table, stack) + Weight(rest[1..], StackAfter(rest[0], stack), table)
  }

  /** A stretch of `n` elements that closes `depth` blocks costs at most its length times the
      cost inside the outermost of them, `base`, and leaves the stack below them. */
  lemma {:induction false} WeightOfStretch(s: seq<Item>, n: nat, stack: seq<string>, depth: nat,
                                           base: seq<string>, below: seq<string>, table: BlockTable)
    requires 0 < depth <= |stack| && n == FindEnd(s, Block, depth) + 1 <= |s|
    requires base == stack[..|stack| - depth + 1] && below == stack[..|stack| - depth]
    ensures Weight(s[n..], below, table) <= Weight(s, stack, table)
    ensures Weight(s, stack, table) <= n * Cost(table, base) + Weight(s[n..], below, table)
  {
    CostMonotone(table, stack, base);
    MulSucc(n - 1, Cost(table, base));
    if s[0].IsEndBlock() && depth == 1 {
      assert n == 1 && StackAfter(s[0], stack) == below;
    } else {
      assert s[1..][n - 1..] == s[n..];
      var stack' := StackAfter(s[0], stack);
      var d := if s[0].IsBlock() then depth + 1 else if s[0].IsEndBlock() then depth - 1 else depth;
      assert base == stack'[..|stack'| - d + 1] && below == stack'[..|stack'| - d];
      WeightOfStretch(s[1..], n - 1, stack', d, base, below, table);
      assert Weight(s, stack, table) == Cost(table, stack) + Weight(s[1..], stack', table);
    }
  }

  /** Putting a table identifier on the stack pays for every element of its override. */
  lemma OverrideCost(id: string, stack: seq<string>, table: BlockTable)
    requires id in table && id !in stack
    ensures (|table[id]| - 1) * Cost(table, stack + [id]) < Cost(table, stack)
  {
    var inner := stack + [id];
    assert Open(table, inner) == Open(table, stack) - {id};
    var n := |Open(table, inner)|;
    assert |Open(table, stack)| == n + 1;
    var b := Longest(table) + 1;
    MulLess(|table[id]| - 1, b, Power(b, n));
  }

  /** A splice lengthens the chain but lowers its weight: the inserted elements are
      visited with one more identifier on the stack. */
  lemma SpliceLowersWeight(rest: seq<Item>, stack: seq<string>, table: BlockTable)
    requires rest != [] && rest[0].IsBlock()
    requires rest[0].identifier in table && rest[0].identifier !in stack
    requires FindEnd(rest[1..], Block, 1) < |rest| - 1
    ensures Weight(Spliced(rest, table), stack + [rest[0].identifier], table) < Weight(rest, stack, table)
  {
    var id := rest[0].identifier;
    var r := table[id][1..];
    var inner := stack + [id];
    var suffix := rest[FindEnd(rest[1..], Block, 1) + 2..];
    StretchInside(rest[1..], FindEnd(rest[1..], Block, 1) + 1, suffix, id, stack, table);
    FindEndAppend(r, suffix, Block, 1);
    assert (r + suffix)[|r|..] == suffix;
    StretchInside(r + suffix, |r|, suffix, id, stack, table);
    OverrideCost(id, stack, table);
  }

  lemma StretchInside(s: seq<Item>, n: nat, suffix: seq<Item>, id: string, stack: seq<string>, table: BlockTable)
    requires n == FindEnd(s, Block, 1) + 1 <= |s| && suffix == s[n..]
    ensures Weight(suffix, stack, table) <= Weight(s, stack + [id], table)
    ensures Weight(s, stack + [id], table) <= n * Cost(table, stack + [id]) + Weight(suffix, stack, table)
  {
    var inner := stack + [id];
    assert inner[..|inner| - 1] == stack && inner[..|inner|] == inner;
    WeightOfStretch(s, n, inner, 1, inner, stack, table);
  }

  lemma MulLess(a: nat, b: nat, c: nat)
    requires a < b && c > 0
    ensures a * c < b * c
  {
  }

  lemma MulSucc(a: nat, c: nat)
    ensures (a + 1) * c == a * c + c
  {
  }

  /** What follows the block header once the override replaced the owned block. */
  function Spliced(rest: seq<Item>, table: BlockTable): seq<Item>
    requires rest != [] && rest[0].identifier in table
    requires FindEnd(rest[1..], Block, 1) < |rest| - 1
  {
    table[rest[0].identifier][1..] + rest[FindEnd(rest[1..], Block, 1) + 2..]
  }

  /** The loop: `done` is the chain up to and including `owner`, `rest` what follows it. */
  ghost function Run(done: seq<Item>, rest: seq<Item>, stack: seq<string>, table: BlockTable): Final
    decreases Weight(rest, stack, table)
  {
    if rest == [] then Final(Expanded, done)
    else
      var x := rest[0];
      var stack' := StackAfter(x, stack);
      if x.IsEndBlock() then
        if stack == [] then Final(EmptyStackPop, done + rest)
        else Run(done + [x], rest[1..], stack', table)
      else if !x.IsBlock() then Run(done + [x], rest[1..], stack', table)
      else if x.identifier in stack then
        Final(RecursiveBlock(x.lineNumber, x.identifier, stack), done + rest)
      else if x.identifier !in table then Run(done + [x], rest[1..], stack', table)
      else if FindEnd(rest[1..], Block, 1) == |rest| - 1 then
        Final(MissingEndblock(x.identifier), done + rest)
      else
        SpliceLowersWeight(rest, stack, table);
        Run(done + [table[x.identifier][0]], Spliced(rest, table), stack', table)
  }
}
