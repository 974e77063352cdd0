// Template chains on the heap: linked objects, rewired in place
// (src/MulleScionObjectModel+BlockExpansion.m, src/MulleScionObjectModel+Parsing.m,
// src/MulleScionObjectModel.m:841-866).

module BlockExpansion {
  import opened Wrappers
  import opened ObjectModel
  import opened BlockRun
  import BlockTheorems
  import BlockContent

  /** The objects of one chain, in order: linked through `next`, ending in null. */
  ghost predicate IsChain(s: seq<MulleScionObject>)
    reads s
  {
    && s != []
    && (forall i {:trigger s[i].next} :: 0 <= i < |s| ==> s[i].next == Link(s, i))
    && NoDuplicates(s)
  }

  function Link(s: seq<MulleScionObject>, i: nat): MulleScionObject?
    requires i < |s|
  {
    if i == |s| - 1 then null else s[i + 1]
  }

  ghost predicate NoDuplicates(s: seq<MulleScionObject>) {
    forall i, j :: 0 <= i < j < |s| ==> s[i] != s[j]
  }

  function Items(s: seq<MulleScionObject>): (r: seq<Item>)
    ensures |r| == |s| && forall i :: 0 <= i < |s| ==> r[i] == s[i].item
  {
    seq(|s|, i requires 0 <= i < |s| => s[i].item)
  }

  /** Index of the object that closes `depth` open commands, searching from index `i`. */
  function EndFrom(s: seq<MulleScionObject>, i: nat, open: Class, depth: nat): (e: nat)
    requires i <= |s| && depth > 0
    ensures i <= e <= |s|
    decreases |s| - i
  {
    if i == |s| then i
    else if s[i].item.cls == open then EndFrom(s, i + 1, open, depth + 1)
    else if Some(s[i].item.cls) == TerminatorClass(open) then
      if depth == 1 then i else EndFrom(s, i + 1, open, depth - 1)
    else EndFrom(s, i + 1, open, depth)
  }

  lemma {:induction false} EndFromIsFindEnd(s: seq<MulleScionObject>, i: nat, open: Class, depth: nat)
    requires i <= |s| && depth > 0
    ensures EndFrom(s, i, open, depth) == i + FindEnd(Items(s)[i..], open, depth)
    decreases |s| - i
  {
    if i < |s| {
      assert Items(s)[i..][1..] == Items(s)[i + 1..];
      var d := if s[i].item.cls == open then depth + 1
               else if Some(s[i].item.cls) == TerminatorClass(open) then depth - 1 else depth;
      if d > 0 { EndFromIsFindEnd(s, i + 1, open, d); }
    }
  }

  ghost predicate Disjoint(s: seq<MulleScionObject>, t: seq<MulleScionObject>) {
    forall i, j :: 0 <= i < |s| && 0 <= j < |t| ==> s[i] != t[j]
  }

  lemma DisjointFrom(s: seq<MulleScionObject>, t: seq<MulleScionObject>, mine: set<MulleScionObject>)
    requires (forall o <- s :: o in mine) && (forall o <- t :: o !in mine)
    ensures Disjoint(s, t)
  {
    forall i, j | 0 <= i < |s| && 0 <= j < |t| ensures s[i] != t[j] {
      assert s[i] in s && t[j] in t;
    }
  }

  lemma SplicedNoDuplicates(s: seq<MulleScionObject>, lo: nat, hi: nat, t: seq<MulleScionObject>)
    requires lo <= hi <= |s| && NoDuplicates(s) && NoDuplicates(t) && Disjoint(s, t)
    ensures NoDuplicates(s[..lo] + t + s[hi..]) && NoDuplicates(s[lo..hi])
  {
  }

  lemma SpliceMembers(s: seq<MulleScionObject>, lo: nat, hi: nat, t: seq<MulleScionObject>)
    requires 0 < lo <= hi <= |s| && t != []
    ensures var r := s[..lo] + t + s[hi..];
      lo < |r| && r[0] == s[0] && r[lo] == t[0] && forall o <- r :: o in s || o in t
  {
  }

  lemma SpliceInside(chain: seq<MulleScionObject>, k: nat, e: nat, added: seq<MulleScionObject>,
                     mine: set<MulleScionObject>)
    requires k < e < |chain| && added != []
    requires (forall o <- chain :: o in mine) && (forall o <- added :: o in mine)
    ensures var result := chain[..k + 1] + added + chain[e + 1..];
      && k + 1 < |result| && result[0] == chain[0] && result[k + 1] == added[0] && forall o <- result :: o in mine
  {
    SpliceMembers(chain, k + 1, e + 1, added);
  }

  /** The three pointers a splice writes make one chain of what is kept and what is added. */
  lemma SpliceLinks(s: seq<MulleScionObject>, lo: nat, hi: nat, t: seq<MulleScionObject>)
    requires 0 < lo < hi <= |s| && Disjoint(s, t)
    requires NoDuplicates(s) && NoDuplicates(t) && t != []
    requires forall i {:trigger s[i].next} :: 0 <= i < lo - 1 || hi <= i < |s| ==> s[i].next == Link(s, i)
    requires forall i {:trigger t[i].next} :: 0 <= i < |t| - 1 ==> t[i].next == Link(t, i)
    requires s[lo - 1].next == t[0] && t[|t| - 1].next == Link(s, hi - 1)
    ensures IsChain(s[..lo] + t + s[hi..])
  {
    var r := s[..lo] + t + s[hi..];
    SplicedNoDuplicates(s, lo, hi, t);
    forall i | 0 <= i < |r| ensures r[i].next == Link(r, i) {
      if i < lo {
        assert r[i] == s[i];
      } else if i < lo + |t| {
        assert r[i] == t[i - lo];
      } else {
        assert r[i] == s[i - lo - |t| + hi];
      }
    }
  }

  lemma DetachLinks(s: seq<MulleScionObject>, lo: nat, hi: nat)
    requires lo < hi <= |s| && NoDuplicates(s)
    requires forall i {:trigger s[i].next} :: lo <= i < hi - 1 ==> s[i].next == Link(s, i)
    requires s[hi - 1].next == null
    ensures IsChain(s[lo..hi])
  {
    var r := s[lo..hi];
    forall i | 0 <= i < |r| ensures r[i].next == Link(r, i) {
      assert r[i] == s[lo + i];
    }
  }

  /** The state the three assignments of a splice leave behind. */
  lemma SplicedLinks(s: seq<MulleScionObject>, k: nat, e: nat, t: seq<MulleScionObject>)
    requires k < e < |s| && Disjoint(s, t) && NoDuplicates(s) && NoDuplicates(t) && t != []
    requires forall i {:trigger s[i].next} :: 0 <= i < |s| && i != k && i != e ==> s[i].next == Link(s, i)
    requires forall i {:trigger t[i].next} :: 0 <= i < |t| - 1 ==> t[i].next == Link(t, i)
    requires s[k].next == t[0] && s[e].next == null && t[|t| - 1].next == Link(s, e)
    ensures IsChain(s[..k + 1] + t + s[e + 1..]) && IsChain(s[k + 1..e + 1])
  {
    SpliceLinks(s, k + 1, e + 1, t);
    DetachLinks(s, k + 1, e + 1);
  }

  /** Object by object, everything but the upper half of a line number is copied. */
  predicate AreCopies(nodes: seq<MulleScionObject>, chain: seq<MulleScionObject>) {
    |nodes| == |chain| && forall i :: 0 <= i < |chain| ==> IsCopy(nodes[i].item, chain[i].item)
  }

  lemma CopiesOf(chain: seq<MulleScionObject>, copy: MulleScionObject, tail: seq<MulleScionObject>)
    requires chain != [] && copy.item == Archived(chain[0].item) && AreCopies(tail, chain[1..])
    ensures AreCopies([copy] + tail, chain)
  {
    var nodes := [copy] + tail;
    forall i | 0 <= i < |chain| ensures IsCopy(nodes[i].item, chain[i].item) {
      if i > 0 { assert nodes[i] == tail[i - 1] && chain[i] == chain[1..][i - 1]; }
    }
  }

  lemma CopiedItems(chain: seq<MulleScionObject>, copy: MulleScionObject, tail: seq<MulleScionObject>)
    requires chain != [] && copy.item == Archived(chain[0].item) && Items(tail) == ArchivedAll(Items(chain[1..]))
    ensures Items([copy] + tail) == ArchivedAll(Items(chain))
  {
    assert Items(chain) == [chain[0].item] + Items(chain[1..]);
    assert ([copy] + tail)[1..] == tail;
  }

  class MulleScionObject {
    const item: Item
    var next: MulleScionObject?

    constructor (item: Item)
      ensures this.item == item && next == null && IsChain([this])
    {
      this.item := item;
      next := null;
    }

    method Behead(ghost chain: seq<MulleScionObject>) returns (rest: MulleScionObject?)
      requires IsChain(chain) && chain[0] == this
      modifies this
      ensures IsChain([this])
      ensures if |chain| == 1 then rest == null else rest == chain[1] && IsChain(chain[1..])
    {
      rest := next;
      next := null;
    }

    method Tail(ghost chain: seq<MulleScionObject>) returns (obj: MulleScionObject)
      requires IsChain(chain) && chain[0] == this
      ensures obj == chain[|chain| - 1]
    {
      obj := this;
      ghost var k := 0;
      while obj.next != null
        invariant 0 <= k < |chain| && obj == chain[k]
        decreases |chain| - k
      {
        obj := obj.next;
        k := k + 1;
      }
    }

    method Count(ghost chain: seq<MulleScionObject>) returns (n: nat)
      requires IsChain(chain) && chain[0] == this
      ensures n == |chain|
    {
      n := 1;
      var obj := this;
      while obj.next != null
        invariant 0 < n <= |chain| && obj == chain[n - 1]
        decreases |chain| - n
      {
        n := n + 1;
        obj := obj.next;
      }
    }

    method AppendRetainedObject(p: MulleScionObject, ghost chain: seq<MulleScionObject>,
                                ghost added: seq<MulleScionObject>)
      requires IsChain(chain) && chain[|chain| - 1] == this
      requires IsChain(added) && added[0] == p && Disjoint(chain, added)
      modifies this
      ensures IsChain(chain + added)
    {
      next := p;
    }

    /** The archiver follows `next_` before it builds the object, so a copy is a new chain. */
    method Copy(ghost chain: seq<MulleScionObject>) returns (copy: MulleScionObject, ghost nodes: seq<MulleScionObject>)
      requires IsChain(chain) && chain[0] == this
      ensures IsChain(nodes) && nodes[0] == copy && Items(nodes) == ArchivedAll(Items(chain))
      ensures AreCopies(nodes, chain)
      ensures forall n <- nodes :: fresh(n)
      decreases |chain|
    {
      copy := new MulleScionObject(Archived(item));
      nodes := [copy];
      if next != null {
        var rest, tail := next.Copy(chain[1..]);
        assert copy !in tail;
        copy.next := rest;
        nodes := [copy] + tail;
        CopiedItems(chain, copy, tail);
        CopiesOf(chain, copy, tail);
        forall i | 0 <= i < |nodes| ensures nodes[i].next == Link(nodes, i) {
          if i > 0 { assert nodes[i] == tail[i - 1]; }
        }
      } else {
        assert Items(nodes) == ArchivedAll(Items(chain));
      }
    }

    /** `this` is the opening command, `curr` where the search starts. */
    method TerminateToEnd(first: MulleScionObject?, ghost chain: seq<MulleScionObject>, ghost from: nat)
      returns (curr: MulleScionObject?)
      requires IsChain(chain) && from <= |chain|
      requires first == if from == |chain| then null else chain[from]
      ensures var e := EndFrom(chain, from, item.cls, 1);
        curr == if e == |chain| then null else chain[e]
      ensures curr != null ==> Ends(curr.item.cls, item.cls)
    {
      var stack: nat := 1;
      var terminator := TerminatorClass(item.cls);
      curr := first;
      ghost var i := from;
      while curr != null
        invariant from <= i <= |chain| && stack > 0
        invariant curr == if i == |chain| then null else chain[i]
        invariant EndFrom(chain, from, item.cls, 1) == EndFrom(chain, i, item.cls, stack)
        decreases |chain| - i
      {
        if curr.item.cls == item.cls {
          stack := stack + 1;
        } else if Some(curr.item.cls) == terminator {
          if stack == 1 { return; }
          stack := stack - 1;
        }
        curr := curr.next;
        i := i + 1;
      }
    }

    method NextOwnerOfBlockCommand(ghost chain: seq<MulleScionObject>, ghost from: nat)
      returns (curr: MulleScionObject?, ghost k: nat)
      requires IsChain(chain) && from < |chain| && chain[from] == this
      ensures from <= k < |chain|
      ensures forall i :: from < i <= k ==> !chain[i].item.IsBlock() && !chain[i].item.IsEndBlock()
      ensures curr == null ==> k == |chain| - 1
      ensures curr != null ==> k + 1 < |chain| && curr == chain[k]
      ensures curr != null ==> chain[k + 1].item.IsBlock() || chain[k + 1].item.IsEndBlock()
    {
      curr := this;
      k := from;
      while curr != null
        invariant from <= k < |chain|
        invariant curr == null ==> k == |chain| - 1
        invariant curr != null ==> curr == chain[k]
        invariant forall i :: from < i <= k ==> !chain[i].item.IsBlock() && !chain[i].item.IsEndBlock()
        decreases curr != null, |chain| - k
      {
        if curr.next != null && curr.next.item.IsBlock() { break; }
        if curr.next != null && curr.next.item.IsEndBlock() { break; }
        curr := curr.next;
        if curr != null { k := k + 1; }
      }
    }

    /** Splices `replacement` in for the block that follows `this`, which is element `k` of
        `chain`. Fails, changing nothing, when that block has no endblock (the source asserts). */
    method ReplaceOwnedBlockWith(replacement: MulleScionObject, ghost chain: seq<MulleScionObject>,
                                 ghost k: nat, ghost added: seq<MulleScionObject>, ghost mine: set<MulleScionObject>)
      returns (ok: bool, ghost e: nat, ghost result: seq<MulleScionObject>)
      requires IsChain(chain) && k + 1 < |chain| && chain[k] == this && chain[k + 1].item.IsBlock()
      requires IsChain(added) && added[0] == replacement && Disjoint(chain, added)
      requires replacement.item.IsBlock() && added[|added| - 1].item.IsEndBlock()
      requires (forall o <- chain :: o in mine) && (forall o <- added :: o in mine)
      modifies mine
      ensures e == EndFrom(chain, k + 2, Block, 1)
      ensures ok == (e < |chain|)
      ensures !ok ==> result == chain && IsChain(chain) && IsChain(added)
      ensures ok ==> result == chain[..k + 1] + added + chain[e + 1..] && IsChain(result)
      ensures ok ==> IsChain(chain[k + 1..e + 1])
      ensures ok ==> BlockTheorems.KeepsBalance(Items(chain), Items(added), Items(chain[k + 1..e + 1]), Items(result))
    {
      var endReplacement := replacement.Tail(added);
      var block := next;
      var endBlock := block.TerminateToEnd(block.next, chain, k + 2);
      e := EndFrom(chain, k + 2, Block, 1);
      result := chain;
      if endBlock == null { return false, e, chain; }
      ok := true;
      result := Relink(replacement, endReplacement, endBlock, chain, k, e, added);
      SpliceStaysBalanced(chain, k, e, added);
    }

    /** The three assignments of a splice. */
    method Relink(replacement: MulleScionObject, endReplacement: MulleScionObject, endBlock: MulleScionObject,
                  ghost chain: seq<MulleScionObject>, ghost k: nat, ghost e: nat, ghost added: seq<MulleScionObject>)
      returns (ghost result: seq<MulleScionObject>)
      requires IsChain(chain) && k < e < |chain| && chain[k] == this && chain[e] == endBlock
      requires IsChain(added) && added[0] == replacement && added[|added| - 1] == endReplacement
      requires Disjoint(chain, added)
      modifies this, endReplacement, endBlock
      ensures result == chain[..k + 1] + added + chain[e + 1..] && IsChain(result)
      ensures IsChain(chain[k + 1..e + 1])
    {
      next := replacement;
      endReplacement.next := endBlock.next;
      endBlock.next := null;
      result := chain[..k + 1] + added + chain[e + 1..];
      SplicedLinks(chain, k, e, added);
    }

    /** Puts a copy of its override in place of the owned block; `copy` is its first object. */
    method OverrideOwnedBlock(identifier: string, table: map<string, MulleScionObject>,
                              ghost chain: seq<MulleScionObject>, ghost k: nat, ghost mine: set<MulleScionObject>,
                              ghost chains: map<string, seq<MulleScionObject>>, ghost repr: set<MulleScionObject>)
      returns (ok: bool, copy: MulleScionObject, ghost e: nat, ghost added: seq<MulleScionObject>,
               ghost result: seq<MulleScionObject>, ghost mine': set<MulleScionObject>)
      requires IsChain(chain) && k + 1 < |chain| && chain[k] == this && chain[k + 1].item.IsBlock()
      requires IsTable(table, chains, repr) && identifier in table
      requires (forall o <- chain :: o in mine) && mine !! repr
      modifies mine
      ensures e == EndFrom(chain, k + 2, Block, 1)
      ensures ok == (e < |chain|) && IsChain(result) && k + 1 < |result| && result[0] == chain[0]
      ensures (forall o <- result :: o in mine') && mine' !! repr && fresh(mine' - mine)
      ensures IsTable(table, chains, repr)
      ensures !ok ==> result == chain
      ensures ok ==> result[k + 1] == copy
      ensures Items(added) == TableItems(chains)[identifier]
      ensures ok ==> result == chain[..k + 1] + added + chain[e + 1..]
    {
      copy, added := CopyOverride(identifier, table, chains, repr);
      DisjointFrom(chain, added, mine);
      mine' := mine + (set o <- added);
      ok, e, result := ReplaceOwnedBlockWith(copy, chain, k, added, mine');
      if ok { SpliceInside(chain, k, e, added, mine'); }
    }

    method CopyOverride(identifier: string, table: map<string, MulleScionObject>,
                        ghost chains: map<string, seq<MulleScionObject>>, ghost repr: set<MulleScionObject>)
      returns (copy: MulleScionObject, ghost added: seq<MulleScionObject>)
      requires IsTable(table, chains, repr) && identifier in table
      ensures IsChain(added) && added[0] == copy && forall n <- added :: fresh(n)
      ensures IsTable(table, chains, repr) && Items(added) == TableItems(chains)[identifier]
      ensures copy.item.IsBlock() && added[|added| - 1].item.IsEndBlock()
    {
      copy, added := table[identifier].Copy(chains[identifier]);
      EndOfSingleBlock(TableItems(chains)[identifier]);
    }

    /** Body of the expansion loop, for the block command that follows `this`: how the run
        ended there, or the owner and the stack to go on with. */
    method VisitBlockCommand(table: map<string, MulleScionObject>, stack: seq<string>,
                             ghost chain: seq<MulleScionObject>, ghost k: nat, ghost mine: set<MulleScionObject>,
                             ghost chains: map<string, seq<MulleScionObject>>, ghost repr: set<MulleScionObject>)
      returns (stop: Option<Outcome>, owner: MulleScionObject, stack': seq<string>,
               ghost result: seq<MulleScionObject>, ghost mine': set<MulleScionObject>)
      requires IsChain(chain) && k + 1 < |chain| && chain[k] == this
      requires chain[k + 1].item.IsBlock() || chain[k + 1].item.IsEndBlock()
      requires IsTable(table, chains, repr)
      requires (forall o <- chain :: o in mine) && mine !! repr
      modifies mine
      ensures IsChain(result) && result[0] == chain[0]
      ensures (forall o <- result :: o in mine') && mine' !! repr && fresh(mine' - mine)
      ensures IsTable(table, chains, repr)
      ensures stop.Some? ==>
        Final(stop.value, Items(result)) == RunFrom(Items(chain), k + 1, stack, TableItems(chains))
      ensures stop.None? ==> k + 1 < |result| && result[k + 1] == owner
      ensures var t := TableItems(chains);
        stop.None? ==> RunFrom(Items(result), k + 2, stack', t) == RunFrom(Items(chain), k + 1, stack, t)
      ensures var t := TableItems(chains);
        stop.None? ==> WeightFrom(Items(result), k + 2, stack', t) < WeightFrom(Items(chain), k + 1, stack, t)
    {
      ghost var t := TableItems(chains);
      var block := next;
      stop, owner, stack', result, mine' := None, block, stack, chain, mine;
      RunVisits(Items(chain), k + 1, stack, t);
      if block.item.IsEndBlock() {
        if stack == [] { stop := Some(EmptyStackPop); return; }
        stack' := stack[..|stack| - 1];
        return;
      }
      var identifier := block.item.identifier;
      if identifier in stack {
        stop := Some(RecursiveBlock(block.item.lineNumber, identifier, stack));
        return;
      }
      stack' := stack + [identifier];
      if identifier !in table { return; }
      var ok, copy, e, added, spliced, more := OverrideOwnedBlock(identifier, table, chain, k, mine, chains, repr);
      result, mine', owner := spliced, more, copy;
      if ok {
        RunSplicesChain(chain, k + 1, identifier, e, added, result, stack, t);
      } else {
        stop := Some(MissingEndblock(identifier));
        RunStopsChain(chain, k + 1, stack, t);
      }
    }

    /** `table` maps identifiers to the first objects of `chains`. */
    method ExpandBlocksUsingTable(table: map<string, MulleScionObject>,
                                  ghost nodes: seq<MulleScionObject>, ghost own: set<MulleScionObject>,
                                  ghost chains: map<string, seq<MulleScionObject>>,
                                  ghost repr: set<MulleScionObject>)
      returns (outcome: Outcome, ghost chain: seq<MulleScionObject>)
      requires IsChain(nodes) && nodes[0] == this
      requires IsTable(table, chains, repr) && (forall o <- nodes :: o in own) && own !! repr
      modifies own
      ensures IsChain(chain) && chain[0] == this
      ensures Final(outcome, Items(chain)) == RunFrom(Items(nodes), 1, [], TableItems(chains))
      ensures IsTable(table, chains, repr) && forall o <- chain :: o !in repr
      ensures forall o <- chain :: ComesFrom(o.item, nodes, chains)
    {
      chain := nodes;
      var stack: seq<string>, owner := [], this;
      ghost var k: nat, mine := 0, own;
      ghost var t := TableItems(chains);
      while true
        invariant IsChain(chain) && k < |chain| && owner == chain[k] && chain[0] == this
        invariant (forall o <- chain :: o in mine) && mine !! repr && fresh(mine - own)
        invariant IsTable(table, chains, repr)
        invariant RunFrom(Items(chain), k + 1, stack, t) == RunFrom(Items(nodes), 1, [], t)
        decreases WeightFrom(Items(chain), k + 1, stack, t)
      {
        var stop;
        stop, owner, stack, k, chain, mine := owner.ExpandOne(table, stack, chain, k, mine, chains, repr);
        if stop.Some? {
          AllComeFrom(stop.value, chain, nodes, chains);
          return stop.value, chain;
        }
      }
    }

    /** One round of the loop: on to the next block command, and what is done there. */
    method ExpandOne(table: map<string, MulleScionObject>, stack: seq<string>,
                     ghost chain: seq<MulleScionObject>, ghost k: nat, ghost mine: set<MulleScionObject>,
                     ghost chains: map<string, seq<MulleScionObject>>, ghost repr: set<MulleScionObject>)
      returns (stop: Option<Outcome>, owner: MulleScionObject, stack': seq<string>, ghost k': nat,
               ghost result: seq<MulleScionObject>, ghost mine': set<MulleScionObject>)
      requires IsChain(chain) && k < |chain| && chain[k] == this && IsTable(table, chains, repr)
      requires (forall o <- chain :: o in mine) && mine !! repr
      modifies mine
      ensures IsChain(result) && result[0] == chain[0]
      ensures (forall o <- result :: o in mine') && mine' !! repr && fresh(mine' - mine)
      ensures IsTable(table, chains, repr)
      ensures stop.Some? ==>
        Final(stop.value, Items(result)) == RunFrom(Items(chain), k + 1, stack, TableItems(chains))
      ensures stop.None? ==> k' < |result| && result[k'] == owner
      ensures var t := TableItems(chains);
        stop.None? ==> RunFrom(Items(result), k' + 1, stack', t) == RunFrom(Items(chain), k + 1, stack, t)
      ensures var t := TableItems(chains);
        stop.None? ==> WeightFrom(Items(result), k' + 1, stack', t) < WeightFrom(Items(chain), k + 1, stack, t)
    {
      owner, stack', k', result, mine' := this, stack, k, chain, mine;
      var next, j := NextOwnerOfBlockCommand(chain, k);
      RunSkips(Items(chain), k + 1, j + 1, stack, TableItems(chains));
      if next == null { return Some(Expanded), owner, stack', k', result, mine'; }
      stop, owner, stack', result, mine' := next.VisitBlockCommand(table, stack, chain, j, mine, chains, repr);
      k' := j + 1;
    }
  }

  /** The block table: first objects of chains made of objects in `repr`. */
  ghost predicate IsTable(table: map<string, MulleScionObject>, chains: map<string, seq<MulleScionObject>>,
                          repr: set<MulleScionObject>)
    reads repr
  {
    && table.Keys == chains.Keys
    && (forall id <- chains :: (forall o <- chains[id] :: o in repr) && IsChain(chains[id]))
    && (forall id <- chains :: chains[id][0] == table[id] && IsSingleBlock(Items(chains[id])))
  }

  /** An item of the chain, or a copy of one of an override's. */
  ghost predicate ComesFrom(x: Item, nodes: seq<MulleScionObject>, chains: map<string, seq<MulleScionObject>>) {
    || (exists o <- nodes :: x == o.item)
    || (exists id :: id in chains && exists o <- chains[id] :: IsCopy(x, o.item))
  }

  lemma AllComeFrom(outcome: Outcome, chain: seq<MulleScionObject>, nodes: seq<MulleScionObject>,
                    chains: map<string, seq<MulleScionObject>>)
    requires nodes != [] && forall id <- chains :: IsSingleBlock(Items(chains[id]))
    requires Final(outcome, Items(chain)) == RunFrom(Items(nodes), 1, [], TableItems(chains))
    ensures forall o <- chain :: ComesFrom(o.item, nodes, chains)
  {
    forall o | o in chain ensures ComesFrom(o.item, nodes, chains) {
      HasItem(chain, o);
      OneComesFrom(o.item, nodes, chains);
    }
  }

  lemma OneComesFrom(x: Item, nodes: seq<MulleScionObject>, chains: map<string, seq<MulleScionObject>>)
    requires nodes != [] && forall id <- chains :: IsSingleBlock(Items(chains[id]))
    requires x in RunFrom(Items(nodes), 1, [], TableItems(chains)).items
    ensures ComesFrom(x, nodes, chains)
  {
    var s, t := Items(nodes), TableItems(chains);
    BlockContent.NothingMadeUp(s[..1], s[1..], [], t, x);
    if x in s[..1] || x in s[1..] {
      FromNodes(x, nodes);
    } else {
      var id :| id in t && x in t[id];
      FromOverride(x, chains, id);
    }
  }

  lemma HasItem(chain: seq<MulleScionObject>, o: MulleScionObject)
    requires o in chain
    ensures o.item in Items(chain)
  {
    var k :| 0 <= k < |chain| && chain[k] == o;
    assert Items(chain)[k] == o.item;
  }

  lemma FromNodes(x: Item, nodes: seq<MulleScionObject>)
    requires x in Items(nodes)
    ensures exists o <- nodes :: x == o.item
  {
    var j :| 0 <= j < |nodes| && Items(nodes)[j] == x;
    assert nodes[j] in nodes && nodes[j].item == x;
  }

  lemma FromOverride(x: Item, chains: map<string, seq<MulleScionObject>>, id: string)
    requires forall id <- chains :: IsSingleBlock(Items(chains[id]))
    requires id in chains && x in TableItems(chains)[id]
    ensures exists o <- chains[id] :: IsCopy(x, o.item)
  {
    FromArchived(x, chains[id]);
  }

  lemma FromArchived(x: Item, chain: seq<MulleScionObject>)
    requires x in ArchivedAll(Items(chain))
    ensures exists o <- chain :: IsCopy(x, o.item)
  {
    var i: nat :| i < |chain| && ArchivedAll(Items(chain))[i] == x;
    assert chain[i] in chain && IsCopy(x, chain[i].item);
  }

  /** What the copies hold that the loop splices in. */
  ghost function TableItems(chains: map<string, seq<MulleScionObject>>): BlockTable
    requires forall id <- chains :: IsSingleBlock(Items(chains[id]))
  {
    assert forall id <- chains :: IsSingleBlock(ArchivedAll(Items(chains[id]))) by {
      forall id | id in chains ensures IsSingleBlock(ArchivedAll(Items(chains[id]))) {
        ArchivedSingleBlock(Items(chains[id]));
      }
    }
    map id <- chains :: ArchivedAll(Items(chains[id]))
  }

  /** What the loop still does from element `i` of the chain `s` on, and its measure. */
  ghost function RunFrom(s: seq<Item>, i: nat, stack: seq<string>, t: BlockTable): Final
    requires i <= |s|
  {
    Run(s[..i], s[i..], stack, t)
  }

  ghost function WeightFrom(s: seq<Item>, i: nat, stack: seq<string>, t: BlockTable): nat
    requires i <= |s|
  {
    Weight(s[i..], stack, t)
  }

  lemma {:induction false} RunSkips(s: seq<Item>, i: nat, j: nat, stack: seq<string>, t: BlockTable)
    requires i <= j <= |s|
    requires forall n :: i <= n < j ==> !s[n].IsBlock() && !s[n].IsEndBlock()
    ensures RunFrom(s, i, stack, t) == RunFrom(s, j, stack, t)
    ensures WeightFrom(s, j, stack, t) <= WeightFrom(s, i, stack, t)
    ensures j == |s| ==> RunFrom(s, i, stack, t) == Final(Expanded, s)
    decreases j - i
  {
    if i < j {
      assert s[..i] + [s[i]] == s[..i + 1] && s[i..][1..] == s[i + 1..];
      RunSkips(s, i + 1, j, stack, t);
    } else if j == |s| {
      assert s[..j] == s;
    }
  }

  /** One visit that splices nothing. */
  lemma RunVisits(s: seq<Item>, i: nat, stack: seq<string>, t: BlockTable)
    requires i < |s| && (s[i].IsBlock() || s[i].IsEndBlock())
    ensures var stack' := StackAfter(s[i], stack);
      if s[i].IsEndBlock() && stack == [] then RunFrom(s, i, stack, t) == Final(EmptyStackPop, s)
      else if s[i].IsBlock() && s[i].identifier in stack then
        RunFrom(s, i, stack, t) == Final(RecursiveBlock(s[i].lineNumber, s[i].identifier, stack), s)
      else
        && WeightFrom(s, i + 1, stack', t) < WeightFrom(s, i, stack, t)
        && (s[i].IsEndBlock() || s[i].identifier !in t ==>
              RunFrom(s, i, stack, t) == RunFrom(s, i + 1, stack', t))
  {
    assert s[..i] + [s[i]] == s[..i + 1] && s[i..][1..] == s[i + 1..] && s[..i] + s[i..] == s;
  }

  /** One visit of an overridden block without an end. */
  lemma RunStopsChain(chain: seq<MulleScionObject>, i: nat, stack: seq<string>, t: BlockTable)
    requires i < |chain| && chain[i].item.IsBlock()
    requires chain[i].item.identifier in t && chain[i].item.identifier !in stack
    requires EndFrom(chain, i + 1, Block, 1) == |chain|
    ensures RunFrom(Items(chain), i, stack, t) == Final(MissingEndblock(chain[i].item.identifier), Items(chain))
  {
    EndFromIsFindEnd(chain, i + 1, Block, 1);
    RunStops(Items(chain), i, stack, t);
  }

  lemma RunStops(s: seq<Item>, i: nat, stack: seq<string>, t: BlockTable)
    requires i < |s| && s[i].IsBlock() && s[i].identifier in t && s[i].identifier !in stack
    requires i + 1 + FindEnd(s[i + 1..], Block, 1) == |s|
    ensures RunFrom(s, i, stack, t) == Final(MissingEndblock(s[i].identifier), s)
  {
    assert s[i..][1..] == s[i + 1..] && s[..i] + s[i..] == s;
  }

  /** One visit that splices. */
  lemma RunSplicesChain(chain: seq<MulleScionObject>, i: nat, id: string, e: nat, added: seq<MulleScionObject>,
                        result: seq<MulleScionObject>, stack: seq<string>, t: BlockTable)
    requires i < |chain| && chain[i].item.IsBlock() && chain[i].item.identifier == id
    requires id in t && id !in stack && Items(added) == t[id]
    requires e == EndFrom(chain, i + 1, Block, 1) < |chain|
    requires result == chain[..i] + added + chain[e + 1..]
    ensures i < |result|
    ensures RunFrom(Items(chain), i, stack, t) == RunFrom(Items(result), i + 1, stack + [id], t)
    ensures WeightFrom(Items(result), i + 1, stack + [id], t) < WeightFrom(Items(chain), i, stack, t)
  {
    SplicedItems(chain, i, e, added);
    RunSplices(Items(chain), i, id, e, Items(result), stack, t);
  }

  lemma SplicedItems(chain: seq<MulleScionObject>, i: nat, e: nat, added: seq<MulleScionObject>)
    requires i < |chain| && e == EndFrom(chain, i + 1, Block, 1) < |chain|
    ensures e == i + 1 + FindEnd(Items(chain)[i + 1..], Block, 1)
    ensures Items(chain[..i] + added + chain[e + 1..]) == Items(chain)[..i] + Items(added) + Items(chain)[e + 1..]
  {
    ItemsOfSplice(chain, i, e + 1, added);
    EndFromIsFindEnd(chain, i + 1, Block, 1);
  }

  lemma RunSplices(s: seq<Item>, i: nat, id: string, e: nat, s': seq<Item>, stack: seq<string>, t: BlockTable)
    requires i < |s| && s[i].IsBlock() && s[i].identifier == id
    requires id in t && id !in stack
    requires e == i + 1 + FindEnd(s[i + 1..], Block, 1) < |s|
    requires s' == s[..i] + t[id] + s[e + 1..]
    ensures i < |s'|
    ensures RunFrom(s, i, stack, t) == RunFrom(s', i + 1, stack + [id], t)
    ensures WeightFrom(s', i + 1, stack + [id], t) < WeightFrom(s, i, stack, t)
  {
    SplicedAt(s, i, e, t);
    SpliceLowersWeight(s[i..], stack, t);
  }

  lemma SplicedAt(s: seq<Item>, i: nat, e: nat, t: BlockTable)
    requires i < |s| && s[i].identifier in t
    requires e == i + 1 + FindEnd(s[i + 1..], Block, 1) < |s|
    ensures var r := t[s[i].identifier];
            var s' := s[..i] + r + s[e + 1..];
      && s[i..][1..] == s[i + 1..]
      && s'[..i + 1] == s[..i] + [r[0]]
      && s'[i + 1..] == Spliced(s[i..], t)
  {
    assert s[i..][1..] == s[i + 1..];
  }

  lemma ItemsOfSplice(s: seq<MulleScionObject>, lo: nat, hi: nat, t: seq<MulleScionObject>)
    requires lo <= hi <= |s|
    ensures Items(s[..lo] + t + s[hi..]) == Items(s)[..lo] + Items(t) + Items(s)[hi..]
  {
  }

  lemma SpliceStaysBalanced(chain: seq<MulleScionObject>, k: nat, e: nat, added: seq<MulleScionObject>)
    requires k + 1 < |chain| && chain[k + 1].item.IsBlock() && e == EndFrom(chain, k + 2, Block, 1) < |chain|
    ensures BlockTheorems.KeepsBalance(Items(chain), Items(added), Items(chain[k + 1..e + 1]),
                                       Items(chain[..k + 1] + added + chain[e + 1..]))
  {
    EndFromIsFindEnd(chain, k + 2, Block, 1);
    ItemsOfSplice(chain, k + 1, e + 1, added);
    ItemsOfPart(chain, k + 1, e + 1);
    BlockTheorems.SpliceKeepsBalance(Items(chain), k + 1, e, Items(added));
  }

  lemma ItemsOfPart(s: seq<MulleScionObject>, lo: nat, hi: nat)
    requires lo <= hi <= |s|
    ensures Items(s[lo..hi]) == Items(s)[lo..hi]
  {}
}
