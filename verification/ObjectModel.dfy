// Template elements and the bracket structure of a template chain
// (src/MulleScionObjectModel.m, src/MulleScionObjectModel.h).

module ObjectModel {
  import opened Wrappers

  datatype Class =
    | Template | PlainText | Expression | Command
    | For | ElseFor | EndFor
    | If | Else | EndIf
    | While | EndWhile
    | Block | EndBlock
    | Filter | EndFilter

  /** Everything an element of a chain carries besides its `next_` pointer.
      `identifier` is meaningful for blocks; `payload` stands for the other instance variables. */
  datatype Item = Item(cls: Class, identifier: string, lineNumber: nat, payload: string) {
    predicate IsBlock() { cls.Block? }
    predicate IsEndBlock() { cls.EndBlock? }
  }

  function TerminatorClass(c: Class): Option<Class> {
    match c
    case For => Some(EndFor)
    case If => Some(EndIf)
    case While => Some(EndWhile)
    case Block => Some(EndBlock)
    case _ => None
  }

  /** Offset in `s` of the element that closes `depth` open commands of class `open`;
      |s| when the chain runs out first. */
  function FindEnd(s: seq<Item>, open: Class, depth: nat): (k: nat)
    requires depth > 0
    ensures k <= |s|
  {
    if s == [] then 0
    else if s[0].cls == open then 1 + FindEnd(s[1..], open, depth + 1)
    else if Some(s[0].cls) == TerminatorClass(open) then
      if depth == 1 then 0 else 1 + FindEnd(s[1..], open, depth - 1)
    else 1 + FindEnd(s[1..], open, depth)
  }

  /** Open minus closed commands of one class. */
  function Balance(s: seq<Item>, open: Class): int {
    if s == [] then 0
    else (if s[0].cls == open then 1
          else if Some(s[0].cls) == TerminatorClass(open) then -1
          else 0) + Balance(s[1..], open)
  }

  /** FindEnd stops at the first position where the brackets seen so far close `depth`
      times more often than they open, and nowhere else. */
  lemma {:induction false} FindEndIsFirstClose(s: seq<Item>, open: Class, depth: nat)
    requires depth > 0
    ensures var k := FindEnd(s, open, depth);
      && (forall i :: 0 <= i <= k ==> Balance(s[..i], open) > -(depth as int))
      && (k < |s| ==> Balance(s[..k + 1], open) == -(depth as int))
  {
    if s != [] {
      var k := FindEnd(s, open, depth);
      var d := if s[0].cls == open then depth + 1
               else if Some(s[0].cls) == TerminatorClass(open) then depth - 1 else depth;
      if d > 0 {
        FindEndIsFirstClose(s[1..], open, d);
        forall i | 0 <= i <= k ensures Balance(s[..i], open) > -(depth as int) {
          if i > 0 { PrefixOfTail(s, i); }
        }
      }
      if k < |s| { PrefixOfTail(s, k + 1); }
    }
  }

  lemma PrefixOfTail(s: seq<Item>, i: nat)
    requires 0 < i <= |s|
    ensures s[..i][1..] == s[1..][..i - 1] && s[..i][0] == s[0]
  {
  }

  lemma {:induction false} FindEndAppend(s: seq<Item>, t: seq<Item>, open: Class, depth: nat)
    requires depth > 0 && FindEnd(s, open, depth) < |s|
    ensures FindEnd(s + t, open, depth) == FindEnd(s, open, depth)
  {
    var all := s + t;
    assert all[0] == s[0] && all[1..] == s[1..] + t;
    var d := if s[0].cls == open then depth + 1
             else if Some(s[0].cls) == TerminatorClass(open) then depth - 1 else depth;
    if d > 0 {
      assert FindEnd(s, open, depth) == 1 + FindEnd(s[1..], open, d);
      FindEndAppend(s[1..], t, open, d);
    }
  }

  /** A chain of a block table: one block, closed by the last element and not before. */
  predicate IsSingleBlock(r: seq<Item>) {
    |r| >= 2 && r[0].IsBlock() && FindEnd(r[1..], Block, 1) == |r| - 2
  }

  lemma EndOfSingleBlock(r: seq<Item>)
    requires IsSingleBlock(r)
    ensures r[|r| - 1].IsEndBlock()
  {
    EndIsTerminator(r[1..], Block, 1);
  }

  lemma {:induction false} EndIsTerminator(s: seq<Item>, open: Class, depth: nat)
    requires depth > 0 && FindEnd(s, open, depth) < |s|
    ensures Some(s[FindEnd(s, open, depth)].cls) == TerminatorClass(open)
  {
    if s[0].cls == open {
      EndIsTerminator(s[1..], open, depth + 1);
    } else if Some(s[0].cls) != TerminatorClass(open) {
      EndIsTerminator(s[1..], open, depth);
    } else if depth > 1 {
      EndIsTerminator(s[1..], open, depth - 1);
    }
  }

  type BlockTable = t: map<string, seq<Item>> | forall id <- t :: IsSingleBlock(t[id])
    witness map[]

  /** Which command ends which. */
  predicate Ends(close: Class, open: Class) {
    || (open.For? && close.EndFor?) || (open.If? && close.EndIf?)
    || (open.While? && close.EndWhile?) || (open.Block? && close.EndBlock?)
  }

  lemma EndEnds(s: seq<Item>, open: Class)
    requires FindEnd(s, open, 1) < |s|
    ensures Ends(s[FindEnd(s, open, 1)].cls, open)
  {
    EndIsTerminator(s, open, 1);
  }

  // ---- copies ----

  /** Class, identifier and payload are the same, and so are the lower 32 bits of the line number. */
  predicate IsCopy(x: Item, y: Item) {
    && x.cls == y.cls && x.identifier == y.identifier && x.payload == y.payload
    && x.lineNumber == y.lineNumber % 4294967296
  }

  /** What an archive keeps of an element: a line number is written in 32 bits. */
  function Archived(x: Item): Item { x.(lineNumber := x.lineNumber % 0x1_0000_0000) }

  function ArchivedAll(s: seq<Item>): (r: seq<Item>)
    ensures |r| == |s|
  {
    seq(|s|, i requires 0 <= i < |s| => Archived(s[i]))
  }

  lemma {:induction false} ArchivedEnd(s: seq<Item>, open: Class, depth: nat)
    requires depth > 0
    ensures FindEnd(ArchivedAll(s), open, depth) == FindEnd(s, open, depth)
  {
    if s != [] {
      assert ArchivedAll(s)[1..] == ArchivedAll(s[1..]);
      var d := if s[0].cls == open then depth + 1
               else if Some(s[0].cls) == TerminatorClass(open) then depth - 1 else depth;
      if d > 0 { ArchivedEnd(s[1..], open, d); }
    }
  }

  /** A copied block is a block. */
  lemma ArchivedSingleBlock(r: seq<Item>)
    requires IsSingleBlock(r)
    ensures IsSingleBlock(ArchivedAll(r))
  {
    assert ArchivedAll(r)[1..] == ArchivedAll(r[1..]);
    ArchivedEnd(r[1..], Block, 1);
  }
}
