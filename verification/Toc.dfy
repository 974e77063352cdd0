// The table-of-contents renderer (src/hoedown/html.c:213-229, 559-663).

module Toc {

  /** An anchor links to the header with id toc_`number`; `place` is what it shows: the text of the
      header that stands there. */
  datatype Link = Link(place: nat, number: nat)

  datatype Tag = OpenUl | CloseUl | OpenLi | CloseLi | Anchor(link: Link)

  datatype Element = Ul | Li

  /** The elements open after `tags`, None once a tag closes what is not on top, or an
      item or an anchor stands outside its place. */
  datatype Nesting = Broken | Open(stack: seq<Element>)

  function After(before: Nesting, tag: Tag): Nesting {
    match before
    case Broken => Broken
    case Open(stack) =>
      var top := if stack == [] then [] else [stack[|stack| - 1]];
      match tag
      case OpenUl => Open(stack + [Ul])
      case OpenLi => if top == [Ul] then Open(stack + [Li]) else Broken
      case CloseUl => if top == [Ul] then Open(stack[..|stack| - 1]) else Broken
      case CloseLi => if top == [Li] then Open(stack[..|stack| - 1]) else Broken
      case Anchor(_) => if top == [Li] then before else Broken
  }

  function Nest(before: Nesting, tags: seq<Tag>): Nesting
    decreases |tags|
  {
    if tags == [] then before else After(Nest(before, tags[..|tags| - 1]), tags[|tags| - 1])
  }

  /** Properly nested from nothing to nothing. */
  predicate Balanced(tags: seq<Tag>) { Nest(Open([]), tags) == Open([]) }

  /** `depth` lists inside each other, each with an open item. */
  function Levels(depth: nat): seq<Element> {
    if depth == 0 then [] else Levels(depth - 1) + [Ul, Li]
  }

  function Times(tags: seq<Tag>, n: nat): seq<Tag> {
    if n == 0 then [] else Times(tags, n - 1) + tags
  }

  // ---- what the renderer writes ----

  datatype TocData = TocData(currentLevel: int, levelOffset: int, headerCount: nat)

  /** A header as the parser hands it over: where it stands in the text, its level, and whether what
      the renderer writes for it reaches the document. The output for block quotes and list items
      does not, because this renderer has no callback for them. */
  datatype Header = Header(place: nat, level: int, kept: bool)

  predicate Listed(level: int, nesting: int) { level <= nesting }

  function OffsetFor(st: TocData, level: int): int {
    if st.currentLevel == 0 then level - 1 else st.levelOffset
  }

  /** Tags that move from one level to another, before the anchor. */
  function Moves(from: int, to': int): seq<Tag> {
    if to' > from then Times([OpenUl, OpenLi], to' - from)
    else if to' < from then [CloseLi] + Times([CloseUl, CloseLi], from - to') + [OpenLi]
    else [CloseLi, OpenLi]
  }

  function HeaderTags(st: TocData, level: int, place: nat): seq<Tag> {
    Moves(st.currentLevel, level - OffsetFor(st, level)) + [Anchor(Link(place, st.headerCount))]
  }

  function HeaderState(st: TocData, level: int): TocData {
    TocData(level - OffsetFor(st, level), OffsetFor(st, level), st.headerCount + 1)
  }

  /** The renderer's state after some headers; it does not depend on what is kept. */
  function StateAfter(st: TocData, headers: seq<Header>, nesting: int): TocData
    decreases |headers|
  {
    if headers == [] then st
    else
      var before, last := StateAfter(st, headers[..|headers| - 1], nesting), headers[|headers| - 1];
      if Listed(last.level, nesting) then HeaderState(before, last.level) else before
  }

  /** What of its output reaches the document. */
  function TagsAfter(st: TocData, headers: seq<Header>, nesting: int): seq<Tag>
    decreases |headers|
  {
    if headers == [] then []
    else
      var front, last := headers[..|headers| - 1], headers[|headers| - 1];
      TagsAfter(st, front, nesting)
      + if Listed(last.level, nesting) && last.kept
        then HeaderTags(StateAfter(st, front, nesting), last.level, last.place)
        else []
  }

  function FinalTags(st: TocData): seq<Tag> {
    if st.currentLevel > 0 then Times([CloseLi, CloseUl], st.currentLevel) else []
  }

  /** The document: its headers, and the end. */
  function Contents(st: TocData, headers: seq<Header>, nesting: int): seq<Tag> {
    TagsAfter(st, headers, nesting) + FinalTags(StateAfter(st, headers, nesting))
  }

  class TocRenderer {
    const nestingLevel: int
    var currentLevel: int
    var levelOffset: int
    var headerCount: nat

    ghost function State(): TocData
      reads this
    {
      TocData(currentLevel, levelOffset, headerCount)
    }

    constructor (nestingLevel: int)
      ensures State() == TocData(0, 0, 0) && this.nestingLevel == nestingLevel
    {
      this.nestingLevel := nestingLevel;
      currentLevel, levelOffset, headerCount := 0, 0, 0;
    }

    /** Adds to the buffer the parser passes, `ob`. */
    method Header(ob: seq<Tag>, place: nat, level': int) returns (ob': seq<Tag>)
      modifies this
      ensures if Listed(level', nestingLevel)
              then State() == HeaderState(old(State()), level') && ob' == ob + HeaderTags(old(State()), level', place)
              else State() == old(State()) && ob' == ob
    {
      var level := level';
      ob' := ob;
      if level <= nestingLevel {
        if currentLevel == 0 { levelOffset := level - 1; }
        level := level - levelOffset;
        ob' := MoveTo(ob, level);
        ob' := ob' + [Anchor(Link(place, headerCount))];
        headerCount := headerCount + 1;
      }
    }

    method MoveTo(out: seq<Tag>, level: int) returns (ob: seq<Tag>)
      modifies this`currentLevel
      ensures currentLevel == level && ob == out + Moves(old(currentLevel), level)
    {
      ghost var from := currentLevel;
      ob := out;
      if level > currentLevel {
        while level > currentLevel
          invariant from <= currentLevel <= level && ob == out + Times([OpenUl, OpenLi], currentLevel - from)
        {
          ob := ob + [OpenUl, OpenLi];
          currentLevel := currentLevel + 1;
        }
      } else if level < currentLevel {
        ob := ob + [CloseLi];
        while level < currentLevel
          invariant level <= currentLevel <= from
          invariant ob == out + [CloseLi] + Times([CloseUl, CloseLi], from - currentLevel)
        {
          ob := ob + [CloseUl, CloseLi];
          currentLevel := currentLevel - 1;
        }
        ob := ob + [OpenLi];
      } else {
        ob := ob + [CloseLi, OpenLi];
      }
    }

    method Finalize(out: seq<Tag>, inlineRender: bool) returns (ob: seq<Tag>)
      modifies this
      ensures inlineRender ==> State() == old(State()) && ob == out
      ensures !inlineRender ==> ob == out + FinalTags(old(State())) && headerCount == 0
      ensures !inlineRender ==> currentLevel == if old(currentLevel) > 0 then 0 else old(currentLevel)
    {
      ob := out;
      if inlineRender { return; }
      ghost var from := currentLevel;
      while currentLevel > 0
        invariant from > 0 ==> 0 <= currentLevel <= from && ob == out + Times([CloseLi, CloseUl], from - currentLevel)
        invariant from <= 0 ==> currentLevel == from && ob == out
      {
        ob := ob + [CloseLi, CloseUl];
        currentLevel := currentLevel - 1;
      }
      headerCount := 0;
    }

    /** A whole document. A header that is not kept writes to a buffer that is then dropped. */
    method Render(headers: seq<Header>) returns (ob: seq<Tag>)
      modifies this
      ensures ob == Contents(old(State()), headers, nestingLevel)
      ensures headerCount == 0
    {
      ghost var st := State();
      ob := [];
      for i := 0 to |headers|
        invariant State() == StateAfter(st, headers[..i], nestingLevel)
        invariant ob == TagsAfter(st, headers[..i], nestingLevel)
      {
        assert headers[..i + 1][..i] == headers[..i];
        if headers[i].kept {
          ob := Header(ob, headers[i].place, headers[i].level);
        } else {
          var dropped := Header([], headers[i].place, headers[i].level);
        }
      }
      assert headers[..|headers|] == headers;
      ob := Finalize(ob, false);
    }
  }

  // ---- nesting ----

  lemma {:induction false} NestAppend(before: Nesting, a: seq<Tag>, b: seq<Tag>)
    ensures Nest(before, a + b) == Nest(Nest(before, a), b)
    decreases |b|
  {
    if b == [] {
      assert a + b == a;
    } else {
      var c := b[..|b| - 1];
      assert (a + b)[..|a + b| - 1] == a + c;
      NestAppend(before, a, c);
    }
  }

  lemma {:induction false} BrokenStays(tags: seq<Tag>)
    ensures Nest(Broken, tags) == Broken
    decreases |tags|
  {
    if tags != [] { BrokenStays(tags[..|tags| - 1]); }
  }

  lemma NestTwo(before: Nesting, a: Tag, b: Tag)
    ensures Nest(before, [a, b]) == After(After(before, a), b)
  {
    assert [a, b][..1] == [a] && [a][..0] == [];
    assert Nest(before, [a]) == After(Nest(before, []), a);
  }

  lemma OpenPair(depth: nat)
    ensures Nest(Open(Levels(depth)), [OpenUl, OpenLi]) == Open(Levels(depth + 1))
  {
    var s := Levels(depth);
    NestTwo(Open(s), OpenUl, OpenLi);
    assert s + [Ul] + [Li] == s + [Ul, Li];
  }

  /** `</ul></li>` from a list whose item was just closed. */
  lemma ClosePair(depth: nat)
    ensures Nest(Open(Levels(depth) + [Ul]), [CloseUl, CloseLi])
         == if depth > 0 then Open(Levels(depth - 1) + [Ul]) else Broken
  {
    var s := Levels(depth);
    NestTwo(Open(s + [Ul]), CloseUl, CloseLi);
    assert (s + [Ul])[..|s|] == s;
    if depth > 0 { assert s[..|s| - 1] == Levels(depth - 1) + [Ul]; }
  }

  /** `</li></ul>`. */
  lemma EndPair(depth: nat)
    ensures Nest(Open(Levels(depth + 1)), [CloseLi, CloseUl]) == Open(Levels(depth))
  {
    var s := Levels(depth);
    NestTwo(Open(s + [Ul, Li]), CloseLi, CloseUl);
    assert (s + [Ul, Li])[..|s| + 1] == s + [Ul] && (s + [Ul])[..|s|] == s;
  }

  lemma {:induction false} Opening(depth: nat, n: nat)
    ensures Nest(Open(Levels(depth)), Times([OpenUl, OpenLi], n)) == Open(Levels(depth + n))
  {
    if n > 0 {
      Opening(depth, n - 1);
      NestAppend(Open(Levels(depth)), Times([OpenUl, OpenLi], n - 1), [OpenUl, OpenLi]);
      OpenPair(depth + n - 1);
    }
  }

  /** `</ul></li>` repeated: stays inside the outermost list exactly as long as there are
      inner lists to close. */
  lemma {:induction false} Closing(depth: nat, n: nat)
    ensures Nest(Open(Levels(depth) + [Ul]), Times([CloseUl, CloseLi], n))
         == if n <= depth then Open(Levels(depth - n) + [Ul]) else Broken
  {
    if n > 0 {
      Closing(depth, n - 1);
      NestAppend(Open(Levels(depth) + [Ul]), Times([CloseUl, CloseLi], n - 1), [CloseUl, CloseLi]);
      if n - 1 <= depth { ClosePair(depth - (n - 1)); } else { BrokenStays([CloseUl, CloseLi]); }
    }
  }

  lemma {:induction false} ClosingAll(depth: nat, n: nat)
    ensures Nest(Open(Levels(depth)), Times([CloseLi, CloseUl], n))
         == if n <= depth then Open(Levels(depth - n)) else Broken
  {
    if n > 0 {
      ClosingAll(depth, n - 1);
      NestAppend(Open(Levels(depth)), Times([CloseLi, CloseUl], n - 1), [CloseLi, CloseUl]);
      if n <= depth { EndPair(depth - n); } else { NothingToClose(); BrokenStays([CloseLi, CloseUl]); }
    }
  }

  lemma NothingToClose()
    ensures Nest(Open([]), [CloseLi, CloseUl]) == Broken && Nest(Open([]), [CloseLi]) == Broken
  {
    NestTwo(Open([]), CloseLi, CloseUl);
    assert [CloseLi][..0] == [];
  }

  /** In `depth` lists, a move works exactly when it ends inside a list. */
  lemma MovesNest(depth: nat, from: int, level: int)
    ensures Nest(Open(Levels(depth)), Moves(from, level))
         == if depth + level - from >= 1 then Open(Levels(depth + level - from)) else Broken
  {
    if level > from {
      Opening(depth, level - from);
    } else if depth == 0 {
      FirstMove(from, level);
    } else {
      MovesDown(from, level);
      MoveDown(depth, from - level);
    }
  }

  lemma FirstMove(from: int, level: int)
    requires level <= from
    ensures Nest(Open([]), Moves(from, level)) == Broken
  {
    var rest := Moves(from, level)[1..];
    assert Moves(from, level) == [CloseLi] + rest;
    NestAppend(Open([]), [CloseLi], rest);
    NothingToClose();
    BrokenStays(rest);
  }

  lemma MoveDown(depth: nat, n: nat)
    requires depth > 0
    ensures Nest(Open(Levels(depth)), [CloseLi] + Times([CloseUl, CloseLi], n) + [OpenLi])
         == if depth - n >= 1 then Open(Levels(depth - n)) else Broken
  {
    LeaveLevels(depth, n);
    ThenOpenItem(Open(Levels(depth)), [CloseLi] + Times([CloseUl, CloseLi], n), depth - n);
  }

  lemma MovesDown(from: int, level: int)
    requires level <= from
    ensures Moves(from, level) == [CloseLi] + Times([CloseUl, CloseLi], from - level) + [OpenLi]
  {
    if level == from { assert [CloseLi] + [] + [OpenLi] == [CloseLi, OpenLi]; }
  }

  lemma ThenOpenItem(before: Nesting, down: seq<Tag>, depth: int)
    requires Nest(before, down) == if depth >= 1 then Open(Levels(depth - 1) + [Ul]) else Broken
    ensures Nest(before, down + [OpenLi]) == if depth >= 1 then Open(Levels(depth)) else Broken
  {
    NestAppend(before, down, [OpenLi]);
    if depth >= 1 { EnterItem(depth); } else { BrokenStays([OpenLi]); }
  }

  lemma LeaveLevels(depth: nat, n: nat)
    requires depth > 0
    ensures Nest(Open(Levels(depth)), [CloseLi] + Times([CloseUl, CloseLi], n))
         == if depth - n >= 1 then Open(Levels(depth - n - 1) + [Ul]) else Broken
  {
    LeaveItem(depth);
    NestAppend(Open(Levels(depth)), [CloseLi], Times([CloseUl, CloseLi], n));
    Closing(depth - 1, n);
  }

  lemma LeaveItem(depth: nat)
    requires depth > 0
    ensures Nest(Open(Levels(depth)), [CloseLi]) == Open(Levels(depth - 1) + [Ul])
  {
    var s := Levels(depth - 1);
    assert [CloseLi][..0] == [];
    assert (s + [Ul, Li])[..|s| + 1] == s + [Ul];
  }

  lemma EnterItem(depth: nat)
    requires depth > 0
    ensures Nest(Open(Levels(depth - 1) + [Ul]), [OpenLi]) == Open(Levels(depth))
  {
    var s := Levels(depth - 1);
    assert [OpenLi][..0] == [];
    assert s + [Ul] + [Li] == s + [Ul, Li];
  }

  // ---- whole documents ----

  /** In how many lists the document stands: the moves of the headers that are kept, added up. */
  function Depth(st: TocData, headers: seq<Header>, nesting: int): int
    decreases |headers|
  {
    if headers == [] then 0
    else
      var front, last := headers[..|headers| - 1], headers[|headers| - 1];
      Depth(st, front, nesting)
      + if !last.kept then 0
        else StateAfter(st, headers, nesting).currentLevel - StateAfter(st, front, nesting).currentLevel
  }

  /** Every entry stands in at least one list. */
  predicate Inside(st: TocData, headers: seq<Header>, nesting: int)
    decreases |headers|
  {
    headers == [] || (
      var last := headers[|headers| - 1];
      && Inside(st, headers[..|headers| - 1], nesting)
      && (Listed(last.level, nesting) && last.kept ==> Depth(st, headers, nesting) >= 1))
  }

  /** The document is in `depth` lists, or was broken before. */
  ghost predicate StandsIn(tags: seq<Tag>, ok: bool, depth: int) {
    if ok then depth >= 0 && Nest(Open([]), tags) == Open(Levels(depth)) else Nest(Open([]), tags) == Broken
  }

  lemma {:induction false} RunNests(st: TocData, headers: seq<Header>, nesting: int)
    ensures StandsIn(TagsAfter(st, headers, nesting), Inside(st, headers, nesting), Depth(st, headers, nesting))
    decreases |headers|
  {
    if headers != [] {
      var front, last := headers[..|headers| - 1], headers[|headers| - 1];
      var tags, before := TagsAfter(st, front, nesting), StateAfter(st, front, nesting);
      RunNests(st, front, nesting);
      if Listed(last.level, nesting) && last.kept {
        NextEntry(tags, Inside(st, front, nesting), Depth(st, front, nesting), before, last.level, last.place);
      } else {
        assert TagsAfter(st, headers, nesting) == tags;
      }
    }
  }

  lemma NextEntry(tags: seq<Tag>, ok: bool, depth: int, st: TocData, level: int, place: nat)
    requires StandsIn(tags, ok, depth)
    ensures var depth' := depth + (HeaderState(st, level).currentLevel - st.currentLevel);
      StandsIn(tags + HeaderTags(st, level, place), ok && depth' >= 1, depth')
  {
    NestAppend(Open([]), tags, HeaderTags(st, level, place));
    if ok { HeaderNests(depth, st, level, place); } else { BrokenStays(HeaderTags(st, level, place)); }
  }

  lemma HeaderNests(depth: nat, st: TocData, level: int, place: nat)
    ensures var depth' := depth + (HeaderState(st, level).currentLevel - st.currentLevel);
      Nest(Open(Levels(depth)), HeaderTags(st, level, place)) == if depth' >= 1 then Open(Levels(depth')) else Broken
  {
    var to' := level - OffsetFor(st, level);
    var moves, anchor := Moves(st.currentLevel, to'), [Anchor(Link(place, st.headerCount))];
    NestAppend(Open(Levels(depth)), moves, anchor);
    MovesNest(depth, st.currentLevel, to');
    assert anchor[..0] == [];
  }

  /** The markup of a document is properly nested and closed exactly when every entry stands in a
      list and the kept moves add up to the level the renderer ends at. */
  lemma BalancedIffKeptMovesAddUp(st: TocData, headers: seq<Header>, nesting: int)
    ensures var level := StateAfter(st, headers, nesting).currentLevel;
      Balanced(Contents(st, headers, nesting))
      <==> Inside(st, headers, nesting) && Depth(st, headers, nesting) == if level > 0 then level else 0
  {
    var end := StateAfter(st, headers, nesting);
    RunNests(st, headers, nesting);
    NestAppend(Open([]), TagsAfter(st, headers, nesting), FinalTags(end));
    if Inside(st, headers, nesting) {
      ClosingAll(Depth(st, headers, nesting), if end.currentLevel > 0 then end.currentLevel else 0);
    } else {
      BrokenStays(FinalTags(end));
    }
  }

  function ListedOnly(headers: seq<Header>, nesting: int): seq<Header>
    decreases |headers|
  {
    if headers == [] then []
    else ListedOnly(headers[..|headers| - 1], nesting)
         + (if Listed(headers[|headers| - 1].level, nesting) then [headers[|headers| - 1]] else [])
  }

  predicate AllKept(headers: seq<Header>) {
    forall i :: 0 <= i < |headers| ==> headers[i].kept
  }

  /** No listed header is above the first one. */
  predicate FirstOutranksAll(listed: seq<Header>) {
    forall i :: 0 <= i < |listed| ==> listed[i].level >= listed[0].level
  }

  /** Where no header is dropped, the document stands where the renderer does. */
  lemma {:induction false} NothingDropped(st: TocData, headers: seq<Header>, nesting: int)
    requires st.currentLevel == 0 && AllKept(headers)
    ensures Depth(st, headers, nesting) == StateAfter(st, headers, nesting).currentLevel
    decreases |headers|
  {
    if headers != [] { NothingDropped(st, headers[..|headers| - 1], nesting); }
  }

  /** Where the renderer stands after these listed headers, none of which is above the first. */
  ghost predicate StandsBelow(st: TocData, listed: seq<Header>) {
    if listed == [] then st.currentLevel == 0
    else
      && st.levelOffset == listed[0].level - 1
      && st.currentLevel == listed[|listed| - 1].level - st.levelOffset >= 1
  }

  lemma {:induction false} InsideIffFirstOutranksAll(st: TocData, headers: seq<Header>, nesting: int)
    requires st.currentLevel == 0 && AllKept(headers)
    ensures Inside(st, headers, nesting) <==> FirstOutranksAll(ListedOnly(headers, nesting))
    ensures FirstOutranksAll(ListedOnly(headers, nesting)) ==>
      StandsBelow(StateAfter(st, headers, nesting), ListedOnly(headers, nesting))
    decreases |headers|
  {
    if headers != [] {
      var front, last := headers[..|headers| - 1], headers[|headers| - 1];
      InsideIffFirstOutranksAll(st, front, nesting);
      NothingDropped(st, headers, nesting);
      if Listed(last.level, nesting) {
        OneMoreListed(StateAfter(st, front, nesting), ListedOnly(front, nesting), last);
      } else {
        assert ListedOnly(headers, nesting) == ListedOnly(front, nesting);
      }
    }
  }

  lemma OneMoreListed(st: TocData, listed: seq<Header>, last: Header)
    requires FirstOutranksAll(listed) ==> StandsBelow(st, listed)
    ensures FirstOutranksAll(listed + [last])
       <==> FirstOutranksAll(listed) && HeaderState(st, last.level).currentLevel >= 1
    ensures FirstOutranksAll(listed + [last]) ==> StandsBelow(HeaderState(st, last.level), listed + [last])
  {
    var all := listed + [last];
    assert forall i :: 0 <= i < |listed| ==> all[i] == listed[i];
    assert all[|listed|] == last;
  }

  /** So where every header is kept: exactly when no listed header is above the first listed one. */
  lemma BalancedIffFirstOutranksAll(offset: int, headers: seq<Header>, nesting: int)
    requires AllKept(headers)
    ensures Balanced(Contents(TocData(0, offset, 0), headers, nesting))
       <==> FirstOutranksAll(ListedOnly(headers, nesting))
  {
    var st := TocData(0, offset, 0);
    BalancedIffKeptMovesAddUp(st, headers, nesting);
    InsideIffFirstOutranksAll(st, headers, nesting);
    NothingDropped(st, headers, nesting);
  }

  /** There every entry stands in as many lists as its level is below the offset that the first
      listed header sets. */
  lemma EntryDepth(st: TocData, headers: seq<Header>, nesting: int)
    requires st.currentLevel == 0 && AllKept(headers) && FirstOutranksAll(ListedOnly(headers, nesting))
    requires headers != [] && Listed(headers[|headers| - 1].level, nesting)
    ensures ListedOnly(headers, nesting) != []
    ensures var offset := ListedOnly(headers, nesting)[0].level - 1;
      var depth := headers[|headers| - 1].level - offset;
      && depth >= 1 && Nest(Open([]), TagsAfter(st, headers, nesting)) == Open(Levels(depth))
      && StateAfter(st, headers, nesting).levelOffset == offset
  {
    var listed := ListedOnly(headers, nesting);
    LastListed(headers, nesting);
    InsideIffFirstOutranksAll(st, headers, nesting);
    EntryAt(st, headers, nesting, headers[|headers| - 1].level - (listed[0].level - 1));
  }

  lemma LastListed(headers: seq<Header>, nesting: int)
    requires headers != [] && Listed(headers[|headers| - 1].level, nesting)
    ensures var listed := ListedOnly(headers, nesting);
      listed != [] && listed[|listed| - 1] == headers[|headers| - 1]
  {}

  lemma EntryAt(st: TocData, headers: seq<Header>, nesting: int, level: int)
    requires st.currentLevel == 0 && AllKept(headers) && Inside(st, headers, nesting)
    requires StateAfter(st, headers, nesting).currentLevel == level >= 0
    ensures Nest(Open([]), TagsAfter(st, headers, nesting)) == Open(Levels(level))
  {
    RunNests(st, headers, nesting);
    NothingDropped(st, headers, nesting);
  }

  // ---- headers that are dropped ----

  predicate DocumentBalanced(headers: seq<Header>) {
    Balanced(Contents(TocData(0, 0, 0), headers, 6))
  }

  /** What one more header does to the level, the depth, and the entries. */
  lemma OneMore(front: seq<Header>, last: Header)
    requires last.level <= 6
    ensures var st, all := TocData(0, 0, 0), front + [last];
      var before := StateAfter(st, front, 6);
      && StateAfter(st, all, 6) == HeaderState(before, last.level)
      && Depth(st, all, 6) == Depth(st, front, 6)
           + (if last.kept then HeaderState(before, last.level).currentLevel - before.currentLevel else 0)
      && (Inside(st, all, 6) <==> Inside(st, front, 6) && (last.kept ==> Depth(st, all, 6) >= 1))
  {
    assert (front + [last])[..|front|] == front;
  }

  /** The renderer is at `level`, the document in `depth` lists. */
  ghost predicate AreAt(headers: seq<Header>, level: int, offset: int, depth: int, ok: bool) {
    var st := TocData(0, 0, 0);
    && StateAfter(st, headers, 6).currentLevel == level && StateAfter(st, headers, 6).levelOffset == offset
    && Depth(st, headers, 6) == depth && Inside(st, headers, 6) == ok
  }

  lemma OneMoreAt(front: seq<Header>, last: Header, level: int, offset: int, depth: int, ok: bool)
    requires AreAt(front, level, offset, depth, ok) && last.level <= 6
    ensures var offset' := if level == 0 then last.level - 1 else offset;
      var depth' := depth + (if last.kept then last.level - offset' - level else 0);
      AreAt(front + [last], last.level - offset', offset', depth', ok && (last.kept ==> depth' >= 1))
  {
    OneMore(front, last);
  }

  lemma BalancedAt(headers: seq<Header>, level: nat, offset: int, depth: int, ok: bool)
    requires AreAt(headers, level, offset, depth, ok)
    ensures DocumentBalanced(headers) <==> ok && depth == level
  {
    BalancedIffKeptMovesAddUp(TocData(0, 0, 0), headers, 6);
  }

  /** `> # A`: the entry is lost with the quote, its list is closed nevertheless. */
  lemma QuotedHeader(a: Header)
    requires a.level == 1 && !a.kept
    ensures !DocumentBalanced([] + [a])
  {
    OneMoreAt([], a, 0, 0, 0, true);
    BalancedAt([] + [a], 1, 0, 0, true);
  }

  /** `# A`, `> ## B`, `# C`: the last entry closes a list that only the quote opened. */
  lemma QuotedHeaderBetween(a: Header, b: Header, c: Header)
    requires a.level == 1 && a.kept && b.level == 2 && !b.kept && c.level == 1 && c.kept
    ensures !DocumentBalanced([] + [a] + [b] + [c])
  {
    OneMoreAt([], a, 0, 0, 0, true);
    HigherThanQuoted([] + [a], b, c);
  }

  lemma HigherThanQuoted(front: seq<Header>, b: Header, c: Header)
    requires AreAt(front, 1, 0, 1, true) && b.level == 2 && !b.kept && c.level == 1 && c.kept
    ensures !DocumentBalanced(front + [b] + [c])
  {
    OneMoreAt(front, b, 1, 0, 1, true);
    OneMoreAt(front + [b], c, 2, 0, 1, true);
    BalancedAt(front + [b] + [c], 1, 0, 0, false);
  }

  /** A quoted header that does not move the level does no harm, as in `# A`, `> # B`. */
  lemma QuotedSibling(front: seq<Header>, b: Header)
    requires var st := StateAfter(TocData(0, 0, 0), front, 6);
      st.currentLevel > 0 && b.level - st.levelOffset == st.currentLevel
    requires b.level <= 6 && !b.kept
    ensures DocumentBalanced(front + [b]) <==> DocumentBalanced(front)
  {
    OneMore(front, b);
    BalancedIffKeptMovesAddUp(TocData(0, 0, 0), front, 6);
    BalancedIffKeptMovesAddUp(TocData(0, 0, 0), front + [b], 6);
  }

  /** `## A`, `# B`: the second entry leaves the list of the first. */
  lemma HigherHeader()
    ensures !DocumentBalanced([Header(0, 2, true), Header(5, 1, true)])
  {
    var ab := [Header(0, 2, true), Header(5, 1, true)];
    assert ab[..1] == [Header(0, 2, true)] && ab[..1][..0] == [];
    assert ListedOnly(ab, 6) == ab;
    BalancedIffFirstOutranksAll(0, ab, 6);
  }

  // ---- anchors ----

  function Anchors(tags: seq<Tag>): seq<Link>
    decreases |tags|
  {
    if tags == [] then []
    else Anchors(tags[..|tags| - 1]) + (if tags[|tags| - 1].Anchor? then [tags[|tags| - 1].link] else [])
  }

  /** The ids rndr_header gives to the headers of a document, its counter standing at `count`. */
  function HeaderIds(headers: seq<Header>, nesting: int, count: nat): (nat, seq<Link>)
    decreases |headers|
  {
    if headers == [] then (count, [])
    else
      var (n, ids) := HeaderIds(headers[..|headers| - 1], nesting, count);
      var last := headers[|headers| - 1];
      if Listed(last.level, nesting) then (n + 1, ids + [Link(last.place, n)]) else (n, ids)
  }

  lemma {:induction false} AnchorsAppend(a: seq<Tag>, b: seq<Tag>)
    ensures Anchors(a + b) == Anchors(a) + Anchors(b)
    decreases |b|
  {
    if b == [] {
      assert a + b == a;
    } else {
      assert (a + b)[..|a + b| - 1] == a + b[..|b| - 1];
      AnchorsAppend(a, b[..|b| - 1]);
    }
  }

  lemma {:induction false} NoAnchors(tags: seq<Tag>)
    requires forall t <- tags :: !t.Anchor?
    ensures Anchors(tags) == []
    decreases |tags|
  {
    if tags != [] { NoAnchors(tags[..|tags| - 1]); }
  }

  lemma {:induction false} TimesHas(tags: seq<Tag>, n: nat)
    requires forall t <- tags :: !t.Anchor?
    ensures forall t <- Times(tags, n) :: !t.Anchor?
  {
    if n > 0 { TimesHas(tags, n - 1); }
  }

  lemma MovesHaveNone(from: int, to': int)
    ensures Anchors(Moves(from, to')) == []
  {
    TimesHas([OpenUl, OpenLi], if to' > from then to' - from else 0);
    TimesHas([CloseUl, CloseLi], if to' < from then from - to' else 0);
    NoAnchors(Moves(from, to'));
  }

  lemma OneAnchor(tags: seq<Tag>, st: TocData, level: int, place: nat)
    ensures Anchors(tags + HeaderTags(st, level, place)) == Anchors(tags) + [Link(place, st.headerCount)]
  {
    var moves, anchor := Moves(st.currentLevel, level - OffsetFor(st, level)), [Anchor(Link(place, st.headerCount))];
    MovesHaveNone(st.currentLevel, level - OffsetFor(st, level));
    AnchorsAppend(tags, HeaderTags(st, level, place));
    AnchorsAppend(moves, anchor);
    assert anchor[..0] == [];
  }

  /** The kept ones of the listed headers, each with its position counted from `from`. */
  function Numbered(listed: seq<Header>, from: nat): seq<Link>
    decreases |listed|
  {
    if listed == [] then []
    else
      var last := |listed| - 1;
      Numbered(listed[..last], from) + if listed[last].kept then [Link(listed[last].place, from + last)] else []
  }

  /** A dropped header uses a number up, but has no entry. */
  lemma {:induction false} AnchorsCount(st: TocData, headers: seq<Header>, nesting: int)
    ensures Anchors(TagsAfter(st, headers, nesting)) == Numbered(ListedOnly(headers, nesting), st.headerCount)
    ensures StateAfter(st, headers, nesting).headerCount == st.headerCount + |ListedOnly(headers, nesting)|
    decreases |headers|
  {
    if headers != [] {
      var front, last := headers[..|headers| - 1], headers[|headers| - 1];
      var tags, before := TagsAfter(st, front, nesting), StateAfter(st, front, nesting);
      AnchorsCount(st, front, nesting);
      var all := ListedOnly(front, nesting) + [last];
      assert all[..|all| - 1] == ListedOnly(front, nesting);
      if Listed(last.level, nesting) && last.kept {
        OneAnchor(tags, before, last.level, last.place);
      } else {
        assert TagsAfter(st, headers, nesting) == tags;
        if Listed(last.level, nesting) {
          assert Numbered(all, st.headerCount) == Numbered(ListedOnly(front, nesting), st.headerCount);
        } else {
          assert ListedOnly(headers, nesting) == ListedOnly(front, nesting);
        }
      }
    }
  }

  lemma {:induction false} HeaderIdsCount(headers: seq<Header>, nesting: int, count: nat)
    ensures var (n, ids) := HeaderIds(headers, nesting, count);
      var listed := ListedOnly(headers, nesting);
      && n == count + |listed| && |ids| == |listed|
      && forall j :: 0 <= j < |ids| ==> ids[j] == Link(listed[j].place, count + j)
    decreases |headers|
  {
    if headers != [] { HeaderIdsCount(headers[..|headers| - 1], nesting, count); }
  }

  lemma {:induction false} NumberedAt(listed: seq<Header>, from: nat, x: Link)
    ensures x in Numbered(listed, from)
       <==> exists k :: 0 <= k < |listed| && listed[k].kept && x == Link(listed[k].place, from + k)
    decreases |listed|
  {
    if listed != [] {
      var front := listed[..|listed| - 1];
      NumberedAt(front, from, x);
      if k :| 0 <= k < |listed| && listed[k].kept && x == Link(listed[k].place, from + k) {
        if k < |front| { assert front[k] == listed[k]; }
      }
    }
  }

  /** Every entry links to the header it shows. */
  predicate LinksRight(entries: seq<Link>, ids: seq<Link>) {
    forall e <- entries :: e in ids
  }

  /** The header at position k of the listed ones is at position k - shift of those the main
      renderer lists. */
  predicate SamePosition(listed: seq<Header>, main: seq<Header>, k: nat, shift: int)
    requires k < |listed|
  {
    0 <= k - shift < |main| && main[k - shift].place == listed[k].place
  }

  /** The two renderers see a document differently: this one has no callback for HTML blocks and
      takes what stands in them for Markdown. And nothing restarts the main renderer's counter. The
      entries link to their headers exactly when each stands as far from the first in both,
      but for the main counter's head start. */
  lemma AnchorsAgreeIff(st: TocData, seen: seq<Header>, nesting: int, main: seq<Header>, mainNesting: int, count: nat)
    ensures var listed, mainListed := ListedOnly(seen, nesting), ListedOnly(main, mainNesting);
      LinksRight(Anchors(TagsAfter(st, seen, nesting)), HeaderIds(main, mainNesting, count).1)
      <==> forall k: nat :: k < |listed| && listed[k].kept ==>
             SamePosition(listed, mainListed, k, count - st.headerCount)
  {
    var listed, mainListed := ListedOnly(seen, nesting), ListedOnly(main, mainNesting);
    var ids := HeaderIds(main, mainNesting, count).1;
    AnchorsCount(st, seen, nesting);
    HeaderIdsCount(main, mainNesting, count);
    forall k: nat | k < |listed| && listed[k].kept
      ensures var e := Link(listed[k].place, st.headerCount + k);
        e in Numbered(listed, st.headerCount)
        && (e in ids <==> SamePosition(listed, mainListed, k, count - st.headerCount))
    {
      var e, j := Link(listed[k].place, st.headerCount + k), k - (count - st.headerCount);
      NumberedAt(listed, st.headerCount, e);
      if 0 <= j < |ids| { assert ids[j] == Link(mainListed[j].place, count + j); }
    }
    forall e | e in Numbered(listed, st.headerCount)
      ensures exists k: nat :: k < |listed| && listed[k].kept && e == Link(listed[k].place, st.headerCount + k)
    {
      NumberedAt(listed, st.headerCount, e);
    }
  }

  predicate DistinctPlaces(headers: seq<Header>) {
    forall i, j :: 0 <= i < j < |headers| ==> headers[i].place != headers[j].place
  }

  /** Where both list the same headers: exactly when the main renderer starts counting with this
      one, or there is no entry. */
  lemma AnchorsAgreeIffFreshRenderer(st: TocData, seen: seq<Header>, nesting: int,
                                     main: seq<Header>, mainNesting: int, count: nat)
    requires var listed, mainListed := ListedOnly(seen, nesting), ListedOnly(main, mainNesting);
      && |listed| == |mainListed| && DistinctPlaces(listed)
      && forall k :: 0 <= k < |listed| ==> listed[k].place == mainListed[k].place
    ensures LinksRight(Anchors(TagsAfter(st, seen, nesting)), HeaderIds(main, mainNesting, count).1)
       <==> count == st.headerCount || Anchors(TagsAfter(st, seen, nesting)) == []
  {
    var listed, mainListed := ListedOnly(seen, nesting), ListedOnly(main, mainNesting);
    AnchorsAgreeIff(st, seen, nesting, main, mainNesting, count);
    AnchorsCount(st, seen, nesting);
    if Numbered(listed, st.headerCount) != [] {
      var e := Numbered(listed, st.headerCount)[0];
      NumberedAt(listed, st.headerCount, e);
      var k: nat :| k < |listed| && listed[k].kept && e == Link(listed[k].place, st.headerCount + k);
      assert count == st.headerCount <==> SamePosition(listed, mainListed, k, count - st.headerCount);
    }
  }

  /** The second document of a main renderer: its first header is toc_1, the first entry links to toc_0. */
  lemma SecondDocument(a: Header)
    requires Listed(a.level, 6) && a.kept
    ensures !LinksRight(Anchors(TagsAfter(TocData(0, 0, 0), [a], 6)), HeaderIds([a], 6, 1).1)
  {
    assert [a][..0] == [] && ListedOnly([a], 6) == [a];
    AnchorsAgreeIff(TocData(0, 0, 0), [a], 6, [a], 6, 1);
    assert !SamePosition([a], [a], 0, 1);
  }

  /** `# A` in an HTML block, then `# B`: the entry of B links to toc_1, but B is toc_0. */
  lemma HeaderInHtmlBlock()
    ensures var seen, main := [Header(6, 1, true), Header(18, 1, true)], [Header(18, 1, true)];
      !LinksRight(Anchors(TagsAfter(TocData(0, 0, 0), seen, 6)), HeaderIds(main, 6, 0).1)
  {
    var a, b := Header(6, 1, true), Header(18, 1, true);
    assert [a, b][..1] == [a] && [a][..0] == [] && [b][..0] == [];
    assert ListedOnly([a, b], 6) == [a, b] && ListedOnly([b], 6) == [b];
    AnchorsAgreeIff(TocData(0, 0, 0), [a, b], 6, [b], 6, 0);
    assert !SamePosition([a, b], [b], 1, 0);
  }

  // ---- the nesting level ----

  /** A header below the nesting level leaves nothing, neither in the document nor in the state. */
  lemma BelowNestingLevel(st: TocData, headers: seq<Header>, h: Header, nesting: int)
    requires h.level > nesting
    ensures TagsAfter(st, headers + [h], nesting) == TagsAfter(st, headers, nesting)
    ensures StateAfter(st, headers + [h], nesting) == StateAfter(st, headers, nesting)
  {
    assert (headers + [h])[..|headers|] == headers;
    assert TagsAfter(st, headers, nesting) + [] == TagsAfter(st, headers, nesting);
  }

  /** Any other leaves one entry, with the next number, if it is not dropped. */
  lemma OneEntry(st: TocData, headers: seq<Header>, h: Header, nesting: int)
    requires h.level <= nesting
    ensures StateAfter(st, headers + [h], nesting).headerCount == StateAfter(st, headers, nesting).headerCount + 1
    ensures Anchors(TagsAfter(st, headers + [h], nesting))
         == Anchors(TagsAfter(st, headers, nesting))
            + if h.kept then [Link(h.place, StateAfter(st, headers, nesting).headerCount)] else []
  {
    var all, tags, before := headers + [h], TagsAfter(st, headers, nesting), StateAfter(st, headers, nesting);
    assert all[..|headers|] == headers && all[|all| - 1] == h;
    if h.kept { OneAnchor(tags, before, h.level, h.place); } else { assert TagsAfter(st, all, nesting) == tags; }
  }
}
