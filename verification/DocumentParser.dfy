// The document parser and its two pools of work buffers
// (src/hoedown/document.c:135-158, 459-495, 603-712, 759-793, 858-901, 966-1323, 1588-2088, 2194-2471, 2800-2936).
//
// Text is kept where the block parsers decide by it. Elsewhere the scanning is left open: `*` stands
// for whatever the scanner finds, the renderer answers, or the extension flags say, so that what
// is proved holds for every text, every renderer and every combination of flags.

module DocumentParser {
  import opened Wrappers
  import opened BufferPool
  import opened BlockScanner

  /** What a scan of the text comes to. */
  method Scan() returns (n: nat) { n :| 0 <= n; }

  method Text() returns (text: seq<Char>) { text :| 0 <= |text|; }

  class HoedownDocument {
    const maxNesting: nat
    const spaceHeaders: bool
    const span: Stack
    const block: Stack
    var inLinkBody: bool
    var found: seq<Buffer>      // the contents of the footnote definitions
    var used: seq<nat>          // the footnotes referred to, in order, as indices into found

    ghost var spans: seq<Buffer>    // live
    ghost var blocks: seq<Buffer>
    ghost var Repr: set<object>

    constructor (maxNesting: nat, spaceHeaders: bool)
      ensures Valid() && fresh(Repr) && this.maxNesting == maxNesting && Idle()
    {
      this.maxNesting, this.spaceHeaders := maxNesting, spaceHeaders;
      block := new Stack(4);
      span := new Stack(8);
      inLinkBody, found, used, spans, blocks := false, [], [], [], [];
      new;
      Repr := {this, span, block, span.item, block.item};
    }

    ghost predicate Valid()
      reads this, Repr
    {
      && this in Repr && span in Repr && block in Repr && span.item in Repr && block.item in Repr
      && (forall b <- span.all :: b in Repr) && (forall b <- block.all :: b in Repr && b !in span.all)
      && span.Valid() && block.Valid() && span != block && span.item != block.item
      && spans == span.all[..span.size] && blocks == block.all[..block.size]
      && |spans| + |blocks| <= maxNesting + 5
      && (forall i, j :: 0 <= i < j < |used| ==> used[i] != used[j])
      && (forall i :: 0 <= i < |used| ==> used[i] < |found|)
      && (forall b <- found :: b !in Repr)
    }

    /** Between two renderings. */
    ghost predicate Idle()
      reads this
    {
      spans == [] && blocks == [] && !inLinkBody
    }

    ghost function Occupancy(): nat
      reads this
    {
      |spans| + |blocks|
    }

    /** A buffer the parser may write to or read from: it is live, or none of the pools'. */
    ghost predicate Usable(b: Buffer)
      reads this
    {
      b in spans || b in blocks || b !in Repr
    }

    ghost predicate Ready(ob: Buffer)
      reads this, Repr
    {
      Valid() && Usable(ob)
    }

    /** All live buffers are still live, and all but these as they were. Footnotes can only be added,
        the link flag only be cleared. */
    twostate predicate Held(but: set<Buffer>)
      reads this, Repr, spans, blocks
    {
      && Valid() && fresh(Repr - old(Repr))
      && old(spans) <= spans && blocks == old(blocks)
      && (forall b <- old(spans) :: b !in but ==> b.data == old(b.data))
      && (forall b <- old(blocks) :: b !in but ==> b.data == old(b.data))
      && found == old(found) && old(used) <= used
      && (inLinkBody ==> old(inLinkBody))
    }

    /** Besides, both pools are as large as they were. */
    twostate predicate Kept(but: set<Buffer>)
      reads this, Repr, spans, blocks
    {
      Held(but) && spans == old(spans)
    }

    // ---- the pools ----

    method NewSpanBuf() returns (work: Buffer)
      requires Valid() && Occupancy() < maxNesting + 5
      modifies Repr
      ensures Valid() && fresh(Repr - old(Repr))
      ensures work in Repr && (work in old(Repr) || fresh(work)) && work.data == []
      ensures work !in old(spans) && work !in old(blocks)
      ensures spans == old(spans) + [work] && blocks == old(blocks)
      ensures forall b <- old(spans) :: b.data == old(b.data)
      ensures forall b <- old(blocks) :: b.data == old(b.data)
      ensures found == old(found) && used == old(used) && inLinkBody == old(inLinkBody)
    {
      work := span.NewBuf();
      spans := spans + [work];
      Repr := Repr + {span.item, work};
    }

    method NewBlockBuf() returns (work: Buffer)
      requires Valid() && Occupancy() < maxNesting + 5
      modifies Repr
      ensures Valid() && fresh(Repr - old(Repr))
      ensures work in Repr && (work in old(Repr) || fresh(work)) && work.data == []
      ensures work !in old(spans) && work !in old(blocks)
      ensures blocks == old(blocks) + [work] && spans == old(spans)
      ensures forall b <- old(spans) :: b.data == old(b.data)
      ensures forall b <- old(blocks) :: b.data == old(b.data)
      ensures found == old(found) && used == old(used) && inLinkBody == old(inLinkBody)
    {
      work := block.NewBuf();
      blocks := blocks + [work];
      Repr := Repr + {block.item, work};
    }

    method PopSpanBuf(ghost was: seq<Buffer>)
      requires Valid() && was <= spans && |spans| == |was| + 1
      modifies this`spans, span`size
      ensures Valid() && spans == was
    {
      span.Shrink(span.size - 1);
      spans := spans[..|spans| - 1];
    }

    method PopBlockBuf(ghost was: seq<Buffer>)
      requires Valid() && was <= blocks && |blocks| == |was| + 1
      modifies this`blocks, block`size
      ensures Valid() && blocks == was
    {
      block.Shrink(block.size - 1);
      blocks := blocks[..|blocks| - 1];
    }

    /** Whatever a renderer callback or the parser itself writes. */
    method Emit(ob: Buffer)
      requires Valid() && Usable(ob)
      modifies ob
      ensures Valid()
    {
      var text := Text();
      ob.data := text;
    }

    /** A new span buffer with some text in it. */
    method FilledSpanBuf() returns (work: Buffer)
      requires Valid() && Occupancy() < maxNesting + 5
      modifies Repr
      ensures Valid() && fresh(Repr - old(Repr)) && (work in old(Repr) || fresh(work))
      ensures work !in old(spans) && work !in old(blocks)
      ensures spans == old(spans) + [work] && blocks == old(blocks)
      ensures forall b <- old(spans) :: b.data == old(b.data)
      ensures forall b <- old(blocks) :: b.data == old(b.data)
      ensures found == old(found) && used == old(used) && inLinkBody == old(inLinkBody)
    {
      work := NewSpanBuf();
      Emit(work);
    }

    /** The renderer's callback takes the top span buffer's contents to ob. */
    method PassOnSpan(ob: Buffer, ghost was: seq<Buffer>)
      requires Valid() && Usable(ob) && was <= spans && |spans| == |was| + 1
      modifies this`spans, span`size, ob
      ensures Valid() && spans == was
    {
      Emit(ob);
      PopSpanBuf(was);
    }

    /** The renderer's callback takes the top block buffer's contents to ob. */
    method PassOnBlock(ob: Buffer, ghost was: seq<Buffer>)
      requires Valid() && Usable(ob) && was <= blocks && |blocks| == |was| + 1
      modifies this`blocks, block`size, ob
      ensures Valid() && blocks == was
    {
      Emit(ob);
      PopBlockBuf(was);
    }

    // ---- inline ----

    method ParseInline(ob: Buffer, size: nat)
      requires Ready(ob)
      modifies Repr, ob
      ensures Kept({ob})
      decreases maxNesting + 5 - Occupancy(), 10
    {
      if span.size + block.size > maxNesting { return; }
      var i, end := 0, 0;
      while i < size
        invariant Kept({ob}) && i <= end
        decreases size - i, if end > i then 0 else 1
      {
        var inactive := Scan();
        if end < size { end := if inactive < size - end then end + inactive else size; }
        Emit(ob);
        if end >= size { break; }
        i := end;
        var n := CallTrigger(ob, size - i);
        if n == 0 {
          end := i + 1;
        } else {
          i := i + n;
          end := i;
        }
      }
    }

    method CallTrigger(ob: Buffer, size: nat) returns (n: nat)
      requires Ready(ob) && Occupancy() <= maxNesting
      modifies Repr, ob
      ensures Kept({ob})
      decreases maxNesting + 5 - Occupancy(), 9
    {
      var trigger := Scan();
      match trigger
      case 0 => n := CharEmphasis(ob, size);
      case 1 => n := CharQuote(ob, size);
      case 2 => n := CharLangleTag(ob);
      case 3 => n := CharAutolinkWww(ob);
      case 4 => n := CharAutolink(ob);
      case 5 => n := CharLink(ob, size);
      case 6 => n := CharSuperscript(ob, size);
      case _ => Emit(ob); n := Scan();   // line break, code span, escape, entity, math: no buffer needed
    }

    /** A span buffer for one nested parse_inline, then the renderer. */
    method NestedSpan(ob: Buffer, size: nat) returns (r: bool)
      requires Ready(ob) && Occupancy() < maxNesting + 5
      modifies Repr, ob
      ensures Kept({ob})
      decreases maxNesting + 5 - Occupancy(), 5
    {
      var work := NewSpanBuf();
      ParseInline(work, size);
      PassOnSpan(ob, old(spans));
      r := *;
    }

    method CharEmphasis(ob: Buffer, size: nat) returns (n: nat)
      requires Ready(ob) && Occupancy() <= maxNesting
      modifies Repr, ob
      ensures Kept({ob})
      decreases maxNesting + 5 - Occupancy(), 8
    {
      n := 0;
      var delimiters := Scan();
      if delimiters == 1 && size > 2 {
        var r := ParseEmph1(ob, size - 1);
        if r != 0 { n := r + 1; }
      } else if delimiters == 2 && size > 3 {
        var r := ParseEmph2(ob, size - 2);
        if r != 0 { n := r + 2; }
      } else if delimiters == 3 && size > 4 {
        var r := ParseEmph3(ob, size - 3);
        if r != 0 { n := r + 3; }
      }
    }

    method ParseEmph1(ob: Buffer, size: nat) returns (n: nat)
      requires Ready(ob) && Occupancy() <= maxNesting
      modifies Repr, ob
      ensures Kept({ob})
      decreases maxNesting + 5 - Occupancy(), 6
    {
      var i := Scan();      // 1 when coming from parse_emph3
      if i > 1 { i := 0; }
      while i < size
        invariant Kept({ob})
      {
        var len := Scan();
        var closes: bool := *;
        if len == 0 { return 0; }
        i := i + len;
        if i >= size { return 0; }
        if closes {
          var r := NestedSpan(ob, i);
          return if r then i + 1 else 0;
        }
      }
      n := 0;
    }

    method ParseEmph2(ob: Buffer, size: nat) returns (n: nat)
      requires Ready(ob) && Occupancy() <= maxNesting
      modifies Repr, ob
      ensures Kept({ob})
      decreases maxNesting + 5 - Occupancy(), 6
    {
      var i := 0;
      while i < size
        invariant Kept({ob})
      {
        var len := Scan();
        var closes: bool := *;
        if len == 0 { return 0; }
        i := i + len;
        if i + 1 < size && closes {
          var r := NestedSpan(ob, i);
          return if r then i + 2 else 0;
        }
        i := i + 1;
      }
      n := 0;
    }

    method ParseEmph3(ob: Buffer, size: nat) returns (n: nat)
      requires Ready(ob) && Occupancy() <= maxNesting
      modifies Repr, ob
      ensures Kept({ob})
      decreases maxNesting + 5 - Occupancy(), 7
    {
      var i := 0;
      while i < size
        invariant Kept({ob})
      {
        var len := Scan();
        var closing := Scan();
        var spaced: bool := *;
        if len == 0 { return 0; }
        i := i + len;
        if spaced { continue; }
        if i + 2 < size && closing == 3 {
          var r := NestedSpan(ob, i);
          return if r then i + 3 else 0;
        } else if i + 1 < size && closing == 2 {
          var r := ParseEmph1(ob, size + 2);
          return if r < 2 then 0 else r - 2;
        } else {
          var r := ParseEmph2(ob, size + 1);
          return if r == 0 then 0 else r - 1;
        }
      }
      n := 0;
    }

    method CharQuote(ob: Buffer, size: nat) returns (n: nat)
      requires Ready(ob) && Occupancy() <= maxNesting
      modifies Repr, ob
      ensures Kept({ob})
      decreases maxNesting + 5 - Occupancy(), 8
    {
      var end := Scan();
      var width := Scan();
      var blank: bool, r: bool := *, *;
      if end == 0 { return 0; }
      if blank {
        Emit(ob);
      } else {
        r := NestedSpan(ob, width);
      }
      n := if r then end else 0;
    }

    /** A span buffer with text of its own, then the renderer. */
    method RenderFilled(ob: Buffer)
      requires Ready(ob) && Occupancy() < maxNesting + 5
      modifies Repr, ob
      ensures Kept({ob})
    {
      var work := FilledSpanBuf();
      PassOnSpan(ob, old(spans));
    }

    method CharLangleTag(ob: Buffer) returns (n: nat)
      requires Ready(ob) && Occupancy() <= maxNesting
      modifies Repr, ob
      ensures Kept({ob})
      decreases maxNesting + 5 - Occupancy(), 8
    {
      var autolink: bool := *;
      if autolink {
        RenderFilled(ob);
      } else {
        Emit(ob);
      }
      n := Scan();
    }

    /** char_autolink_email and char_autolink_url. */
    method CharAutolink(ob: Buffer) returns (n: nat)
      requires Ready(ob) && Occupancy() <= maxNesting
      modifies Repr, ob
      ensures Kept({ob})
      decreases maxNesting + 5 - Occupancy(), 8
    {
      if inLinkBody { return 0; }
      var link := FilledSpanBuf();
      n := Scan();
      if n > 0 { Emit(ob); }
      PopSpanBuf(old(spans));
    }

    method CharAutolinkWww(ob: Buffer) returns (n: nat)
      requires Ready(ob) && Occupancy() <= maxNesting
      modifies Repr, ob
      ensures Kept({ob})
      decreases maxNesting + 5 - Occupancy(), 8
    {
      if inLinkBody { return 0; }
      var link := FilledSpanBuf();
      n := Scan();
      if n > 0 { LinkWww(ob); }
      PopSpanBuf(old(spans));
    }

    method LinkWww(ob: Buffer)
      requires Ready(ob) && Occupancy() <= maxNesting + 1
      modifies Repr, ob
      ensures Kept({ob})
    {
      var url := FilledSpanBuf();
      RenderLink(ob);
      PopSpanBuf(old(spans));
    }

    method RenderLink(ob: Buffer)
      requires Ready(ob) && Occupancy() <= maxNesting + 2
      modifies Repr, ob
      ensures Kept({ob})
    {
      var escapes: bool := *;
      if escapes { RenderFilled(ob); } else { Emit(ob); }
    }

    /** Every way out passes `cleanup`, which gives up whatever was taken since. */
    method CharLink(ob: Buffer, size: nat) returns (n: nat)
      requires Ready(ob) && Occupancy() <= maxNesting
      modifies Repr, ob
      ensures Kept({ob})
      decreases maxNesting + 5 - Occupancy(), 8
    {
      var orgWorkSize := span.size;
      n := LinkParts(ob, size);
      ShrinkSpans(orgWorkSize);
    }

    method LinkParts(ob: Buffer, size: nat) returns (n: nat)
      requires Ready(ob) && Occupancy() <= maxNesting
      modifies Repr, ob
      ensures Held({ob})
      decreases maxNesting + 5 - Occupancy(), 7
    {
      n := Scan();
      var hasRenderer: bool, closed: bool, isFootnote: bool := *, *, *;
      if !hasRenderer || !closed {
        n := 0;
      } else if isFootnote {
        CharFootnote(ob);
      } else {
        var target := LinkTarget();
        if target { LinkContent(ob, size); } else { n := 0; }
      }
    }

    method ShrinkSpans(newSize: nat)
      requires Valid() && newSize <= span.size
      modifies this`spans, span`size
      ensures Valid() && spans == old(spans[..newSize])
    {
      span.Shrink(newSize);
      spans := spans[..newSize];
    }

    /** A footnote is put on the list the first time it is referred to. */
    method CharFootnote(ob: Buffer)
      requires Ready(ob)
      modifies Repr, ob
      ensures Kept({ob})
    {
      var k := Scan();
      var fits: bool := *;
      if k < |found| && k !in used && fits {
        used := used + [k];
        Emit(ob);
      }
    }

    /** The link and the title, or the id of a reference that is then looked up. */
    method LinkTarget() returns (ok: bool)
      requires Valid() && Occupancy() <= maxNesting
      modifies Repr
      ensures Held({}) && |spans| <= old(|spans|) + 2
    {
      var inlineStyle: bool, hasLink: bool, hasTitle: bool := *, *, *;
      ok := *;
      if !inlineStyle {
        var id := FilledSpanBuf();
      } else if ok {
        if hasLink { var link := FilledSpanBuf(); }
        if hasTitle { var title := FilledSpanBuf(); }
      }
    }

    method LinkContent(ob: Buffer, size: nat)
      requires Ready(ob) && Occupancy() <= maxNesting + 2
      modifies Repr, ob
      ensures Held({ob})
      decreases maxNesting + 5 - Occupancy(), 6
    {
      var hasText: bool, hasLink: bool := *, *;
      if hasText { LinkText(size); }
      if hasLink { var link := FilledSpanBuf(); }
      Emit(ob);
    }

    /** Autolinking is off within a link, though on again after a link within it. */
    method LinkText(size: nat)
      requires Valid() && Occupancy() <= maxNesting + 2
      modifies Repr
      ensures Held({}) && |spans| == old(|spans|) + 1
      decreases maxNesting + 5 - Occupancy(), 5
    {
      var isImage: bool := *;
      if isImage {
        var content := FilledSpanBuf();
      } else {
        var content := NewSpanBuf();
        inLinkBody := true;
        ParseInline(content, size);
        inLinkBody := false;
      }
    }

    method CharSuperscript(ob: Buffer, size: nat) returns (n: nat)
      requires Ready(ob) && Occupancy() <= maxNesting
      modifies Repr, ob
      ensures Kept({ob})
      decreases maxNesting + 5 - Occupancy(), 8
    {
      n := Scan();
      var width := Scan();
      if width > 0 { var _ := NestedSpan(ob, width); }
    }

    // ---- blocks ----

    /** The text of `src` from `off`, `size` bytes of it. */
    function Slice(src: Buffer, off: nat, size: nat): (s: seq<Char>)
      requires off + size <= |src.data|
      reads src
      ensures |s| == size
    {
      src.data[off..off + size]
    }

    ghost predicate ReadyFor(ob: Buffer, src: Buffer)
      reads this, Repr
    {
      Valid() && Usable(ob) && Usable(src) && ob != src
    }

    method ParseBlock(ob: Buffer, src: Buffer, off: nat, size: nat)
      requires ReadyFor(ob, src) && off + size <= |src.data|
      modifies Repr, ob, src
      ensures Kept({ob, src}) && |src.data| == old(|src.data|)
      decreases maxNesting + 5 - Occupancy(), 20
    {
      if span.size + block.size > maxNesting { return; }
      var beg := 0;
      while beg < size
        invariant Kept({ob, src}) && |src.data| == old(|src.data|)
      {
        var n := ParseOneBlock(ob, src, off + beg, size - beg);
        beg := beg + n;
      }
    }

    /** One round of the loop in parse_block: whichever parser it turns to gets on. */
    method ParseOneBlock(ob: Buffer, src: Buffer, off: nat, size: nat) returns (n: nat)
      requires ReadyFor(ob, src) && 0 < size && off + size <= |src.data| && Occupancy() <= maxNesting
      modifies Repr, ob, src
      ensures Kept({ob, src}) && |src.data| == old(|src.data|)
      ensures n > 0
      decreases maxNesting + 5 - Occupancy(), 19
    {
      var s := Slice(src, off, size);
      if IsAtxheader(s, spaceHeaders) {
        n := ParseAtxheader(ob, s);
      } else {
        n := ParseVerbatim(ob);
        if n == 0 { n := IsEmpty(s); }
        if n == 0 { n := ParseNonEmpty(ob, src, off, size); }
      }
    }

    method ParseNonEmpty(ob: Buffer, src: Buffer, off: nat, size: nat) returns (n: nat)
      requires ReadyFor(ob, src) && 0 < size && off + size <= |src.data| && Occupancy() <= maxNesting
      requires !IsAtxheader(Slice(src, off, size), spaceHeaders) && IsEmpty(Slice(src, off, size)) == 0
      modifies Repr, ob, src
      ensures Kept({ob, src}) && |src.data| == old(|src.data|)
      ensures n > 0
      decreases maxNesting + 5 - Occupancy(), 18
    {
      var s := Slice(src, off, size);
      if IsHrule(s) {
        Emit(ob);
        return NewlineFrom(s, 0) + 1;
      }
      n := ParseVerbatim(ob);
      if n != 0 { return; }
      var tables: bool := *;
      if tables { n := ParseTable(ob); }
      if n != 0 { return; }
      n := ParsePrefixed(ob, src, off, size);
    }

    method ParsePrefixed(ob: Buffer, src: Buffer, off: nat, size: nat) returns (n: nat)
      requires ReadyFor(ob, src) && 0 < size && off + size <= |src.data| && Occupancy() <= maxNesting
      requires var s := Slice(src, off, size); !IsAtxheader(s, spaceHeaders) && IsEmpty(s) == 0 && !IsHrule(s)
      modifies Repr, ob, src
      ensures Kept({ob, src}) && |src.data| == old(|src.data|)
      ensures n > 0
      decreases maxNesting + 5 - Occupancy(), 17
    {
      var s := Slice(src, off, size);
      var indentedCode: bool := *;
      if PrefixQuote(s) != 0 {
        n := ParseBlockquote(ob, src, off, size);
      } else if indentedCode && PrefixCode(s) != 0 {
        n := ParseBlockcode(ob, s);
      } else if PrefixUli(s) != 0 || PrefixOli(s) != 0 {
        n := ParseList(ob, s);
      } else {
        n := ParseParagraph(ob, s);
      }
    }

    /** parse_htmlblock and parse_fencedcode: the text goes to the renderer as it stands. */
    method ParseVerbatim(ob: Buffer) returns (n: nat)
      requires Ready(ob)
      modifies ob
      ensures Valid()
    {
      n := Scan();
      if n != 0 { Emit(ob); }
    }

    method ParseAtxheader(ob: Buffer, s: seq<Char>) returns (skip: nat)
      requires Ready(ob) && s != [] && IsAtxheader(s, spaceHeaders) && Occupancy() <= maxNesting
      modifies Repr, ob
      ensures Kept({ob}) && 0 < skip <= |s|
      decreases maxNesting + 5 - Occupancy(), 15
    {
      var level := Hashes(s);
      var i := SkipAll(s, level, ' ');
      skip := NewlineFrom(s, i);
      var end := skip;
      while end > 0 && s[end - 1] == '#' { end := end - 1; }
      while end > 0 && s[end - 1] == ' ' { end := end - 1; }
      if end > i {
        var _ := NestedSpan(ob, end - i);
      }
    }

    /** A block buffer for one nested parse_inline, then the renderer. */
    method NestedBlock(ob: Buffer, size: nat)
      requires Ready(ob) && Occupancy() <= maxNesting
      modifies Repr, ob
      ensures Kept({ob})
      decreases maxNesting + 5 - Occupancy(), 11
    {
      var work := NewBlockBuf();
      ParseInline(work, size);
      PassOnBlock(ob, old(blocks));
    }

    /** Where the paragraph ends, and what remains of the text to be rendered. */
    method ScanParagraph(s: seq<Char>) returns (end: nat, level: nat, i: nat)
      requires s != [] && IsEmpty(s) == 0
      requires !IsAtxheader(s, spaceHeaders) && !IsHrule(s) && PrefixQuote(s) == 0
      ensures 0 < end <= |s| && i <= |s|
    {
      i, end, level := 0, 0, 0;
      assert s[0..] == s;
      while i < |s|
        invariant i == end <= |s| && level == 0
      {
        end := LineEnd(s, i);
        if IsEmpty(s[i..]) != 0 { break; }
        level := IsHeaderline(s[i..]);
        if level != 0 { break; }
        if IsAtxheader(s[i..], spaceHeaders) || IsHrule(s[i..]) || PrefixQuote(s[i..]) != 0 {
          end := i;
          break;
        }
        i := end;
      }
    }

    method ParseParagraph(ob: Buffer, s: seq<Char>) returns (end: nat)
      requires Ready(ob) && s != [] && IsEmpty(s) == 0 && Occupancy() <= maxNesting
      requires !IsAtxheader(s, spaceHeaders) && !IsHrule(s) && PrefixQuote(s) == 0
      modifies Repr, ob
      ensures Kept({ob}) && 0 < end <= |s|
      decreases maxNesting + 5 - Occupancy(), 15
    {
      var level, size;
      end, level, size := ScanParagraph(s);
      while size > 0 && s[size - 1] == '\n' { size := size - 1; }
      if level == 0 {
        NestedBlock(ob, size);
      } else {
        ParseSetextHeader(ob, s, size);
      }
    }

    method ParseSetextHeader(ob: Buffer, s: seq<Char>, size: nat)
      requires Ready(ob) && size <= |s| && Occupancy() <= maxNesting
      modifies Repr, ob
      ensures Kept({ob})
      decreases maxNesting + 5 - Occupancy(), 14
    {
      var before, header := SplitHeader(s, size);
      if before > 0 { NestedBlock(ob, before); }
      var _ := NestedSpan(ob, header);
    }

    /** The header is the last line; whatever comes before it is a paragraph of its own. */
    method SplitHeader(s: seq<Char>, size: nat) returns (before: nat, header: nat)
      requires size <= |s|
      ensures before + header <= size && (before == 0 ==> header == size)
    {
      before, header := 0, size;
      if size == 0 { return; }
      var i := size - 1;
      while i > 0 && s[i] != '\n' { i := i - 1; }
      var beg := i + 1;
      while i > 0 && s[i - 1] == '\n'
        invariant i < beg
      {
        i := i - 1;
      }
      if i > 0 { before, header := i, size - beg; }
    }

    method ParseBlockcode(ob: Buffer, s: seq<Char>) returns (beg: nat)
      requires Ready(ob) && PrefixCode(s) != 0 && Occupancy() <= maxNesting
      modifies Repr, ob
      ensures Kept({ob}) && 0 < beg <= |s|
    {
      beg := 0;
      CodeLine(s);
      while beg < |s|
        invariant beg <= |s|
      {
        var end := LineEnd(s, beg);
        if PrefixCode(s[beg..end]) == 0 && IsEmpty(s[beg..end]) == 0 { break; }
        beg := end;
      }
      RenderBlock(ob);
    }

    /** A block buffer with text of its own, then the renderer. */
    method RenderBlock(ob: Buffer)
      requires Ready(ob) && Occupancy() <= maxNesting
      modifies Repr, ob
      ensures Kept({ob})
    {
      var work := NewBlockBuf();
      Emit(work);
      PassOnBlock(ob, old(blocks));
    }

    method ParseList(ob: Buffer, s: seq<Char>) returns (i: nat)
      requires Ready(ob) && (PrefixUli(s) != 0 || PrefixOli(s) != 0) && Occupancy() <= maxNesting
      modifies Repr, ob
      ensures Kept({ob}) && 0 < i <= |s|
      decreases maxNesting + 5 - Occupancy(), 15
    {
      var work := NewBlockBuf();
      i := ParseItems(work, s);
      PassOnBlock(ob, old(blocks));
    }

    method ParseItems(work: Buffer, s: seq<Char>) returns (i: nat)
      requires Ready(work) && (PrefixUli(s) != 0 || PrefixOli(s) != 0) && Occupancy() <= maxNesting + 1
      modifies Repr, work
      ensures Kept({work}) && 0 < i <= |s|
      decreases maxNesting + 5 - Occupancy(), 22
    {
      i := ParseListitem(work, s);
      var endsHere: bool := *;
      while i < |s| && !endsHere
        invariant Kept({work}) && 0 < i <= |s|
      {
        var j := ParseListitem(work, s[i..]);
        i := i + j;
        if j == 0 { break; }
        endsHere := *;
      }
    }

    /** How far the item goes, 0 when there is none. */
    method ScanListitem(s: seq<Char>) returns (beg: nat)
      ensures beg <= |s| && (beg == 0 <==> PrefixUli(s) == 0 && PrefixOli(s) == 0)
    {
      beg := PrefixUli(s);
      if beg == 0 { beg := PrefixOli(s); }
      if beg == 0 { return; }
      while beg < |s| && s[beg - 1] != '\n'
        invariant 0 < beg <= |s|
      {
        beg := beg + 1;
      }
      while beg < |s|
        invariant 0 < beg <= |s|
      {
        var belongs: bool := *;     // an empty line, an indented one, no new item
        if !belongs { break; }
        beg := LineEnd(s, beg);
      }
    }

    method ParseListitem(ob: Buffer, s: seq<Char>) returns (beg: nat)
      requires Ready(ob) && Occupancy() <= maxNesting + 1
      modifies Repr, ob
      ensures Kept({ob}) && beg <= |s| && (beg == 0 <==> PrefixUli(s) == 0 && PrefixOli(s) == 0)
      decreases maxNesting + 5 - Occupancy(), 21
    {
      beg := ScanListitem(s);
      if beg != 0 { RenderListitem(ob); }
    }

    method RenderListitem(ob: Buffer)
      requires Ready(ob) && Occupancy() <= maxNesting + 1
      modifies Repr, ob
      ensures Kept({ob})
      decreases maxNesting + 5 - Occupancy(), 20
    {
      var work := FilledSpanBuf();
      RenderItem(ob, work);
      PopSpanBuf(old(spans));
    }

    method RenderItem(ob: Buffer, work: Buffer)
      requires ReadyFor(ob, work) && Occupancy() <= maxNesting + 2
      modifies Repr, ob, work
      ensures Kept({ob, work})
      decreases maxNesting + 5 - Occupancy(), 22
    {
      var inter := NewSpanBuf();
      ParseItem(inter, work);
      PassOnSpan(ob, old(spans));
    }

    /** The item's own text is a buffer of the pool while it is parsed. */
    method ParseItem(inter: Buffer, work: Buffer)
      requires ReadyFor(inter, work)
      modifies Repr, inter, work
      ensures Kept({inter, work})
      decreases maxNesting + 5 - Occupancy(), 21
    {
      var isBlock: bool := *;
      var sublist := Scan();
      if 0 < sublist < |work.data| {
        if isBlock { ParseBlock(inter, work, 0, sublist); } else { ParseInline(inter, sublist); }
        ParseBlock(inter, work, sublist, |work.data| - sublist);
      } else if isBlock {
        ParseBlock(inter, work, 0, |work.data|);
      } else {
        ParseInline(inter, |work.data|);
      }
    }

    // ---- tables ----

    method ParseTable(ob: Buffer) returns (n: nat)
      requires Ready(ob) && Occupancy() <= maxNesting
      modifies Repr, ob
      ensures Kept({ob})
      decreases maxNesting + 5 - Occupancy(), 15
    {
      var work := NewBlockBuf();
      n := ParseTableParts(work);
      if n > 0 { Emit(ob); }
      PopBlockBuf(old(blocks));
    }

    method ParseTableParts(work: Buffer) returns (n: nat)
      requires Ready(work) && Occupancy() <= maxNesting + 1
      modifies Repr, work
      ensures Kept({work})
      decreases maxNesting + 5 - Occupancy(), 15
    {
      var headerWork := NewSpanBuf();
      n := ParseTableBody(work, headerWork);
      PopSpanBuf(old(spans));
    }

    method ParseTableBody(work: Buffer, headerWork: Buffer) returns (n: nat)
      requires ReadyFor(work, headerWork) && Occupancy() <= maxNesting + 2
      modifies Repr, work, headerWork
      ensures Kept({work, headerWork})
      decreases maxNesting + 5 - Occupancy(), 15
    {
      var bodyWork := NewBlockBuf();
      n := FillTable(work, headerWork, bodyWork);
      PopBlockBuf(old(blocks));
    }

    method FillTable(work: Buffer, headerWork: Buffer, bodyWork: Buffer) returns (n: nat)
      requires ReadyFor(work, headerWork) && Usable(bodyWork) && bodyWork !in {work, headerWork}
      requires Occupancy() <= maxNesting + 3
      modifies Repr, work, headerWork, bodyWork
      ensures Kept({work, headerWork, bodyWork})
      decreases maxNesting + 5 - Occupancy(), 15
    {
      n := ParseTableHeader(headerWork);
      if n > 0 {
        n := ParseTableRows(bodyWork, n);
        Emit(work);
      }
    }

    method ParseTableHeader(ob: Buffer) returns (n: nat)
      requires Ready(ob) && Occupancy() <= maxNesting + 3
      modifies Repr, ob
      ensures Kept({ob})
      decreases maxNesting + 5 - Occupancy(), 14
    {
      n := Scan();
      if n > 0 { ParseTableRow(ob); }
    }

    method ParseTableRows(ob: Buffer, from: nat) returns (i: nat)
      requires Ready(ob) && Occupancy() <= maxNesting + 3
      modifies Repr, ob
      ensures Kept({ob}) && i >= from
      decreases maxNesting + 5 - Occupancy(), 14
    {
      i := from;
      var size := Scan();
      while i < size
        invariant Kept({ob}) && i >= from
      {
        var isRow: bool := *;
        if !isRow { break; }
        ParseTableRow(ob);
        var width := Scan();
        i := i + width + 1;
      }
    }

    method ParseTableRow(ob: Buffer)
      requires Ready(ob) && Occupancy() <= maxNesting + 3
      modifies Repr, ob
      ensures Kept({ob})
      decreases maxNesting + 5 - Occupancy(), 13
    {
      var hasRenderer: bool := *;
      if !hasRenderer { return; }
      var rowWork := NewSpanBuf();
      ParseCells(rowWork);
      PassOnSpan(ob, old(spans));
    }

    method ParseCells(rowWork: Buffer)
      requires Ready(rowWork) && Occupancy() <= maxNesting + 4
      modifies Repr, rowWork
      ensures Kept({rowWork})
      decreases maxNesting + 5 - Occupancy(), 13
    {
      var columns := Scan();
      for col := 0 to columns
        invariant Kept({rowWork})
      {
        var size := Scan();
        var _ := NestedSpan(rowWork, size);
      }
      Emit(rowWork);
    }

    // ---- block quotes ----

    /** The prefixes are removed from the text where it stands, and what is left is parsed there. */
    method ParseBlockquote(ob: Buffer, src: Buffer, off: nat, size: nat) returns (end: nat)
      requires ReadyFor(ob, src) && 0 < size && off + size <= |src.data| && Occupancy() <= maxNesting
      modifies Repr, ob, src
      ensures Kept({ob, src}) && |src.data| == old(|src.data|) && 0 < end <= size
      decreases maxNesting + 5 - Occupancy(), 15
    {
      var out := NewBlockBuf();
      end := ParseQuoted(out, src, off, size);
      PassOnBlock(ob, old(blocks));
    }

    method ParseQuoted(out: Buffer, src: Buffer, off: nat, size: nat) returns (end: nat)
      requires ReadyFor(out, src) && 0 < size && off + size <= |src.data|
      modifies Repr, out, src
      ensures Kept({out, src}) && |src.data| == old(|src.data|) && 0 < end <= size
      decreases maxNesting + 5 - Occupancy(), 21
    {
      var start, len;
      end, start, len := StripQuote(src, off, size);
      ParseBlock(out, src, start, len);
    }

    // ---- footnotes and whole documents ----

    method ParseFootnoteDef(ob: Buffer, contents: Buffer)
      requires ReadyFor(ob, contents) && Occupancy() < maxNesting + 5
      modifies Repr, ob, contents
      ensures Kept({ob, contents})
    {
      var work := NewSpanBuf();
      ParseBlock(work, contents, 0, |contents.data|);
      PassOnSpan(ob, old(spans));
    }

    /** While the list is rendered it grows by the footnotes that footnotes refer to. */
    method ParseFootnoteList(ob: Buffer)
      requires Ready(ob) && ob !in found && Occupancy() <= maxNesting
      modifies Repr, ob, found
      ensures Kept({ob})
    {
      if |used| == 0 { return; }
      var work := NewBlockBuf();
      RenderFootnotes(work);
      PassOnBlock(ob, old(blocks));
    }

    method RenderFootnotes(work: Buffer)
      requires Ready(work) && work !in found && Occupancy() <= maxNesting + 1
      modifies Repr, work, found
      ensures Kept({work})
    {
      var k := 0;
      DistinctBelow(used, |found|);
      while k < |used|
        invariant Kept({work}) && k <= |used| <= |found|
        decreases |found| - k
      {
        var contents := found[used[k]];
        ParseFootnoteDef(work, contents);
        DistinctBelow(used, |found|);
        k := k + 1;
      }
    }

    /** hoedown_document_render, from the second pass on; `text` and the footnote definitions are
        what the first one came to. */
    method Render(ob: Buffer, text: Buffer, footnotes: seq<Buffer>)
      requires Valid() && Idle() && ob !in Repr && text !in Repr && ob != text
      requires forall b <- footnotes :: b !in Repr && b != ob && b != text
      modifies Repr, ob, text, footnotes
      ensures Valid() && Idle() && span.size == block.size == 0 && fresh(Repr - old(Repr))
    {
      found, used := footnotes, [];
      Emit(ob);
      RenderText(ob, text);
      var footnotesEnabled: bool := *;
      if footnotesEnabled { ParseFootnoteList(ob); }
      Emit(ob);
    }

    method RenderText(ob: Buffer, text: Buffer)
      requires ReadyFor(ob, text) && text !in Repr
      modifies Repr, ob, text
      ensures Kept({ob, text})
    {
      if |text.data| > 0 {
        var last := text.data[|text.data| - 1];
        if last != '\n' && last != '\r' { text.data := text.data + "\n"; }
        ParseBlock(ob, text, 0, |text.data|);
      }
    }

    method RenderInline(ob: Buffer, text: Buffer)
      requires Valid() && Idle() && ob !in Repr
      modifies Repr, ob
      ensures Valid() && Idle() && span.size == block.size == 0 && fresh(Repr - old(Repr))
    {
      Emit(ob);
      ParseInline(ob, |text.data|);
      Emit(ob);
    }
  }

  lemma {:induction false} DistinctBelow(ks: seq<nat>, n: nat)
    requires forall i, j :: 0 <= i < j < |ks| ==> ks[i] != ks[j]
    requires forall i :: 0 <= i < |ks| ==> ks[i] < n
    ensures |ks| <= n
  {
    if ks != [] {
      assert ks[0] < n;
      if i: nat :| i < |ks| && ks[i] == n - 1 {
        DistinctBelow(ks[..i] + ks[i + 1..], n - 1);
      } else {
        DistinctBelow(ks, n - 1);
      }
    }
  }
}
