// Work buffers and the stacks they are kept in
// (src/hoedown/stack.c:9-59, src/hoedown/document.c:135-158).

module BufferPool {
  import opened Wrappers

  class Buffer {
    var data: seq<Char>

    constructor ()
      ensures data == []
    {
      data := [];
    }
  }

  /** A popped buffer stays in its slot, to be handed out again. */
  class Stack {
    var item: array<Buffer?>    // its length is asize
    var size: nat
    ghost var all: seq<Buffer>  // the live buffers, all[..size], and behind them the parked ones

    ghost predicate Valid()
      reads this, item
    {
      && 0 < item.Length && size <= |all| <= item.Length
      && (forall i :: 0 <= i < |all| ==> item[i] == all[i])
      && (forall i :: |all| <= i < item.Length ==> item[i] == null)
      && (forall i, j :: 0 <= i < j < |all| ==> all[i] != all[j])
    }

    constructor (initialSize: nat)
      ensures Valid() && fresh(item) && size == 0 && all == []
    {
      item := new Buffer?[if initialSize == 0 then 8 else initialSize](_ => null);
      size, all := 0, [];
    }

    method Grow(neosz: nat)
      requires Valid()
      modifies this`item
      ensures Valid() && item.Length == (if old(item.Length) >= neosz then old(item.Length) else neosz)
      ensures item == old(item) || fresh(item)
    {
      if item.Length >= neosz { return; }
      var grown := new Buffer?[neosz](_ => null);
      for i := 0 to item.Length
        modifies grown
        invariant forall j :: 0 <= j < i ==> grown[j] == item[j]
        invariant forall j :: i <= j < neosz ==> grown[j] == null
      {
        grown[i] := item[i];
      }
      item := grown;
    }

    method Push(b: Buffer)
      requires Valid() && b !in all
      modifies this, item
      ensures Valid() && size == old(size) + 1
      ensures all == if old(size) < |old(all)| then old(all)[old(size) := b] else old(all) + [b]
      ensures item == old(item) || fresh(item)
    {
      if size >= item.Length {
        Grow(size * 2);
      }
      item[size] := b;
      all := if size < |all| then all[size := b] else all + [b];
      size := size + 1;
    }

    /** newbuf on this pool. */
    method NewBuf() returns (work: Buffer)
      requires Valid()
      modifies this, item, all
      ensures Valid() && size == old(size) + 1 && all[old(size)] == work && work.data == []
      ensures if old(size) < |old(all)| then all == old(all) else fresh(work) && all == old(all) + [work]
      ensures forall b <- old(all) :: b != work ==> b.data == old(b.data)
      ensures item == old(item) || fresh(item)
    {
      if size < item.Length && item[size] != null {
        work := item[size];
        size := size + 1;
        work.data := [];
      } else {
        work := new Buffer();
        Push(work);
      }
    }

    /** popbuf; char_link gives up several buffers at once. */
    method Shrink(newSize: nat)
      requires Valid() && newSize <= size
      modifies this`size
      ensures Valid() && size == newSize
    {
      size := newSize;
    }
  }
}
