// The same on buffers: url_encode, url_decode, in place or not, and the path cleaner
// (src/mongoose/mongoose.c:1646-1669, 1874-1893, 2507-2525, 4353-4354).

module UriBuffers {
  import opened Wrappers
  import opened Uri

  method PutByte(c: Char, dst: array<Char>, len: nat) returns (next: nat)
    requires len < dst.Length - 1
    modifies dst
    ensures next == len + (if !Kept(c) && len + 2 < dst.Length - 1 then 3 else 1)
    ensures forall i :: 0 <= i < dst.Length && !(len <= i < next) ==> dst[i] == old(dst[i])
    ensures Kept(c) ==> dst[len] == c
    ensures next == len + 3 ==> (
      dst[len] == '%' && dst[len + 1] == Hex(c as int / 16) && dst[len + 2] == Hex(c as int % 16))
    ensures next == len + 1 && !Kept(c) ==> dst[len] == old(dst[len])
  {
    if Kept(c) {
      dst[len] := c;
      next := len + 1;
    } else if len + 2 < dst.Length - 1 {
      dst[len], dst[len + 1], dst[len + 2] := '%', Hex(c as int / 16), Hex(c as int % 16);
      next := len + 3;
    } else {
      next := len + 1;
    }
  }

  method UrlEncode(src: seq<Char>, dst: array<Char>) returns (len: nat)
    requires dst.Length > 0
    modifies dst
    ensures len < dst.Length && dst[len] == NUL && dst[..len] == EncodedOver(src, old(dst[..dst.Length - 1]))
    ensures forall i :: len < i < dst.Length ==> dst[i] == old(dst[i])
  {
    ghost var room := dst[..dst.Length - 1];
    ghost var all := EncodedOver(src, room);
    var k := 0;
    len := 0;
    StartsAll(src, room);
    while k < |src| && len < dst.Length - 1
      invariant Continues(all, src, k, room, len)
      invariant forall i :: len <= i < dst.Length ==> dst[i] == old(dst[i])
      invariant forall i :: 0 <= i < len ==> dst[i] == all[i]
    {
      len := EncodeNext(src, k, dst, len, all, room);
      k := k + 1;
    }
    dst[len] := NUL;
    EndsAll(all, src, k, room, len);
    assert dst[..len] == all;
  }

  /** One round of the loop. */
  method EncodeNext(src: seq<Char>, k: nat, dst: array<Char>, len: nat, ghost all: seq<Char>, ghost room: seq<Char>)
    returns (next: nat)
    requires k < |src| && len < |room| == dst.Length - 1 && Continues(all, src, k, room, len)
    requires forall i :: len <= i < |room| ==> dst[i] == room[i]
    requires forall i :: 0 <= i < len ==> dst[i] == all[i]
    modifies dst
    ensures len < next && Continues(all, src, k + 1, room, next)
    ensures forall i :: next <= i < dst.Length ==> dst[i] == old(dst[i])
    ensures forall i :: 0 <= i < next ==> dst[i] == all[i]
  {
    OneEncoded(all, src, k, room, len);
    next := PutByte(src[k], dst, len);
  }

  /** From `len` on, `all` is what becomes of the bytes from k on. */
  ghost predicate Continues(all: seq<Char>, src: seq<Char>, k: nat, room: seq<Char>, len: nat) {
    k <= |src| && len <= |all| <= |room| && all[len..] == EncodedOver(src[k..], room[len..])
  }

  lemma StartsAll(src: seq<Char>, room: seq<Char>)
    ensures Continues(EncodedOver(src, room), src, 0, room, 0)
  {
    assert src[0..] == src && room[0..] == room;
  }

  lemma EndsAll(all: seq<Char>, src: seq<Char>, k: nat, room: seq<Char>, len: nat)
    requires Continues(all, src, k, room, len) && (k == |src| || len == |room|)
    ensures len == |all|
  {}

  lemma OneEncoded(all: seq<Char>, src: seq<Char>, k: nat, room: seq<Char>, len: nat)
    requires Continues(all, src, k, room, len) && k < |src| && len < |room|
    ensures var next := len + (if !Kept(src[k]) && len + 2 < |room| then 3 else 1);
      && Continues(all, src, k + 1, room, next)
      && (Kept(src[k]) ==> all[len] == src[k])
      && (next == len + 3 ==>
        all[len] == '%' && all[len + 1] == Hex(src[k] as int / 16) && all[len + 2] == Hex(src[k] as int % 16))
      && (next == len + 1 && !Kept(src[k]) ==> all[len] == room[len])
  {
    var s, r, a := src[k..], room[len..], all[len..];
    assert s[1..] == src[k + 1..] && r[1..] == room[len + 1..] && a[1..] == all[len + 1..];
    assert a[0] == all[len];
    if !Kept(src[k]) && len + 2 < |room| {
      assert r[3..] == room[len + 3..] && a[1] == all[len + 1] && a[2] == all[len + 2] && a[3..] == all[len + 3..];
    }
  }

  // ---- decoding ----

  /** The first decoded bytes only, and how much of s they come from. */
  function DecodedIn(s: seq<Char>, room: nat, form: bool): (r: seq<Char>)
    ensures |r| <= room && |r| <= |s|
  {
    if s == [] || room == 0 then [] else [DecodedByte(s, 0, form)] + DecodedIn(s[Width(s, 0)..], room - 1, form)
  }

  function UsedIn(s: seq<Char>, room: nat): (n: nat)
    ensures n <= |s|
  {
    if s == [] || room == 0 then 0 else Width(s, 0) + UsedIn(s[Width(s, 0)..], room - 1)
  }

  /** There is room for all exactly when all of s is used, and then all of it is decoded. */
  lemma {:induction false} RoomForAll(s: seq<Char>, room: nat, form: bool)
    ensures UsedIn(s, room) == |s| <==> |Decoded(s, form)| <= room
    ensures |Decoded(s, form)| <= room ==> DecodedIn(s, room, form) == Decoded(s, form)
    ensures DecodedIn(s, room, form) <= Decoded(s, form) && |DecodedIn(s, room, form)| == (
      if |Decoded(s, form)| < room then |Decoded(s, form)| else room)
  {
    if s != [] && room > 0 { RoomForAll(s[Width(s, 0)..], room - 1, form); }
  }

  /** src and dst may be the same buffer. */
  method UrlDecode(src: array<Char>, srcLen: nat, dst: array<Char>, dstLen: nat, form: bool) returns (len: int)
    requires srcLen <= src.Length && 0 < dstLen <= dst.Length
    modifies dst
    ensures var s := old(src[..srcLen]);
      var r := DecodedIn(s, dstLen - 1, form);
      && dst[..|r|] == r && dst[|r|] == NUL
      && len == if UsedIn(s, dstLen - 1) == srcLen then |r| else -1
    ensures forall i :: dstLen <= i < dst.Length ==> dst[i] == old(dst[i])
  {
    ghost var s := src[..srcLen];
    ghost var at: seq<nat>, r: seq<Char> := [0], [];
    var i, j := 0, 0;
    while i < srcLen && j < dstLen - 1
      invariant i <= srcLen && j <= i && j <= dstLen - 1
      invariant |r| == j && |at| == j + 1 && at[0] == 0 && at[j] == i && Traces(s, at, r, form)
      invariant forall k :: i <= k < srcLen ==> src[k] == s[k]
      invariant forall k :: 0 <= k < j ==> dst[k] == r[k]
      invariant forall k :: dstLen <= k < dst.Length ==> dst[k] == old(dst[k])
    {
      var width, c := DecodeByte(src, i, srcLen, form);
      SameByte(s, src[..srcLen], i, form);
      OneTraced(s, at, r, form);
      dst[j] := c;
      i, j := i + width, j + 1;
      at, r := at + [i], r + [c];
    }
    dst[j] := NUL;
    assert dst[..j] == r;
    TraceDecodes(s, at, r, dstLen - 1, form, 0);
    len := if i >= srcLen then j else -1;
  }

  method DecodeByte(src: array<Char>, i: nat, srcLen: nat, form: bool) returns (width: nat, c: Char)
    requires i < srcLen <= src.Length
    ensures width == Width(src[..srcLen], i) && c == DecodedByte(src[..srcLen], i, form)
  {
    if i + 2 < srcLen && src[i] == '%' && IsXDigit(src[i + 1]) && IsXDigit(src[i + 2]) {
      return 3, Unescaped(src[i + 1], src[i + 2]);
    } else if form && src[i] == '+' {
      return 1, ' ';
    } else {
      return 1, src[i];
    }
  }

  /** A byte is decoded by itself and the two behind it. */
  lemma SameByte(s: seq<Char>, t: seq<Char>, i: nat, form: bool)
    requires i < |s| == |t| && forall k :: i <= k < |s| ==> t[k] == s[k]
    ensures Width(s, i) == Width(t, i) && DecodedByte(s, i, form) == DecodedByte(t, i, form)
  {}

  /** Byte k of r comes from at[k], and the next from just behind. */
  predicate Step(s: seq<Char>, at: seq<nat>, r: seq<Char>, k: nat, form: bool)
    requires k < |r| < |at|
  {
    at[k] < |s| && at[k + 1] == at[k] + Width(s, at[k]) && r[k] == DecodedByte(s, at[k], form)
  }

  predicate Traces(s: seq<Char>, at: seq<nat>, r: seq<Char>, form: bool)
    requires |r| < |at|
  {
    forall k: nat :: k < |r| ==> Step(s, at, r, k, form)
  }

  lemma OneTraced(s: seq<Char>, at: seq<nat>, r: seq<Char>, form: bool)
    requires |at| == |r| + 1 && Traces(s, at, r, form) && at[|r|] < |s|
    ensures var i := at[|r|]; Traces(s, at + [i + Width(s, i)], r + [DecodedByte(s, i, form)], form)
  {
    var i := at[|r|];
    var at1, r1 := at + [i + Width(s, i)], r + [DecodedByte(s, i, form)];
    forall k: nat | k < |r| ensures Step(s, at1, r1, k, form) { assert Step(s, at, r, k, form); }
  }

  /** Taking the decoded bytes one by one is decoding. */
  lemma {:induction false} TraceDecodes(s: seq<Char>, at: seq<nat>, r: seq<Char>, room: nat, form: bool, k: nat)
    requires k <= |r| <= room && |at| == |r| + 1 && Traces(s, at, r, form)
    requires at[k] <= |s| && at[|r|] <= |s| && (at[|r|] == |s| || |r| == room)
    ensures r[k..] == DecodedIn(s[at[k]..], room - k, form) && at[|r|] == at[k] + UsedIn(s[at[k]..], room - k)
    decreases |r| - k
  {
    if k < |r| {
      assert Step(s, at, r, k, form);
      var rest, w := s[at[k]..], Width(s, at[k]);
      TraceDecodes(s, at, r, room, form, k + 1);
      assert Width(rest, 0) == w && DecodedByte(rest, 0, form) == r[k];
      assert rest[w..] == s[at[k + 1]..];
      assert r[k..] == [r[k]] + r[k + 1..];
    }
  }

  // ---- paths ----

  /** remove_double_dots_and_double_slashes: `n` is where the path's terminator stands. */
  method RemoveDoubleDotsAndDoubleSlashes(a: array<Char>, n: nat) returns (p: nat)
    requires n < a.Length && a[n] == NUL && forall k :: 0 <= k < n ==> a[k] != NUL
    modifies a
    ensures p <= n && a[..p] == Cleaned(old(a[..n])) && a[p] == NUL
    ensures forall k :: n < k < a.Length ==> a[k] == old(a[k])
  {
    ghost var s := a[..n];
    ghost var at: seq<nat> := [0];
    ghost var r: seq<Char> := [];
    var i := 0;
    p := 0;
    while a[i] != NUL
      invariant p <= i <= n
      invariant |r| == p && |at| == p + 1 && at[0] == 0 && at[p] == i && Keeps(s, at, r)
      invariant forall k :: i <= k < n ==> a[k] == s[k]
      invariant forall k :: 0 <= k < p ==> a[k] == r[k]
      invariant forall k :: n <= k < a.Length ==> a[k] == old(a[k])
      decreases n - i
    {
      var c := a[i];
      OneKept(s, at, r);
      a[p] := c;
      p, i := p + 1, i + 1;
      if IsSeparator(c) { i := SkipRemoved(a, i, n, s); }
      at, r := at + [i], r + [c];
    }
    a[p] := NUL;
    assert a[..p] == r;
    KeptIsCleaned(s, at, r, 0);
  }

  method SkipRemoved(a: array<Char>, from: nat, n: nat, ghost s: seq<Char>) returns (i: nat)
    requires from <= n < a.Length && a[n] == NUL && |s| == n
    requires forall k :: from <= k < n ==> a[k] == s[k] && a[k] != NUL
    ensures i == Skip(s, from)
  {
    i := from;
    while a[i] != NUL
      invariant from <= i <= n && Skip(s, i) == Skip(s, from)
      decreases n - i
    {
      if IsSeparator(a[i]) {
        i := i + 1;
      } else if a[i] == '.' && a[i + 1] == '.' {
        i := i + 2;
      } else {
        break;
      }
    }
  }

  /** Byte k of r comes from at[k], and the next from the next place that is not skipped. */
  predicate Keep(s: seq<Char>, at: seq<nat>, r: seq<Char>, k: nat)
    requires k < |r| < |at|
  {
    at[k] < |s| && at[k + 1] == Next(s, at[k]) && r[k] == s[at[k]]
  }

  predicate Keeps(s: seq<Char>, at: seq<nat>, r: seq<Char>)
    requires |r| < |at|
  {
    forall k: nat :: k < |r| ==> Keep(s, at, r, k)
  }

  lemma OneKept(s: seq<Char>, at: seq<nat>, r: seq<Char>)
    requires |at| == |r| + 1 && Keeps(s, at, r) && at[|r|] < |s|
    ensures Keeps(s, at + [Next(s, at[|r|])], r + [s[at[|r|]]])
  {
    var at1, r1 := at + [Next(s, at[|r|])], r + [s[at[|r|]]];
    forall k: nat | k < |r| ensures Keep(s, at1, r1, k) { assert Keep(s, at, r, k); }
  }

  lemma {:induction false} KeptIsCleaned(s: seq<Char>, at: seq<nat>, r: seq<Char>, k: nat)
    requires k <= |r| && |at| == |r| + 1 && Keeps(s, at, r) && at[|r|] == |s| && at[k] <= |s|
    ensures r[k..] == CleanedFrom(s, at[k])
    decreases |r| - k
  {
    if k < |r| {
      assert Keep(s, at, r, k);
      KeptIsCleaned(s, at, r, k + 1);
      assert r[k..] == [r[k]] + r[k + 1..];
    }
  }
}
