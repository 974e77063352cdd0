// Finding the end of a request header in a growing buffer
// (src/mongoose/mongoose.c:1808-1827).

module RequestFraming {
  import opened Wrappers

  const CR: byte := 13
  const LF: byte := 10

  /** A control character that a header may not contain; bytes from 128 on are let through. */
  predicate IsBad(c: byte) {
    c < 128 && !(32 <= c <= 126) && c != CR && c != LF
  }

  /** What the scan finds at position k: -1 for a bad character, the length of the header for
      an empty line, 0 for neither. The last byte is never the first of anything. */
  function Event(b: seq<byte>, k: nat): int
    requires k + 1 < |b|
  {
    if IsBad(b[k]) then -1
    else if b[k] == LF && b[k + 1] == LF then k + 2
    else if b[k] == LF && k + 2 < |b| && b[k + 1] == CR && b[k + 2] == LF then k + 3
    else 0
  }

  function Scan(b: seq<byte>, k: nat): int
    decreases |b| - k
  {
    if k + 1 >= |b| then 0
    else if Event(b, k) != 0 then Event(b, k)
    else Scan(b, k + 1)
  }

  /** -1 malformed, 0 not complete, else the length of the header with its empty line. */
  function RequestLen(b: seq<byte>): int { Scan(b, 0) }

  /** The scan reports the first event. */
  lemma {:induction false} ScanIsFirstEvent(b: seq<byte>, k: nat)
    ensures var r := Scan(b, k);
      && (r == 0 ==> forall i :: k <= i && i + 1 < |b| ==> Event(b, i) == 0)
      && (r != 0 ==> exists i :: k <= i && i + 1 < |b| && Event(b, i) == r
                                 && forall j :: k <= j < i ==> Event(b, j) == 0)
      && r <= |b|
    decreases |b| - k
  {
    if k + 1 < |b| && Event(b, k) == 0 { ScanIsFirstEvent(b, k + 1); }
  }

  /** An answer once given is given for every extension of the buffer. */
  lemma {:induction false} ScanIsStable(a: seq<byte>, more: seq<byte>, k: nat)
    requires Scan(a, k) != 0
    ensures Scan(a + more, k) == Scan(a, k)
    decreases |a| - k
  {
    if Event(a, k) == 0 {
      // an empty line that begins here without being complete would be the last two bytes
      assert k + 2 < |a|;
      ScanIsStable(a, more, k + 1);
    }
  }

  lemma RequestLenIsStable(a: seq<byte>, more: seq<byte>)
    requires RequestLen(a) != 0
    ensures RequestLen(a + more) == RequestLen(a)
  {
    ScanIsStable(a, more, 0);
  }

  /** The header found is a prefix that ends in an empty line, has no earlier one, and no
      bad character before it. */
  lemma RequestLenMeaning(b: seq<byte>)
    requires RequestLen(b) > 0
    ensures var n := RequestLen(b);
      && 2 <= n <= |b| && b[n - 1] == LF
      && (b[n - 2] == LF || (n >= 3 && b[n - 2] == CR && b[n - 3] == LF))
      && (forall m :: 0 <= m < n ==> RequestLen(b[..m]) <= 0)
      && (forall i :: 0 <= i < n ==> !IsBad(b[i]))
  {
    ScanIsFirstEvent(b, 0);
    var n := RequestLen(b);
    var e :| 0 <= e && e + 1 < |b| && Event(b, e) == n && forall j :: 0 <= j < e ==> Event(b, j) == 0;
    forall i | 0 <= i < n ensures !IsBad(b[i]) {
      if i < e { assert Event(b, i) == 0; }
    }
    forall m | 0 <= m < n ensures RequestLen(b[..m]) <= 0 {
      assert b == b[..m] + b[m..];
      if RequestLen(b[..m]) != 0 { RequestLenIsStable(b[..m], b[m..]); ScanIsFirstEvent(b[..m], 0); }
    }
  }

  /** And it is found as soon as the buffer holds it. */
  lemma {:induction false} ScanFindsHeader(b: seq<byte>, n: nat, k: nat)
    requires 0 < Scan(b, k) <= n <= |b|
    ensures Scan(b[..n], k) == Scan(b, k)
    decreases |b| - k
  {
    if Event(b, k) == 0 {
      ScanIsFirstEvent(b, k + 1);
      ScanFindsHeader(b, n, k + 1);
    }
  }

  /** What the scan of a prefix says of the whole: it finds the header exactly when it holds it. */
  lemma PrefixDecides(b: seq<byte>, n: nat)
    requires n <= |b|
    ensures RequestLen(b[..n]) > 0 <==> 0 < RequestLen(b) <= n
    ensures RequestLen(b[..n]) != 0 ==> RequestLen(b[..n]) == RequestLen(b)
  {
    assert b == b[..n] + b[n..];
    ScanIsFirstEvent(b[..n], 0);
    if RequestLen(b[..n]) != 0 { RequestLenIsStable(b[..n], b[n..]); }
    if 0 < RequestLen(b) <= n { ScanFindsHeader(b, n, 0); }
  }

  // ---- byte by byte ----

  /** A line feed, directly or but for a carriage return followed by another one. */
  predicate EmptyLineAt(b: seq<byte>, i: nat) {
    && i + 1 < |b| && b[i] == 10
    && (b[i + 1] == 10 || (i + 2 < |b| && b[i + 1] == 13 && b[i + 2] == 10))
  }

  /** A byte that no header may contain. */
  predicate ControlAt(b: seq<byte>, i: nat) {
    i < |b| && (b[i] == 127 || (b[i] < 32 && b[i] != 10 && b[i] != 13))
  }

  lemma EventByByte(b: seq<byte>, i: nat)
    requires i + 1 < |b|
    ensures Event(b, i) == -1 <==> ControlAt(b, i)
    ensures Event(b, i) > 0 <==> EmptyLineAt(b, i)
    ensures EmptyLineAt(b, i) ==> Event(b, i) == if b[i + 1] == 10 then i + 2 else i + 3
  {}

  predicate FirstEmptyLineAt(b: seq<byte>, i: nat) {
    EmptyLineAt(b, i) && forall j: nat :: j < i ==> !EmptyLineAt(b, j)
  }

  function EmptyLineEnd(b: seq<byte>, i: nat): nat
    requires EmptyLineAt(b, i)
  {
    if b[i + 1] == 10 then i + 2 else i + 3
  }

  /** A header is found exactly when an empty line comes with no control character before it, and
      ends with the first such. */
  lemma FoundIff(b: seq<byte>)
    ensures RequestLen(b) > 0 <==> exists i: nat :: EmptyLineAt(b, i) && forall j: nat :: j < i ==> !ControlAt(b, j)
    ensures RequestLen(b) > 0 ==> exists i: nat :: FirstEmptyLineAt(b, i) && RequestLen(b) == EmptyLineEnd(b, i)
  {
    ScanIsFirstEvent(b, 0);
    forall i: nat | i + 1 < |b|
      ensures (Event(b, i) == -1 <==> ControlAt(b, i)) && (Event(b, i) > 0 <==> EmptyLineAt(b, i))
    {
      EventByByte(b, i);
    }
    if RequestLen(b) != 0 {
      var e: nat :| e + 1 < |b| && Event(b, e) == RequestLen(b) && forall j :: 0 <= j < e ==> Event(b, j) == 0;
      EventByByte(b, e);
      if RequestLen(b) > 0 { assert FirstEmptyLineAt(b, e) && RequestLen(b) == EmptyLineEnd(b, e); }
    }
  }

  /** It is malformed exactly when a control character, not the last byte, comes before any empty
      line. */
  lemma MalformedIff(b: seq<byte>)
    ensures RequestLen(b) == -1
       <==> exists i: nat :: i + 1 < |b| && ControlAt(b, i) && forall j: nat :: j < i ==> !EmptyLineAt(b, j)
    ensures RequestLen(b) >= -1
  {
    ScanIsFirstEvent(b, 0);
    forall i: nat | i + 1 < |b|
      ensures (Event(b, i) == -1 <==> ControlAt(b, i)) && (Event(b, i) > 0 <==> EmptyLineAt(b, i))
    {
      EventByByte(b, i);
    }
    if RequestLen(b) != 0 {
      var e: nat :| e + 1 < |b| && Event(b, e) == RequestLen(b) && forall j :: 0 <= j < e ==> Event(b, j) == 0;
      EventByByte(b, e);
    }
  }

  /** An ordinary request: `GET /`, a line end and an empty line. */
  lemma OrdinaryRequest()
    ensures RequestLen([71, 69, 84, 32, 47, 13, 10, 13, 10]) == 9
  {
    var b: seq<byte> := [71, 69, 84, 32, 47, 13, 10, 13, 10];
    FoundIff(b);
    assert EmptyLineAt(b, 6);
  }

  method GetRequestLen(buf: array<byte>, buflen: nat) returns (len: int)
    requires buflen <= buf.Length
    ensures len == RequestLen(buf[..buflen])
  {
    len := 0;
    ghost var b := buf[..buflen];
    var s := 0;
    while len <= 0 && s + 1 < buflen
      invariant 0 <= s && (len > 0 ==> len == RequestLen(b))
      invariant len <= 0 ==> len == 0 && Scan(b, s) == RequestLen(b)
    {
      assert buf[s] == b[s];
      if IsBad(buf[s]) {
        len := -1;
        break;
      } else if buf[s] == LF && buf[s + 1] == LF {
        len := s + 2;
      } else if buf[s] == LF && s + 1 < buflen - 1 && buf[s + 1] == CR && buf[s + 2] == LF {
        len := s + 3;
      }
      s := s + 1;
    }
  }
}
