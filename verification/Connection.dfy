// One connection: buffered requests, bodies and keep-alive
// (src/mongoose/mongoose.c:1493-1554, 2897-2910, 4894-4926, 4943-5000).

module Connection {
  import opened Wrappers
  import opened RequestFraming

  /** What one read of the socket does: deliver up to n bytes (none at the end of the stream),
      fail, or return to a server that is being stopped, whatever the system handed over. */
  datatype Arrival = Bytes(n: nat) | Failure | Stop(lost: nat)


  function Min(a: nat, b: nat): (m: nat)
    ensures m <= a && m <= b && (m == a || m == b)
  {
    if a < b then a else b
  }

  /** How a series of reads ended: all were delivered, or one delivered nothing, failed or came
      back to a stopped server. */
  datatype Ending = Full | Empty | Failed | Halted

  datatype Drawn = Drawn(got: nat, rest: seq<Arrival>, end: Ending) {
    function Plus(n: nat): Drawn { Drawn(n + got, rest, end) }
  }

  /** Reading on until `room` bytes are there, when `left` bytes are still to come. */
  function Draw(a: seq<Arrival>, room: nat, left: nat): (d: Drawn)
    ensures d.got <= room && d.got <= left && (d.end.Full? <==> d.got == room)
    decreases a
  {
    if room == 0 then Drawn(0, a, Full)
    else if a == [] then Drawn(0, a, Empty)
    else
      match a[0]
      case Failure => Drawn(0, a[1..], Failed)
      case Stop(_) => Drawn(0, a[1..], Halted)
      case Bytes(k) =>
        var n := Min(Min(k, room), left);
        if n == 0 then Drawn(0, a[1..], Empty) else Draw(a[1..], room - n, left - n).Plus(n)
  }

  /** Every read delivers something. */
  ghost predicate Flowing(a: seq<Arrival>) {
    forall x <- a :: x.Bytes? && x.n > 0
  }

  lemma FlowingTail(a: seq<Arrival>)
    requires Flowing(a) && a != []
    ensures Flowing(a[1..]) && a[0].Bytes? && a[0].n > 0
  {
    assert a[0] in a;
    forall x | x in a[1..] ensures x.Bytes? && x.n > 0 { assert x in a; }
  }

  /** Then as many reads as there are bytes bring all of them. */
  lemma {:induction false} FlowingDraws(a: seq<Arrival>, room: nat, left: nat)
    requires Flowing(a) && |a| >= left
    ensures var d := Draw(a, room, left);
      d.got == Min(room, left) && Flowing(d.rest) && |d.rest| >= left - d.got && (d.end.Full? || d.end.Empty?)
    decreases a
  {
    if room > 0 && a != [] {
      FlowingTail(a);
      var n := Min(Min(a[0].n, room), left);
      if n > 0 { FlowingDraws(a[1..], room - n, left - n); }
    }
  }

  /** Of a body of this length. */
  function AtMost(contentLen: int, n: nat): (m: nat)
    ensures m <= n && (contentLen <= 0 ==> m == 0)
    ensures contentLen > 0 ==> m <= contentLen && (m == n || m == contentLen)
  {
    if contentLen <= 0 then 0 else Min(contentLen, n)
  }

  class MgConnection {
    const buf: array<byte>
    var dataLen: nat
    var requestLen: int
    var contentLen: int
    var consumedContent: int

    /** Everything the client ever sends, how far it was read, and how reads will go. */
    const wire: seq<byte>
    var position: nat
    var arrivals: seq<Arrival>
    var stopped: bool

    /** Place in `wire` of the first buffered byte. */
    ghost var start: nat

    constructor (bufSize: nat, wire: seq<byte>, arrivals: seq<Arrival>)
      ensures Idle() && !stopped && start == 0 && fresh(buf) && buf.Length == bufSize
      ensures this.wire == wire && this.arrivals == arrivals
    {
      buf := new byte[bufSize];
      dataLen, requestLen, contentLen, consumedContent := 0, 0, 0, 0;
      this.wire, this.arrivals, position := wire, arrivals, 0;
      start, stopped := 0, false;
    }

    /** From byte `clean` on the buffer holds what the client sent. */
    ghost predicate InSync(clean: nat)
      reads this, buf
    {
      && clean <= dataLen <= buf.Length && start + dataLen <= position <= |wire|
      && buf[clean..dataLen] == wire[start + clean..start + dataLen]
    }

    lemma BufferedAt(clean: nat, i: nat, j: nat)
      requires InSync(clean) && clean <= i <= j <= dataLen
      ensures buf[i..j] == wire[start + i..start + j]
    {
      forall k | i <= k < j ensures buf[k] == wire[start + k] {
        assert buf[clean..dataLen][k - clean] == wire[start + clean..start + dataLen][k - clean];
      }
    }

    /** Between requests: nothing was read past the buffer. */
    ghost predicate Idle()
      reads this, buf
    {
      InSync(0) && position == start + dataLen
    }

    /** Body bytes that went to the handler without passing through the buffer. */
    ghost function Direct(): int
      reads this
    {
      if requestLen + consumedContent > dataLen then requestLen + consumedContent - dataLen else 0
    }

    /** While a request is handled; its header may have been rewritten in place. */
    ghost predicate Serving()
      reads this, buf
    {
      && 0 < requestLen <= dataLen && InSync(requestLen)
      && 0 <= consumedContent && (consumedContent > 0 ==> consumedContent <= contentLen)
      && position == start + dataLen + Direct()
    }

    ghost function BodyStart(): int
      reads this
    {
      start + requestLen
    }

    /** What the reads to come bring for `room` bytes. */
    function Supply(room: nat): Drawn
      requires position <= |wire|
      reads this
    {
      Draw(arrivals, room, |wire| - position)
    }

    /** The reads to come bring everything that is still to come. */
    ghost predicate Ample()
      reads this
    {
      Flowing(arrivals) && |arrivals| >= |wire| - position
    }

    method Pull(len: nat) returns (n: int, data: seq<byte>)
      requires position <= |wire| && !stopped && len > 0
      modifies this`position, this`arrivals, this`stopped
      ensures old(position) <= position <= |wire|
      ensures n > 0 ==> n == |data| <= len && position == old(position) + n && data == wire[old(position)..position]
      ensures n > 0 ==> !stopped && old(Supply(len)) == Supply(len - n).Plus(n)
      ensures n <= 0 ==> data == [] && n >= -1 && old(Supply(len)) == Drawn(0, arrivals, EndingOf(n))
      ensures stopped ==> n < 0
      ensures !stopped && n <= 0 ==> position == old(position)
      ensures old(Ample()) ==> Ample() && !stopped && (old(position) < |wire| ==> n > 0)
    {
      n, data := 0, [];
      if arrivals != [] {
        if Ample() { FlowingTail(arrivals); }
        var next := arrivals[0];
        arrivals := arrivals[1..];
        match next
        case Bytes(k) =>
          n := Min(Min(k, len), |wire| - position);
          data := wire[position..position + n];
          position := position + n;
        case Failure =>
          n := -1;
        case Stop(lost) =>
          n, stopped := -1, true;
          position := position + Min(lost, |wire| - position);
      }
    }

    function EndingOf(n: int): Ending
      reads this
    {
      if stopped then Halted else if n < 0 then Failed else Empty
    }

    method Store(at: nat, data: seq<byte>)
      requires at + |data| <= buf.Length
      modifies buf
      ensures buf[..at] == old(buf[..at]) && buf[at..at + |data|] == data
    {
      for i := 0 to |data|
        invariant forall k :: 0 <= k < buf.Length ==>
          buf[k] == if at <= k < at + i then data[k - at] else old(buf[k])
      {
        buf[at + i] := data[i];
      }
    }

    /** One more read behind the buffered bytes. */
    method PullMore() returns (n: int)
      requires Idle() && !stopped && dataLen < buf.Length
      modifies this`dataLen, this`position, this`arrivals, this`stopped, buf
      ensures n > 0 ==> Idle() && !stopped && dataLen == old(dataLen) + n
      ensures n > 0 ==> old(Supply(buf.Length - dataLen)) == Supply(buf.Length - dataLen).Plus(n)
      ensures n <= 0 ==> dataLen == old(dataLen) && (stopped || Idle())
      ensures n <= 0 ==> old(Supply(buf.Length - dataLen)) == Drawn(0, arrivals, EndingOf(n))
      ensures old(Ample()) ==> Ample() && !stopped
    {
      var data;
      n, data := Pull(buf.Length - dataLen);
      if n > 0 { Append(data); }
    }

    method Append(data: seq<byte>)
      requires InSync(0) && dataLen + |data| <= buf.Length && position == start + dataLen + |data|
      requires data == wire[start + dataLen..position]
      modifies this`dataLen, buf
      ensures Idle() && dataLen == old(dataLen) + |data|
    {
      Store(dataLen, data);
      assert buf[..dataLen + |data|] == buf[..dataLen] + buf[dataLen..dataLen + |data|];
      assert wire[start..start + dataLen + |data|] == wire[start..start + dataLen] + data;
      dataLen := dataLen + |data|;
    }

    /** Reads until the buffer holds a complete header. It finds what one look at the whole stream
        would find, wherever the reads cut it, and exactly when what is buffered and what the
        reads bring for the rest of the buffer is enough. */
    method ReadRequest() returns (len: int)
      requires Idle() && !stopped
      modifies this`dataLen, this`position, this`arrivals, this`stopped, buf
      ensures len > 0 <==>
        0 < RequestLen(wire[start..]) <= old(dataLen) + old(Supply(buf.Length - dataLen)).got
      ensures len > 0 ==> !stopped && Idle() && len <= dataLen
      ensures len > 0 ==> len == RequestLen(wire[start..]) == RequestLen(buf[..dataLen])
      ensures 0 < RequestLen(wire[start..]) <= old(dataLen) ==> dataLen == old(dataLen) && arrivals == old(arrivals)
      ensures len == 0 ==> !stopped && dataLen == buf.Length > old(dataLen) && RequestLen(buf[..dataLen]) == 0
      ensures len == -1 && old(dataLen) < buf.Length && old(Supply(buf.Length - dataLen)).end.Full? ==>
        RequestLen(wire[start..]) == -1
      ensures len >= -1 && (stopped || Idle()) && (old(Ample()) ==> Ample() && !stopped)
    {
      ghost var all, had, supply := RequestLen(wire[start..]), dataLen, Supply(buf.Length - dataLen);
      ghost var ample := Ample();
      len := Look();
      var n := 0;
      while dataLen < buf.Length && len == 0
        invariant Idle() && !stopped && Shows(len, all) && n >= 0
        invariant dataLen >= had && (n == 0 <==> dataLen == had)
        invariant n == 0 ==> arrivals == old(arrivals)
        invariant n > 0 ==> !(0 < all <= had)
        invariant supply == Supply(buf.Length - dataLen).Plus(dataLen - had)
        invariant ample ==> Ample()
        decreases buf.Length - dataLen
      {
        n, len := PullAndLook();
        if n <= 0 { return -1; }
      }
      if len <= 0 && n <= 0 { return -1; }
    }

    method PullAndLook() returns (n: int, len: int)
      requires Idle() && !stopped && dataLen < buf.Length
      modifies this`dataLen, this`position, this`arrivals, this`stopped, buf
      ensures n > 0 ==> Idle() && !stopped && dataLen == old(dataLen) + n && Shows(len, RequestLen(wire[start..]))
      ensures n > 0 ==> old(Supply(buf.Length - dataLen)) == Supply(buf.Length - dataLen).Plus(n)
      ensures n <= 0 ==> dataLen == old(dataLen) && (stopped || Idle())
      ensures n <= 0 ==> old(Supply(buf.Length - dataLen)) == Drawn(0, arrivals, EndingOf(n))
      ensures old(Ample()) ==> Ample() && !stopped
    {
      len := 0;
      n := PullMore();
      if n > 0 { len := Look(); }
    }

    /** `len` is what the buffer shows, `all` what the stream has. */
    predicate Shows(len: int, all: int)
      requires dataLen <= buf.Length
      reads this, buf
    {
      && len == RequestLen(buf[..dataLen]) && -1 <= len <= dataLen
      && (len > 0 <==> 0 < all <= dataLen) && (len != 0 ==> len == all)
    }

    method Look() returns (len: int)
      requires Idle()
      ensures Shows(len, RequestLen(wire[start..]))
    {
      len := GetRequestLen(buf, dataLen);
      var b := wire[start..];
      assert b[..dataLen] == wire[start..start + dataLen] == buf[..dataLen];
      PrefixDecides(b, dataLen);
      ScanIsFirstEvent(buf[..dataLen], 0);
    }

    /** There is a request that the parser accepts, with its header in the first `seen` bytes. */
    ghost predicate RequestAt(at: int, seen: nat, lengthOf: seq<byte> -> Option<int>) {
      && 0 <= at <= |wire| && 0 < RequestLen(wire[at..]) <= seen
      && at + RequestLen(wire[at..]) <= |wire|
      && lengthOf(wire[at..at + RequestLen(wire[at..])]).Some?
    }

    /** Reads a request and looks at its header. `lengthOf` stands for the parser, None for a
        header it rejects, `rewritten` for what it leaves of the header. */
    method GetReq(lengthOf: seq<byte> -> Option<int>, rewritten: seq<byte>) returns (ok: bool)
      requires Idle() && !stopped
      modifies this`dataLen, this`position, this`arrivals, this`stopped,
        this`requestLen, this`consumedContent, this`contentLen, buf
      ensures ok <==> RequestAt(start, old(dataLen) + old(Supply(buf.Length - dataLen)).got, lengthOf)
      ensures old(Ample()) ==> Ample() && !stopped
      ensures ok ==> Serving() && !stopped && consumedContent == 0 && BodyStart() <= |wire|
      ensures ok ==> requestLen == RequestLen(wire[start..])
      ensures ok ==> lengthOf(wire[start..BodyStart()]) == Some(contentLen)
    {
      ghost var seen := dataLen + Supply(buf.Length - dataLen).got;
      consumedContent, requestLen := 0, 0;
      requestLen := ReadRequest();
      assert requestLen > 0 <==> 0 < RequestLen(wire[start..]) <= seen;
      if requestLen <= 0 { return false; }
      SeenRequest(seen, lengthOf);
      ok := ParseHttpMessage(lengthOf, rewritten);
    }

    lemma SeenRequest(seen: nat, lengthOf: seq<byte> -> Option<int>)
      requires Idle() && 0 < requestLen == RequestLen(wire[start..]) && requestLen <= dataLen && requestLen <= seen
      ensures BodyStart() <= |wire|
      ensures RequestAt(start, seen, lengthOf) <==> lengthOf(wire[start..BodyStart()]).Some?
    {}

    method ParseHttpMessage(lengthOf: seq<byte> -> Option<int>, rewritten: seq<byte>) returns (ok: bool)
      requires Idle() && 0 < requestLen <= dataLen && requestLen == RequestLen(buf[..dataLen])
      modifies this`contentLen, buf
      ensures InSync(requestLen)
      ensures ok <==> lengthOf(wire[start..BodyStart()]).Some?
      ensures ok ==> lengthOf(wire[start..BodyStart()]) == Some(contentLen)
    {
      // the parser scans the whole buffer again, stale bytes included
      var again := GetRequestLen(buf, buf.Length);
      Rescan(again);
      assert again == requestLen;
      BufferedAt(0, 0, requestLen);
      var seen := buf[..requestLen];
      assert seen == wire[start..BodyStart()];
      var header := if |rewritten| == requestLen then rewritten else seen;
      Rewrite(header);
      var length := lengthOf(seen);
      ok := length.Some?;
      if ok { contentLen := length.value; }
    }

    lemma Rescan(again: int)
      requires Idle() && requestLen == RequestLen(buf[..dataLen]) > 0 && again == RequestLen(buf[..buf.Length])
      ensures again == requestLen
    {
      assert buf[..buf.Length] == buf[..dataLen] + buf[dataLen..];
      RequestLenIsStable(buf[..dataLen], buf[dataLen..]);
    }

    /** The parser and the URI decoder work inside the header. */
    method Rewrite(header: seq<byte>)
      requires 0 < requestLen == |header| && requestLen <= dataLen && InSync(0)
      modifies buf
      ensures InSync(requestLen)
    {
      ghost var body := buf[requestLen..dataLen];
      BufferedAt(0, requestLen, dataLen);
      for i := 0 to |header|
        invariant buf[requestLen..dataLen] == body
      {
        buf[i] := header[i];
      }
    }

    /** How much a read with room for `len` bytes is to return, and how much of it is buffered. */
    function Wanted(len: nat): (m: nat)
      reads this
      ensures m <= len && (consumedContent >= contentLen ==> m == 0)
      ensures consumedContent < contentLen ==>
        m <= contentLen - consumedContent && (m == len || m == contentLen - consumedContent)
    {
      if consumedContent >= contentLen then 0
      else if contentLen - consumedContent < len then contentLen - consumedContent
      else len
    }

    function Buffered(): nat
      reads this
    {
      var from := requestLen + consumedContent;
      if from < dataLen then dataLen - from else 0
    }

    /** What of `left` bytes is to be read from the socket. */
    function Beyond(left: nat): nat
      reads this
    {
      if left > Buffered() then left - Buffered() else 0
    }

    /** `len` is the size of the caller's buffer, `data` what is written to it: exactly what is
        wanted, as far as the buffer and the reads to come bring it. */
    method MgRead(len: nat) returns (nread: int, data: seq<byte>)
      requires Serving() && !stopped
      modifies this`consumedContent, this`position, this`arrivals, this`stopped
      ensures var d := old(Supply(Beyond(Wanted(len))));
        && |data| == old(Wanted(len)) - old(Beyond(Wanted(len))) + d.got
        && arrivals == d.rest && stopped == d.end.Halted?
        && nread == (if d.end.Failed? || d.end.Halted? then -1 else |data|)
      ensures stopped || (EndsWith(data) && consumedContent == old(consumedContent) + |data|)
      ensures old(Ample()) ==> Ample() && !stopped
      ensures old(Ample()) ==> |data| == Min(old(Wanted(len)), |wire| - BodyStart() - old(consumedContent))
    {
      nread, data := 0, [];
      if Ample() { AmpleRead(len); }
      if consumedContent < contentLen {
        nread, data := ReadWanted(Wanted(len));
      }
    }

    method ReadWanted(left: nat) returns (nread: int, data: seq<byte>)
      requires Serving() && !stopped && consumedContent + left <= contentLen
      modifies this`consumedContent, this`position, this`arrivals, this`stopped
      ensures var d := old(Supply(Beyond(left)));
        && |data| == left - old(Beyond(left)) + d.got && arrivals == d.rest && stopped == d.end.Halted?
        && nread == (if d.end.Failed? || d.end.Halted? then -1 else |data|)
      ensures stopped || (EndsWith(data) && consumedContent == old(consumedContent) + |data|)
      ensures stopped || position == old(position) + old(Supply(Beyond(left))).got
    {
      data := TakeBuffered(left);
      ghost var b := BodyStart() + consumedContent;
      var more, ok := PullBody(left - |data|);
      if !stopped { EndsWithMore(data, more, b); }
      data := data + more;
      nread := if ok < 0 then ok else |data|;
    }

    /** When the reads bring everything, a read gets all that is wanted and still to come. */
    lemma AmpleRead(len: nat)
      requires Serving() && Ample()
      ensures var want := Wanted(len);
        var d := Supply(Beyond(want));
        && want - Beyond(want) + d.got == Min(want, |wire| - BodyStart() - consumedContent) && !d.end.Halted?
        && Flowing(d.rest) && |d.rest| >= |wire| - position - d.got
    {
      FlowingDraws(arrivals, Beyond(Wanted(len)), |wire| - position);
    }

    /** The buffered part of a read. */
    method TakeBuffered(left: nat) returns (data: seq<byte>)
      requires Serving() && consumedContent + left <= contentLen
      modifies this`consumedContent
      ensures EndsWith(data) && |data| == left - old(Beyond(left)) && consumedContent == old(consumedContent) + |data|
      ensures |data| < left ==> requestLen + consumedContent >= dataLen
    {
      data := [];
      var from := requestLen + consumedContent;
      if from < dataLen {
        var n := Min(left, dataLen - from);
        data := buf[from..from + n];
        BufferedAt(requestLen, from, from + n);
        consumedContent := consumedContent + n;
      }
    }

    /** `data` is what was read of the body last. */
    ghost predicate EndsWith(data: seq<byte>)
      reads this, buf
    {
      && Serving() && |data| <= consumedContent
      && data == wire[BodyStart() + consumedContent - |data|..BodyStart() + consumedContent]
    }

    /** `data` lay before b, and `more` from there on. */
    lemma EndsWithMore(data: seq<byte>, more: seq<byte>, b: int)
      requires EndsWith(more) && |data| + |more| <= consumedContent && b == BodyStart() + consumedContent - |more|
      requires data == wire[b - |data|..b]
      ensures EndsWith(data + more)
    {
      Adjacent(wire, b - |data|, b, b + |more|);
    }

    /** The part of a read that goes to the socket. */
    method PullBody(want: nat) returns (data: seq<byte>, n: int)
      requires Serving() && !stopped && consumedContent + want <= contentLen
      requires want > 0 ==> requestLen + consumedContent >= dataLen
      modifies this`consumedContent, this`position, this`arrivals, this`stopped
      ensures var d := old(Supply(want));
        && |data| == d.got && arrivals == d.rest && stopped == d.end.Halted?
        && (n < 0 <==> d.end.Failed? || d.end.Halted?) && n >= -1
      ensures stopped || (EndsWith(data) && consumedContent == old(consumedContent) + |data|)
      ensures stopped || position == old(position) + |data|
    {
      data, n := [], 0;
      var left := want;
      while left > 0
        invariant 0 <= left == want - |data| && n >= 0 && !stopped
        invariant EndsWith(data) && position == old(position) + |data|
        invariant consumedContent == old(consumedContent) + |data|
        invariant old(Supply(want)) == Supply(left).Plus(|data|)
      {
        n, data := PullSome(left, data);
        if n < 0 { return; }
        if n == 0 { break; }
        left := left - n;
      }
    }

    method PullSome(left: nat, data: seq<byte>) returns (n: int, data': seq<byte>)
      requires EndsWith(data) && !stopped && 0 < left && consumedContent + left <= contentLen
      requires requestLen + consumedContent >= dataLen
      modifies this`consumedContent, this`position, this`arrivals, this`stopped
      ensures position <= |wire| && -1 <= n <= left && |data'| == |data| + if n > 0 then n else 0
      ensures n > 0 ==> !stopped && old(Supply(left)) == Supply(left - n).Plus(n)
      ensures n <= 0 ==> old(Supply(left)) == Drawn(0, arrivals, EndingOf(n))
      ensures stopped ==> n < 0
      ensures stopped || (EndsWith(data') && consumedContent == old(consumedContent) + |data'| - |data|)
      ensures stopped || position == old(position) + |data'| - |data|
    {
      ghost var b := BodyStart() + consumedContent;
      var more;
      n, more := PullPiece(left);
      data' := data + more;
      if !stopped { EndsWithMore(data, more, b); }
    }

    method PullPiece(left: nat) returns (n: int, data: seq<byte>)
      requires Serving() && !stopped && 0 < left && consumedContent + left <= contentLen
      requires requestLen + consumedContent >= dataLen
      modifies this`consumedContent, this`position, this`arrivals, this`stopped
      ensures position <= |wire| && -1 <= n <= left && |data| == if n > 0 then n else 0
      ensures n > 0 ==> !stopped && old(Supply(left)) == Supply(left - n).Plus(n)
      ensures n <= 0 ==> old(Supply(left)) == Drawn(0, arrivals, EndingOf(n))
      ensures stopped ==> n < 0
      ensures stopped || (EndsWith(data) && consumedContent == old(consumedContent) + |data|)
      ensures stopped || position == old(position) + |data|
    {
      n, data := Pull(left);
      if n > 0 { consumedContent := consumedContent + n; }
    }

    /** Any number of reads; the handler may go on after a failed one. */
    method ReadBody(lens: seq<nat>) returns (body: seq<byte>)
      requires Serving() && !stopped && consumedContent == 0
      modifies this`consumedContent, this`position, this`arrivals, this`stopped
      ensures stopped || (EndsWith(body) && |body| == consumedContent)
      ensures old(Ample()) ==> Ample() && !stopped
      ensures old(Ample()) ==> |body| == Min(AtMost(contentLen, Sum(lens)), |wire| - BodyStart())
    {
      body := [];
      for i := 0 to |lens|
        invariant EndsWith(body) && |body| == consumedContent && !stopped
        invariant old(Ample()) ==> Ample() && |body| == Min(AtMost(contentLen, Sum(lens[..i])), |wire| - BodyStart())
      {
        SumNext(lens, i);
        body := ReadOn(body, lens[i], Sum(lens[..i]));
        if stopped { return; }
      }
      assert lens[..|lens|] == lens;
    }

    /** One more read; `asked` is what was asked for before. */
    method ReadOn(body: seq<byte>, len: nat, ghost asked: nat) returns (body': seq<byte>)
      requires EndsWith(body) && |body| == consumedContent && !stopped
      modifies this`consumedContent, this`position, this`arrivals, this`stopped
      ensures stopped || (EndsWith(body') && |body'| == consumedContent)
      ensures old(Ample()) ==> Ample() && !stopped
      ensures old(Ample()) && |body| == Min(AtMost(contentLen, asked), |wire| - BodyStart()) ==>
        |body'| == Min(AtMost(contentLen, asked + len), |wire| - BodyStart())
    {
      OneMoreRead(contentLen, asked, len, |wire| - BodyStart());
      ghost var b := BodyStart() + consumedContent;
      var n, data := MgRead(len);
      body' := body + data;
      if !stopped { EndsWithMore(body, data, b); }
    }

    /** The end of a keep-alive iteration: buffered bytes of this message go. */
    method Discard()
      requires Serving()
      modifies this`dataLen, this`start, buf
      ensures Idle()
      ensures start == NextStart(old(start), requestLen, contentLen, old(dataLen), consumedContent)
    {
      var discardLen := if contentLen >= 0 && requestLen > 0 && requestLen + contentLen < dataLen
                        then requestLen + contentLen else dataLen;
      BufferedAt(requestLen, discardLen, dataLen);
      MemMove(discardLen, dataLen - discardLen);
      start := start + discardLen + Direct();
      dataLen := dataLen - discardLen;
    }

    /** The keep-alive loop: one entry per request handled, each with the sizes of the handler's
        reads. It ends when there are no more, on a stop, without a length, or where no request
        is found; when the reads bring everything, only where there is none. */
    method ProcessNewConnection(lengthOf: seq<byte> -> Option<int>, handlers: seq<seq<nat>>)
      returns (log: seq<Exchange>)
      requires Idle() && start == 0 && !stopped
      modifies this, buf
      ensures InOrder(log, wire, lengthOf) && |log| <= |handlers|
      ensures old(Ample()) ==> AllRead(log, handlers, wire)
      ensures old(Ample()) && |log| < |handlers| ==>
        || (log != [] && log[|log| - 1].contentLen < 0)
        || !RequestAt(NextPlace(log), buf.Length, lengthOf)
    {
      log := [];
      for i := 0 to |handlers|
        invariant Idle() && !stopped && InOrder(log, wire, lengthOf) && start == NextPlace(log)
        invariant |log| == i && (log != [] ==> log[|log| - 1].contentLen >= 0)
        invariant old(Ample()) ==> Ample() && AllRead(log, handlers, wire)
      {
        var ok, e := HandleOne(lengthOf, handlers[i]);
        if !ok { return; }
        OneMore(log, e, wire, lengthOf);
        if old(Ample()) { OneMoreReadFully(log, handlers, e, wire); }
        log := log + [e];
        if e.contentLen < 0 { return; }
        Discard();
      }
    }

    method HandleOne(lengthOf: seq<byte> -> Option<int>, sizes: seq<nat>) returns (ok: bool, e: Exchange)
      requires Idle() && !stopped
      modifies this`dataLen, this`position, this`arrivals, this`stopped,
        this`requestLen, this`consumedContent, this`contentLen, buf
      ensures old(Ample()) ==> Ample() && (ok <==> RequestAt(start, buf.Length, lengthOf))
      ensures ok ==> Serving() && !stopped && e.FramedIn(wire, lengthOf)
      ensures ok ==> e == Exchange(start, requestLen, contentLen, dataLen, e.body) && |e.body| == consumedContent
      ensures ok && old(Ample()) ==> e.ReadFully(sizes, wire)
    {
      var at := position - dataLen;
      var body := [];
      FlowingSupply(lengthOf);
      ok := GetReq(lengthOf, []);
      if ok {
        body := ReadBody(sizes);
        ok := !stopped;
      }
      e := Exchange(at, requestLen, contentLen, dataLen, body);
    }

    /** When the reads bring everything, a header is seen that fits the buffer. */
    lemma FlowingSupply(lengthOf: seq<byte> -> Option<int>)
      requires Idle()
      ensures Ample() ==>
        (RequestAt(start, dataLen + Supply(buf.Length - dataLen).got, lengthOf)
         <==> RequestAt(start, buf.Length, lengthOf))
    {
      if Ample() { FlowingDraws(arrivals, buf.Length - dataLen, |wire| - position); }
    }

    method MemMove(from: nat, n: nat)
      requires from + n <= buf.Length
      modifies buf
      ensures buf[..n] == old(buf[from..from + n])
    {
      for i := 0 to n
        invariant forall k :: 0 <= k < i ==> buf[k] == old(buf[from + k])
        invariant forall k :: i <= k < buf.Length ==> buf[k] == old(buf[k])
      {
        buf[i] := buf[from + i];
      }
    }
  }

  function Sum(ns: seq<nat>): nat {
    if ns == [] then 0 else Sum(ns[..|ns| - 1]) + ns[|ns| - 1]
  }

  /** How far one more read gets, `room` bytes being there. */
  lemma OneMoreRead(contentLen: int, asked: nat, len: nat, room: nat)
    ensures var got := Min(AtMost(contentLen, asked), room);
      var want := if got >= contentLen then 0 else Min(contentLen - got, len);
      got + Min(want, room - got) == Min(AtMost(contentLen, asked + len), room)
  {}

  lemma SumNext(ns: seq<nat>, i: nat)
    requires i < |ns|
    ensures Sum(ns[..i + 1]) == Sum(ns[..i]) + ns[i]
  {
    assert ns[..i + 1][..i] == ns[..i];
  }

  /** Where the next request is looked for: behind the message if it was all buffered, otherwise
      behind what was buffered or read. */
  function NextStart(start: nat, requestLen: int, contentLen: int, buffered: nat, consumed: int): int {
    if contentLen >= 0 && requestLen + contentLen < buffered then start + requestLen + contentLen
    else if requestLen + consumed > buffered then start + requestLen + consumed
    else start + buffered
  }

  /** One request as the server saw it: where it began, its sizes, how many bytes of it and of what
      follows were buffered with its header, and the body bytes the handler got. */
  datatype Exchange = Exchange(start: nat, requestLen: int, contentLen: int, buffered: nat, body: seq<byte>) {
    ghost predicate FramedIn(wire: seq<byte>, lengthOf: seq<byte> -> Option<int>) {
      && start <= |wire| && 0 < requestLen == RequestLen(wire[start..])
      && start + requestLen + |body| <= |wire|
      && requestLen <= buffered && start + buffered <= |wire|
      && lengthOf(wire[start..start + requestLen]) == Some(contentLen)
      && body <= wire[start + requestLen..]
      && (body != [] ==> |body| <= contentLen)
    }

    /** The handler got all it asked for, as far as the body and the stream go. */
    ghost predicate ReadFully(sizes: seq<nat>, wire: seq<byte>)
      requires start + requestLen <= |wire|
    {
      |body| == Min(AtMost(contentLen, Sum(sizes)), |wire| - start - requestLen)
    }

    function Next(): int { NextStart(start, requestLen, contentLen, buffered, |body|) }
  }

  /** Keep-alive is in step exactly when the body was drained: only then does the next request
      start where this message ends. */
  lemma InStepIffDrained(e: Exchange, wire: seq<byte>, lengthOf: seq<byte> -> Option<int>)
    requires e.FramedIn(wire, lengthOf) && e.contentLen >= 0
    ensures e.Next() == e.start + e.requestLen + e.contentLen
       <==> e.requestLen + e.contentLen <= e.buffered || |e.body| == e.contentLen
    ensures e.requestLen + e.contentLen > e.buffered && |e.body| != e.contentLen ==>
      e.start + e.requestLen <= e.Next() < e.start + e.requestLen + e.contentLen
  {}

  /** A handler that reads nothing of a body that did not come with its header: the next request is
      looked for in the body. */
  lemma UnreadBody(e: Exchange, wire: seq<byte>, lengthOf: seq<byte> -> Option<int>)
    requires e.FramedIn(wire, lengthOf) && e.body == [] && e.buffered == e.requestLen && e.contentLen > 0
    ensures e.Next() == e.start + e.requestLen < e.start + e.requestLen + e.contentLen
  {}

  /** Entry i starts where the one before it left off, which had a length. */
  predicate Continues(log: seq<Exchange>, i: nat)
    requires i < |log|
  {
    if i == 0 then log[i].start == 0 else log[i].start == log[i - 1].Next() && log[i - 1].contentLen >= 0
  }

  ghost predicate AllFramed(log: seq<Exchange>, wire: seq<byte>, lengthOf: seq<byte> -> Option<int>) {
    forall e <- log :: e.FramedIn(wire, lengthOf)
  }

  /** Every request is framed as the whole stream frames it, and continues the log. */
  ghost predicate InOrder(log: seq<Exchange>, wire: seq<byte>, lengthOf: seq<byte> -> Option<int>) {
    && AllFramed(log, wire, lengthOf)
    && (forall i: nat :: i < |log| ==> Continues(log, i))
  }

  /** Where the request after these is looked for. */
  function NextPlace(log: seq<Exchange>): int {
    if log == [] then 0 else log[|log| - 1].Next()
  }

  lemma OneMore(log: seq<Exchange>, e: Exchange, wire: seq<byte>, lengthOf: seq<byte> -> Option<int>)
    requires InOrder(log, wire, lengthOf) && e.FramedIn(wire, lengthOf) && e.start == NextPlace(log)
    requires log != [] ==> log[|log| - 1].contentLen >= 0
    ensures InOrder(log + [e], wire, lengthOf)
  {
    OneMoreFramed(log, e, wire, lengthOf);
    OneMoreContinues(log, e);
  }

  lemma OneMoreFramed(log: seq<Exchange>, e: Exchange, wire: seq<byte>, lengthOf: seq<byte> -> Option<int>)
    requires AllFramed(log, wire, lengthOf) && e.FramedIn(wire, lengthOf)
    ensures AllFramed(log + [e], wire, lengthOf)
  {
    forall x | x in log + [e] ensures x.FramedIn(wire, lengthOf) { assert x in log || x == e; }
  }

  lemma OneMoreContinues(log: seq<Exchange>, e: Exchange)
    requires (forall i: nat :: i < |log| ==> Continues(log, i)) && e.start == NextPlace(log)
    requires log != [] ==> log[|log| - 1].contentLen >= 0
    ensures forall i: nat :: i < |log + [e]| ==> Continues(log + [e], i)
  {
    var all := log + [e];
    forall i: nat | i < |all| ensures Continues(all, i) {
      if i < |log| { assert Continues(log, i); }
    }
  }

  /** Every handler got all it asked for. */
  ghost predicate AllRead(log: seq<Exchange>, handlers: seq<seq<nat>>, wire: seq<byte>) {
    && |log| <= |handlers|
    && forall i :: 0 <= i < |log| ==> log[i].start + log[i].requestLen <= |wire| && log[i].ReadFully(handlers[i], wire)
  }

  lemma OneMoreReadFully(log: seq<Exchange>, handlers: seq<seq<nat>>, e: Exchange, wire: seq<byte>)
    requires AllRead(log, handlers, wire) && |log| < |handlers|
    requires e.start + e.requestLen <= |wire| && e.ReadFully(handlers[|log|], wire)
    ensures AllRead(log + [e], handlers, wire)
  {}

  lemma Adjacent(s: seq<byte>, a: nat, b: nat, c: nat)
    requires a <= b <= c <= |s|
    ensures s[a..b] + s[b..c] == s[a..c]
  {
  }
}
