// Recognising what a line starts
// (src/hoedown/document.c:1344-1386, 1451-1582, 1587-1623).

module BlockScanner {
  import opened Wrappers
  import opened BufferPool

  function IsEmptyFrom(s: seq<Char>, i: nat): (r: nat)
    requires i <= |s|
    ensures r <= |s| + 1
    decreases |s| - i
  {
    if i < |s| && s[i] != '\n' then
      if s[i] != ' ' then 0 else IsEmptyFrom(s, i + 1)
    else i + 1
  }

  /** The length of an empty line with its newline, 0 when the line is not empty. */
  function IsEmpty(s: seq<Char>): (r: nat)
    ensures r <= |s| + 1
  {
    IsEmptyFrom(s, 0)
  }

  /** Up to three leading spaces. */
  function Indent(s: seq<Char>): (i: nat)
    ensures i <= |s| && i <= 3
  {
    if |s| > 0 && s[0] == ' ' then
      if |s| > 1 && s[1] == ' ' then
        if |s| > 2 && s[2] == ' ' then 3 else 2
      else 1
    else 0
  }

  /** How often c occurs in a line of nothing else but spaces; None for any other line. */
  function RuleCharacters(s: seq<Char>, c: Char): (n: int)
    ensures n >= -1
  {
    if s == [] || s[0] == '\n' then 0
    else
      var rest := RuleCharacters(s[1..], c);
      if rest < 0 then -1
      else if s[0] == c then rest + 1
      else if s[0] == ' ' then rest
      else -1
  }

  predicate IsHrule(s: seq<Char>) {
    var i := Indent(s);
    && |s| >= 3 && i + 2 < |s|
    && (s[i] == '*' || s[i] == '-' || s[i] == '_')
    && RuleCharacters(s[i..], s[i]) >= 3
  }

  function Hashes(s: seq<Char>): (level: nat)
    ensures level <= |s| && level <= 6
    ensures |s| > 0 && s[0] == '#' ==> level > 0
  {
    HashesFrom(s, 0)
  }

  function HashesFrom(s: seq<Char>, level: nat): (r: nat)
    requires level <= |s| && level <= 6
    ensures level <= r <= |s| && r <= 6
    ensures level < |s| && level < 6 && s[level] == '#' ==> r > level
    decreases |s| - level
  {
    if level < |s| && level < 6 && s[level] == '#' then HashesFrom(s, level + 1) else level
  }

  predicate IsAtxheader(s: seq<Char>, spaceHeaders: bool)
    requires s != []
  {
    && s[0] == '#'
    && (spaceHeaders && Hashes(s) < |s| ==> s[Hashes(s)] == ' ')
  }

  function SkipAll(s: seq<Char>, i: nat, c: Char): (r: nat)
    requires i <= |s|
    ensures i <= r <= |s|
    decreases |s| - i
  {
    if i < |s| && s[i] == c then SkipAll(s, i + 1, c) else i
  }

  /** 1 or 2 for the line under a header, otherwise 0. */
  function IsHeaderline(s: seq<Char>): nat
    requires s != []
  {
    if s[0] != '=' && s[0] != '-' then 0
    else
      var i := SkipAll(s, SkipAll(s, 1, s[0]), ' ');
      if i >= |s| || s[i] == '\n' then (if s[0] == '=' then 1 else 2) else 0
  }

  /** The first newline from i on, |s| without one. */
  function NewlineFrom(s: seq<Char>, i: nat): (r: nat)
    requires i <= |s|
    ensures i <= r <= |s|
    decreases |s| - i
  {
    if i < |s| && s[i] != '\n' then NewlineFrom(s, i + 1) else i
  }

  predicate IsNextHeaderline(s: seq<Char>) {
    var i := NewlineFrom(s, 0) + 1;
    i < |s| && IsHeaderline(s[i..]) != 0
  }

  function PrefixQuote(s: seq<Char>): (r: nat)
    ensures r <= |s|
  {
    var i := Indent(s);
    if i < |s| && s[i] == '>' then
      if i + 1 < |s| && s[i + 1] == ' ' then i + 2 else i + 1
    else 0
  }

  function PrefixCode(s: seq<Char>): (r: nat)
    ensures r <= |s|
  {
    if |s| > 3 && forall j :: 0 <= j < 4 ==> s[j] == ' ' then 4 else 0
  }

  function DigitsFrom(s: seq<Char>, i: nat): (r: nat)
    requires i <= |s|
    ensures i <= r <= |s|
    decreases |s| - i
  {
    if i < |s| && '0' <= s[i] <= '9' then DigitsFrom(s, i + 1) else i
  }

  function PrefixOli(s: seq<Char>): (r: nat)
    ensures r <= |s|
  {
    var start := Indent(s);
    var i := DigitsFrom(s, start);
    if i == start || i + 1 >= |s| || s[i] != '.' || s[i + 1] != ' ' || IsNextHeaderline(s[i..]) then 0
    else i + 2
  }

  function PrefixUli(s: seq<Char>): (r: nat)
    ensures r <= |s|
  {
    var i := Indent(s);
    if i + 1 >= |s| || (s[i] != '*' && s[i] != '+' && s[i] != '-')
      || s[i + 1] != ' ' || IsNextHeaderline(s[i..]) then 0
    else i + 2
  }

  /** Just behind the newline that ends the line starting at i. */
  function LineEnd(s: seq<Char>, i: nat): (end: nat)
    requires i < |s|
    ensures i < end <= |s|
  {
    var n := NewlineFrom(s, i);
    if n < |s| then n + 1 else |s|
  }

  lemma CodeLine(s: seq<Char>)
    requires PrefixCode(s) != 0
    ensures PrefixCode(s[0..LineEnd(s, 0)]) != 0
  {
    assert NewlineFrom(s, 0) == NewlineFrom(s, 1) == NewlineFrom(s, 2) == NewlineFrom(s, 3) == NewlineFrom(s, 4);
  }

  // ---- block quotes ----

  /** A quote ends with an empty line before one that is neither empty nor quoted. */
  predicate EndsQuote(line: seq<Char>, next: seq<Char>) {
    PrefixQuote(line) == 0 && IsEmpty(line) != 0 && (next == [] || (PrefixQuote(next) == 0 && IsEmpty(next) == 0))
  }

  /** What is left of a quote without its prefixes, and how much of the text it takes up. */
  function Stripped(s: seq<Char>): seq<Char> {
    if s == [] then []
    else
      var line, next := s[..LineEnd(s, 0)], s[LineEnd(s, 0)..];
      if EndsQuote(line, next) then [] else line[PrefixQuote(line)..] + Stripped(next)
  }

  function QuoteLength(s: seq<Char>): (n: nat)
    ensures n <= |s| && (s != [] ==> n > 0)
  {
    if s == [] then 0
    else
      var line, next := s[..LineEnd(s, 0)], s[LineEnd(s, 0)..];
      |line| + if EndsQuote(line, next) then 0 else QuoteLength(next)
  }

  /** In place: what is left of the quote lies at start, `len` bytes of it. Nothing before the quote
      or behind it is touched. */
  method StripQuote(src: Buffer, off: nat, size: nat) returns (end: nat, start: nat, len: nat)
    requires 0 < size && off + size <= |src.data|
    modifies src
    ensures |src.data| == old(|src.data|) && src.data[..off] == old(src.data[..off])
    ensures 0 < end <= size && src.data[off + end..] == old(src.data[off + end..])
    ensures off <= start && start + len <= off + end
    ensures end == QuoteLength(old(src.data[off..off + size]))
    ensures src.data[start..start + len] == Stripped(old(src.data[off..off + size]))
  {
    ghost var was := src.data;
    ghost var whole, length := Stripped(was[off..off + size]), QuoteLength(was[off..off + size]);
    var beg := 0;
    end, start, len := 0, off, 0;
    while beg < size
      invariant end == beg <= size && off <= start && start + len <= off + beg && |src.data| == |was|
      invariant src.data[..off] == was[..off] && src.data[off + beg..] == was[off + beg..]
      invariant StrippedTo(whole, length, beg, src.data[start..start + len], src.data[off + beg..off + size])
    {
      var last;
      ghost var d := src.data;
      last, end, start, len := StripLine(src, off, size, beg, start, len, whole, length);
      Suffix(d, was, off + beg, off + end);
      if last { return; }
      beg := end;
    }
    NothingLeft(whole, length, end, src.data[start..start + len], src.data[off + beg..off + size]);
  }

  /** One round: whether the quote ends with this line, and where it ends. */
  method StripLine(src: Buffer, off: nat, size: nat, beg: nat, start: nat, len: nat,
                   ghost whole: seq<Char>, ghost length: nat)
    returns (last: bool, end: nat, start': nat, len': nat)
    requires off + size <= |src.data| && beg < size && off <= start && start + len <= off + beg
    requires StrippedTo(whole, length, beg, src.data[start..start + len], src.data[off + beg..off + size])
    modifies src
    ensures |src.data| == old(|src.data|) && src.data[..off] == old(src.data[..off])
    ensures beg < end <= size && src.data[off + end..] == old(src.data[off + end..])
    ensures off <= start' && start' + len' <= off + end
    ensures last ==> whole == src.data[start'..start' + len'] && length == end
    ensures !last ==>
      StrippedTo(whole, length, end, src.data[start'..start' + len'], src.data[off + end..off + size])
  {
    var line, next, pre := ScanQuoteLine(src.data[off + beg..off + size]);
    end, start', len' := beg + |line|, start, len;
    NextQuoteLine(whole, length, beg, src.data[start..start + len], line, next);
    last := EndsQuote(line, next);
    if !last { start', len' := TakeLine(src, off, size, beg, end, pre, start, len, line, next); }
  }

  /** Takes over a line without its prefix. */
  method TakeLine(src: Buffer, off: nat, size: nat, beg: nat, end: nat, pre: nat, start: nat, len: nat,
                  ghost line: seq<Char>, ghost next: seq<Char>)
    returns (start': nat, len': nat)
    requires off + size <= |src.data| && end == beg + |line| <= size && pre <= |line|
    requires off <= start && start + len <= off + beg && src.data[off + beg..off + size] == line + next
    modifies src
    ensures |src.data| == old(|src.data|) && src.data[..off] == old(src.data[..off])
    ensures src.data[off + end..] == old(src.data[off + end..])
    ensures off <= start' && start' + len' <= off + end
    ensures src.data[start'..start' + len'] == old(src.data[start..start + len]) + line[pre..]
    ensures src.data[off + end..off + size] == next
  {
    LineInText(src.data, off, beg, end, size, line, next, pre);
    start', len' := PutLine(src, off, off + beg + pre, off + end, off + size, start, len, line[pre..], next);
  }

  /** Copies a part of a line behind what there is already; the first one stays where it is. */
  method PutLine(src: Buffer, off: nat, from: nat, end: nat, all: nat, start: nat, len: nat,
                 ghost part: seq<Char>, ghost next: seq<Char>)
    returns (start': nat, len': nat)
    requires off <= start && start + len <= from <= end <= all <= |src.data|
    requires src.data[from..end] == part && src.data[end..all] == next
    modifies src
    ensures |src.data| == old(|src.data|) && src.data[..off] == old(src.data[..off])
    ensures src.data[end..] == old(src.data[end..]) && src.data[end..all] == next
    ensures off <= start' && start' + len' <= end
    ensures src.data[start'..start' + len'] == old(src.data[start..start + len]) + part
  {
    start', len' := start, len + (end - from);
    if from < end {
      if len == 0 { start' := from; }
      Put(src.data, off, from, end, all, start, start', len);
      src.data := Move(src.data, from, end, start' + len);
    }
  }

  lemma Put(d: seq<Char>, off: nat, from: nat, end: nat, all: nat, start: nat, start': nat, len: nat)
    requires off <= start && start + len <= from <= end <= all <= |d|
    requires off <= start' && start' + len <= from && (len == 0 || start == start')
    ensures var r := Move(d, from, end, start' + len);
      && r[..off] == d[..off] && r[end..] == d[end..] && r[end..all] == d[end..all]
      && r[start'..start' + (len + (end - from))] == d[start..start + len] + d[from..end]
  {
    var r := Move(d, from, end, start' + len);
    Moved(d, off, from, end, start', len);
    SameBehind(r, d, end, all);
    assert d[start..start + len] == d[start'..start' + len];
  }

  /** `n` bytes of a quote leave `done`; `rest` follows them. */
  predicate StrippedTo(whole: seq<Char>, length: nat, n: nat, done: seq<Char>, rest: seq<Char>) {
    whole == done + Stripped(rest) && length == n + QuoteLength(rest)
  }

  lemma NothingLeft(whole: seq<Char>, length: nat, n: nat, done: seq<Char>, rest: seq<Char>)
    requires StrippedTo(whole, length, n, done, rest) && rest == []
    ensures whole == done && length == n
  {
    assert whole == done + [];
  }

  lemma StripsLine(line: seq<Char>, next: seq<Char>)
    requires line != [] && LineEnd(line + next, 0) == |line|
    ensures Stripped(line + next)
         == if EndsQuote(line, next) then [] else line[PrefixQuote(line)..] + Stripped(next)
    ensures QuoteLength(line + next) == |line| + if EndsQuote(line, next) then 0 else QuoteLength(next)
  {
    Halves(line, next);
  }

  lemma Halves(a: seq<Char>, b: seq<Char>)
    ensures (a + b)[..|a|] == a && (a + b)[|a|..] == b
  {
  }

  lemma NextQuoteLine(whole: seq<Char>, length: nat, n: nat, done: seq<Char>, line: seq<Char>, next: seq<Char>)
    requires StrippedTo(whole, length, n, done, line + next)
    requires line != [] && LineEnd(line + next, 0) == |line|
    ensures EndsQuote(line, next) ==> whole == done && length == n + |line|
    ensures !EndsQuote(line, next) ==>
      StrippedTo(whole, length, n + |line|, done + line[PrefixQuote(line)..], next)
  {
    StripsLine(line, next);
    var left := Stripped(line + next);
    if EndsQuote(line, next) {
      assert left == [] && whole == done + [];
    } else {
      Regroup(done, line[PrefixQuote(line)..], Stripped(next));
    }
  }

  lemma Regroup(a: seq<Char>, b: seq<Char>, c: seq<Char>)
    ensures a + (b + c) == (a + b) + c && a + b + c == (a + b) + c && a + [] == a
  {
  }

  lemma SameBehind(d: seq<Char>, was: seq<Char>, from: nat, end: nat)
    requires from <= end <= |d| == |was| && d[from..] == was[from..]
    ensures d[from..end] == was[from..end]
  {
    assert d[from..end] == d[from..][..end - from] && was[from..end] == was[from..][..end - from];
  }

  lemma LineInText(d: seq<Char>, off: nat, beg: nat, end: nat, size: nat, line: seq<Char>, next: seq<Char>, pre: nat)
    requires off + size <= |d| && end == beg + |line| <= size && pre <= |line|
    requires d[off + beg..off + size] == line + next
    ensures d[off + beg + pre..off + end] == line[pre..] && d[off + end..off + size] == next
  {
    Halves(line, next);
    assert line == d[off + beg..off + end];
  }

  method ScanQuoteLine(rest: seq<Char>) returns (line: seq<Char>, next: seq<Char>, pre: nat)
    requires rest != []
    ensures line != [] && rest == line + next && |line| == LineEnd(rest, 0) && pre == PrefixQuote(line)
  {
    var width := LineEnd(rest, 0);
    line, next := rest[..width], rest[width..];
    pre := PrefixQuote(line);
  }

  lemma Suffix(d: seq<Char>, was: seq<Char>, from: nat, end: nat)
    requires from <= end <= |d| == |was| && d[from..] == was[from..]
    ensures d[end..] == was[end..]
  {
    assert d[end..] == d[from..][end - from..] && was[end..] == was[from..][end - from..];
  }

  /** memmove of s[from..end] to `at`. */
  function Move(s: seq<Char>, from: nat, end: nat, at: nat): (r: seq<Char>)
    requires at <= from <= end <= |s|
    ensures |r| == |s|
  {
    s[..at] + s[from..end] + s[at + end - from..]
  }

  /** It continues the `len` bytes at start. */
  lemma Moved(s: seq<Char>, off: nat, from: nat, end: nat, start: nat, len: nat)
    requires off <= start && start + len <= from <= end <= |s|
    ensures var r := Move(s, from, end, start + len);
      && r[..off] == s[..off] && r[end..] == s[end..]
      && r[start..start + len + end - from] == s[start..start + len] + s[from..end]
  {}

  // ---- quoting ----

  /** A line with its newline, and no other. */
  predicate IsLine(line: seq<Char>) {
    line != [] && line[|line| - 1] == '\n' && forall j :: 0 <= j < |line| - 1 ==> line[j] != '\n'
  }

  function Joined(lines: seq<seq<Char>>): seq<Char> {
    if lines == [] then [] else lines[0] + Joined(lines[1..])
  }

  function Quoted(lines: seq<seq<Char>>): seq<Char> {
    if lines == [] then [] else ['>', ' '] + lines[0] + Quoted(lines[1..])
  }

  /** Stripping gives back any lines that were quoted, and goes on with what follows them. */
  lemma {:induction false} StripsQuoted(lines: seq<seq<Char>>, rest: seq<Char>)
    requires forall line <- lines :: IsLine(line)
    ensures Stripped(Quoted(lines) + rest) == Joined(lines) + Stripped(rest)
    ensures QuoteLength(Quoted(lines) + rest) == |Quoted(lines)| + QuoteLength(rest)
  {
    if lines == [] {
      assert Quoted(lines) + rest == rest;
    } else {
      StripsQuoted(lines[1..], rest);
      StripsOne(lines[0], Quoted(lines[1..]) + rest);
      Regroup(['>', ' '] + lines[0], Quoted(lines[1..]), rest);
      Regroup(lines[0], Joined(lines[1..]), Stripped(rest));
    }
  }

  lemma StripsOne(line: seq<Char>, more: seq<Char>)
    requires IsLine(line)
    ensures Stripped((['>', ' '] + line) + more) == line + Stripped(more)
    ensures QuoteLength((['>', ' '] + line) + more) == 2 + |line| + QuoteLength(more)
  {
    var quoted := ['>', ' '] + line;
    assert quoted[|quoted| - 1] == line[|line| - 1];
    FirstLine(quoted, more);
    assert PrefixQuote(quoted) == 2 && quoted[2..] == line;
    StripsLine(quoted, more);
  }

  lemma FirstLine(line: seq<Char>, more: seq<Char>)
    requires IsLine(line)
    ensures LineEnd(line + more, 0) == |line|
  {
    NewlineAt(line + more, 0, |line| - 1);
  }

  lemma {:induction false} NewlineAt(s: seq<Char>, i: nat, n: nat)
    requires i <= n < |s| && s[n] == '\n' && forall j :: i <= j < n ==> s[j] != '\n'
    ensures NewlineFrom(s, i) == n
    decreases n - i
  {
    if i < n { NewlineAt(s, i + 1, n); }
  }

  /** A quote ends with an empty line before a paragraph. */
  lemma QuoteAlone(lines: seq<seq<Char>>, c: Char, rest: seq<Char>)
    requires forall line <- lines :: IsLine(line)
    requires c != ' ' && c != '\n' && c != '>'
    ensures var s := Quoted(lines) + (['\n', c] + rest);
      Stripped(s) == Joined(lines) && QuoteLength(s) == |Quoted(lines)| + 1
  {
    var s := ['\n', c] + rest;
    StripsQuoted(lines, s);
    var line, next := ['\n'], [c] + rest;
    assert s == line + next;
    assert PrefixQuote(line) == 0 && IsEmpty(line) != 0 && PrefixQuote(next) == 0 && IsEmpty(next) == 0;
    StripsLine(line, next);
  }

  /** It goes on behind an empty line that an empty or a quoted one follows; at the end of the text
      it ends with it. */
  lemma GapInQuote(rest: seq<Char>)
    ensures rest != [] && (PrefixQuote(rest) > 0 || IsEmpty(rest) > 0) ==>
      Stripped(['\n'] + rest) == ['\n'] + Stripped(rest) && QuoteLength(['\n'] + rest) == 1 + QuoteLength(rest)
    ensures Stripped(['\n']) == [] && QuoteLength(['\n']) == 1
  {
    var line: seq<Char> := ['\n'];
    assert PrefixQuote(line) == 0 && IsEmpty(line) != 0 && LineEnd(line + rest, 0) == 1;
    StripsLine(line, rest);
    assert line[0..] == line && line + [] == line && LineEnd(line, 0) == 1;
    StripsLine(line, []);
  }

  /** A line without the mark goes on with the quote, unless it is empty. */
  lemma LazyLine(line: seq<Char>, rest: seq<Char>)
    requires IsLine(line) && PrefixQuote(line) == 0 && IsEmpty(line) == 0
    ensures Stripped(line + rest) == line + Stripped(rest)
    ensures QuoteLength(line + rest) == |line| + QuoteLength(rest)
  {
    FirstLine(line, rest);
    StripsLine(line, rest);
  }

  // ---- what starts what, character by character ----

  /** The first i characters are blanks, at most three. */
  predicate BlanksTo(s: seq<Char>, i: nat) {
    i <= |s| && i <= 3 && forall j :: 0 <= j < i ==> s[j] == ' '
  }

  lemma IndentIsBlanks(s: seq<Char>)
    ensures BlanksTo(s, Indent(s))
    ensures forall i: nat :: BlanksTo(s, i) && (i < |s| ==> s[i] != ' ') ==> i == Indent(s)
    ensures Indent(s) < 3 && Indent(s) < |s| ==> s[Indent(s)] != ' '
  {}

  /** A quoted line: up to three blanks, `>` and perhaps one more blank, all of which the prefix is. */
  lemma QuotePrefix(s: seq<Char>)
    ensures PrefixQuote(s) > 0 <==> exists i: nat :: BlanksTo(s, i) && i < |s| && s[i] == '>'
    ensures forall i: nat :: BlanksTo(s, i) && i < |s| && s[i] == '>' ==>
      PrefixQuote(s) == i + if i + 1 < |s| && s[i + 1] == ' ' then 2 else 1
  {
    IndentIsBlanks(s);
  }

  /** An unordered item: up to three blanks, one of `*`, `+` and `-`, and a blank, unless the next line
      underlines a header. */
  predicate ItemAt(s: seq<Char>, i: nat) {
    && BlanksTo(s, i) && i + 1 < |s| && (s[i] == '*' || s[i] == '+' || s[i] == '-') && s[i + 1] == ' '
    && !IsNextHeaderline(s[i..])
  }

  lemma UnorderedPrefix(s: seq<Char>)
    ensures PrefixUli(s) > 0 <==> exists i: nat :: ItemAt(s, i)
    ensures forall i: nat :: ItemAt(s, i) ==> PrefixUli(s) == i + 2
  {
    IndentIsBlanks(s);
    if PrefixUli(s) > 0 { assert ItemAt(s, Indent(s)); }
  }

  /** An ordered item: up to three blanks, at least one digit, a dot and a blank. */
  predicate NumberAt(s: seq<Char>, i: nat, k: nat) {
    && BlanksTo(s, i) && i < k && k + 1 < |s| && (forall j :: i <= j < k ==> '0' <= s[j] <= '9')
    && s[k] == '.' && s[k + 1] == ' ' && !IsNextHeaderline(s[k..])
  }

  lemma {:induction false} AllDigits(s: seq<Char>, i: nat, k: nat)
    requires i <= k < |s| && (forall j :: i <= j < k ==> '0' <= s[j] <= '9') && !('0' <= s[k] <= '9')
    ensures DigitsFrom(s, i) == k
    decreases k - i
  {
    if i < k { AllDigits(s, i + 1, k); }
  }

  lemma {:induction false} DigitsAreDigits(s: seq<Char>, i: nat)
    requires i <= |s|
    ensures forall j :: i <= j < DigitsFrom(s, i) ==> '0' <= s[j] <= '9'
    decreases |s| - i
  {
    if i < |s| && '0' <= s[i] <= '9' { DigitsAreDigits(s, i + 1); }
  }

  lemma OrderedPrefix(s: seq<Char>)
    ensures PrefixOli(s) > 0 <==> exists i: nat, k: nat :: NumberAt(s, i, k)
    ensures forall i: nat, k: nat :: NumberAt(s, i, k) ==> PrefixOli(s) == k + 2
  {
    IndentIsBlanks(s);
    DigitsAreDigits(s, Indent(s));
    if PrefixOli(s) > 0 { assert NumberAt(s, Indent(s), DigitsFrom(s, Indent(s))); }
    forall i: nat, k: nat | NumberAt(s, i, k) ensures PrefixOli(s) == k + 2 {
      assert s[i] != ' ' && i == Indent(s);
      AllDigits(s, i, k);
    }
  }

  /** An underline: `=` or `-`, as often as one likes, then blanks, then the end of the line. */
  predicate Underlines(s: seq<Char>, c: Char, i: nat, k: nat) {
    && 0 < i <= k <= |s| && (forall j :: 0 <= j < i ==> s[j] == c) && (forall j :: i <= j < k ==> s[j] == ' ')
    && (k < |s| ==> s[k] == '\n')
  }

  lemma {:induction false} SkipsAll(s: seq<Char>, i: nat, c: Char)
    requires i <= |s|
    ensures var r := SkipAll(s, i, c);
      (forall j :: i <= j < r ==> s[j] == c) && (r < |s| ==> s[r] != c)
    decreases |s| - i
  {
    if i < |s| && s[i] == c { SkipsAll(s, i + 1, c); }
  }

  lemma UnderlineIff(s: seq<Char>)
    requires s != []
    ensures IsHeaderline(s) == 1 <==> exists i: nat, k: nat :: Underlines(s, '=', i, k)
    ensures IsHeaderline(s) == 2 <==> exists i: nat, k: nat :: Underlines(s, '-', i, k)
    ensures IsHeaderline(s) <= 2
  {
    if s[0] == '=' || s[0] == '-' {
      var i := SkipAll(s, 1, s[0]);
      var k := SkipAll(s, i, ' ');
      SkipsAll(s, 1, s[0]);
      SkipsAll(s, i, ' ');
      if IsHeaderline(s) != 0 { assert Underlines(s, s[0], i, k); }
      forall i': nat, k': nat | Underlines(s, s[0], i', k') ensures i' == i && k' == k {
        assert i' < |s| ==> s[i'] != s[0];
      }
    }
  }

  /** The line behind the first newline. */
  lemma NextLineIff(s: seq<Char>)
    ensures IsNextHeaderline(s)
       <==> exists n: nat :: n + 1 < |s| && s[n] == '\n' && (forall j :: 0 <= j < n ==> s[j] != '\n')
                             && IsHeaderline(s[n + 1..]) != 0
  {
    FirstNewline(s, 0);
    var n := NewlineFrom(s, 0);
    if IsNextHeaderline(s) { assert n + 1 < |s| && s[n] == '\n' && IsHeaderline(s[n + 1..]) != 0; }
  }

  lemma {:induction false} FirstNewline(s: seq<Char>, i: nat)
    requires i <= |s|
    ensures var n := NewlineFrom(s, i); (forall j :: i <= j < n ==> s[j] != '\n') && (n < |s| ==> s[n] == '\n')
    decreases |s| - i
  {
    if i < |s| && s[i] != '\n' { FirstNewline(s, i + 1); }
  }

  /** An empty line: blanks only, up to its newline or the end of the text. */
  lemma {:induction false} EmptyIff(s: seq<Char>, i: nat)
    requires i <= |s|
    ensures var n := NewlineFrom(s, i);
      IsEmptyFrom(s, i) == if forall j :: i <= j < n ==> s[j] == ' ' then n + 1 else 0
    decreases |s| - i
  {
    if i < |s| && s[i] != '\n' { EmptyIff(s, i + 1); }
  }

  /** A rule: one of `*`, `-` and `_` at least three times, and nothing but blanks besides. */
  lemma {:induction false} RuleIff(s: seq<Char>, c: Char)
    requires c != ' ' && c != '\n'
    ensures var n := NewlineFrom(s, 0);
      RuleCharacters(s, c) == if forall j :: 0 <= j < n ==> s[j] == c || s[j] == ' ' then Occurrences(s[..n], c) else -1
    decreases |s|
  {
    if s != [] && s[0] != '\n' {
      RuleIff(s[1..], c);
      ShiftedNewline(s, 1);
      var n := NewlineFrom(s, 0);
      assert s[..n][1..] == s[1..][..n - 1];
      assert forall j :: 0 <= j < n - 1 ==> s[1..][j] == s[j + 1];
    }
  }

  function Occurrences(s: seq<Char>, c: Char): nat {
    if s == [] then 0 else (if s[0] == c then 1 else 0) + Occurrences(s[1..], c)
  }

  lemma {:induction false} ShiftedNewline(s: seq<Char>, i: nat)
    requires 0 < i <= |s|
    ensures NewlineFrom(s, i) == 1 + NewlineFrom(s[1..], i - 1)
    decreases |s| - i
  {
    if i < |s| && s[i] != '\n' { ShiftedNewline(s, i + 1); }
  }

  /** Nothing but `c` and blanks up to the end of the line, and `c` at least three times. */
  predicate Rules(s: seq<Char>) {
    && s != [] && (s[0] == '*' || s[0] == '-' || s[0] == '_')
    && (forall j :: 0 <= j < NewlineFrom(s, 0) ==> s[j] == s[0] || s[j] == ' ')
    && Occurrences(s[..NewlineFrom(s, 0)], s[0]) >= 3
  }

  /** A rule lies behind at most three blanks, in a text with two more characters. */
  lemma HruleIff(s: seq<Char>)
    ensures IsHrule(s) <==> exists i: nat :: BlanksTo(s, i) && i + 2 < |s| && Rules(s[i..])
  {
    IndentIsBlanks(s);
    var i := Indent(s);
    if i + 2 < |s| && (s[i] == '*' || s[i] == '-' || s[i] == '_') {
      RuleIff(s[i..], s[i]);
      if IsHrule(s) { assert Rules(s[i..]); }
    }
    forall i': nat | BlanksTo(s, i') && i' + 2 < |s| && Rules(s[i'..]) ensures i' == i {
      assert s[i'..][0] == s[i'];
    }
  }

  /** The level of a header: up to six number signs. */
  lemma {:induction false} HashesAre(s: seq<Char>, i: nat)
    requires i <= |s| && i <= 6
    ensures var n := HashesFrom(s, i);
      (forall j :: i <= j < n ==> s[j] == '#') && (n < 6 && n < |s| ==> s[n] != '#')
    decreases |s| - i
  {
    if i < |s| && i < 6 && s[i] == '#' { HashesAre(s, i + 1); }
  }

  /** A header: a number sign; where blanks are asked for, one behind up to six of them. */
  lemma AtxheaderIff(s: seq<Char>, spaceHeaders: bool)
    requires s != []
    ensures IsAtxheader(s, spaceHeaders)
       <==> s[0] == '#' && (!spaceHeaders || exists n: nat :: IsMarked(s, n))
  {
    HashesAre(s, 0);
    if IsAtxheader(s, true) { assert IsMarked(s, Hashes(s)); }
  }

  /** `n` number signs, at most six, and behind them a blank or nothing. */
  predicate IsMarked(s: seq<Char>, n: nat) {
    && n <= |s| && n <= 6 && (forall j :: 0 <= j < n ==> s[j] == '#')
    && (n < |s| ==> s[n] == ' ')
  }

  lemma CodePrefix(s: seq<Char>)
    ensures PrefixCode(s) == if |s| >= 4 && s[..4] == "    " then 4 else 0
  {}
}
