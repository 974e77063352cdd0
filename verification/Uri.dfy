// Percent-encoding and the cleaning of paths, in place
// (src/mongoose/mongoose.c:1646-1669, 1874-1893, 2507-2525, 4353-4354).

module Uri {
  import opened Wrappers

  const NUL: Char := '\0'

  // ---- encoding ----

  predicate IsAlnum(c: Char) {
    '0' <= c <= '9' || 'A' <= c <= 'Z' || 'a' <= c <= 'z'
  }

  predicate Kept(c: Char) {
    IsAlnum(c) || c in "._-$,;~()"
  }

  function Hex(d: nat): (c: Char)
    requires d < 16
  {
    if d < 10 then '0' + d as char else 'a' + (d - 10) as char
  }

  function EncodedByte(c: Char): (r: seq<Char>)
    ensures 1 <= |r| <= 3
  {
    if Kept(c) then [c] else ['%', Hex(c as int / 16), Hex(c as int % 16)]
  }

  function Encoded(s: seq<Char>): seq<Char> {
    if s == [] then [] else EncodedByte(s[0]) + Encoded(s[1..])
  }

  /** What url_encode leaves in a buffer with `stale` in it, one byte short of its terminator. Where
      an escape no longer fits, the byte is passed over, and so is one byte of the buffer. */
  function EncodedOver(s: seq<Char>, stale: seq<Char>): (r: seq<Char>)
    ensures |r| <= |stale|
    decreases s
  {
    if s == [] || stale == [] then []
    else if Kept(s[0]) then [s[0]] + EncodedOver(s[1..], stale[1..])
    else if |stale| > 2 then EncodedByte(s[0]) + EncodedOver(s[1..], stale[3..])
    else [stale[0]] + EncodedOver(s[1..], stale[1..])
  }

  lemma {:induction false} FitsIsEncoded(s: seq<Char>, stale: seq<Char>)
    requires |Encoded(s)| <= |stale|
    ensures EncodedOver(s, stale) == Encoded(s)
  {
    if s != [] {
      FitsIsEncoded(s[1..], stale[|EncodedByte(s[0])|..]);
    }
  }

  /** An escape would be cut off by the end of a buffer with room for n bytes. */
  ghost predicate CutsEscape(s: seq<Char>, n: nat) {
    exists k: nat :: Cuts(s, n, k)
  }

  predicate Cuts(s: seq<Char>, n: nat, k: nat) {
    k < |s| && !Kept(s[k]) && |Encoded(s[..k])| < n < |Encoded(s[..k])| + 3
  }

  /** The cut moves with the text and the room. */
  lemma CutsLater(s: seq<Char>, n: nat, k: nat)
    requires s != [] && n >= |EncodedByte(s[0])|
    ensures Cuts(s, n, k + 1) <==> Cuts(s[1..], n - |EncodedByte(s[0])|, k)
  {
    if k + 1 < |s| { assert s[..k + 1][0] == s[0] && s[..k + 1][1..] == s[1..][..k]; }
  }

  lemma {:induction false} UncutIsPrefix(s: seq<Char>, stale: seq<Char>)
    requires !CutsEscape(s, |stale|)
    ensures EncodedOver(s, stale) <= Encoded(s)
  {
    if s != [] && stale != [] {
      var e := EncodedByte(s[0]);
      assert !Cuts(s, |stale|, 0) && s[..0] == [];
      var rest := stale[|e|..];
      assert !CutsEscape(s[1..], |rest|) by {
        if k: nat :| Cuts(s[1..], |rest|, k) { CutsLater(s, |stale|, k); }
      }
      UncutIsPrefix(s[1..], rest);
      assert EncodedOver(s, stale) == e + EncodedOver(s[1..], rest);
    }
  }

  /** Where an escape does not fit, the buffer keeps the byte that was there. */
  lemma {:induction false} StaleByteStays(s: seq<Char>, stale: seq<Char>, k: nat)
    requires Cuts(s, |stale|, k)
    ensures var n := |Encoded(s[..k])|;
      && n < |EncodedOver(s, stale)| && EncodedOver(s, stale)[n] == stale[n]
      && n < |Encoded(s)| && Encoded(s)[n] == '%'
  {
    if k == 0 {
      assert s[..0] == [];
    } else {
      var e := EncodedByte(s[0]);
      assert s[..k][0] == s[0] && s[..k][1..] == s[1..][..k - 1];
      CutsLater(s, |stale|, k - 1);
      StaleByteStays(s[1..], stale[|e|..], k - 1);
      assert EncodedOver(s, stale) == e + EncodedOver(s[1..], stale[|e|..]);
    }
  }

  /** Whatever the buffer held, a part of the encoding is left, exactly when no escape is cut off. */
  lemma PrefixIffNoEscapeIsCut(s: seq<Char>, n: nat)
    ensures (forall stale: seq<Char> :: |stale| == n ==> EncodedOver(s, stale) <= Encoded(s)) <==> !CutsEscape(s, n)
  {
    if CutsEscape(s, n) {
      var k: nat :| Cuts(s, n, k);
      var stale: seq<Char> := seq(n, _ => 'Z');
      StaleByteStays(s, stale, k);
      assert !(EncodedOver(s, stale) <= Encoded(s));
    } else {
      forall stale: seq<Char> | |stale| == n ensures EncodedOver(s, stale) <= Encoded(s) { UncutIsPrefix(s, stale); }
    }
  }

  /** A slash, and room for one byte: what was there stays. */
  lemma StaleByte()
    ensures EncodedOver("/", "Z") == "Z" && Encoded("/") == "%2f" && CutsEscape("/", 1)
  {
    assert Cuts("/", 1, 0);
  }

  // ---- decoding ----

  predicate IsXDigit(c: Char) {
    '0' <= c <= '9' || 'A' <= c <= 'F' || 'a' <= c <= 'f'
  }

  function ToLower(c: Char): Char {
    if 'A' <= c <= 'Z' then ((c as int) + 32) as char else c
  }

  function HexToI(c: Char): (d: int)
    ensures IsXDigit(c) && ToLower(c) == c ==> 0 <= d < 16
  {
    if '0' <= c <= '9' then c as int - '0' as int else c as int - 'W' as int
  }

  predicate IsEscape(s: seq<Char>, i: nat) {
    i + 2 < |s| && s[i] == '%' && IsXDigit(s[i + 1]) && IsXDigit(s[i + 2])
  }

  function Unescaped(a: Char, b: Char): Char
    requires IsXDigit(a) && IsXDigit(b)
  {
    (HexToI(ToLower(a)) * 16 + HexToI(ToLower(b))) as char
  }

  /** How many bytes of s from i on the next decoded one comes from, and what it is. */
  function Width(s: seq<Char>, i: nat): (n: nat)
    requires i < |s|
    ensures 1 <= n && i + n <= |s|
  {
    if IsEscape(s, i) then 3 else 1
  }

  function DecodedByte(s: seq<Char>, i: nat, form: bool): Char
    requires i < |s|
  {
    if IsEscape(s, i) then Unescaped(s[i + 1], s[i + 2])
    else if form && s[i] == '+' then ' '
    else s[i]
  }

  function Decoded(s: seq<Char>, form: bool): (r: seq<Char>)
    ensures |r| <= |s|
  {
    if s == [] then [] else [DecodedByte(s, 0, form)] + Decoded(s[Width(s, 0)..], form)
  }

  lemma HexRoundTrip(c: Char)
    ensures IsXDigit(Hex(c as int / 16)) && IsXDigit(Hex(c as int % 16))
    ensures Unescaped(Hex(c as int / 16), Hex(c as int % 16)) == c
  {
    HexDigit(c as int / 16);
    HexDigit(c as int % 16);
  }

  lemma HexDigit(d: nat)
    requires d < 16
    ensures IsXDigit(Hex(d)) && ToLower(Hex(d)) == Hex(d) && HexToI(Hex(d)) == d
  {}

  /** Whether `+` stands for a space or not, decoding gives back what was encoded. */
  lemma {:induction false} DecodesEncoded(s: seq<Char>, form: bool)
    ensures Decoded(Encoded(s), form) == s
  {
    if s != [] {
      var e := Encoded(s);
      HexRoundTrip(s[0]);
      assert e[|EncodedByte(s[0])|..] == Encoded(s[1..]);
      DecodesEncoded(s[1..], form);
      assert Width(e, 0) == |EncodedByte(s[0])| && DecodedByte(e, 0, form) == s[0];
    }
  }

  // ---- paths ----

  predicate IsSeparator(c: Char) { c == '/' || c == '\\' }

  /** Something the cleaner removes behind a separator starts at i. */
  predicate Removed(s: seq<Char>, i: nat) {
    i < |s| && (IsSeparator(s[i]) || (s[i] == '.' && i + 1 < |s| && s[i + 1] == '.'))
  }

  /** The first place from i on where nothing is to be removed. */
  function Skip(s: seq<Char>, i: nat): (r: nat)
    requires i <= |s|
    ensures i <= r <= |s| && !Removed(s, r)
    decreases |s| - i
  {
    if !Removed(s, i) then i
    else if IsSeparator(s[i]) then Skip(s, i + 1)
    else Skip(s, i + 2)
  }

  function Next(s: seq<Char>, i: nat): (r: nat)
    requires i < |s|
    ensures i < r <= |s|
  {
    if IsSeparator(s[i]) then Skip(s, i + 1) else i + 1
  }

  function CleanedFrom(s: seq<Char>, i: nat): (r: seq<Char>)
    requires i <= |s|
    ensures |r| <= |s| - i
    decreases |s| - i
  {
    if i == |s| then [] else [s[i]] + CleanedFrom(s, Next(s, i))
  }

  function Cleaned(s: seq<Char>): seq<Char> { CleanedFrom(s, 0) }

  /** No separator has anything behind it that would be removed. */
  predicate IsClean(s: seq<Char>) {
    forall i: nat :: i + 1 < |s| && IsSeparator(s[i]) ==> !Removed(s, i + 1)
  }

  predicate IsSubsequence(r: seq<Char>, s: seq<Char>)
    decreases s
  {
    r == [] || (s != [] && (if r[0] == s[0] then IsSubsequence(r[1..], s[1..]) else IsSubsequence(r, s[1..])))
  }

  /** Nothing to be removed starts a cleaned text unless it started the text. */
  lemma CleanedStart(s: seq<Char>, i: nat)
    requires i <= |s| && !Removed(s, i)
    ensures !Removed(CleanedFrom(s, i), 0)
  {
    if i < |s| && !IsSeparator(s[i]) && i + 1 < |s| {
      assert CleanedFrom(s, i)[1..] == CleanedFrom(s, i + 1);
      assert CleanedFrom(s, i)[1] == CleanedFrom(s, i + 1)[0] == s[i + 1];
    }
  }

  lemma {:induction false} CleanedIsClean(s: seq<Char>, i: nat)
    requires i <= |s|
    ensures IsClean(CleanedFrom(s, i))
    decreases |s| - i
  {
    if i < |s| {
      var r, next := CleanedFrom(s, i), Next(s, i);
      var rest := CleanedFrom(s, next);
      CleanedIsClean(s, next);
      if IsSeparator(s[i]) { CleanedStart(s, next); }
      forall k: nat | k + 1 < |r| && IsSeparator(r[k]) ensures !Removed(r, k + 1) {
        assert r[1..] == rest;
        assert Removed(r, k + 1) == Removed(rest, k);
        if k > 0 { assert rest[k - 1] == r[k]; }
      }
    }
  }

  lemma {:induction false} CleanStays(s: seq<Char>, i: nat)
    requires IsClean(s) && i <= |s|
    ensures CleanedFrom(s, i) == s[i..]
    decreases |s| - i
  {
    if i < |s| { CleanStays(s, i + 1); }
  }

  /** Cleaning leaves a path alone exactly when it is clean; so cleaning twice is cleaning once. */
  lemma CleanedOnce(s: seq<Char>)
    ensures Cleaned(s) == s <==> IsClean(s)
    ensures Cleaned(Cleaned(s)) == Cleaned(s)
  {
    CleanedIsClean(s, 0);
    CleanStays(Cleaned(s), 0);
    if IsClean(s) { CleanStays(s, 0); }
  }

  lemma {:induction false} CleanedIsSubsequence(s: seq<Char>, i: nat, j: nat)
    requires j <= i <= |s|
    ensures IsSubsequence(CleanedFrom(s, i), s[j..])
    decreases |s| - j
  {
    var r := CleanedFrom(s, i);
    if i < |s| {
      assert s[j..][1..] == s[j + 1..];
      if r[0] == s[j] {
        assert r[1..] == CleanedFrom(s, Next(s, i));
        CleanedIsSubsequence(s, Next(s, i), j + 1);
      } else {
        CleanedIsSubsequence(s, i, j + 1);
      }
    }
  }

  /** What comes before the first separator stays. */
  lemma {:induction false} FrontStays(s: seq<Char>, i: nat, k: nat)
    requires i <= k <= |s| && forall j :: i <= j < k ==> !IsSeparator(s[j])
    ensures k - i <= |CleanedFrom(s, i)| && CleanedFrom(s, i)[..k - i] == s[i..k]
    decreases k - i
  {
    if i < k {
      FrontStays(s, i + 1, k);
      var rest := CleanedFrom(s, i + 1);
      assert CleanedFrom(s, i)[..k - i] == [s[i]] + rest[..k - i - 1];
    }
  }

  predicate DotsAt(s: seq<Char>, i: nat) {
    i + 1 < |s| && s[i] == '.' && s[i + 1] == '.'
  }

  lemma DotsOnlyInFront(r: seq<Char>)
    requires IsClean(r)
    ensures forall i: nat :: DotsAt(r, i) && (i == 0 || IsSeparator(r[i - 1])) ==> i == 0
  {
    forall before: nat | DotsAt(r, before + 1) ensures !IsSeparator(r[before]) {
      assert Removed(r, before + 1);
    }
  }

  /** In a cleaned path two dots begin a component exactly when the path itself began with two
      dots: those in front stay, all others go. */
  lemma ParentStaysInFront(s: seq<Char>)
    ensures var r := Cleaned(s);
      (exists i: nat :: DotsAt(r, i) && (i == 0 || IsSeparator(r[i - 1]))) <==> DotsAt(s, 0)
    ensures DotsAt(Cleaned(s), 0) <==> DotsAt(s, 0)
  {
    var r := Cleaned(s);
    CleanedIsClean(s, 0);
    DotsOnlyInFront(r);
    if DotsAt(s, 0) {
      FrontStays(s, 0, 2);
      assert r[..2] == s[0..2] && r[0] == r[..2][0] && r[1] == r[..2][1];
      assert DotsAt(r, 0);
    }
    if i: nat :| DotsAt(r, i) && (i == 0 || IsSeparator(r[i - 1])) {
      assert i == 0;
      assert r == [s[0]] + CleanedFrom(s, Next(s, 0));
      assert r[1..] == CleanedFrom(s, 1) && r[1] == r[1..][0] == s[1];
      assert DotsAt(s, 0);
    }
  }

  // ---- what stays of a path, character by character ----

  /** s[i..j] is made of slashes, backslashes and pairs of dots. */
  predicate IsRun(s: seq<Char>, i: nat, j: nat)
    decreases j - i
  {
    || i == j
    || (i < j && i < |s| && (s[i] == '/' || s[i] == '\\') && IsRun(s, i + 1, j))
    || (i + 1 < j && i + 1 < |s| && s[i] == '.' && s[i + 1] == '.' && IsRun(s, i + 2, j))
  }

  /** No more of a run lies at j. */
  predicate EndsRun(s: seq<Char>, j: nat) {
    j < |s| ==> s[j] != '/' && s[j] != '\\' && (s[j] == '.' && j + 1 < |s| ==> s[j + 1] != '.')
  }

  /** If the character at i stays, the next that stays is the one at j: right behind it, but for the
      whole run that is dropped behind a slash or a backslash. */
  predicate NextStays(s: seq<Char>, i: nat, j: nat) {
    && i < j <= |s|
    && if s[i] == '/' || s[i] == '\\' then IsRun(s, i + 1, j) && EndsRun(s, j) else j == i + 1
  }

  lemma {:induction false} SkipIsRun(s: seq<Char>, i: nat)
    requires i <= |s|
    ensures IsRun(s, i, Skip(s, i)) && EndsRun(s, Skip(s, i))
    decreases |s| - i
  {
    if Removed(s, i) {
      if IsSeparator(s[i]) { SkipIsRun(s, i + 1); } else { SkipIsRun(s, i + 2); }
    }
  }

  /** Where the characters that stay come from; everything else lies in between and was dropped. */
  lemma {:induction false} WhatStays(s: seq<Char>, i: nat) returns (at: seq<nat>)
    requires i <= |s|
    ensures var r := CleanedFrom(s, i);
      && |at| == |r| + 1 && at[0] == i && at[|r|] == |s|
      && forall k :: 0 <= k < |r| ==> at[k] < |s| && NextStays(s, at[k], at[k + 1]) && r[k] == s[at[k]]
    decreases |s| - i
  {
    at := [i];
    if i < |s| {
      var r, next := CleanedFrom(s, i), Next(s, i);
      var more := WhatStays(s, next);
      at := [i] + more;
      if IsSeparator(s[i]) { SkipIsRun(s, i + 1); }
      forall k | 0 <= k < |r| ensures at[k] < |s| && NextStays(s, at[k], at[k + 1]) && r[k] == s[at[k]] {
        if k > 0 { assert at[k] == more[k - 1] && at[k + 1] == more[k] && r[k] == CleanedFrom(s, next)[k - 1]; }
      }
    }
  }

  /** All but slashes, backslashes and dots. */
  function Letters(s: seq<Char>): seq<Char> {
    if s == [] then []
    else (if s[0] == '/' || s[0] == '\\' || s[0] == '.' then [] else [s[0]]) + Letters(s[1..])
  }

  lemma {:induction false} RunHasNoLetters(s: seq<Char>, i: nat, j: nat)
    requires i <= j <= |s| && IsRun(s, i, j)
    ensures Letters(s[i..]) == Letters(s[j..])
    decreases j - i
  {
    if i < j {
      assert s[i..][1..] == s[i + 1..];
      if s[i] == '.' {
        assert s[i + 1..][1..] == s[i + 2..];
        RunHasNoLetters(s, i + 2, j);
      } else {
        RunHasNoLetters(s, i + 1, j);
      }
    }
  }

  /** Cleaning drops none of them. */
  lemma {:induction false} LettersStay(s: seq<Char>, i: nat)
    requires i <= |s|
    ensures Letters(CleanedFrom(s, i)) == Letters(s[i..])
    decreases |s| - i
  {
    if i < |s| {
      var next := Next(s, i);
      LettersStay(s, next);
      assert s[i..][1..] == s[i + 1..] && CleanedFrom(s, i)[1..] == CleanedFrom(s, next);
      if IsSeparator(s[i]) {
        SkipIsRun(s, i + 1);
        RunHasNoLetters(s, i + 1, next);
      }
    }
  }

  // ---- what decodes to what, character by character ----

  /** A digit in either case. */
  predicate StandsFor(c: Char, d: nat) {
    d < 16 && (c == "0123456789abcdef"[d] || c == "0123456789ABCDEF"[d])
  }

  ghost predicate IsHexDigit(c: Char) { exists d: nat :: StandsFor(c, d) }

  lemma XDigitIsHexDigit(c: Char)
    ensures IsXDigit(c) <==> IsHexDigit(c)
  {
    if '0' <= c <= '9' { assert StandsFor(c, c as int - '0' as int); }
    if 'a' <= c <= 'f' { assert StandsFor(c, c as int - 'a' as int + 10); }
    if 'A' <= c <= 'F' { assert StandsFor(c, c as int - 'A' as int + 10); }
    if d: nat :| StandsFor(c, d) { DigitValue(c, d); }
  }

  lemma DigitValue(c: Char, d: nat)
    requires StandsFor(c, d)
    ensures IsXDigit(c) && HexToI(ToLower(c)) == d
  {}

  /** A percent sign and two digits are the byte they name. */
  lemma EscapeDecodes(h: Char, l: Char, d: nat, e: nat, rest: seq<Char>, form: bool)
    requires StandsFor(h, d) && StandsFor(l, e)
    ensures Decoded(['%', h, l] + rest, form) == [(16 * d + e) as char] + Decoded(rest, form)
  {
    var s := ['%', h, l] + rest;
    DigitValue(h, d);
    DigitValue(l, e);
    assert s[3..] == rest;
  }

  /** In a form a plus sign is a blank; everything else, with a percent sign that no two digits
      follow, stands for itself. */
  lemma OtherDecodes(c: Char, rest: seq<Char>, form: bool)
    requires !(c == '%' && |rest| >= 2 && IsHexDigit(rest[0]) && IsHexDigit(rest[1]))
    ensures Decoded([c] + rest, form) == [if form && c == '+' then ' ' else c] + Decoded(rest, form)
  {
    var s := [c] + rest;
    assert s[1..] == rest;
    if |rest| >= 2 {
      XDigitIsHexDigit(rest[0]);
      XDigitIsHexDigit(rest[1]);
    }
  }

  /** What url_encode leaves as it is, and the digits it writes: lower-case ones. */
  lemma ByteEncodes(c: Char)
    ensures if '0' <= c <= '9' || 'A' <= c <= 'Z' || 'a' <= c <= 'z' || c in "._-$,;~()" then EncodedByte(c) == [c]
      else EncodedByte(c) == ['%', "0123456789abcdef"[c as int / 16], "0123456789abcdef"[c as int % 16]]
  {
    HexIsDigit(c as int / 16);
    HexIsDigit(c as int % 16);
  }

  lemma HexIsDigit(d: nat)
    requires d < 16
    ensures Hex(d) == "0123456789abcdef"[d]
  {}
}
