// Link references, found by the hash of their names
// (src/hoedown/document.c:16, 180-225).

module LinkRefs {
  import opened Wrappers

  const WIDTH := 0x1_0000_0000
  const TABLE_SIZE := 8

  function ToLower(c: Char): Char {
    if 'A' <= c <= 'Z' then ((c as int) + 32) as char else c
  }

  function Lowered(s: seq<Char>): (r: seq<Char>)
    ensures |r| == |s|
  {
    seq(|s|, i requires 0 <= i < |s| => ToLower(s[i]))
  }

  /** The polynomial of which the bytes are the coefficients, at 65599. */
  function Polynomial(s: seq<Char>): nat {
    if s == [] then 0 else Polynomial(s[..|s| - 1]) * 65599 + s[|s| - 1] as int
  }

  function Hash(name: seq<Char>): (h: nat)
    ensures h < WIDTH
  {
    Polynomial(Lowered(name)) % WIDTH
  }

  /** One round of hash_link_ref, in 32-bit arithmetic. */
  function Round(hash: nat, c: nat): nat {
    (c + hash * 0x40 % WIDTH + hash * 0x1_0000 % WIDTH - hash) % WIDTH
  }

  lemma RoundIsHorner(p: nat, c: nat)
    ensures Round(p % WIDTH, c) == (p * 65599 + c) % WIDTH
  {
    var h, q := p % WIDTH, p / WIDTH;
    var a, b := h * 0x40 / WIDTH, h * 0x1_0000 / WIDTH;
    var sum := c + h * 0x40 % WIDTH + h * 0x1_0000 % WIDTH - h;
    assert p == q * WIDTH + h;
    assert p * 65599 + c == sum + (q * 65599 + a + b) * WIDTH;
    SameRemainder(sum, q * 65599 + a + b);
  }

  lemma SameRemainder(x: int, k: int)
    ensures (x + k * WIDTH) % WIDTH == x % WIDTH
  {
    var q, r := x / WIDTH, x % WIDTH;
    assert x + k * WIDTH == (q + k) * WIDTH + r;
  }

  method HashLinkRef(name: seq<Char>) returns (hash: nat)
    ensures hash == Hash(name)
  {
    hash := 0;
    for i := 0 to |name|
      invariant hash == Polynomial(Lowered(name)[..i]) % WIDTH
    {
      ghost var s := Lowered(name);
      assert s[..i + 1][..i] == s[..i];
      RoundIsHorner(Polynomial(s[..i]), s[i] as int);
      hash := Round(hash, ToLower(name[i]) as int);
    }
    assert Lowered(name)[..|name|] == Lowered(name);
  }

  // ---- the table ----

  /** A link_ref with those behind it in its bucket. */
  datatype Chain<T> = End | Ref(id: nat, value: T, next: Chain<T>)

  datatype Entry<T> = Entry(id: nat, value: T)


  function Entries<T>(c: Chain<T>): seq<Entry<T>> {
    match c
    case End => []
    case Ref(id, value, next) => [Entry(id, value)] + Entries(next)
  }

  /** The first with this hash. */
  function First<T>(es: seq<Entry<T>>, id: nat): Option<T> {
    if es == [] then None else if es[0].id == id then Some(es[0].value) else First(es[1..], id)
  }

  /** Those that belong into bucket b. */
  function InBucket<T>(es: seq<Entry<T>>, b: nat): seq<Entry<T>> {
    if es == [] then []
    else if es[0].id % TABLE_SIZE == b then [es[0]] + InBucket(es[1..], b)
    else InBucket(es[1..], b)
  }

  lemma {:induction false} FirstInBucket<T>(es: seq<Entry<T>>, id: nat)
    ensures First(InBucket(es, id % TABLE_SIZE), id) == First(es, id)
  {
    if es != [] { FirstInBucket(es[1..], id); }
  }

  /** What is found is the newest of the entries with this hash, and there is none when nothing is. */
  lemma {:induction false} FirstIsNewest<T>(es: seq<Entry<T>>, id: nat)
    ensures First(es, id).None? <==> forall k :: 0 <= k < |es| ==> es[k].id != id
    ensures First(es, id).Some? ==> exists k: nat :: IsNewest(es, id, First(es, id).value, k)
  {
    if es != [] {
      if es[0].id == id {
        assert IsNewest(es, id, es[0].value, 0);
      } else {
        FirstIsNewest(es[1..], id);
        assert forall k :: 0 < k < |es| ==> es[k] == es[1..][k - 1];
        if First(es, id).Some? {
          var k: nat :| IsNewest(es[1..], id, First(es, id).value, k);
          assert IsNewest(es, id, First(es, id).value, k + 1);
        }
      }
    }
  }

  ghost predicate IsNewest<T>(es: seq<Entry<T>>, id: nat, value: T, k: nat) {
    k < |es| && es[k] == Entry(id, value) && forall j :: 0 <= j < k ==> es[j].id != id
  }

  /** The same, or a letter from A to Z and the one 32 above. */
  predicate SameLetter(c: Char, d: Char) {
    || c == d
    || ('A' <= c <= 'Z' && d as int == c as int + 32)
    || ('A' <= d <= 'Z' && c as int == d as int + 32)
  }

  predicate SameButCase(name: seq<Char>, other: seq<Char>) {
    |name| == |other| && forall i :: 0 <= i < |name| ==> SameLetter(name[i], other[i])
  }

  lemma LoweredIff(name: seq<Char>, other: seq<Char>)
    ensures Lowered(name) == Lowered(other) <==> SameButCase(name, other)
  {
    if Lowered(name) == Lowered(other) {
      forall i | 0 <= i < |name| ensures SameLetter(name[i], other[i]) {
        assert Lowered(name)[i] == Lowered(other)[i];
      }
    }
  }

  /** What the polynomial is for two lower-case letters. */
  lemma TwoLetters(a: Char, b: Char)
    requires 'a' <= a <= 'z' && 'a' <= b <= 'z'
    ensures Hash([a, b]) == a as int * 65599 + b as int
  {
    var s := Lowered([a, b]);
    assert s == [a, b] && s[..1] == [a] && s[..1][..0] == [];
    assert Polynomial(s[..1]) == a as int;
  }

  /** Names that differ only in case find the same entry, whatever the table. */
  lemma FindIgnoresCase<T>(es: seq<Entry<T>>, name: seq<Char>, other: seq<Char>)
    requires SameButCase(name, other)
    ensures Hash(name) == Hash(other) && First(es, Hash(name)) == First(es, Hash(other))
  {
    LoweredIff(name, other);
  }

  class RefTable<T(0)> {
    const references: array<Chain<T>>
    ghost var added: seq<Entry<T>>      // the newest first

    ghost predicate Valid()
      reads this, references
    {
      references.Length == TABLE_SIZE
      && forall b :: 0 <= b < TABLE_SIZE ==> Entries(references[b]) == InBucket(added, b)
    }

    constructor ()
      ensures Valid() && added == [] && fresh(references)
    {
      references := new Chain<T>[TABLE_SIZE](_ => End);
      added := [];
    }

    /** add_link_ref, and the link it is then given. */
    method AddLinkRef(name: seq<Char>, value: T)
      requires Valid()
      modifies this, references
      ensures Valid() && added == [Entry(Hash(name), value)] + old(added)
    {
      var id := HashLinkRef(name);
      references[id % TABLE_SIZE] := Ref(id, value, references[id % TABLE_SIZE]);
      added := [Entry(id, value)] + added;
    }

    method FindLinkRef(name: seq<Char>) returns (r: Option<T>)
      requires Valid()
      ensures r == First(added, Hash(name))
    {
      var hash := HashLinkRef(name);
      var ref := references[hash % TABLE_SIZE];
      FirstInBucket(added, hash);
      r := None;
      while ref.Ref?
        invariant First(Entries(ref), hash) == First(added, hash)
        decreases ref
      {
        if ref.id == hash { return Some(ref.value); }
        ref := ref.next;
      }
    }
  }
}
