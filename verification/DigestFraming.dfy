/** The byte streams fed to the registry digests: length prefixes make them injective. */
module DigestFraming {
  import opened Bytes

  const U64: nat := 0x1_0000_0000_0000_0000

  // ------------------------------------------------------------------ lengths

  /** The last `k` base-256 digits, most significant first. */
  function BigEndian(n: nat, k: nat): (r: Bytes)
    ensures |r| == k
  {
    if k == 0 then [] else BigEndian(n / 256, k - 1) + [(n % 256) as byte]
  }

  function Power256(k: nat): (p: nat)
    ensures p >= 1
  {
    if k == 0 then 1 else 256 * Power256(k - 1)
  }

  lemma {:induction false} BigEndianInjective(a: nat, b: nat, k: nat)
    requires a < Power256(k) && b < Power256(k) && BigEndian(a, k) == BigEndian(b, k)
    ensures a == b
  {
    if k > 0 {
      var x, y := BigEndian(a, k), BigEndian(b, k);
      assert x[..k - 1] == BigEndian(a / 256, k - 1) && y[..k - 1] == BigEndian(b / 256, k - 1);
      assert x[k - 1] == (a % 256) as byte && y[k - 1] == (b % 256) as byte;
      BigEndianInjective(a / 256, b / 256, k - 1);
      assert a == 256 * (a / 256) + a % 256 && b == 256 * (b / 256) + b % 256;
    }
  }

  /** The number a byte string spells, most significant byte first. */
  ghost function Value(b: Bytes): nat {
    if b == [] then 0 else 256 * Value(b[..|b| - 1]) + b[|b| - 1] as nat
  }

  /** The digits spell the number. */
  lemma {:induction false} BigEndianValue(n: nat, k: nat)
    requires n < Power256(k)
    ensures Value(BigEndian(n, k)) == n
  {
    if k > 0 {
      BigEndianValue(n / 256, k - 1);
      var b := BigEndian(n, k);
      assert b[..k - 1] == BigEndian(n / 256, k - 1);
    }
  }

  lemma EightBytes()
    ensures Power256(8) == U64
  {
    assert Power256(4) == 0x1_0000_0000;
  }

  /** An eight-byte length; longer inputs are clamped. */
  function Length(n: nat): (r: Bytes)
    ensures |r| == 8
  {
    BigEndian(if n < U64 then n else U64 - 1, 8)
  }

  lemma LengthInjective(a: nat, b: nat)
    requires a < U64 && b < U64 && Length(a) == Length(b)
    ensures a == b
  {
    EightBytes();
    BigEndianInjective(a, b, 8);
  }

  // ------------------------------------------------------------------ the registry stream

  datatype Entry = Entry(name: Bytes, source: Bytes)

  ghost predicate Sized(e: Entry) {
    |e.name| < U64 && |e.source| < U64
  }

  function EntryBytes(e: Entry): Bytes {
    Length(|e.name|) + Length(|e.source|) + e.name + e.source
  }

  /** Both lengths come first, the name's before the source's, and then the name and the source. */
  lemma EntryLayout(e: Entry)
    requires Sized(e)
    ensures var b, n := EntryBytes(e), |e.name|;
            && |b| == 16 + n + |e.source|
            && b[..8] == BigEndian(n, 8) && b[8..16] == BigEndian(|e.source|, 8)
            && b[16..16 + n] == e.name && b[16 + n..] == e.source
  {
    hide BigEndian;
  }

  lemma {:induction false} StreamConcat(a: seq<Entry>, b: seq<Entry>)
    ensures RegistryStream(a + b) == RegistryStream(a) + RegistryStream(b)
  {
    hide RegistryStream;
    if a == [] {
      StreamFirst(b);
      NoStream();
      assert a + b == b;
    } else {
      hide EntryBytes;
      StreamConcat(a[1..], b);
      StreamFirst(a);
      StreamFirst(a + b);
      assert (a + b)[1..] == a[1..] + b;
      var first, rest := EntryBytes(a[0]), RegistryStream(a[1..]);
      assert first + (rest + RegistryStream(b)) == first + rest + RegistryStream(b);
    }
  }

  lemma NoStream()
    ensures RegistryStream([]) == []
  {
  }

  lemma StreamFirst(entries: seq<Entry>)
    ensures entries != [] ==> RegistryStream(entries) == EntryBytes(entries[0]) + RegistryStream(entries[1..])
  {
    hide EntryBytes;
  }

  /** What the registry digest consumes. */
  function RegistryStream(entries: seq<Entry>): Bytes {
    if entries == [] then [] else EntryBytes(entries[0]) + RegistryStream(entries[1..])
  }

  method FeedRegistry(entries: seq<Entry>) returns (fed: Bytes)
    ensures fed == RegistryStream(entries)
  {
    hide EntryBytes;
    fed := [];
    for i := 0 to |entries|
      invariant fed + RegistryStream(entries[i..]) == RegistryStream(entries)
    {
      assert entries[i..][1..] == entries[i + 1..];
      ghost var e := entries[i];
      assert fed + (EntryBytes(e) + RegistryStream(entries[i + 1..])) == fed + EntryBytes(e) + RegistryStream(entries[i + 1..]);
      fed := fed + EntryBytes(entries[i]);
    }
    assert entries[|entries|..] == [];
  }

  lemma PrefixUnique(a: Bytes, b: Bytes, x: Bytes, y: Bytes)
    requires a + x == b + y && |a| == |b|
    ensures a == b && x == y
  {
    assert a == (a + x)[..|a|] && b == (b + y)[..|b|];
    assert x == (a + x)[|a|..] && y == (b + y)[|b|..];
  }

  lemma EntryUnique(a: Entry, b: Entry, x: Bytes, y: Bytes)
    requires Sized(a) && Sized(b) && EntryBytes(a) + x == EntryBytes(b) + y
    ensures a == b && x == y
  {
    hide Length;
    var la, lb := Length(|a.name|), Length(|b.name|);
    var sa, sb := Length(|a.source|), Length(|b.source|);
    assert EntryBytes(a) + x == la + (sa + (a.name + (a.source + x)));
    assert EntryBytes(b) + y == lb + (sb + (b.name + (b.source + y)));
    PrefixUnique(la, lb, sa + (a.name + (a.source + x)), sb + (b.name + (b.source + y)));
    PrefixUnique(sa, sb, a.name + (a.source + x), b.name + (b.source + y));
    LengthInjective(|a.name|, |b.name|);
    LengthInjective(|a.source|, |b.source|);
    PrefixUnique(a.name, b.name, a.source + x, b.source + y);
    PrefixUnique(a.source, b.source, x, y);
  }

  /** Two lists that feed the digest the same bytes are the same list. */
  lemma {:induction false} RegistryInjective(a: seq<Entry>, b: seq<Entry>)
    requires (forall i | 0 <= i < |a| :: Sized(a[i])) && (forall i | 0 <= i < |b| :: Sized(b[i]))
    requires RegistryStream(a) == RegistryStream(b)
    ensures a == b
  {
    hide EntryBytes;
    if a == [] || b == [] {
      StreamEmpty(a);
      StreamEmpty(b);
    } else {
      EntryUnique(a[0], b[0], RegistryStream(a[1..]), RegistryStream(b[1..]));
      RegistryInjective(a[1..], b[1..]);
      assert a == [a[0]] + a[1..] && b == [b[0]] + b[1..];
    }
  }

  lemma StreamEmpty(a: seq<Entry>)
    ensures RegistryStream(a) == [] <==> a == []
  {
    if a != [] {
      assert |EntryBytes(a[0])| >= 16;
    }
  }

  // ------------------------------------------------------------------ aggregate identities

  /** A domain tag, then each identity with its length. */
  function IdentityStream(domain: Bytes, ids: seq<Bytes>): Bytes {
    if ids == [] then domain else IdentityStream(domain, ids[..|ids| - 1]) + Length(|ids[|ids| - 1]|) + ids[|ids| - 1]
  }

  function Prefixed(ids: seq<Bytes>): Bytes {
    if ids == [] then [] else Length(|ids[0]|) + ids[0] + Prefixed(ids[1..])
  }

  lemma {:induction false} PrefixedPush(ids: seq<Bytes>, id: Bytes)
    ensures Prefixed(ids + [id]) == Prefixed(ids) + Length(|id|) + id
  {
    hide Length;
    if ids == [] {
      assert [id][1..] == [] && ids + [id] == [id];
    } else {
      PrefixedPush(ids[1..], id);
      assert (ids + [id])[1..] == ids[1..] + [id];
      var head := Length(|ids[0]|) + ids[0];
      assert head + (Prefixed(ids[1..]) + Length(|id|) + id) == head + Prefixed(ids[1..]) + Length(|id|) + id;
    }
  }

  lemma {:induction false} StreamIsPrefixed(domain: Bytes, ids: seq<Bytes>)
    ensures IdentityStream(domain, ids) == domain + Prefixed(ids)
  {
    hide Length;
    if ids == [] {
      assert domain + [] == domain;
    } else {
      var front, last := ids[..|ids| - 1], ids[|ids| - 1];
      StreamIsPrefixed(domain, front);
      PrefixedPush(front, last);
      assert ids == front + [last];
      assert domain + Prefixed(front) + Length(|last|) + last == domain + (Prefixed(front) + Length(|last|) + last);
    }
  }

  lemma {:induction false} PrefixedInjective(a: seq<Bytes>, b: seq<Bytes>)
    requires (forall i | 0 <= i < |a| :: |a[i]| < U64) && (forall i | 0 <= i < |b| :: |b[i]| < U64)
    requires Prefixed(a) == Prefixed(b)
    ensures a == b
  {
    hide Length;
    if a == [] || b == [] {
      PrefixedEmpty(a);
      PrefixedEmpty(b);
    } else {
      var x, y := Prefixed(a[1..]), Prefixed(b[1..]);
      assert Prefixed(a) == Length(|a[0]|) + (a[0] + x) && Prefixed(b) == Length(|b[0]|) + (b[0] + y);
      PrefixUnique(Length(|a[0]|), Length(|b[0]|), a[0] + x, b[0] + y);
      LengthInjective(|a[0]|, |b[0]|);
      PrefixUnique(a[0], b[0], x, y);
      PrefixedInjective(a[1..], b[1..]);
      assert a == [a[0]] + a[1..] && b == [b[0]] + b[1..];
    }
  }

  lemma PrefixedEmpty(a: seq<Bytes>)
    ensures Prefixed(a) == [] <==> a == []
  {
    if a != [] {
      assert |Prefixed(a)| >= 8;
    }
  }

  /** Under one domain, identity lists that feed the digest the same bytes are the same list. */
  lemma IdentitiesInjective(domain: Bytes, a: seq<Bytes>, b: seq<Bytes>)
    requires (forall i | 0 <= i < |a| :: |a[i]| < U64) && (forall i | 0 <= i < |b| :: |b[i]| < U64)
    requires IdentityStream(domain, a) == IdentityStream(domain, b)
    ensures a == b
  {
    StreamIsPrefixed(domain, a);
    StreamIsPrefixed(domain, b);
    PrefixUnique(domain, domain, Prefixed(a), Prefixed(b));
    PrefixedInjective(a, b);
  }
}
