/** The layered verdict cache.  A speculative caller opens a layer instead of copying the cache. */
module RelationCache {
  import opened RelationRules

  /** `Root` has no layer below; `Layer` writes on top of a shared settled base. */
  datatype Cache = Root(entries: map<Key, bool>) | Layer(base: Cache, entries: map<Key, bool>)

  /** The verdicts visible through all layers; an upper layer shadows a lower one. */
  function View(c: Cache): map<Key, bool> {
    match c
    case Root(entries) => entries
    case Layer(base, entries) => View(base) + entries
  }

  function Depth(c: Cache): nat {
    if c.Root? then 0 else 1 + Depth(c.base)
  }

  datatype Answer = Unknown | Known(verdict: bool)

  /** The layer walk, with the number of layers visited below the local one. */
  method Lookup(c: Cache, key: Key) returns (answer: Answer, depth: nat)
    ensures answer == (if key in View(c) then Known(View(c)[key]) else Unknown)
    ensures depth <= Depth(c)
  {
    if key in c.entries {
      return Known(c.entries[key]), 0;
    }
    var current := c;
    depth := 0;
    while current.Layer?
      invariant key !in current.entries
      invariant depth + Depth(current) == Depth(c)
      invariant key in View(c) <==> key in View(current)
      invariant key in View(c) ==> View(c)[key] == View(current)[key]
      decreases current
    {
      current := current.base;
      depth := depth + 1;
      if key in current.entries {
        return Known(current.entries[key]), depth;
      }
    }
    answer := Unknown;
  }

  function Insert(c: Cache, key: Key, verdict: bool): Cache {
    c.(entries := c.entries[key := verdict])
  }

  /** Fold the decisions of a finished query into the top layer. */
  function Promote(c: Cache, pending: map<Key, bool>): Cache {
    c.(entries := c.entries + pending)
  }

  function Savepoint(c: Cache): Cache {
    Layer(c, map[])
  }

  function Commit(c: Cache): Cache
    requires c.Layer?
  {
    c.base.(entries := c.base.entries + c.entries)
  }

  function Rollback(c: Cache): Cache
    requires c.Layer?
  {
    c.base
  }

  /** Writes reach the view and leave every other verdict alone. */
  lemma WritesAreVisible(c: Cache, key: Key, verdict: bool, pending: map<Key, bool>)
    ensures View(Insert(c, key, verdict)) == View(c)[key := verdict]
    ensures View(Promote(c, pending)) == View(c) + pending
    ensures Depth(Insert(c, key, verdict)) == Depth(Promote(c, pending)) == Depth(c)
  {
  }

  /** Opening a layer and closing it by commit are both invisible; commit closes exactly one. */
  lemma LayersAreInvisible(c: Cache)
    ensures View(Savepoint(c)) == View(c) && Depth(Savepoint(c)) == Depth(c) + 1
    ensures c.Layer? ==> View(Commit(c)) == View(c) && Depth(Commit(c)) == Depth(c) - 1
  {
    if c.Layer? {
      assert View(Commit(c)) == View(c.base) + c.entries;
    }
  }

  /** The number of decided relations, counted without materializing the view. */
  function Len(c: Cache): nat
    ensures Len(c) == |View(c)|
  {
    match c
    case Root(entries) => |entries|
    case Layer(base, entries) =>
      var shadowed := set k | k in entries && k in View(base);
      assert shadowed <= entries.Keys;
      assert View(c).Keys == View(base).Keys + entries.Keys;
      assert shadowed == View(base).Keys * entries.Keys;
      assert |View(c).Keys| == |View(base).Keys| + |entries.Keys| - |shadowed|;
      Len(base) + |entries| - |shadowed|
  }
}
