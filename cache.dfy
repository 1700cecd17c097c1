/**
 * The type metadata cache (`typCache`, `TypeMetadata`, `MetadataFor`): a
 * map from types to their metadata, keyed by the type with one pointer level
 * removed, filled on first request and never shrunk.  The read-write lock
 * around it is not modelled; the cache is an object that callers share.
 */
module MetadataCache {
  import opened Reflect
  import opened Descriptors
  import TagParser

  class Cache {
    /** The cached metadata, by normalised type. */
    var entries: map<Type, Metadata>

    /** Every entry is the metadata derived for its key. */
    ghost predicate Valid()
      reads this
    {
      forall k | k in entries :: Derivable(k) && entries[k] == MetadataOf(k)
    }

    /** The cache starts empty. */
    constructor ()
      ensures entries == map[]
      ensures Valid()
    {
      entries := map[];
    }

    /**
     * `TypeMetadata`: strips one pointer level to form the key; on a hit
     * returns the cached metadata and leaves the cache as it was; on a miss
     * derives the metadata of the key, stores it under the key and returns
     * it.  Entries under other keys are never touched.
     */
    method TypeMetadata(t: Type) returns (md: Metadata)
      requires Valid()
      requires Derivable(TagParser.Indirect(t))
      modifies this
      ensures Valid()
      ensures md == MetadataOf(TagParser.Indirect(t))
      ensures entries == old(entries)[TagParser.Indirect(t) := md]
      ensures TagParser.Indirect(t) in old(entries) ==>
        entries == old(entries) && md == old(entries)[TagParser.Indirect(t)]
    {
      var typ := t;
      if typ.Kind() == Ptr {
        typ := typ.elem;
      }
      if typ in entries {
        md := entries[typ];
        assert entries == entries[typ := md];
        return;
      }
      md := NewTypeMetadata(typ);
      entries := entries[typ := md];
    }

    /** `MetadataFor`: `TypeMetadata` of the dynamic type of a non-nil interface value. */
    method MetadataFor(v: Any) returns (md: Metadata)
      requires Valid()
      requires v.Boxed? && Derivable(TagParser.Indirect(v.typ))
      modifies this
      ensures Valid()
      ensures md == MetadataOf(TagParser.Indirect(v.typ))
      ensures entries == old(entries)[TagParser.Indirect(v.typ) := md]
    {
      md := TypeMetadata(v.typ);
    }
  }

  /**
   * A type and a pointer to it resolve to the same entry: asking for `T`
   * and then for `*T` (or the other way round) returns the same metadata
   * and adds at most the one entry under `T`.
   */
  method SameEntryForPointer(c: Cache, t: Type) returns (m1: Metadata, m2: Metadata)
    requires c.Valid()
    requires !t.Pointer? && Derivable(t)
    modifies c
    ensures c.Valid()
    ensures m1 == m2 == MetadataOf(t)
    ensures c.entries == old(c.entries)[t := m1]
  {
    m1 := c.TypeMetadata(t);
    m2 := c.TypeMetadata(Pointer(t));
  }

  /**
   * Two requests for the same type return the same metadata; the second is
   * a hit and leaves the cache as the first left it.
   */
  method RepeatedRequest(c: Cache, t: Type) returns (m1: Metadata, m2: Metadata)
    requires c.Valid()
    requires Derivable(TagParser.Indirect(t))
    modifies c
    ensures c.Valid()
    ensures m1 == m2
    ensures c.entries == old(c.entries)[TagParser.Indirect(t) := m1]
  {
    m1 := c.TypeMetadata(t);
    ghost var between := c.entries;
    m2 := c.TypeMetadata(t);
    assert c.entries == between;
  }
}
