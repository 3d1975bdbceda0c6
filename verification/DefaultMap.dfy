/** A map whose `Get` fills a missing key. */
module DefaultMaps {
  import opened Domain

  /** `keys` lists the keys of `m`, each once, in an order the caller must not rely on. */
  ghost predicate Enumerates<K(!new), V>(keys: seq<K>, m: map<K, V>) {
    && (forall k :: k in keys <==> k in m)
    && (forall i, j :: 0 <= i < j < |keys| ==> keys[i] != keys[j])
  }

  /** The values the map has under those keys, in their order. */
  ghost predicate Follows<K(!new), V>(values: seq<V>, keys: seq<K>, m: map<K, V>) {
    |values| == |keys| && forall i :: 0 <= i < |keys| ==> keys[i] in m && values[i] == m[keys[i]]
  }

  class DefaultMap<K(==, !new), V> {
    var internal: map<K, V>

    constructor ()
      ensures internal == map[]
    {
      internal := map[];
    }

    /** Reads `key`, storing what the factory made first when the key is missing. The caller
        runs the factory, because only a method may allocate; on a hit its product is dropped. */
    method Get(key: K, made: V) returns (val: V)
      modifies this
      ensures val == (if key in old(internal) then old(internal)[key] else made)
      ensures internal == old(internal)[key := val]
    {
      if key in internal {
        val := internal[key];
        assert internal == internal[key := val];
        return;
      }
      val := made;
      internal := internal[key := val];
    }

    function Peek(key: K): Option<V>
      reads this
    {
      if key in internal then Some(internal[key]) else None
    }

    method Set(key: K, value: V)
      modifies this
      ensures internal == old(internal)[key := value]
    {
      internal := internal[key := value];
    }

    method Delete(key: K)
      modifies this
      ensures internal == old(internal) - {key}
    {
      internal := internal - {key};
    }

    method Keys() returns (keys: seq<K>)
      ensures Enumerates(keys, internal)
    {
      keys := [];
      var rest := internal.Keys;
      while rest != {}
        invariant rest <= internal.Keys
        invariant forall k :: k in keys <==> k in internal && k !in rest
        invariant forall i, j :: 0 <= i < j < |keys| ==> keys[i] != keys[j]
        decreases |rest|
      {
        var k :| k in rest;
        rest := rest - {k};
        keys := keys + [k];
      }
    }

    method Values() returns (values: seq<V>)
      ensures exists keys :: Enumerates(keys, internal) && Follows(values, keys, internal)
    {
      var order := Keys();
      values := [];
      for i := 0 to |order|
        invariant |values| == i
        invariant forall j :: 0 <= j < i ==> values[j] == internal[order[j]]
      {
        assert order[i] in order;
        values := values + [internal[order[i]]];
      }
      assert Follows(values, order, internal);
    }
  }
}
