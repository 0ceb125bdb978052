/**
 * EntityHolder (core/src/main/java/org/canoegame/entity/EntityHolder.java):
 * the identity-stable cell the cache hands out for a key. Its key never
 * changes; its value (null modelled as None) and its cache state do.
 */
module Holders {
  import opened Wrappers

  /** EntityHolder.State. */
  datatype State = UNCACHED | MANUAL | EXPIRING

  class Holder<K, V> {
    const key: K
    var value: Option<V>
    var state: State

    /** A new holder carries the key and value it was built with and is not cached yet. */
    constructor (key: K, value: Option<V>)
      ensures this.key == key && this.value == value && state == UNCACHED
    {
      this.key := key;
      this.value := value;
      state := UNCACHED;
    }

    /** get: the value stored by the constructor or by the latest set. */
    function Get(): (r: Option<V>)
      reads this
      ensures r == value
    {
      value
    }

    /** getKey: the key the holder was built for. */
    function GetKey(): (r: K)
      ensures r == key
    {
      key
    }

    /** set replaces the value and nothing else. */
    method Set(v: Option<V>)
      modifies this
      ensures value == v && state == old(state)
    {
      value := v;
    }

    /** getState: the state stored by the latest setState, UNCACHED before any. */
    function GetState(): (r: State)
      reads this
      ensures r == state
    {
      state
    }

    /** setState replaces the state and nothing else. */
    method SetState(s: State)
      modifies this
      ensures state == s && value == old(value)
    {
      state := s;
    }

    /**
     * isExpiring, as Cache.java calls it: the holder is in the expiring
     * tier exactly when its state is EXPIRING.
     */
    function IsExpiring(): (r: bool)
      reads this
      ensures r <==> state == EXPIRING
    {
      state == EXPIRING
    }

    /** setExpiring, as Cache.java calls it: EXPIRING for true, MANUAL for false. */
    method SetExpiring(expiring: bool)
      modifies this
      ensures IsExpiring() == expiring && state != UNCACHED && value == old(value)
    {
      SetState(if expiring then EXPIRING else MANUAL);
    }
  }
}
