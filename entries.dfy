/**
 * MyHeapEntry: a mutable key/value pair that also remembers the tree
 * position holding it.  Keys are integers (the heap orders them by the
 * natural integer order); a position is an arena index of the tree, -1
 * while unset (null in the source).
 */
module Entries {

  /** The three fields of an entry. */
  datatype EntryState<V> = EntryState(key: int, value: V, pos: int)

  /** A new entry: the given key and value, no position yet. */
  function NewEntry<V>(k: int, v: V): (e: EntryState<V>)
    ensures e.key == k && e.value == v && e.pos == -1
  {
    EntryState(k, v, -1)
  }

  class HeapEntry<V> {
    var key: int
    var value: V
    var pos: int

    function State(): EntryState<V>
      reads this
    {
      EntryState(key, value, pos)
    }

    /** MyHeapEntry(setKey, setVal), MyHeapEntry.java:26-29. */
    constructor (k: int, v: V)
      ensures State() == NewEntry(k, v)
    {
      key, value, pos := k, v, -1;
    }

    /** getKey, MyHeapEntry.java:34-36. */
    method GetKey() returns (k: int)
      ensures k == State().key
    {
      k := key;
    }

    /** getValue, MyHeapEntry.java:41-43. */
    method GetValue() returns (v: V)
      ensures v == State().value
    {
      v := value;
    }

    /** setValue, MyHeapEntry.java:45-47: only the value changes. */
    method SetValue(v: V)
      modifies this`value
      ensures State() == old(State()).(value := v)
    {
      value := v;
    }

    /** setKey, MyHeapEntry.java:49-51: only the key changes. */
    method SetKey(k: int)
      modifies this`key
      ensures State() == old(State()).(key := k)
    {
      key := k;
    }

    /** setPos, MyHeapEntry.java:53-55: only the position changes. */
    method SetPos(p: int)
      modifies this`pos
      ensures State() == old(State()).(pos := p)
    {
      pos := p;
    }

    /** getPos, MyHeapEntry.java:57-59. */
    method GetPos() returns (p: int)
      ensures p == State().pos
    {
      p := pos;
    }
  }

  /**
   * Each setter is undone by reading back: after setKey(k) the key read is
   * k, and the other two fields are what they were.
   */
  method SetKeyThenGet<V>(e: HeapEntry<V>, k: int) returns (r: int)
    modifies e
    ensures r == k && e.value == old(e.value) && e.pos == old(e.pos)
  {
    e.SetKey(k);
    r := e.GetKey();
  }

  method SetValueThenGet<V>(e: HeapEntry<V>, v: V) returns (r: V)
    modifies e
    ensures r == v && e.key == old(e.key) && e.pos == old(e.pos)
  {
    e.SetValue(v);
    r := e.GetValue();
  }

  method SetPosThenGet<V>(e: HeapEntry<V>, p: int) returns (r: int)
    modifies e
    ensures r == p && e.key == old(e.key) && e.value == old(e.value)
  {
    e.SetPos(p);
    r := e.GetPos();
  }
}
