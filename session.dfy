/** The session state of one workflow run: a Python dictionary from string keys
    to values, which remembers the order in which keys were first inserted. */
module Session {
  import opened Wrappers

  /** A value held in the state: a Python `str`, or anything else (a parsed
      stage result, a number, ...). */
  datatype Value = Str(text: string) | Other

  /** The dictionary as a value: its keys in insertion order and its entries. */
  datatype Memory = Memory(order: seq<string>, values: map<string, Value>) {

    /** Keys are listed once each, and exactly the keys that have an entry. */
    ghost predicate Valid() {
      (forall i, j :: 0 <= i < j < |order| ==> order[i] != order[j]) &&
      (forall k :: k in values <==> k in order)
    }

    /** `state.get(key)` */
    function Get(key: string): Option<Value> {
      if key in values then Some(values[key]) else None
    }

    /** `state[key] = v`: overwrites the entry, and appends the key to the
        insertion order only when it is new. */
    function Put(key: string, v: Value): (m: Memory)
      ensures m.Get(key) == Some(v)
      ensures forall k :: k != key ==> m.Get(k) == Get(k)
      ensures key in values ==> m.order == order
      ensures key !in values ==> m.order == order + [key]
      ensures Valid() ==> m.Valid()
    {
      Memory(if key in values then order else order + [key], values[key := v])
    }
  }

  /** Writing the same value twice is writing it once. */
  lemma PutTwice(m: Memory, key: string, v: Value)
    ensures m.Put(key, v).Put(key, v) == m.Put(key, v)
  {
  }

  /** `m'` lists the keys of `m` in the same places, followed only by keys
      drawn from `keys`. */
  ghost predicate Extends(m: Memory, m': Memory, keys: set<string>) {
    |m.order| <= |m'.order| && m'.order[..|m.order|] == m.order &&
    forall i :: |m.order| <= i < |m'.order| ==> m'.order[i] in keys
  }

  lemma ExtendsTrans(m1: Memory, m2: Memory, m3: Memory, keys: set<string>)
    requires Extends(m1, m2, keys) && Extends(m2, m3, keys)
    ensures Extends(m1, m3, keys)
  {
    assert m3.order[..|m1.order|] == m3.order[..|m2.order|][..|m1.order|];
    forall i | |m1.order| <= i < |m3.order|
      ensures m3.order[i] in keys
    {
      if i < |m2.order| {
        assert m3.order[i] == m3.order[..|m2.order|][i];
      }
    }
  }

  /** A write keeps the existing order as a prefix and appends at most its
      own key. */
  lemma PutExtends(m: Memory, key: string, v: Value, keys: set<string>)
    requires key in keys
    ensures Extends(m, m.Put(key, v), keys)
  {
  }

  function EmptyMemory(): (m: Memory)
    ensures m.Valid() && forall k :: m.Get(k) == None
  {
    Memory([], map[])
  }

  /** The state object a tool receives through its context; tools write into
      it in place. */
  class SessionState {
    var order: seq<string>
    var values: map<string, Value>

    function View(): Memory
      reads this
    {
      Memory(order, values)
    }

    ghost predicate Valid()
      reads this
    {
      View().Valid()
    }

    constructor ()
      ensures Valid() && View() == EmptyMemory()
    {
      order := [];
      values := map[];
    }

    /** `state[key] = v` */
    method Set(key: string, v: Value)
      requires Valid()
      modifies this
      ensures Valid()
      ensures View() == old(View()).Put(key, v)
    {
      if key !in values {
        order := order + [key];
      }
      values := values[key := v];
    }
  }
}
