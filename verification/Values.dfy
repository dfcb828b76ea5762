/** The values that oscit sends and receives, and the deep merge of hashes. */
module Values {
  import opened Wrappers
  import opened Bytes
  import opened Numbers
  import opened OrderedMap

  type Key = seq<Byte>

  datatype Value =
    | EmptyValue
    | NilValue
    | AnyValue
    | TrueValue
    | FalseValue
    | RealValue(number: Number)
    | StringValue(text: seq<Byte>)
    | ListValue(values: seq<Value>)
    | HashValue(entries: seq<Entry<Key, Value>>)
    | MidiValue(data: seq<Byte>, length: int, wait: int)
    | UnsetMidiValue(data: seq<Byte>) // a midi message whose length and wait were never set

  /** Setting a value to Empty makes it Nil. */
  function Stored(v: Value): Value {
    if v.EmptyValue? then NilValue else v
  }

  /** Value::push_back: nothing, a first value, a second value that makes a list, or one more. */
  function PushBack(self: Value, v: Value): Value {
    if v.EmptyValue? then self
    else if self.ListValue? then ListValue(self.values + [v])
    else if self.EmptyValue? && v.ListValue? then ListValue([v])
    else if self.EmptyValue? then v
    else ListValue([self, v])
  }

  function PushAll(self: Value, vs: seq<Value>): Value
    decreases |vs|
  {
    if vs == [] then self else PushAll(PushBack(self, vs[0]), vs[1..])
  }

  /** Value::set(key, val): anything but a hash is replaced by a new hash first. */
  function SetKey(self: Value, key: Key, v: Value): Value {
    HashValue(Put(if self.HashValue? then self.entries else [], key, Stored(v)))
  }

  lemma {:induction false} PushAllOnList(a: seq<Value>, vs: seq<Value>)
    requires EmptyValue !in vs
    ensures PushAll(ListValue(a), vs) == ListValue(a + vs)
    decreases |vs|
  {
    if vs == [] {
      assert a + vs == a;
    } else {
      PushAllOnList(a + [vs[0]], vs[1..]);
      assert a + [vs[0]] + vs[1..] == a + vs;
    }
  }

  /** What pushing all elements of a list onto an empty value gives: the list itself, except that a
      single element that is no list stands alone and no element leaves Empty. */
  function Collapsed(vs: seq<Value>): Value {
    if vs == [] then EmptyValue
    else if |vs| == 1 && !vs[0].ListValue? then vs[0]
    else ListValue(vs)
  }

  lemma PushAllOnEmpty(vs: seq<Value>)
    requires EmptyValue !in vs
    ensures PushAll(EmptyValue, vs) == Collapsed(vs)
  {
    if vs != [] {
      var first := PushBack(EmptyValue, vs[0]);
      if vs[0].ListValue? {
        PushAllOnList([vs[0]], vs[1..]);
        assert [vs[0]] + vs[1..] == vs;
      } else if |vs| > 1 {
        assert PushAll(EmptyValue, vs) == PushAll(PushBack(first, vs[1]), vs[1..][1..]);
        PushAllOnList([vs[0], vs[1]], vs[2..]);
        assert vs[1..][1..] == vs[2..] && [vs[0], vs[1]] + vs[2..] == vs;
      }
    }
  }
}
