/**
 * The stand-ins for the rpds persistent containers in rpds/__init__.py:
 * `HashTrieMap`, `HashTrieSet` and `List`. Every operation copies the
 * receiver, changes the copy and returns it, so the receiver is never
 * changed; here each container is a value and each operation a function
 * returning a new value.
 */
module Rpds {
  import opened Base
  import Dicts

  /** A `HashTrieMap`: a dictionary. */
  datatype HashTrieMap<K, V> = HashTrieMap(entries: map<K, V>)

  /**
   * What `convert` and `update` accept: a `HashTrieMap`, any other mapping,
   * or an iterable of key/value pairs.
   */
  datatype MapSource<K, V> =
    | TrieMap(trie: HashTrieMap<K, V>)
    | Mapping(entries: map<K, V>)
    | Pairs(pairs: seq<(K, V)>)

  /** `dict(source)`: the entries a source stands for. */
  function SourceEntries<K, V>(source: MapSource<K, V>): map<K, V>
  {
    match source
    case TrieMap(m) => m.entries
    case Mapping(entries) => entries
    case Pairs(ps) => Dicts.FromPairs(ps)
  }

  /** `HashTrieMap.convert(value)`: the map itself, or a new map with the source's entries. */
  function Convert<K, V>(value: MapSource<K, V>): (r: HashTrieMap<K, V>)
    ensures value.TrieMap? ==> r == value.trie
    ensures value.Mapping? ==> r.entries == value.entries
  {
    if value.TrieMap? then value.trie else HashTrieMap(SourceEntries(value))
  }

  /**
   * Converting pairs: a key is in the map exactly when some pair names it,
   * and it maps to the value of the last pair naming it.
   */
  lemma ConvertPairs<K, V>(ps: seq<(K, V)>)
    ensures var r := Convert(Pairs(ps)).entries;
      && (forall k :: k in r <==> exists i :: 0 <= i < |ps| && ps[i].0 == k)
      && (forall k :: k in r ==> exists i :: Dicts.LastAssignment(ps, k, i) && ps[i].1 == r[k])
  {
    Dicts.FromPairsSpec(ps);
  }

  /** `m.insert(key, value)`: `key` now maps to `value`; every other key is as before. */
  function Insert<K, V>(m: HashTrieMap<K, V>, key: K, value: V): (r: HashTrieMap<K, V>)
    ensures r.entries.Keys == m.entries.Keys + {key}
    ensures r.entries[key] == value
    ensures forall k :: k in m.entries && k != key ==> r.entries[k] == m.entries[k]
  {
    HashTrieMap(m.entries[key := value])
  }

  /** The error `del` raises for an absent key. */
  datatype KeyError<K> = KeyError(key: K)

  /**
   * `m.remove(key)`: `KeyError` when `key` is absent; otherwise the
   * entries of `m` other than `key`.
   */
  function Remove<K, V>(m: HashTrieMap<K, V>, key: K): (r: Result<HashTrieMap<K, V>, KeyError<K>>)
    ensures r.Err? <==> key !in m.entries
    ensures r.Err? ==> r.error == KeyError(key)
    ensures r.Ok? ==> r.value.entries.Keys == m.entries.Keys - {key}
    ensures r.Ok? ==> forall k :: k in r.value.entries ==> r.value.entries[k] == m.entries[k]
  {
    if key in m.entries then Ok(HashTrieMap(m.entries - {key})) else Err(KeyError(key))
  }

  /**
   * `m.update(other)`: the keys of both, where a key of `other` takes
   * `other`'s value and every other key keeps its value in `m`.
   */
  function Update<K, V>(m: HashTrieMap<K, V>, other: MapSource<K, V>): (r: HashTrieMap<K, V>)
    ensures r.entries.Keys == m.entries.Keys + SourceEntries(other).Keys
    ensures forall k :: k in SourceEntries(other) ==> r.entries[k] == SourceEntries(other)[k]
    ensures forall k :: k in m.entries && k !in SourceEntries(other) ==> r.entries[k] == m.entries[k]
  {
    HashTrieMap(m.entries + SourceEntries(other))
  }

  /** Removing a key just inserted into a map without it gives back the map. */
  lemma RemoveInserted<K, V>(m: HashTrieMap<K, V>, key: K, value: V)
    requires key !in m.entries
    ensures Remove(Insert(m, key, value), key) == Ok(m)
  {
    assert (m.entries[key := value]) - {key} == m.entries;
  }

  /** Inserting a removed key with its old value gives back the map. */
  lemma InsertRemoved<K, V>(m: HashTrieMap<K, V>, key: K)
    requires key in m.entries
    ensures Remove(m, key).Ok? && Insert(Remove(m, key).value, key, m.entries[key]) == m
  {
    assert (m.entries - {key})[key := m.entries[key]] == m.entries;
  }

  /** Updating from pairs is inserting them one after the other. */
  lemma {:induction false} UpdateIsInserts<K, V>(m: HashTrieMap<K, V>, ps: seq<(K, V)>)
    ensures Update(m, Pairs(ps)) == InsertAll(m, ps)
  {
    if ps != [] {
      var init, last := ps[..|ps| - 1], ps[|ps| - 1];
      UpdateIsInserts(m, init);
      assert Dicts.FromPairs(ps) == Dicts.FromPairs(init)[last.0 := last.1];
      assert m.entries + Dicts.FromPairs(ps) == (m.entries + Dicts.FromPairs(init))[last.0 := last.1];
    }
  }

  /** `insert` applied for each pair in order. */
  function InsertAll<K, V>(m: HashTrieMap<K, V>, ps: seq<(K, V)>): HashTrieMap<K, V>
  {
    if ps == [] then m else Insert(InsertAll(m, ps[..|ps| - 1]), ps[|ps| - 1].0, ps[|ps| - 1].1)
  }

  /** Updating a map with itself changes nothing. */
  lemma UpdateSelf<K, V>(m: HashTrieMap<K, V>)
    ensures Update(m, TrieMap(m)) == m
  {
    assert m.entries + m.entries == m.entries;
  }

  /** A `HashTrieSet`: a set. */
  datatype HashTrieSet<T> = HashTrieSet(elements: set<T>)

  /** `s.insert(value)`: `s` with `value`. */
  function SetInsert<T(!new)>(s: HashTrieSet<T>, value: T): (r: HashTrieSet<T>)
    ensures forall x :: x in r.elements <==> x in s.elements || x == value
  {
    HashTrieSet(s.elements + {value})
  }

  /** `s.discard(value)`: `s` without `value`; an absent value is no error. */
  function SetDiscard<T(!new)>(s: HashTrieSet<T>, value: T): (r: HashTrieSet<T>)
    ensures forall x :: x in r.elements <==> x in s.elements && x != value
    ensures value !in s.elements ==> r == s
  {
    HashTrieSet(s.elements - {value})
  }

  /** `s.update(other)`: `s` with every element `other` yields. */
  function SetUpdate<T(!new)>(s: HashTrieSet<T>, other: seq<T>): (r: HashTrieSet<T>)
    ensures forall x :: x in r.elements <==> x in s.elements || x in other
  {
    HashTrieSet(s.elements + set x | x in other)
  }

  /** Discarding a value just inserted into a set without it gives back the set. */
  lemma DiscardInserted<T(!new)>(s: HashTrieSet<T>, value: T)
    requires value !in s.elements
    ensures SetDiscard(SetInsert(s, value), value) == s
  {
    assert (s.elements + {value}) - {value} == s.elements;
  }

  /** Inserting a discarded member gives back the set. */
  lemma InsertDiscarded<T(!new)>(s: HashTrieSet<T>, value: T)
    requires value in s.elements
    ensures SetInsert(SetDiscard(s, value), value) == s
  {
    assert (s.elements - {value}) + {value} == s.elements;
  }

  /** Updating from a sequence is inserting its elements one after the other. */
  lemma {:induction false} SetUpdateIsInserts<T(!new)>(s: HashTrieSet<T>, other: seq<T>)
    ensures SetUpdate(s, other) == SetInsertAll(s, other)
  {
    if other != [] {
      SetUpdateIsInserts(s, other[..|other| - 1]);
      var init := other[..|other| - 1];
      assert (set x | x in other) == (set x | x in init) + {other[|other| - 1]} by {
        assert other == init + [other[|other| - 1]];
      }
    }
  }

  /** `insert` applied for each element in order. */
  function SetInsertAll<T(!new)>(s: HashTrieSet<T>, xs: seq<T>): HashTrieSet<T>
  {
    if xs == [] then s else SetInsert(SetInsertAll(s, xs[..|xs| - 1]), xs[|xs| - 1])
  }

  /** A `List`: a tuple of items. */
  datatype List<T> = List(items: seq<T>)

  /** `List(iterable)`: empty for `None`, otherwise the items of the iterable in their order. */
  function NewList<T>(iterable: Option<seq<T>>): (r: List<T>)
    ensures iterable.None? ==> r.items == []
    ensures iterable.Some? ==>
      |r.items| == |iterable.value| && forall i :: 0 <= i < |r.items| ==> r.items[i] == iterable.value[i]
  {
    if iterable.None? then List([]) else List(iterable.value)
  }

  /** `l.push_front(value)`: one item longer, headed by `value`, followed by `l`. */
  function PushFront<T>(l: List<T>, value: T): (r: List<T>)
    ensures |r.items| == |l.items| + 1
    ensures r.items[0] == value && r.items[1..] == l.items
  {
    List([value] + l.items)
  }

  /** Pushing each item of `xs` to the front, in order, builds `xs` reversed in front of `l`. */
  lemma {:induction false} PushFrontAllReverses<T>(l: List<T>, xs: seq<T>)
    ensures PushFrontAll(l, xs).items == Reversed(xs) + l.items
  {
    if xs != [] {
      PushFrontAllReverses(l, xs[..|xs| - 1]);
    }
  }

  /** `push_front` applied for each item in order. */
  function PushFrontAll<T>(l: List<T>, xs: seq<T>): List<T>
  {
    if xs == [] then l else PushFront(PushFrontAll(l, xs[..|xs| - 1]), xs[|xs| - 1])
  }

  /** `xs` in reverse order. */
  function Reversed<T>(xs: seq<T>): (r: seq<T>)
    ensures |r| == |xs| && forall i :: 0 <= i < |xs| ==> r[i] == xs[|xs| - 1 - i]
  {
    if xs == [] then [] else [xs[|xs| - 1]] + Reversed(xs[..|xs| - 1])
  }
}
