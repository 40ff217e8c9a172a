/**
 * `react_serializer` from lib/reactive-ruby/serializers.rb: the value a Ruby
 * object takes when it crosses into the JavaScript side. Scalars go to their
 * `as_json`; an Array is serialized element by element; a Hash is serialized
 * value by value through `collect`, `flatten(1)` and `Hash[...]`. Both
 * collection cases finish with ActiveSupport's `as_json`, which for a Hash
 * also turns every key into a String.
 *
 * The per-class `define_method` wiring becomes one recursive function over
 * the kinds of `RubyValues.Value`.
 */
module Serializers {
  import opened Wrappers
  import opened RubyValues

  /** The two conversions taken from Ruby and ActiveSupport and left abstract:
      `as_json` of a scalar, and `to_s` of a hash key. */
  datatype Conv = Conv(asJson: Scalar -> Scalar, toS: Value -> string)

  /** What the lemmas assume of those conversions: `as_json` of a value that is
      already JSON-ready is that value, `String#to_s` is the string itself and
      `Symbol#to_s` is the symbol's name. */
  ghost predicate Lawful(c: Conv) {
    && (forall s :: c.asJson(c.asJson(s)) == c.asJson(s))
    && (forall s :: c.toS(Scalar(Str(s))) == s)
    && (forall n :: c.toS(Scalar(Sym(n))) == n)
  }

  // ---------------------------------------------------------------------
  // Ruby Hashes as insertion-ordered association lists
  // ---------------------------------------------------------------------

  function KeySet(es: seq<(Value, Value)>): set<Value> {
    if es == [] then {} else {es[0].0} + KeySet(es[1..])
  }

  ghost predicate DistinctKeys(es: seq<(Value, Value)>) {
    forall i, j :: 0 <= i < j < |es| ==> es[i].0 != es[j].0
  }

  /** `h[k] = v`: an existing key keeps its position and takes the new value,
      a new key is appended. */
  function Store(es: seq<(Value, Value)>, k: Value, v: Value): seq<(Value, Value)> {
    if es == [] then [(k, v)]
    else if es[0].0 == k then [(k, v)] + es[1..]
    else [es[0]] + Store(es[1..], k, v)
  }

  /** `Hash[pairs]`: the pairs inserted in order, so that a later pair with an
      equal key overwrites the value of the earlier one in its place. */
  function FromPairs(ps: seq<(Value, Value)>): seq<(Value, Value)> {
    if ps == [] then [] else Store(FromPairs(ps[..|ps| - 1]), ps[|ps| - 1].0, ps[|ps| - 1].1)
  }

  lemma {:induction false} KeySetAppend(es: seq<(Value, Value)>, e: (Value, Value))
    ensures KeySet(es + [e]) == KeySet(es) + {e.0}
  {
    if es != [] {
      assert (es + [e])[1..] == es[1..] + [e];
      KeySetAppend(es[1..], e);
    }
  }

  lemma {:induction false} KeySetHas(es: seq<(Value, Value)>, k: Value)
    ensures k in KeySet(es) <==> exists i :: 0 <= i < |es| && es[i].0 == k
  {
    if es != [] {
      KeySetHas(es[1..], k);
      if exists i :: 0 <= i < |es[1..]| && es[1..][i].0 == k {
        var i :| 0 <= i < |es[1..]| && es[1..][i].0 == k;
        assert es[i + 1].0 == k;
      }
      if exists i :: 0 <= i < |es| && es[i].0 == k {
        var i :| 0 <= i < |es| && es[i].0 == k;
        if i > 0 { assert es[1..][i - 1].0 == k; }
      }
    }
  }

  /** Storing a key adds exactly that key, keeps the keys distinct, and every
      entry afterwards is an old entry or the stored one. */
  lemma {:induction false} StoreFacts(es: seq<(Value, Value)>, k: Value, v: Value)
    ensures KeySet(Store(es, k, v)) == KeySet(es) + {k}
    ensures (k, v) in Store(es, k, v)
    ensures forall e :: e in Store(es, k, v) ==> e in es || e == (k, v)
    ensures DistinctKeys(es) ==> DistinctKeys(Store(es, k, v))
  {
    if es == [] {
    } else if es[0].0 == k {
      var r := Store(es, k, v);
      assert r[1..] == es[1..];
      assert DistinctKeys(es) ==> DistinctKeys(r) by {
        if DistinctKeys(es) {
          forall i, j | 0 <= i < j < |r| ensures r[i].0 != r[j].0 {
            assert r[j] == es[j];
            if i > 0 { assert r[i] == es[i]; }
          }
        }
      }
    } else {
      var rest := Store(es[1..], k, v);
      StoreFacts(es[1..], k, v);
      var r := [es[0]] + rest;
      assert r[1..] == rest;
      assert DistinctKeys(es) ==> DistinctKeys(r) by {
        if DistinctKeys(es) {
          assert DistinctKeys(es[1..]) by {
            forall i, j | 0 <= i < j < |es[1..]| ensures es[1..][i].0 != es[1..][j].0 {
              assert es[1..][i] == es[i + 1] && es[1..][j] == es[j + 1];
            }
          }
          KeySetHas(es[1..], es[0].0);
          KeySetHas(rest, es[0].0);
          forall i, j | 0 <= i < j < |r| ensures r[i].0 != r[j].0 {
            if i == 0 {
              assert r[j] == rest[j - 1];
            } else {
              assert r[i] == rest[i - 1] && r[j] == rest[j - 1];
            }
          }
        }
      }
    }
  }

  /** Storing a key the Hash does not have appends it. */
  lemma {:induction false} StoreNew(es: seq<(Value, Value)>, k: Value, v: Value)
    requires k !in KeySet(es)
    ensures Store(es, k, v) == es + [(k, v)]
  {
    if es != [] {
      StoreNew(es[1..], k, v);
      assert es == [es[0]] + es[1..];
    }
  }

  /** `Hash[pairs]` has distinct keys, exactly the keys of the pairs, and only
      entries that are among the pairs; pairs with distinct keys come back
      unchanged and in order. */
  lemma {:induction false} FromPairsFacts(ps: seq<(Value, Value)>)
    ensures DistinctKeys(FromPairs(ps))
    ensures KeySet(FromPairs(ps)) == KeySet(ps)
    ensures forall e :: e in FromPairs(ps) ==> e in ps
    ensures DistinctKeys(ps) ==> FromPairs(ps) == ps
  {
    if ps != [] {
      var init, last := ps[..|ps| - 1], ps[|ps| - 1];
      assert ps == init + [last];
      FromPairsFacts(init);
      StoreFacts(FromPairs(init), last.0, last.1);
      KeySetAppend(init, last);
      if DistinctKeys(ps) {
        assert DistinctKeys(init);
        KeySetHas(init, last.0);
        StoreNew(FromPairs(init), last.0, last.1);
      }
    }
  }

  // ---------------------------------------------------------------------
  // collect, flatten(1) and Hash[*list]
  // ---------------------------------------------------------------------

  /** Each pair as the two-element Ruby Array `[key, value]` that `collect` yields. */
  function PairArrays(ps: seq<(Value, Value)>): seq<seq<Value>> {
    if ps == [] then [] else [[ps[0].0, ps[0].1]] + PairArrays(ps[1..])
  }

  /** `flatten(1)`: the elements of each inner Array spliced into one Array,
      one level deep only. */
  function Flatten1(xss: seq<seq<Value>>): seq<Value> {
    if xss == [] then [] else xss[0] + Flatten1(xss[1..])
  }

  /** The argument list of `Hash[*list]` read as consecutive key/value pairs;
      `None` for an odd count, where Ruby raises ArgumentError. */
  function PairUp(list: seq<Value>): Option<seq<(Value, Value)>> {
    if |list| % 2 == 1 then None
    else if list == [] then Some([])
    else
      match PairUp(list[2..])
      case Some(rest) => Some([(list[0], list[1])] + rest)
      case None => None
  }

  /** `flatten(1)` removes only the pair level: reading the flattened list back
      in twos gives the pairs again, so a value that is itself an Array stays
      whole instead of being spliced into the key/value list. */
  lemma {:induction false} Flatten1PairsRoundTrip(ps: seq<(Value, Value)>)
    ensures PairUp(Flatten1(PairArrays(ps))) == Some(ps)
  {
    if ps != [] {
      var tail := Flatten1(PairArrays(ps[1..]));
      Flatten1PairsRoundTrip(ps[1..]);
      var flat := [ps[0].0, ps[0].1] + tail;
      assert Flatten1(PairArrays(ps)) == flat;
      assert flat[2..] == tail;
      assert |tail| % 2 == 0 by { Flatten1PairsLength(ps[1..]); }
      assert ps == [(ps[0].0, ps[0].1)] + ps[1..];
    }
  }

  lemma {:induction false} Flatten1PairsLength(ps: seq<(Value, Value)>)
    ensures |Flatten1(PairArrays(ps))| == 2 * |ps|
  {
    if ps != [] { Flatten1PairsLength(ps[1..]); }
  }

  // ---------------------------------------------------------------------
  // as_json and react_serializer
  // ---------------------------------------------------------------------

  /** ActiveSupport's `as_json`: a scalar through the scalar conversion, an
      Array element by element, a Hash rebuilt with `Hash[...]` from its
      entries with every key turned into a String by `to_s` and every value
      through `as_json`. */
  function AsJson(c: Conv, v: Value): Value
    decreases v, 1
  {
    match v
    case Scalar(s) => Scalar(c.asJson(s))
    case Arr(xs) => Arr(AsJsonItems(c, xs))
    case Hash(es) => Hash(FromPairs(AsJsonEntries(c, es)))
  }

  function AsJsonItems(c: Conv, xs: seq<Value>): (r: seq<Value>)
    ensures |r| == |xs|
    decreases Arr(xs), 0
  {
    seq(|xs|, i requires 0 <= i < |xs| => AsJson(c, xs[i]))
  }

  /** The `[k.to_s, v.as_json]` pairs of a Hash, in order. */
  function AsJsonEntries(c: Conv, es: seq<(Value, Value)>): (r: seq<(Value, Value)>)
    ensures |r| == |es|
    ensures forall i :: 0 <= i < |es| ==> r[i].0 == Scalar(Str(c.toS(es[i].0)))
    decreases Hash(es), 0
  {
    seq(|es|, i requires 0 <= i < |es| => (Scalar(Str(c.toS(es[i].0))), AsJson(c, es[i].1)))
  }

  /** `react_serializer`. It recurses only into the elements of an Array and
      the values of a Hash, so it is defined on every finite value. */
  function Serialize(c: Conv, v: Value): (r: Value)
    ensures v.Scalar? ==> r == Scalar(c.asJson(v.scalar))
    ensures v.Arr? ==> r.Arr? && |r.items| == |v.items|
    ensures v.Hash? ==> r.Hash?
    decreases v, 1
  {
    match v
    case Scalar(s) => Scalar(c.asJson(s))
    case Arr(xs) => AsJson(c, Arr(SerializeItems(c, xs)))
    case Hash(es) =>
      var pairs := SerializeEntries(c, es);
      Flatten1PairsRoundTrip(pairs);
      AsJson(c, Hash(FromPairs(PairUp(Flatten1(PairArrays(pairs))).value)))
  }

  /** `collect { |e| e.react_serializer }` over an Array. */
  function SerializeItems(c: Conv, xs: seq<Value>): (r: seq<Value>)
    ensures |r| == |xs|
    decreases Arr(xs), 0
  {
    seq(|xs|, i requires 0 <= i < |xs| => Serialize(c, xs[i]))
  }

  /** `collect { |key, value| [key, value.react_serializer] }` over a Hash:
      keys are passed through untouched. */
  function SerializeEntries(c: Conv, es: seq<(Value, Value)>): (r: seq<(Value, Value)>)
    ensures |r| == |es|
    ensures forall i :: 0 <= i < |es| ==> r[i].0 == es[i].0
    decreases Hash(es), 0
  {
    seq(|es|, i requires 0 <= i < |es| => (es[i].0, Serialize(c, es[i].1)))
  }

  // ---------------------------------------------------------------------
  // What the serializer produces
  // ---------------------------------------------------------------------

  /** A JSON-ready value: every scalar is its own `as_json`, every Hash key is a
      String and no key occurs twice. */
  ghost predicate IsJson(c: Conv, v: Value) {
    match v
    case Scalar(s) => c.asJson(s) == s
    case Arr(xs) => forall i :: 0 <= i < |xs| ==> IsJson(c, xs[i])
    case Hash(es) =>
      && DistinctKeys(es)
      && forall i :: 0 <= i < |es| ==> es[i].0.Scalar? && es[i].0.scalar.Str? && IsJson(c, es[i].1)
  }

  /** The stringified keys of a Hash are pairwise distinct, so `as_json` merges none of them. */
  ghost predicate KeyStringsDistinct(c: Conv, es: seq<(Value, Value)>) {
    forall i, j :: 0 <= i < j < |es| ==> c.toS(es[i].0) != c.toS(es[j].0)
  }

  /** The Hash case of `Serialize`, with the `flatten(1)` / `Hash[*list]` step
      resolved: `as_json` of the Hash built from the serialized pairs. */
  lemma SerializeHashUnfold(c: Conv, es: seq<(Value, Value)>)
    ensures Serialize(c, Hash(es)) == AsJson(c, Hash(FromPairs(SerializeEntries(c, es))))
  {
    Flatten1PairsRoundTrip(SerializeEntries(c, es));
  }

  /** `as_json` leaves a JSON-ready value as it is. */
  lemma {:induction false} AsJsonFixesJson(c: Conv, v: Value)
    requires Lawful(c) && IsJson(c, v)
    ensures AsJson(c, v) == v
    decreases v
  {
    match v
    case Scalar(s) =>
    case Arr(xs) =>
      forall i | 0 <= i < |xs| ensures AsJsonItems(c, xs)[i] == xs[i] {
        AsJsonFixesJson(c, xs[i]);
      }
      assert AsJsonItems(c, xs) == xs;
    case Hash(es) =>
      var ps := AsJsonEntries(c, es);
      forall i | 0 <= i < |es| ensures ps[i] == es[i] {
        AsJsonFixesJson(c, es[i].1);
      }
      assert ps == es;
      FromPairsFacts(es);
  }

  /** When every value of a Hash is already JSON-ready, `as_json` only turns
      its keys into Strings. */
  lemma AsJsonOfReadyValues(c: Conv, es: seq<(Value, Value)>)
    requires Lawful(c)
    requires forall i :: 0 <= i < |es| ==> IsJson(c, es[i].1)
    ensures AsJsonEntries(c, es) == seq(|es|, i requires 0 <= i < |es| => (Scalar(Str(c.toS(es[i].0))), es[i].1))
  {
    forall i | 0 <= i < |es| ensures AsJson(c, es[i].1) == es[i].1 {
      AsJsonFixesJson(c, es[i].1);
    }
  }

  /** A Hash built from entries with String keys and JSON-ready values is JSON-ready. */
  lemma HashOfReadyEntriesIsJson(c: Conv, out: seq<(Value, Value)>)
    requires forall i :: 0 <= i < |out| ==> out[i].0.Scalar? && out[i].0.scalar.Str? && IsJson(c, out[i].1)
    ensures IsJson(c, Hash(FromPairs(out)))
  {
    FromPairsFacts(out);
    var r := FromPairs(out);
    forall i | 0 <= i < |r| ensures r[i].0.Scalar? && r[i].0.scalar.Str? && IsJson(c, r[i].1) {
      assert r[i] in out;
    }
  }

  /** Serialization always yields a JSON-ready value. */
  lemma {:induction false} SerializeIsJson(c: Conv, v: Value)
    requires Lawful(c)
    ensures IsJson(c, Serialize(c, v))
    decreases v
  {
    match v
    case Scalar(s) =>
    case Arr(xs) =>
      var ys := SerializeItems(c, xs);
      forall i | 0 <= i < |xs| ensures IsJson(c, ys[i]) && AsJsonItems(c, ys)[i] == ys[i] {
        SerializeIsJson(c, xs[i]);
        AsJsonFixesJson(c, ys[i]);
      }
      assert AsJsonItems(c, ys) == ys;
    case Hash(es) =>
      SerializeHashUnfold(c, es);
      var pairs := SerializeEntries(c, es);
      var built := FromPairs(pairs);
      FromPairsFacts(pairs);
      forall i | 0 <= i < |built| ensures IsJson(c, built[i].1) {
        assert built[i] in pairs;
        var j :| 0 <= j < |pairs| && pairs[j] == built[i];
        SerializeIsJson(c, es[j].1);
      }
      AsJsonOfReadyValues(c, built);
      HashOfReadyEntriesIsJson(c, AsJsonEntries(c, built));
  }

  /** Array serialization keeps length and order: element i of the result is
      the serialization of element i of the input. */
  lemma {:induction false} SerializeArray(c: Conv, xs: seq<Value>)
    requires Lawful(c)
    ensures Serialize(c, Arr(xs)) == Arr(seq(|xs|, i requires 0 <= i < |xs| => Serialize(c, xs[i])))
  {
    var ys := SerializeItems(c, xs);
    forall i | 0 <= i < |xs| ensures AsJsonItems(c, ys)[i] == ys[i] {
      SerializeIsJson(c, xs[i]);
      AsJsonFixesJson(c, ys[i]);
    }
    assert AsJsonItems(c, ys) == ys;
  }

  /** Entry i is key i as a String, mapped to the serialization of value i. */
  function Stringified(c: Conv, es: seq<(Value, Value)>): (r: seq<(Value, Value)>)
    ensures |r| == |es|
  {
    seq(|es|, i requires 0 <= i < |es| => (Scalar(Str(c.toS(es[i].0))), Serialize(c, es[i].1)))
  }

  /** Hash serialization, when no two keys share a string form: entry i of the
      result is key i as a String, mapped to the serialization of value i. */
  lemma {:induction false} SerializeHash(c: Conv, es: seq<(Value, Value)>)
    requires Lawful(c) && KeyStringsDistinct(c, es)
    ensures Serialize(c, Hash(es)) == Hash(Stringified(c, es))
  {
    SerializeHashUnfold(c, es);
    var pairs := SerializeEntries(c, es);
    assert DistinctKeys(pairs);
    FromPairsFacts(pairs);
    forall i | 0 <= i < |es| ensures IsJson(c, pairs[i].1) {
      SerializeIsJson(c, es[i].1);
    }
    AsJsonOfReadyValues(c, pairs);
    var want := Stringified(c, es);
    assert AsJsonEntries(c, pairs) == want;
    assert DistinctKeys(want);
    FromPairsFacts(want);
  }

  /** The string forms of the keys of a Hash. */
  function KeyStrings(c: Conv, es: seq<(Value, Value)>): set<Value> {
    set k | k in KeySet(es) :: Scalar(Str(c.toS(k)))
  }

  /** Every key of a serialized Hash survives, as its string form, whatever
      collisions `to_s` causes, and no other key appears. */
  lemma SerializeHashKeys(c: Conv, es: seq<(Value, Value)>)
    ensures KeySet(Serialize(c, Hash(es)).entries) == KeyStrings(c, es)
  {
    SerializeHashUnfold(c, es);
    var pairs := SerializeEntries(c, es);
    KeySetsAgree(es, pairs);
    FromPairsFacts(pairs);
    var built := FromPairs(pairs);
    var out := AsJsonEntries(c, built);
    FromPairsFacts(out);
    forall x | x in KeySet(out) ensures x in KeyStrings(c, es) {
      KeySetHas(out, x);
      var i :| 0 <= i < |out| && out[i].0 == x;
      KeySetHas(built, built[i].0);
    }
    forall x | x in KeyStrings(c, es) ensures x in KeySet(out) {
      var k :| k in KeySet(es) && x == Scalar(Str(c.toS(k)));
      KeySetHas(built, k);
      var i :| 0 <= i < |built| && built[i].0 == k;
      assert out[i].0 == x;
      KeySetHas(out, x);
    }
  }

  /** Two association lists with the same keys position by position have the same key set. */
  lemma {:induction false} KeySetsAgree(a: seq<(Value, Value)>, b: seq<(Value, Value)>)
    requires |a| == |b| && forall i :: 0 <= i < |a| ==> a[i].0 == b[i].0
    ensures KeySet(a) == KeySet(b)
  {
    if a != [] { KeySetsAgree(a[1..], b[1..]); }
  }

  /** Serializing a JSON-ready value changes nothing. */
  lemma {:induction false} SerializeFixesJson(c: Conv, v: Value)
    requires Lawful(c) && IsJson(c, v)
    ensures Serialize(c, v) == v
    decreases v
  {
    match v
    case Scalar(s) =>
    case Arr(xs) =>
      forall i | 0 <= i < |xs| ensures Serialize(c, xs[i]) == xs[i] {
        SerializeFixesJson(c, xs[i]);
      }
      SerializeArray(c, xs);
      assert Serialize(c, v).items == xs;
    case Hash(es) =>
      forall i | 0 <= i < |es| ensures Serialize(c, es[i].1) == es[i].1 {
        SerializeFixesJson(c, es[i].1);
      }
      SerializeHash(c, es);
      assert Serialize(c, v).entries == es;
  }

  /** Serializing twice is serializing once. */
  lemma SerializeIdempotent(c: Conv, v: Value)
    requires Lawful(c)
    ensures Serialize(c, Serialize(c, v)) == Serialize(c, v)
  {
    SerializeIsJson(c, v);
    SerializeFixesJson(c, Serialize(c, v));
  }

  /** The value stored under `k` in a Hash with distinct keys (`h[k]`). */
  function Lookup(es: seq<(Value, Value)>, k: Value): Option<Value> {
    if es == [] then None
    else if es[0].0 == k then Some(es[0].1)
    else Lookup(es[1..], k)
  }

  /** The value of the last pair whose key is `k`. */
  function LastValue(ps: seq<(Value, Value)>, k: Value): Option<Value> {
    if ps == [] then None
    else if ps[|ps| - 1].0 == k then Some(ps[|ps| - 1].1)
    else LastValue(ps[..|ps| - 1], k)
  }

  /** After `h[k] = v`, `h[k]` is `v` and every other key reads as before. */
  lemma {:induction false} LookupStore(es: seq<(Value, Value)>, k: Value, v: Value, key: Value)
    ensures Lookup(Store(es, k, v), key) == if key == k then Some(v) else Lookup(es, key)
  {
    if es != [] && es[0].0 != k {
      LookupStore(es[1..], k, v, key);
    }
  }

  /** In `Hash[pairs]` every key holds the value of the last pair with that key. */
  lemma {:induction false} LookupFromPairs(ps: seq<(Value, Value)>, k: Value)
    ensures Lookup(FromPairs(ps), k) == LastValue(ps, k)
  {
    if ps != [] {
      var init, last := ps[..|ps| - 1], ps[|ps| - 1];
      LookupFromPairs(init, k);
      LookupStore(FromPairs(init), last.0, last.1, k);
    }
  }

  /** The serialization of the value of the last entry whose key has the
      string form `s`. */
  function LastByString(c: Conv, es: seq<(Value, Value)>, s: string): Option<Value> {
    if es == [] then None
    else if c.toS(es[|es| - 1].0) == s then Some(Serialize(c, es[|es| - 1].1))
    else LastByString(c, es[..|es| - 1], s)
  }

  lemma {:induction false} LastByStringAgrees(c: Conv, es: seq<(Value, Value)>, s: string)
    ensures LastValue(Stringified(c, es), Scalar(Str(s))) == LastByString(c, es, s)
  {
    if es != [] {
      var init := es[..|es| - 1];
      assert Stringified(c, es)[..|es| - 1] == Stringified(c, init);
      LastByStringAgrees(c, init, s);
    }
  }

  /** Key collisions under `to_s`: in the serialization of a Hash, each String
      key holds the serialization of the value of the LAST entry whose key has
      that string form (so `{:a => x, "a" => y}` gives `{"a" => y}`), and a
      string that is no key's string form is absent. */
  lemma SerializeHashLookup(c: Conv, es: seq<(Value, Value)>, s: string)
    requires Lawful(c) && DistinctKeys(es)
    ensures Lookup(Serialize(c, Hash(es)).entries, Scalar(Str(s))) == LastByString(c, es, s)
  {
    SerializeHashUnfold(c, es);
    var pairs := SerializeEntries(c, es);
    assert DistinctKeys(pairs);
    FromPairsFacts(pairs);
    forall i | 0 <= i < |es| ensures IsJson(c, pairs[i].1) {
      SerializeIsJson(c, es[i].1);
    }
    AsJsonOfReadyValues(c, pairs);
    assert AsJsonEntries(c, pairs) == Stringified(c, es);
    LookupFromPairs(Stringified(c, es), Scalar(Str(s)));
    LastByStringAgrees(c, es, s);
  }
}
