/** A plain JavaScript object used as an attribute map: its own properties in
    the order `for…in` visits them. Assigning to an existing key keeps its
    place, a new key goes last, `delete` drops a key, and `$.extend` copies
    the defined values of its sources in order. Attribute names are XML names,
    which never look like array indices, so insertion order is the whole
    iteration order. */
module OrderedAttrs {
  import opened JsValue

  type Entry = (string, Value)

  datatype Attrs = Attrs(entries: seq<Entry>)

  const Empty: Attrs := Attrs([])

  function KeysOf(es: seq<Entry>): (ks: seq<string>)
    ensures |ks| == |es| && forall i {:trigger ks[i]} :: 0 <= i < |es| ==> ks[i] == es[i].0
  {
    if es == [] then [] else [es[0].0] + KeysOf(es[1..])
  }

  /** The own keys, in iteration order. */
  function Keys(m: Attrs): seq<string> {
    KeysOf(m.entries)
  }

  /** `m.hasOwnProperty(k)`. */
  predicate Has(m: Attrs, k: string) {
    k in Keys(m)
  }

  ghost predicate Distinct(ks: seq<string>) {
    forall i, j :: 0 <= i < j < |ks| ==> ks[i] != ks[j]
  }

  /** Every JavaScript object has distinct own keys. */
  ghost predicate Valid(m: Attrs) {
    Distinct(Keys(m))
  }

  function Lookup(es: seq<Entry>, k: string): (v: Value)
    ensures k !in KeysOf(es) ==> v == Undefined
  {
    if es == [] then Undefined else if es[0].0 == k then es[0].1 else Lookup(es[1..], k)
  }

  /** `m[k]`: `undefined` when the key is missing. */
  function Get(m: Attrs, k: string): Value {
    Lookup(m.entries, k)
  }

  lemma {:induction false} LookupSnoc(es: seq<Entry>, e: Entry)
    ensures forall k :: Lookup(es + [e], k)
                        == if k in KeysOf(es) then Lookup(es, k) else if e.0 == k then e.1 else Undefined
  {
    if es != [] {
      assert (es + [e])[1..] == es[1..] + [e];
      LookupSnoc(es[1..], e);
    }
  }

  /** In a map with distinct keys, the value stored at a position is the value of its key. */
  lemma {:induction false} LookupAt(es: seq<Entry>, i: nat)
    requires Distinct(KeysOf(es))
    requires i < |es|
    ensures Lookup(es, es[i].0) == es[i].1
  {
    if 0 < i {
      assert KeysOf(es)[0] != KeysOf(es)[i];
      assert forall p, q :: 0 <= p < q < |es| - 1 ==> KeysOf(es[1..])[p] == KeysOf(es)[p + 1] && KeysOf(es[1..])[q] == KeysOf(es)[q + 1];
      LookupAt(es[1..], i - 1);
    }
  }

  /** The entries after assigning `v` to `k`: the first entry with key `k`
      takes the new value in place, and without one the pair goes last. */
  function Put(es: seq<Entry>, k: string, v: Value): (r: seq<Entry>)
    ensures Lookup(r, k) == v
    ensures forall k' {:trigger Lookup(r, k')} :: k' != k ==> Lookup(r, k') == Lookup(es, k')
  {
    if es == [] then [(k, v)]
    else if es[0].0 == k then
      var r := [(k, v)] + es[1..];
      assert r[1..] == es[1..];
      r
    else
      var rest := Put(es[1..], k, v);
      var r := [es[0]] + rest;
      assert r[1..] == rest;
      r
  }

  lemma {:induction false} PutKeys(es: seq<Entry>, k: string, v: Value)
    ensures KeysOf(Put(es, k, v)) == if k in KeysOf(es) then KeysOf(es) else KeysOf(es) + [k]
  {
    if es != [] {
      var r := Put(es, k, v);
      if es[0].0 == k {
        assert r[1..] == es[1..];
      } else {
        PutKeys(es[1..], k, v);
        assert r[1..] == Put(es[1..], k, v);
        assert KeysOf(es) == [es[0].0] + KeysOf(es[1..]);
      }
    }
  }

  /** A key that is not there yet is appended. */
  lemma {:induction false} PutFresh(es: seq<Entry>, k: string, v: Value)
    requires k !in KeysOf(es)
    ensures Put(es, k, v) == es + [(k, v)]
  {
    if es != [] {
      var tail := es[1..];
      assert KeysOf(es) == [es[0].0] + KeysOf(tail);
      PutFresh(tail, k, v);
      assert es + [(k, v)] == [es[0]] + (tail + [(k, v)]);
    }
  }

  /** `m[k] = v`: the key reads `v` afterwards and nothing else changes. */
  function Set(m: Attrs, k: string, v: Value): (r: Attrs)
    ensures Get(r, k) == v && Has(r, k)
    ensures forall k' {:trigger Get(r, k')} :: k' != k ==> Get(r, k') == Get(m, k')
    ensures forall k' {:trigger Has(r, k')} :: k' != k ==> (Has(r, k') <==> Has(m, k'))
    ensures Valid(m) ==> Valid(r)
  {
    SetKeysDistinct(m, k, v);
    Attrs(Put(m.entries, k, v))
  }

  /** An existing key keeps its place and a new key goes last. */
  lemma SetKeys(m: Attrs, k: string, v: Value)
    ensures Keys(Set(m, k, v)) == if Has(m, k) then Keys(m) else Keys(m) + [k]
  {
    PutKeys(m.entries, k, v);
  }

  lemma SetKeysDistinct(m: Attrs, k: string, v: Value)
    ensures Has(Attrs(Put(m.entries, k, v)), k)
    ensures forall k' :: k' != k ==> (Has(Attrs(Put(m.entries, k, v)), k') <==> Has(m, k'))
    ensures Valid(m) ==> Valid(Attrs(Put(m.entries, k, v)))
  {
    PutKeys(m.entries, k, v);
    if Valid(m) && !Has(m, k) {
      var ks := Keys(m);
      forall i, j | 0 <= i < j < |ks| + 1 ensures (ks + [k])[i] != (ks + [k])[j] {
        if j == |ks| {
          assert (ks + [k])[i] == ks[i];
        }
      }
    }
  }

  /** `ks` without every occurrence of `k`, order kept. */
  function Without(ks: seq<string>, k: string): (r: seq<string>)
    ensures forall x :: x in r <==> x in ks && x != k
  {
    if ks == [] then [] else (if ks[0] == k then [] else [ks[0]]) + Without(ks[1..], k)
  }

  lemma {:induction false} WithoutDistinct(ks: seq<string>, k: string)
    ensures Distinct(ks) ==> Distinct(Without(ks, k))
  {
    if ks != [] && Distinct(ks) {
      assert forall p, q :: 0 <= p < q < |ks| - 1 ==> ks[1..][p] == ks[p + 1] && ks[1..][q] == ks[q + 1];
      WithoutDistinct(ks[1..], k);
      assert ks[0] !in ks[1..] by {
        forall q | 0 <= q < |ks| - 1 ensures ks[1..][q] != ks[0] {
          assert ks[1..][q] == ks[q + 1];
        }
      }
    }
  }

  function Remove(es: seq<Entry>, k: string): (r: seq<Entry>)
    ensures forall k' {:trigger Lookup(r, k')} :: k' != k ==> Lookup(r, k') == Lookup(es, k')
  {
    if es == [] then []
    else
      var rest := Remove(es[1..], k);
      if es[0].0 == k then rest
      else
        var r := [es[0]] + rest;
        assert r[0] == es[0] && r[1..] == rest;
        r
  }

  lemma {:induction false} RemoveKeys(es: seq<Entry>, k: string)
    ensures KeysOf(Remove(es, k)) == Without(KeysOf(es), k)
  {
    if es != [] {
      RemoveKeys(es[1..], k);
      var r := Remove(es, k);
      assert KeysOf(es)[1..] == KeysOf(es[1..]);
      if es[0].0 != k {
        assert r[1..] == Remove(es[1..], k);
      }
    }
  }

  /** `delete m[k]`: the key is gone, the other keys keep their values. */
  function Delete(m: Attrs, k: string): (r: Attrs)
    ensures !Has(r, k) && Get(r, k) == Undefined
    ensures forall k' {:trigger Get(r, k')} :: k' != k ==> Get(r, k') == Get(m, k')
    ensures forall k' {:trigger Has(r, k')} :: k' != k ==> (Has(r, k') <==> Has(m, k'))
    ensures Valid(m) ==> Valid(r)
  {
    RemoveKeys(m.entries, k);
    WithoutDistinct(Keys(m), k);
    Attrs(Remove(m.entries, k))
  }

  /** The other keys keep their order. */
  lemma DeleteKeys(m: Attrs, k: string)
    ensures Keys(Delete(m, k)) == Without(Keys(m), k)
  {
    RemoveKeys(m.entries, k);
  }

  /** Copies the entries `es`, in order, into `t`, leaving out those whose
      value is `undefined`: the loop of `$.extend` over one source object. */
  function Assign(t: Attrs, es: seq<Entry>): (r: Attrs)
    ensures Valid(t) ==> Valid(r)
    decreases |es|
  {
    if es == [] then t
    else Assign(if es[0].1 == Undefined then t else Set(t, es[0].0, es[0].1), es[1..])
  }

  /** `$.extend({}, a, b)`. */
  function Extend(a: Attrs, b: Attrs): Attrs {
    Assign(Assign(Empty, a.entries), b.entries)
  }

  /** The value the last entry for `k` with a defined value holds, else `undefined`. */
  function LastDefined(es: seq<Entry>, k: string): (v: Value)
    ensures k !in KeysOf(es) ==> v == Undefined
  {
    if es == [] then Undefined
    else
      var later := LastDefined(es[1..], k);
      if later != Undefined then later else if es[0].0 == k then es[0].1 else Undefined
  }

  /** After copying, a key reads the last defined value copied for it, or its old value. */
  lemma {:induction false} AssignGet(t: Attrs, es: seq<Entry>, k: string)
    ensures Get(Assign(t, es), k) == if LastDefined(es, k) != Undefined then LastDefined(es, k) else Get(t, k)
    ensures Has(Assign(t, es), k) <==> Has(t, k) || LastDefined(es, k) != Undefined
    decreases |es|
  {
    if es != [] {
      AssignGet(if es[0].1 == Undefined then t else Set(t, es[0].0, es[0].1), es[1..], k);
    }
  }

  lemma {:induction false} LastDefinedLookup(es: seq<Entry>, k: string)
    requires Distinct(KeysOf(es))
    ensures LastDefined(es, k) == Lookup(es, k)
  {
    if es != [] {
      assert forall p, q :: 0 <= p < q < |es| - 1 ==> KeysOf(es[1..])[p] == KeysOf(es)[p + 1] && KeysOf(es[1..])[q] == KeysOf(es)[q + 1];
      LastDefinedLookup(es[1..], k);
      if es[0].0 == k {
        assert KeysOf(es)[0] == k;
        forall q | 0 <= q < |es| - 1 ensures KeysOf(es[1..])[q] != k {
          assert KeysOf(es[1..])[q] == es[q + 1].0 == KeysOf(es)[q + 1];
        }
      }
    }
  }

  /** `$.extend({}, a, b)` reads `b`'s value where `b` defines one, else `a`'s;
      a key is present exactly when one of them defines it. */
  lemma ExtendGet(a: Attrs, b: Attrs, k: string)
    requires Valid(a) && Valid(b)
    ensures Get(Extend(a, b), k) == if Get(b, k) != Undefined then Get(b, k) else Get(a, k)
    ensures Has(Extend(a, b), k) <==> Get(a, k) != Undefined || Get(b, k) != Undefined
  {
    AssignGet(Empty, a.entries, k);
    AssignGet(Assign(Empty, a.entries), b.entries, k);
    LastDefinedLookup(a.entries, k);
    LastDefinedLookup(b.entries, k);
  }

  /** Copying never moves a key that was already there: the old keys stay a prefix. */
  lemma {:induction false} AssignKeepsOrder(t: Attrs, es: seq<Entry>)
    ensures Keys(t) <= Keys(Assign(t, es))
    decreases |es|
  {
    if es != [] {
      var t' := if es[0].1 == Undefined then t else Set(t, es[0].0, es[0].1);
      SetKeys(t, es[0].0, es[0].1);
      AssignKeepsOrder(t', es[1..]);
    }
  }

  /** Copying entries with new, distinct keys and defined values appends them as they are. */
  lemma {:induction false} AssignFresh(t: Attrs, es: seq<Entry>)
    requires Distinct(KeysOf(es))
    requires forall i :: 0 <= i < |es| ==> es[i].0 !in Keys(t) && es[i].1 != Undefined
    ensures Assign(t, es) == Attrs(t.entries + es)
    decreases |es|
  {
    if es != [] {
      var t' := Attrs(t.entries + [es[0]]);
      FreshTail(t, es);
      AssignFresh(t', es[1..]);
      SplitFirst(t.entries, es);
    }
  }

  lemma SplitFirst(xs: seq<Entry>, es: seq<Entry>)
    requires es != []
    ensures xs + es == (xs + [es[0]]) + es[1..]
  {
    assert es == [es[0]] + es[1..];
  }

  /** One step of AssignFresh: after copying the first entry, the rest are still fresh. */
  lemma FreshTail(t: Attrs, es: seq<Entry>)
    requires es != [] && Distinct(KeysOf(es))
    requires forall i :: 0 <= i < |es| ==> es[i].0 !in Keys(t) && es[i].1 != Undefined
    ensures Assign(t, es) == Assign(Attrs(t.entries + [es[0]]), es[1..])
    ensures Distinct(KeysOf(es[1..]))
    ensures forall i :: 0 <= i < |es[1..]| ==> es[1..][i].0 !in Keys(Attrs(t.entries + [es[0]])) && es[1..][i].1 != Undefined
  {
    var e, rest := es[0], es[1..];
    assert KeysOf(es) == [e.0] + KeysOf(rest);
    PutFresh(t.entries, e.0, e.1);
    KeysOfSnoc(t.entries, e);
    forall i | 0 <= i < |rest|
      ensures rest[i].0 !in Keys(Attrs(t.entries + [e])) && rest[i].1 != Undefined
    {
      assert rest[i] == es[i + 1];
      assert KeysOf(es)[0] != KeysOf(es)[i + 1];
    }
    forall p, q | 0 <= p < q < |rest| ensures KeysOf(rest)[p] != KeysOf(rest)[q] {
      assert KeysOf(rest)[p] == KeysOf(es)[p + 1] && KeysOf(rest)[q] == KeysOf(es)[q + 1];
    }
  }

  lemma KeysOfSnoc(es: seq<Entry>, e: Entry)
    ensures KeysOf(es + [e]) == KeysOf(es) + [e.0]
  {
    var ks := KeysOf(es + [e]);
    assert |ks| == |KeysOf(es) + [e.0]|;
    forall i | 0 <= i < |ks| ensures ks[i] == (KeysOf(es) + [e.0])[i] {
      if i < |es| {
        assert (es + [e])[i] == es[i];
      }
    }
  }

  /** The keys `es` gives a defined value, each once, in the order of its
      first defined entry, leaving out those already in `seen`. */
  function FirstDefinedKeys(seen: seq<string>, es: seq<Entry>): seq<string>
    decreases |es|
  {
    if es == [] then []
    else if es[0].1 != Undefined && es[0].0 !in seen then [es[0].0] + FirstDefinedKeys(seen + [es[0].0], es[1..])
    else FirstDefinedKeys(seen, es[1..])
  }

  /** The keys of `es` whose value is defined, in order. */
  function DefinedKeys(es: seq<Entry>): seq<string> {
    if es == [] then [] else (if es[0].1 != Undefined then [es[0].0] else []) + DefinedKeys(es[1..])
  }

  /** A key is new exactly when `es` defines it and it is not among `seen`. */
  lemma {:induction false} FirstDefinedKeysMember(seen: seq<string>, es: seq<Entry>, k: string)
    ensures k in FirstDefinedKeys(seen, es) <==> k !in seen && exists i :: 0 <= i < |es| && es[i].0 == k && es[i].1 != Undefined
    decreases |es|
  {
    if es != [] {
      var seen' := if es[0].1 != Undefined && es[0].0 !in seen then seen + [es[0].0] else seen;
      FirstDefinedKeysMember(seen', es[1..], k);
      if exists i :: 0 <= i < |es| && es[i].0 == k && es[i].1 != Undefined {
        var i :| 0 <= i < |es| && es[i].0 == k && es[i].1 != Undefined;
        if i > 0 {
          assert es[1..][i - 1] == es[i];
        }
      }
      if exists i :: 0 <= i < |es[1..]| && es[1..][i].0 == k && es[1..][i].1 != Undefined {
        var i :| 0 <= i < |es[1..]| && es[1..][i].0 == k && es[1..][i].1 != Undefined;
        assert es[i + 1] == es[1..][i];
      }
    }
  }

  /** With keys that are new and distinct, the new keys are all the defined keys. */
  lemma {:induction false} FirstDefinedKeysFresh(seen: seq<string>, es: seq<Entry>)
    requires Distinct(KeysOf(es))
    requires forall i :: 0 <= i < |es| ==> es[i].0 !in seen
    ensures FirstDefinedKeys(seen, es) == DefinedKeys(es)
    decreases |es|
  {
    if es != [] {
      var seen' := if es[0].1 != Undefined then seen + [es[0].0] else seen;
      forall p, q | 0 <= p < q < |es| - 1 ensures KeysOf(es[1..])[p] != KeysOf(es[1..])[q] {
        assert KeysOf(es[1..])[p] == KeysOf(es)[p + 1] && KeysOf(es[1..])[q] == KeysOf(es)[q + 1];
      }
      forall i | 0 <= i < |es| - 1 ensures es[1..][i].0 !in seen' {
        assert es[1..][i] == es[i + 1];
        assert KeysOf(es)[0] != KeysOf(es)[i + 1];
      }
      FirstDefinedKeysFresh(seen', es[1..]);
    }
  }

  /** Copying keeps the old keys where they were and appends the new keys
      in the order of their first defined entry. */
  lemma {:induction false} AssignKeys(t: Attrs, es: seq<Entry>)
    ensures Keys(Assign(t, es)) == Keys(t) + FirstDefinedKeys(Keys(t), es)
    decreases |es|
  {
    if es != [] {
      var t' := if es[0].1 == Undefined then t else Set(t, es[0].0, es[0].1);
      SetKeys(t, es[0].0, es[0].1);
      AssignKeys(t', es[1..]);
      if es[0].1 != Undefined && es[0].0 !in Keys(t) {
        assert Keys(t) + [es[0].0] + FirstDefinedKeys(Keys(t) + [es[0].0], es[1..])
               == Keys(t) + ([es[0].0] + FirstDefinedKeys(Keys(t) + [es[0].0], es[1..]));
      }
    }
  }

  /** `$.extend({}, a, b)`: `a`'s keys with a defined value come first, in
      `a`'s order, then the keys `b` adds, in `b`'s order. An `undefined`
      value of `a` leaves no key. */
  lemma {:induction false} ExtendKeepsOrder(a: Attrs, b: Attrs)
    requires Valid(a)
    ensures Keys(Extend(a, b)) == DefinedKeys(a.entries) + FirstDefinedKeys(DefinedKeys(a.entries), b.entries)
  {
    var c := Assign(Empty, a.entries);
    AssignKeys(Empty, a.entries);
    FirstDefinedKeysFresh([], a.entries);
    assert Keys(Empty) == [];
    assert Keys(c) == DefinedKeys(a.entries);
    AssignKeys(c, b.entries);
  }
}
