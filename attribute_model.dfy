/** The attribute helpers of form-render.js: `parseAttrs` builds an attribute
    object from a node's (nodeName, nodeValue) pairs, `safeAttr` renames and
    encodes one attribute, and `attrString` writes a whole object out. */
module AttributeModel {
  import opened JsValue
  import opened JsonQuote
  import opened OrderedAttrs

  /** An attribute node of the parsed schema: (nodeName, nodeValue). */
  type AttrNode = (string, string)

  /** `safeAttr(name, value)`: the name after the rename table (`className`
      becomes `class`) and the value part, which is empty for a falsy value
      and otherwise `=` followed by the JSON-quoted text, from which the text
      can be read back. */
  function SafeAttr(name: string, value: Value): (r: (string, string))
    ensures r.0 == "class" <==> name == "className" || name == "class"
    ensures name != "className" ==> r.0 == name
    ensures r.1 == "" <==> !Truthy(value)
    ensures Truthy(value) ==> r.1[0] == '=' && Unquote(r.1[1..]) == Some(value.s)
  {
    var renamed := if name == "className" then "class" else name;
    if Truthy(value) then
      UnquoteQuote(value.s);
      var q := Quote(value.s);
      assert ("=" + q)[1..] == q;
      (renamed, "=" + q)
    else (renamed, "")
  }

  /** The text `attrString` pushes for one attribute: `name + value` of `safeAttr`. */
  function Fragment(e: Entry): string {
    var safe := SafeAttr(e.0, e.1);
    safe.0 + safe.1
  }

  /** The fragments of an attribute object: one per own key, in iteration order. */
  function Fragments(m: Attrs): (fs: seq<string>)
    ensures |fs| == |Keys(m)|
    ensures forall i :: 0 <= i < |fs| ==> fs[i] == Fragment(m.entries[i])
  {
    seq(|m.entries|, i requires 0 <= i < |m.entries| => Fragment(m.entries[i]))
  }

  /** The string `attrString` returns: the fragments joined by single spaces. */
  function Serialize(m: Attrs): string {
    Join(Fragments(m), " ")
  }

  /** `_helpers.attrString`: pushes one fragment per own key, then joins them with `' '`. */
  method AttrString(attrs: Attrs) returns (s: string)
    ensures s == Serialize(attrs)
  {
    var attributes: seq<string> := [];
    var i := 0;
    while i < |attrs.entries|
      invariant 0 <= i <= |attrs.entries|
      invariant |attributes| == i
      invariant forall j :: 0 <= j < i ==> attributes[j] == Fragment(attrs.entries[j])
    {
      var attr := SafeAttr(attrs.entries[i].0, attrs.entries[i].1);
      attributes := attributes + [attr.0 + attr.1];
      i := i + 1;
    }
    assert attributes == Fragments(attrs);
    s := Join(attributes, " ");
  }

  /** An object with one key serialises to that key's fragment alone. */
  lemma SerializeSingle(k: string, v: Value)
    ensures Serialize(Attrs([(k, v)])) == Fragment((k, v))
  {
    assert Fragments(Attrs([(k, v)])) == [Fragment((k, v))];
  }

  /** A truthy value is written as `name="…"`, `className` as `class`. */
  lemma FragmentTruthy(k: string, s: string)
    requires s != ""
    ensures Fragment((k, Str(s))) == (if k == "className" then "class" else k) + "=" + Quote(s)
  {
  }

  /** An empty object serialises to the empty string, and adding a new key
      appends its fragment after a single space (or alone, to an empty object). */
  lemma SerializeSetNew(m: Attrs, k: string, v: Value)
    requires !Has(m, k)
    ensures Serialize(Empty) == ""
    ensures Serialize(Set(m, k, v)) == if m.entries == [] then Fragment((k, v)) else Serialize(m) + " " + Fragment((k, v))
  {
    PutFresh(m.entries, k, v);
    FragmentsSnoc(m, (k, v));
    JoinSnoc(Fragments(m), Fragment((k, v)), " ");
  }

  lemma FragmentsSnoc(m: Attrs, e: Entry)
    ensures Fragments(Attrs(m.entries + [e])) == Fragments(m) + [Fragment(e)]
  {
    var fs, fm := Fragments(Attrs(m.entries + [e])), Fragments(m);
    assert |fs| == |fm| + 1;
    forall i | 0 <= i < |fs| ensures fs[i] == (fm + [Fragment(e)])[i] {
      if i < |fm| {
        assert (m.entries + [e])[i] == m.entries[i];
      }
    }
  }

  /** Assigning to a key that is already there rewrites its fragment in place. */
  lemma SerializeSetExisting(m: Attrs, i: nat, v: Value)
    requires Valid(m) && i < |m.entries|
    ensures Fragments(Set(m, m.entries[i].0, v)) == Fragments(m)[i := Fragment((m.entries[i].0, v))]
  {
    var k := m.entries[i].0;
    var r := Set(m, k, v);
    assert Keys(m)[i] == k;
    SetKeys(m, k, v);
    forall j | 0 <= j < |r.entries| ensures r.entries[j] == m.entries[i := (k, v)][j] {
      assert r.entries[j].0 == Keys(r)[j] == Keys(m)[j];
      LookupAt(r.entries, j);
      LookupAt(m.entries, j);
      if j != i {
        assert Keys(m)[j] != k;
      }
    }
    assert r.entries == m.entries[i := (k, v)];
  }

  /** The `i`-th fragment is the `i`-th key, renamed, followed by the value
      the object holds for that key, encoded: the string lists the keys in
      iteration order with their current values. */
  lemma FragmentsByKey(m: Attrs)
    requires Valid(m)
    ensures |Fragments(m)| == |Keys(m)|
    ensures forall i :: 0 <= i < |Keys(m)| ==>
              Fragments(m)[i] == SafeAttr(Keys(m)[i], Get(m, Keys(m)[i])).0 + SafeAttr(Keys(m)[i], Get(m, Keys(m)[i])).1
  {
    forall i | 0 <= i < |Keys(m)|
      ensures Fragments(m)[i] == SafeAttr(Keys(m)[i], Get(m, Keys(m)[i])).0 + SafeAttr(Keys(m)[i], Get(m, Keys(m)[i])).1
    {
      LookupAt(m.entries, i);
    }
  }

  /** Every own key shows up in the output as its renamed name and encoded
      value: a key holding `null`, `undefined` or `''` as the bare name. */
  lemma FragmentOfKey(m: Attrs, k: string)
    requires Valid(m) && Has(m, k)
    ensures SafeAttr(k, Get(m, k)).0 + SafeAttr(k, Get(m, k)).1 in Fragments(m)
    ensures !Truthy(Get(m, k)) ==> SafeAttr(k, Get(m, k)).0 in Fragments(m)
  {
    var i :| 0 <= i < |Keys(m)| && Keys(m)[i] == k;
    LookupAt(m.entries, i);
    assert Fragments(m)[i] == Fragment(m.entries[i]);
    assert !Truthy(Get(m, k)) ==> Fragment(m.entries[i]) == SafeAttr(k, Get(m, k)).0;
  }

  function AsEntries(nodes: seq<AttrNode>): (es: seq<Entry>)
    ensures |es| == |nodes|
    ensures forall i :: 0 <= i < |nodes| ==> es[i] == (nodes[i].0, Str(nodes[i].1))
  {
    seq(|nodes|, i requires 0 <= i < |nodes| => (nodes[i].0, Str(nodes[i].1)))
  }

  /** The object `parseAttrs` returns for a node's attribute list. */
  function Collect(nodes: seq<AttrNode>): Attrs {
    Assign(Empty, AsEntries(nodes))
  }

  /** `_helpers.parseAttrs`: assigns every (nodeName, nodeValue) pair, in order, to a fresh object. */
  method ParseAttrs(attrNodes: seq<AttrNode>) returns (fieldAttrs: Attrs)
    ensures fieldAttrs == Collect(attrNodes)
  {
    fieldAttrs := Empty;
    var i := 0;
    while i < |attrNodes|
      invariant 0 <= i <= |attrNodes|
      invariant Assign(fieldAttrs, AsEntries(attrNodes)[i..]) == Collect(attrNodes)
    {
      assert AsEntries(attrNodes)[i..][1..] == AsEntries(attrNodes)[i + 1..];
      fieldAttrs := Set(fieldAttrs, attrNodes[i].0, Str(attrNodes[i].1));
      i := i + 1;
    }
  }

  /** The parsed object has distinct keys; it has exactly the attribute names
      of the node, and each reads the text of the last attribute so named. */
  lemma CollectGet(nodes: seq<AttrNode>, k: string)
    ensures Valid(Collect(nodes))
    ensures Has(Collect(nodes), k) <==> exists i :: 0 <= i < |nodes| && nodes[i].0 == k
    ensures forall i :: (0 <= i < |nodes| && nodes[i].0 == k && forall j :: i < j < |nodes| ==> nodes[j].0 != k)
                          ==> Get(Collect(nodes), k) == Str(nodes[i].1)
  {
    AssignGet(Empty, AsEntries(nodes), k);
    LastDefinedOfNodes(nodes, k);
  }

  lemma {:induction false} LastDefinedOfNodes(nodes: seq<AttrNode>, k: string)
    ensures LastDefined(AsEntries(nodes), k) != Undefined <==> exists i :: 0 <= i < |nodes| && nodes[i].0 == k
    ensures forall i :: (0 <= i < |nodes| && nodes[i].0 == k && forall j :: i < j < |nodes| ==> nodes[j].0 != k)
                          ==> LastDefined(AsEntries(nodes), k) == Str(nodes[i].1)
  {
    if nodes != [] {
      var es := AsEntries(nodes);
      assert es[1..] == AsEntries(nodes[1..]);
      LastDefinedOfNodes(nodes[1..], k);
      forall i | 1 <= i < |nodes| ensures nodes[1..][i - 1] == nodes[i] { }
      if exists i :: 0 <= i < |nodes| && nodes[i].0 == k {
        var i :| 0 <= i < |nodes| && nodes[i].0 == k;
        if 0 < i {
          assert nodes[1..][i - 1].0 == k;
        }
      }
    }
  }

  /** With distinct attribute names nothing is renamed, dropped or reordered:
      the object holds the pairs verbatim, in document order. */
  lemma CollectVerbatim(nodes: seq<AttrNode>)
    requires forall i, j :: 0 <= i < j < |nodes| ==> nodes[i].0 != nodes[j].0
    ensures Collect(nodes).entries == AsEntries(nodes)
  {
    var es := AsEntries(nodes);
    forall i, j | 0 <= i < j < |es| ensures KeysOf(es)[i] != KeysOf(es)[j] {
      assert KeysOf(es)[i] == es[i].0 == nodes[i].0;
      assert KeysOf(es)[j] == es[j].0 == nodes[j].0;
    }
    AssignFresh(Empty, es);
  }
}
