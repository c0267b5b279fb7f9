/** What `fieldRender` promises about the markup of one field, stated over the
    functional model RenderField and its pieces. */
module FieldProperties {
  import opened JsValue
  import opened JsonQuote
  import opened OrderedAttrs
  import opened AttributeModel
  import opened MarkupComposer
  import opened FieldRenderer

  /** The wrapper `div` of a visible field: its one attribute is `class`,
      quoted, naming the field by its `name` (the `id` it was given). */
  lemma {:induction false} WrappedField(f: Field, cfg: Config)
    requires !IsHidden(f)
    ensures RenderField(f, cfg).markup
            == "<div class=" + Quote("form-group field-" + Interp(Get(Collect(f.attrs), "name"))) + ">" + Body(f, cfg) + "</div>"
  {
    RenderFieldIs(f, cfg);
    WrapperClassIs(f);
    WrapperMarkup(WrapperClass(f), Body(f, cfg));
  }

  /** The wrapper `div` with class `w` around `b`. */
  lemma WrapperMarkup(w: string, b: string)
    requires w != ""
    ensures Markup("div", Attrs([("className", Str(w))]), Text(b)) == "<div class=" + Quote(w) + ">" + b + "</div>"
  {
    MarkupDiv(Attrs([("className", Str(w))]), b);
    SerializeSingle("className", Str(w));
    FragmentTruthy("className", w);
  }

  /** A hidden field is a bare `input` carrying its attributes: no label, no
      wrapper, no toggle. */
  lemma {:induction false} HiddenField(f: Field, cfg: Config)
    requires IsHidden(f)
    ensures RenderField(f, cfg) == FieldOutput(" <input " + Serialize(Emitted(f)) + ">", None)
  {
    EmittedFacts(f);
    RenderFieldIs(f, cfg);
    HiddenNoLabel(f);
    BodyIs(f, cfg);
    SwitchTextLike(Emitted(f), "", Get(Decorated(f), "label"), f.options, cfg.selectColor);
    NoLabelInput(Serialize(Emitted(f)));
  }

  lemma NoLabelInput(a: string)
    ensures "" + " <input " + a + ">" == " <input " + a + ">"
  {
  }

  /** A truthy `required` stays as a bare `required` next to
      `aria-required="true"`, and the label of a visible field carries the
      required marker. */
  lemma {:induction false} RequiredAttributes(f: Field)
    requires Truthy(Get(Collect(f.attrs), "required"))
    ensures Get(Emitted(f), "required") == Null && "required" in Fragments(Emitted(f))
    ensures Get(Emitted(f), "aria-required") == Str("true") && "aria-required=\"true\"" in Fragments(Emitted(f))
    ensures !IsHidden(f) ==> Contains(FieldLabel(f), RequiredMarker)
  {
    var e := Emitted(f);
    FragmentOfKey(e, "required");
    FragmentOfKey(e, "aria-required");
    AriaRequiredFragment();
    if !IsHidden(f) {
      assert Get(Decorated(f), "type") == TypeOf(f);
      LabelHasSpan(Decorated(f), RequiredMarker, DescText(f));
    }
  }

  lemma AriaRequiredFragment()
    ensures Fragment(("aria-required", Str("true"))) == "aria-required=\"true\""
  {
    QuotePlain("true");
  }

  /** Without a truthy `required` neither `required` nor `aria-required` is
      touched and the label has no marker. */
  lemma {:induction false} OptionalAttributes(f: Field)
    requires !Truthy(Get(Collect(f.attrs), "required"))
    ensures Get(Emitted(f), "required") == Get(Collect(f.attrs), "required")
    ensures Get(Emitted(f), "aria-required") == Get(Collect(f.attrs), "aria-required")
    ensures RequiredSpan(f) == ""
  {
    assert "required" != "id" && "aria-required" != "id";
  }

  /** The key order of the decorated attributes: the parsed keys in
      document order, then `id` unless the field already had one, then
      `aria-required` for a truthy `required` unless it was already there. */
  lemma {:induction false} DecoratedKeys(f: Field)
    ensures var parsed := Keys(Collect(f.attrs));
      var withId := if "id" in parsed then parsed else parsed + ["id"];
      Keys(Decorated(f))
      == if Truthy(Get(Collect(f.attrs), "required")) && "aria-required" !in withId then withId + ["aria-required"] else withId
  {
    var p := Collect(f.attrs);
    var withId := Set(p, "id", Get(p, "name"));
    SetKeys(p, "id", Get(p, "name"));
    if Truthy(Get(withId, "required")) {
      var r := Set(withId, "required", Null);
      SetKeys(withId, "required", Null);
      SetKeys(r, "aria-required", Str("true"));
      assert Has(r, "aria-required") <==> Has(withId, "aria-required") by {
        assert "aria-required" != "required";
      }
    }
    assert Get(withId, "required") == Get(p, "required") by { assert "required" != "id"; }
  }

  /** The emitted attributes keep the decorated key order, without `label`
      and `description`: this is the order of the attribute string. */
  lemma EmittedKeys(f: Field)
    ensures Keys(Emitted(f)) == Without(Without(Keys(Decorated(f)), "label"), "description")
  {
    DeleteKeys(Decorated(f), "label");
    DeleteKeys(Delete(Decorated(f), "label"), "description");
  }

  /** The toggle switch is scheduled exactly for a checkbox whose `toggle`
      attribute is truthy, on the element whose id is the field's `name`. */
  lemma {:induction false} CheckboxToggle(f: Field, cfg: Config)
    ensures RenderField(f, cfg).toggle
            == if TypeOf(f) == Str("checkbox") && Truthy(Get(Collect(f.attrs), "toggle"))
               then Some(Interp(Get(Collect(f.attrs), "name"))) else None
  {
    EmittedFacts(f);
    assert Get(Emitted(f), "toggle") == Get(Collect(f.attrs), "toggle") by {
      assert "toggle" != "id" && "toggle" != "required" && "toggle" != "aria-required";
      assert "toggle" != "label" && "toggle" != "description";
    }
  }

  /** A `textarea` or `rich-text` field writes the attribute string taken
      before `type` and `value` were deleted: both still appear in it. */
  lemma {:induction false} TextareaKeepsTypeAndValue(f: Field, cfg: Config)
    requires TypeOf(f) == Str("textarea") || TypeOf(f) == Str("rich-text")
    ensures Body(f, cfg) == FieldLabel(f) + "<textarea " + Serialize(Emitted(f)) + "></textarea>"
    ensures Fragment(("type", TypeOf(f))) in Fragments(Emitted(f))
    ensures Has(Collect(f.attrs), "value") ==> Fragment(("value", Get(Collect(f.attrs), "value"))) in Fragments(Emitted(f))
  {
    EmittedFacts(f);
    BodyIs(f, cfg);
    SwitchTextarea(Emitted(f), FieldLabel(f), Get(Decorated(f), "label"), f.options, cfg.selectColor);
    var e := Emitted(f);
    assert Has(e, "type") by { assert "type" != "id" && "type" != "required" && "type" != "aria-required"; }
    FragmentOfKey(e, "type");
    if Has(Collect(f.attrs), "value") {
      assert Has(e, "value") && Get(e, "value") == Get(Collect(f.attrs), "value") by {
        assert "value" != "id" && "value" != "required" && "value" != "aria-required";
        assert "value" != "label" && "value" != "description";
      }
      FragmentOfKey(e, "value");
    }
  }

  /** The text-like types write an `input` that is not self-closed, after the label. */
  lemma {:induction false} TextLikeInput(f: Field, cfg: Config)
    requires IsTextLike(TypeOf(f))
    ensures Body(f, cfg) == FieldLabel(f) + " <input " + Serialize(Emitted(f)) + ">"
  {
    EmittedFacts(f);
    BodyIs(f, cfg);
    SwitchTextLike(Emitted(f), FieldLabel(f), Get(Decorated(f), "label"), f.options, cfg.selectColor);
  }

  /** An unknown type `t` becomes an empty `<t></t>` element, whatever the
      field's other attributes are; it is wrapped and schedules no toggle. */
  lemma {:induction false} UnknownType(f: Field, cfg: Config)
    requires !IsKnownType(TypeOf(f))
    ensures var t := Interp(TypeOf(f));
      Body(f, cfg) == "<" + t + "></" + t + ">"
    ensures !IsHidden(f) && RenderField(f, cfg).toggle == None
  {
    EmittedFacts(f);
    RenderFieldIs(f, cfg);
    BodyIs(f, cfg);
    SwitchUnknown(Emitted(f), FieldLabel(f), Get(Decorated(f), "label"), f.options, cfg.selectColor);
  }

  /** The attributes a group's options inherit: the decorated attributes
      without `label`, `description` and `className`, with `checkbox` or
      `radio` as the type. */
  lemma {:induction false} GroupInherits(f: Field, k: string)
    requires TypeOf(f) == Str("checkbox-group") || TypeOf(f) == Str("radio-group")
    ensures Valid(GroupOf(Emitted(f)))
    ensures Get(GroupOf(Emitted(f)), k)
            == if k == "type" then Str(GroupBase(TypeOf(f)))
               else if k == "className" || k == "label" || k == "description" then Undefined
               else Get(Decorated(f), k)
  {
    EmittedFacts(f);
  }

  /** The option inputs of a checkbox group share the name `name[]`, those of
      a radio group the name `name`. */
  lemma {:induction false} GroupOptionName(f: Field)
    requires TypeOf(f) == Str("checkbox-group") || TypeOf(f) == Str("radio-group")
    ensures OptionName(GroupOf(Emitted(f)))
            == if TypeOf(f) == Str("checkbox-group") then Str(Interp(Get(Collect(f.attrs), "name")) + "[]")
               else Get(Collect(f.attrs), "name")
  {
    GroupInherits(f, "type");
    GroupInherits(f, "name");
    assert "name" != "id" && "name" != "required" && "name" != "aria-required";
  }

  /** Every attribute of option `index`: its own `id` and the shared name,
      a bare `checked` in place of a truthy `selected`, which is removed, and
      otherwise the option's own value where it has one and the inherited
      one elsewhere. A key is present exactly when one of these gives it. */
  lemma {:induction false} OptionAttributes(g: Attrs, opt: OptionNode, index: nat, k: string)
    requires Valid(g)
    ensures var own := Collect(opt.attrs);
      var selected := if Get(own, "selected") != Undefined then Get(own, "selected") else Get(g, "selected");
      Get(OptionAttrs(g, opt, index), k)
      == if k == "id" then Str(OptionId(g, index))
         else if k == "name" then OptionName(g)
         else if k == "checked" && Truthy(selected) then Null
         else if k == "selected" && Truthy(selected) then Undefined
         else if Get(own, k) != Undefined then Get(own, k) else Get(g, k)
    ensures var own := Collect(opt.attrs);
      var selected := if Get(own, "selected") != Undefined then Get(own, "selected") else Get(g, "selected");
      Has(OptionAttrs(g, opt, index), k)
      <==> k == "id" || k == "name" || (k == "checked" && Truthy(selected))
           || (!(k == "selected" && Truthy(selected)) && (Get(own, k) != Undefined || Get(g, k) != Undefined))
  {
    var own := Collect(opt.attrs);
    CollectGet(opt.attrs, k);
    CollectGet(opt.attrs, "selected");
    ExtendGet(g, own, k);
    ExtendGet(g, own, "selected");
  }

  /** Different options of a group get different ids. */
  lemma {:induction false} OptionIdsDistinct(g: Attrs, i: nat, j: nat)
    requires i != j
    ensures OptionId(g, i) != OptionId(g, j)
  {
    var p := Interp(Get(g, "id")) + "-";
    if OptionId(g, i) == OptionId(g, j) {
      assert OptionId(g, i) == p + NatToString(i) && OptionId(g, j) == p + NatToString(j);
      assert (p + NatToString(i))[|p|..] == NatToString(i);
      assert (p + NatToString(j))[|p|..] == NatToString(j);
      NatToStringInjective(i, j);
    }
  }

  /** `item(xs[i], start + i)` for each `i`: the items of a numbered run. */
  function Numbered<T>(item: (T, nat) -> string, xs: seq<T>, start: nat): (items: seq<string>)
    ensures |items| == |xs|
  {
    seq(|xs|, i requires 0 <= i < |xs| => item(xs[i], start + i))
  }

  lemma NumberedSnoc<T>(item: (T, nat) -> string, xs: seq<T>, x: T, start: nat)
    ensures Numbered(item, xs + [x], start) == Numbered(item, xs, start) + [item(x, start + |xs|)]
  {
  }

  /** The inputs of the options `opts`, the first one numbered `start`. */
  function GroupItems(g: Attrs, opts: seq<OptionNode>, start: nat): (items: seq<string>)
    ensures |items| == |opts|
  {
    Numbered(ItemOf(g), opts, start)
  }

  /** The concatenation of a numbered run split after `|a|` items: the
      items of `b` are numbered on from `|a|`. */
  lemma {:induction false} NumberedConcatAppend<T>(item: (T, nat) -> string, a: seq<T>, b: seq<T>)
    ensures NumberedConcat(item, a + b) == NumberedConcat(item, a) + Join(Numbered(item, b, |a|), "")
    decreases |b|
  {
    if b == [] {
      assert a + b == a;
    } else {
      var init, last := b[..|b| - 1], b[|b| - 1];
      assert (a + b)[..|a + b| - 1] == a + init;
      assert (a + b)[|a + b| - 1] == last;
      assert b == init + [last];
      NumberedConcatAppend(item, a, init);
      NumberedSnoc(item, init, last, |a|);
      JoinEmptySnoc(Numbered(item, init, |a|), item(last, |a| + |init|));
    }
  }

  /** A group's inputs are its options' inputs in document order: the
      options after the first `|a|` are numbered on from `|a|`. */
  lemma GroupOptionsAppend(g: Attrs, a: seq<OptionNode>, b: seq<OptionNode>)
    ensures GroupOptions(g, a + b) == GroupOptions(g, a) + Join(GroupItems(g, b, |a|), "")
  {
    NumberedConcatAppend(ItemOf(g), a, b);
  }

  /** The group markup is the inputs of its options joined in document
      order, option `i` numbered `i`. */
  lemma GroupOptionsInOrder(g: Attrs, opts: seq<OptionNode>)
    ensures GroupOptions(g, opts) == Join(GroupItems(g, opts, 0), "")
  {
    GroupOptionsAppend(g, [], opts);
    assert [] + opts == opts;
  }

  /** A select's options are written in document order: the markup of a
      concatenation is the concatenation of the markups. */
  lemma {:induction false} SelectOptionsAppend(a: seq<OptionNode>, b: seq<OptionNode>)
    ensures SelectOptions(a + b) == SelectOptions(a) + SelectOptions(b)
    decreases |b|
  {
    if b == [] {
      assert a + b == a;
    } else {
      var init, last := b[..|b| - 1], b[|b| - 1];
      assert (a + b)[..|a + b| - 1] == a + init;
      assert (a + b)[|a + b| - 1] == last;
      SelectOptionsAppend(a, init);
      calc {
        SelectOptions(a + b);
        SelectOptions(a + init) + SelectItem(last);
        (SelectOptions(a) + SelectOptions(init)) + SelectItem(last);
        { AppendAssoc(SelectOptions(a), SelectOptions(init), SelectItem(last)); }
        SelectOptions(a) + (SelectOptions(init) + SelectItem(last));
      }
    }
  }

  lemma AppendAssoc(x: string, y: string, z: string)
    ensures (x + y) + z == x + (y + z)
  {
  }
}
