/** `_helpers.fieldRender`: the markup of one schema field, chosen by its `type`. */
module FieldRenderer {
  import opened JsValue
  import opened JsonQuote
  import opened OrderedAttrs
  import opened AttributeModel
  import opened MarkupComposer

  /** An `option` child of a field: its attributes and its text, already
      taken from the node. */
  datatype OptionNode = OptionNode(attrs: seq<AttrNode>, text: string)

  /** A `field` node: its attributes in document order and its `option` children. */
  datatype Field = Field(attrs: seq<AttrNode>, options: seq<OptionNode>)

  /** The texts of `opts.label`. */
  datatype Config = Config(selectColor: string, noFormData: string, formRendered: string)

  /** The markup of a field, and the id of the element whose toggle switch is
      switched on afterwards by the deferred `kcToggle` call, if any. */
  datatype FieldOutput = FieldOutput(markup: string, toggle: Option<string>)

  const RequiredMarker: string := "<span class=\"required\">*</span>"

  function Tooltip(desc: string): string {
    "<span class=\"tooltip-element\" tooltip=\"" + desc + "\">?</span>"
  }

  /** `s` holds `sub` somewhere. */
  predicate Contains(s: string, sub: string) {
    exists i :: 0 <= i <= |s| && sub <= s[i..]
  }

  /** The field's `type` attribute, as the `switch` reads it. */
  function TypeOf(f: Field): Value {
    Get(Collect(f.attrs), "type")
  }

  predicate IsHidden(f: Field) {
    TypeOf(f) == Str("hidden")
  }

  /** The type-dispatch cases that emit a bare `input`. */
  predicate IsTextLike(t: Value) {
    t == Str("text") || t == Str("password") || t == Str("email") || t == Str("file")
    || t == Str("hidden") || t == Str("date") || t == Str("autocomplete")
  }

  /** The types the `switch` has a case for. */
  predicate IsKnownType(t: Value) {
    t == Str("textarea") || t == Str("rich-text") || t == Str("select")
    || t == Str("checkbox-group") || t == Str("radio-group") || IsTextLike(t)
    || t == Str("color") || t == Str("button") || t == Str("submit") || t == Str("checkbox")
  }

  /** The field's attributes once `id` and `required` are dealt with: `id`
      always takes the value of `name` (`undefined` when there is none), and a
      truthy `required` is set to `null`, not deleted, next to a new
      `aria-required` of `"true"`. Every other attribute is as parsed. */
  function Decorated(f: Field): (d: Attrs)
    ensures Valid(d)
    ensures Has(d, "id") && Get(d, "id") == Get(Collect(f.attrs), "name")
    ensures Truthy(Get(Collect(f.attrs), "required")) ==>
              Has(d, "required") && Get(d, "required") == Null && Get(d, "aria-required") == Str("true")
    ensures !Truthy(Get(Collect(f.attrs), "required")) ==> d == Set(Collect(f.attrs), "id", Get(Collect(f.attrs), "name"))
    ensures forall k {:trigger Get(d, k)} :: k != "id" && k != "required" && k != "aria-required" ==> Get(d, k) == Get(Collect(f.attrs), k)
  {
    var parsed := Collect(f.attrs);
    var withId := Set(parsed, "id", Get(parsed, "name"));
    if Truthy(Get(withId, "required")) then Set(Set(withId, "required", Null), "aria-required", Str("true"))
    else withId
  }

  /** The required marker of the label: only a truthy `required` has one. */
  function RequiredSpan(f: Field): string {
    if Truthy(Get(Collect(f.attrs), "required")) then RequiredMarker else ""
  }

  /** `fieldAttrs.description || ''`, read before anything else changes. */
  function DescText(f: Field): string {
    var desc := Get(Collect(f.attrs), "description");
    if Truthy(desc) then desc.s else ""
  }

  /** The label built from the decorated attributes `d`, the required marker
      and the description text: none when `d`'s type is `hidden`, otherwise
      the label text, the marker and the description tooltip (when there is
      a description) for `d`'s `id`. */
  function LabelOf(d: Attrs, requiredSpan: string, desc: string): string {
    if Get(d, "type") == Str("hidden") then ""
    else
      var labelText := if Truthy(Get(d, "label")) then Get(d, "label").s else "";
      var tooltip := if desc != "" then Tooltip(desc) else "";
      "<label for=\"" + Interp(Get(d, "id")) + "\">" + labelText + " " + requiredSpan + " " + tooltip + "</label>"
  }

  /** The label markup of `fieldRender`. */
  function FieldLabel(f: Field): string {
    LabelOf(Decorated(f), RequiredSpan(f), DescText(f))
  }

  /** The attributes written on the field's element: those of Decorated
      without `label` and `description`, the rest in the same order. */
  function Emitted(f: Field): (e: Attrs)
    ensures Valid(e)
    ensures !Has(e, "label") && !Has(e, "description")
    ensures forall k {:trigger Get(e, k)} :: k != "label" && k != "description" ==> Get(e, k) == Get(Decorated(f), k)
    ensures forall k {:trigger Has(e, k)} :: k != "label" && k != "description" ==> (Has(e, k) <==> Has(Decorated(f), k))
  {
    Delete(Delete(Decorated(f), "label"), "description")
  }

  /** `type.replace('-group', '')` for the two group types. */
  function GroupBase(t: Value): string {
    if t == Str("checkbox-group") then "checkbox" else "radio"
  }

  /** The attribute object as the group options inherit it: the type
      without `-group`, and no `className`. */
  function GroupOf(a: Attrs): Attrs {
    Delete(Set(a, "type", Str(GroupBase(Get(a, "type")))), "className")
  }

  /** The `name` every option input gets: `name[]` for checkboxes, `name` for radios. */
  function OptionName(g: Attrs): Value {
    if Get(g, "type") == Str("checkbox") then Str(Interp(Get(g, "name")) + "[]") else Get(g, "name")
  }

  function OptionId(g: Attrs, index: nat): string {
    Interp(Get(g, "id")) + "-" + NatToString(index)
  }

  /** The attributes of group option `index`: the group's attributes
      overridden by the option's own, a truthy `selected` turned into a bare
      `checked`, then the shared name and the option's own id. */
  function OptionAttrs(g: Attrs, opt: OptionNode, index: nat): Attrs {
    var merged := Extend(g, Collect(opt.attrs));
    var checked := if Truthy(Get(merged, "selected")) then Set(Delete(merged, "selected"), "checked", Null) else merged;
    Set(Set(checked, "name", OptionName(g)), "id", Str(OptionId(g, index)))
  }

  function GroupItem(g: Attrs, opt: OptionNode, index: nat): string {
    var a := OptionAttrs(g, opt, index);
    "<input " + Serialize(a) + " /> <label for=\"" + Interp(Get(a, "id")) + "\">" + opt.text + "</label><br>"
  }

  /** The inputs of a group, the option at position `i` numbered `i`. */
  function GroupOptions(g: Attrs, opts: seq<OptionNode>): string {
    NumberedConcat(ItemOf(g), opts)
  }

  /** The markup of option `o` at position `i` of the group with attributes `g`. */
  function ItemOf(g: Attrs): (OptionNode, nat) -> string {
    (o: OptionNode, i: nat) => GroupItem(g, o, i)
  }

  /** `item(xs[i], i)` for every position `i`, concatenated in order. */
  function NumberedConcat<T>(item: (T, nat) -> string, xs: seq<T>): string {
    if xs == [] then "" else NumberedConcat(item, xs[..|xs| - 1]) + item(xs[|xs| - 1], |xs| - 1)
  }

  function SelectItem(opt: OptionNode): string {
    "<option " + Serialize(Collect(opt.attrs)) + ">" + opt.text + "</option>"
  }

  /** The options of a `select`, one `<option>` each, in document order. */
  function SelectOptions(opts: seq<OptionNode>): string {
    if opts == [] then "" else SelectOptions(opts[..|opts| - 1]) + SelectItem(opts[|opts| - 1])
  }

  /** The markup the `switch` produces from the attribute object `a` it
      dispatches on, the label markup, the raw `label` value, the options and
      the colour-picker text. The attribute string is that of `a` in every
      case: it is written out before the cases change the object. */
  function SwitchMarkup(a: Attrs, labelMarkup: string, labelVal: Value, opts: seq<OptionNode>, selectColor: string): string {
    var t := Get(a, "type");
    var s := Serialize(a);
    if t == Str("textarea") || t == Str("rich-text") then
      labelMarkup + "<textarea " + s + "></textarea>"
    else if t == Str("select") then
      labelMarkup + "<select " + s + ">" + SelectOptions(opts) + "</select>"
    else if t == Str("checkbox-group") || t == Str("radio-group") then
      labelMarkup + "<div class=\"" + GroupBase(t) + "-group\">" + GroupOptions(GroupOf(a), opts) + "</div>"
    else if IsTextLike(t) then
      labelMarkup + " <input " + s + ">"
    else if t == Str("color") then
      labelMarkup + " <input " + s + "> " + selectColor
    else if t == Str("button") || t == Str("submit") then
      "<button " + s + ">" + Interp(labelVal) + "</button>"
    else if t == Str("checkbox") then
      "<input " + s + "> " + labelMarkup
    else
      "<" + Interp(t) + "></" + Interp(t) + ">"
  }

  /** The id handed to the deferred `kcToggle` call: only a checkbox with a
      truthy `toggle` attribute gets one. */
  function ToggleOf(a: Attrs): Option<string> {
    if Get(a, "type") == Str("checkbox") && Truthy(Get(a, "toggle")) then Some(Interp(Get(a, "id"))) else None
  }

  /** The field's markup before the wrapper. */
  function Body(f: Field, cfg: Config): string {
    SwitchMarkup(Emitted(f), FieldLabel(f), Get(Decorated(f), "label"), f.options, cfg.selectColor)
  }

  function WrapperClass(f: Field): string {
    "form-group field-" + Interp(Get(Decorated(f), "id"))
  }

  /** The whole render of a field: Body, wrapped in the field-group `div`
      unless the field is hidden, and the deferred toggle for a checkbox. */
  function RenderField(f: Field, cfg: Config): FieldOutput {
    var body := Body(f, cfg);
    var markup := if IsHidden(f) then body
                  else Markup("div", Attrs([("className", Str(WrapperClass(f)))]), Text(body));
    FieldOutput(markup, ToggleOf(Emitted(f)))
  }

  /** `_helpers.fieldRender`, step by step: the attribute object is updated
      in place and the option markup accumulated in loops. */
  method FieldRender(field: Field, cfg: Config) returns (out: FieldOutput)
    ensures out == RenderField(field, cfg)
  {
    var fieldAttrs, fieldLabel := DecorateField(field);
    var fieldLabelVal := Get(fieldAttrs, "label");
    fieldAttrs := Delete(fieldAttrs, "label");
    fieldAttrs := Delete(fieldAttrs, "description");
    var fieldAttrsString := AttrString(fieldAttrs);
    EmittedFacts(field);
    var fieldMarkup, toggle;
    fieldAttrs, fieldMarkup, toggle := TypeSwitch(fieldAttrs, fieldAttrsString, fieldLabel, fieldLabelVal, field.options, cfg);

    if Get(fieldAttrs, "type") != Str("hidden") {
      fieldMarkup := Markup("div", Attrs([("className", Str("form-group field-" + Interp(Get(fieldAttrs, "id"))))]), Text(fieldMarkup));
    }
    out := FieldOutput(fieldMarkup, toggle);
  }

  /** The first part of `fieldRender`: `id` and `required` are set on the
      parsed attributes, and the label is built unless the field is hidden. */
  method DecorateField(field: Field) returns (fieldAttrs: Attrs, fieldLabel: string)
    ensures fieldAttrs == Decorated(field)
    ensures fieldLabel == FieldLabel(field)
  {
    fieldAttrs := ParseAttrs(field.attrs);
    var fieldDesc := if Truthy(Get(fieldAttrs, "description")) then Get(fieldAttrs, "description").s else "";
    var fieldRequired := "";
    fieldAttrs := Set(fieldAttrs, "id", Get(fieldAttrs, "name"));

    if Truthy(Get(fieldAttrs, "required")) {
      fieldAttrs := Set(fieldAttrs, "required", Null);
      fieldAttrs := Set(fieldAttrs, "aria-required", Str("true"));
      fieldRequired := RequiredMarker;
    }
    assert fieldAttrs == Decorated(field);
    assert fieldRequired == RequiredSpan(field);
    fieldLabel := LabelMarkup(fieldAttrs, fieldRequired, fieldDesc);
  }

  /** The label of `fieldRender`, from the decorated attributes, the
      required marker and the description text. */
  method LabelMarkup(fieldAttrs: Attrs, fieldRequired: string, fieldDesc: string) returns (fieldLabel: string)
    ensures fieldLabel == LabelOf(fieldAttrs, fieldRequired, fieldDesc)
  {
    fieldLabel := "";
    if Get(fieldAttrs, "type") != Str("hidden") {
      var desc := fieldDesc;
      if desc != "" {
        desc := Tooltip(desc);
      }
      var fieldLabelText := if Truthy(Get(fieldAttrs, "label")) then Get(fieldAttrs, "label").s else "";
      fieldLabel := "<label for=\"" + Interp(Get(fieldAttrs, "id")) + "\">" + fieldLabelText + " " + fieldRequired + " " + desc + "</label>";
    }
  }

  /** The `switch` on the type, over the attribute object as it is once
      `label` and `description` are gone and its string is written. */
  method TypeSwitch(fieldAttrs0: Attrs, fieldAttrsString: string, fieldLabel: string, fieldLabelVal: Value,
                    fieldOptions: seq<OptionNode>, cfg: Config)
    returns (fieldAttrs: Attrs, fieldMarkup: string, toggle: Option<string>)
    requires fieldAttrsString == Serialize(fieldAttrs0)
    ensures fieldMarkup == SwitchMarkup(fieldAttrs0, fieldLabel, fieldLabelVal, fieldOptions, cfg.selectColor)
    ensures toggle == ToggleOf(fieldAttrs0)
    ensures Get(fieldAttrs, "type") == Str("hidden") <==> Get(fieldAttrs0, "type") == Str("hidden")
    ensures Get(fieldAttrs, "id") == Get(fieldAttrs0, "id")
  {
    fieldAttrs := fieldAttrs0;
    toggle := None;
    var t := Get(fieldAttrs, "type");
    if t == Str("textarea") || t == Str("rich-text") {
      fieldAttrs := TextareaAttrs(fieldAttrs);
      fieldMarkup := fieldLabel + "<textarea " + fieldAttrsString + "></textarea>";
    } else if t == Str("select") {
      // 'select'.replace('-group', '') is 'select' again
      fieldAttrs := SelectAttrs(fieldAttrs);
      var optionsMarkup := SelectOptionsMarkup(fieldOptions);
      fieldMarkup := fieldLabel + "<select " + fieldAttrsString + ">" + optionsMarkup + "</select>";
    } else if t == Str("checkbox-group") || t == Str("radio-group") {
      fieldAttrs, fieldMarkup := GroupCase(fieldAttrs, fieldLabel, fieldOptions);
    } else if IsTextLike(t) {
      fieldMarkup := fieldLabel + " <input " + fieldAttrsString + ">";
    } else if t == Str("color") {
      fieldMarkup := fieldLabel + " <input " + fieldAttrsString + "> " + cfg.selectColor;
    } else if t == Str("button") || t == Str("submit") {
      fieldMarkup := "<button " + fieldAttrsString + ">" + Interp(fieldLabelVal) + "</button>";
    } else if t == Str("checkbox") {
      fieldMarkup := "<input " + fieldAttrsString + "> " + fieldLabel;
      if Truthy(Get(fieldAttrs, "toggle")) {
        // setTimeout(… kcToggle …, 100): recorded, not run
        toggle := Some(Interp(Get(fieldAttrs, "id")));
      }
    } else {
      fieldMarkup := "<" + Interp(t) + "></" + Interp(t) + ">";
    }
  }

  /** The attribute object of the `textarea` and `rich-text` cases: `type`
      and `value` are deleted, after the attribute string was written. */
  method TextareaAttrs(fieldAttrs0: Attrs) returns (fieldAttrs: Attrs)
    ensures !Has(fieldAttrs, "type") && Get(fieldAttrs, "type") == Undefined
    ensures !Has(fieldAttrs, "value") && Get(fieldAttrs, "value") == Undefined
    ensures Get(fieldAttrs, "id") == Get(fieldAttrs0, "id")
    ensures forall k {:trigger Get(fieldAttrs, k)} :: k != "type" && k != "value" ==> Get(fieldAttrs, k) == Get(fieldAttrs0, k)
    ensures forall k {:trigger Has(fieldAttrs, k)} :: k != "type" && k != "value" ==> (Has(fieldAttrs, k) <==> Has(fieldAttrs0, k))
  {
    fieldAttrs := Delete(fieldAttrs0, "type");
    fieldAttrs := Delete(fieldAttrs, "value");
    assert Get(fieldAttrs, "type") == Undefined && Get(fieldAttrs, "id") == Get(fieldAttrs0, "id") by {
      assert "type" != "value" && "id" != "value" && "id" != "type";
    }
  }

  /** The attribute object of the `select` case: `'select'.replace('-group', '')`
      writes `select` back. */
  method SelectAttrs(fieldAttrs0: Attrs) returns (fieldAttrs: Attrs)
    requires Get(fieldAttrs0, "type") == Str("select")
    ensures Get(fieldAttrs, "type") == Str("select")
    ensures Get(fieldAttrs, "id") == Get(fieldAttrs0, "id")
    ensures forall k {:trigger Get(fieldAttrs, k)} :: Get(fieldAttrs, k) == Get(fieldAttrs0, k)
    ensures Keys(fieldAttrs) == Keys(fieldAttrs0)
  {
    fieldAttrs := Set(fieldAttrs0, "type", Str("select"));
    SetKeys(fieldAttrs0, "type", Str("select"));
    assert Get(fieldAttrs, "id") == Get(fieldAttrs0, "id") by { assert "id" != "type"; }
  }

  /** The `checkbox-group` and `radio-group` cases: the type loses its
      `-group`, `className` goes, and each option becomes an input. */
  method GroupCase(fieldAttrs0: Attrs, fieldLabel: string, fieldOptions: seq<OptionNode>) returns (fieldAttrs: Attrs, fieldMarkup: string)
    requires Get(fieldAttrs0, "type") == Str("checkbox-group") || Get(fieldAttrs0, "type") == Str("radio-group")
    ensures fieldAttrs == GroupOf(fieldAttrs0)
    ensures Get(fieldAttrs, "type") == Str(GroupBase(Get(fieldAttrs0, "type")))
    ensures Get(fieldAttrs, "id") == Get(fieldAttrs0, "id")
    ensures fieldMarkup == fieldLabel + "<div class=\"" + GroupBase(Get(fieldAttrs0, "type")) + "-group\">" + GroupOptions(GroupOf(fieldAttrs0), fieldOptions) + "</div>"
  {
    var t := Get(fieldAttrs0, "type");
    fieldAttrs := Set(fieldAttrs0, "type", Str(if t == Str("checkbox-group") then "checkbox" else "radio"));
    fieldAttrs := Delete(fieldAttrs, "className");
    assert Get(fieldAttrs, "type") == Str(GroupBase(t)) && Get(fieldAttrs, "id") == Get(fieldAttrs0, "id") by {
      assert "type" != "className" && "id" != "className" && "id" != "type";
    }
    var optionsMarkup := GroupOptionsMarkup(fieldAttrs, fieldOptions);
    fieldMarkup := fieldLabel + "<div class=\"" + Interp(Get(fieldAttrs, "type")) + "-group\">" + optionsMarkup + "</div>";
  }

  /** The render of a field is its Body, wrapped unless it is hidden, and
      the toggle of its emitted attributes. */
  lemma RenderFieldIs(f: Field, cfg: Config)
    ensures RenderField(f, cfg).toggle == ToggleOf(Emitted(f))
    ensures IsHidden(f) ==> RenderField(f, cfg).markup == Body(f, cfg)
    ensures !IsHidden(f) ==> RenderField(f, cfg).markup == Markup("div", Attrs([("className", Str(WrapperClass(f)))]), Text(Body(f, cfg)))
  {
  }

  lemma BodyIs(f: Field, cfg: Config)
    ensures Body(f, cfg) == SwitchMarkup(Emitted(f), FieldLabel(f), Get(Decorated(f), "label"), f.options, cfg.selectColor)
  {
  }

  /** The text-like cases write a bare `input` after the label. */
  lemma SwitchTextLike(a: Attrs, labelMarkup: string, labelVal: Value, opts: seq<OptionNode>, selectColor: string)
    requires IsTextLike(Get(a, "type"))
    ensures SwitchMarkup(a, labelMarkup, labelVal, opts, selectColor) == labelMarkup + " <input " + Serialize(a) + ">"
  {
    var t := Get(a, "type");
    assert t != Str("textarea") && t != Str("rich-text") && t != Str("select") && t != Str("checkbox-group") && t != Str("radio-group");
  }

  /** The `textarea` and `rich-text` cases write the attribute string of
      the object they were given. */
  lemma SwitchTextarea(a: Attrs, labelMarkup: string, labelVal: Value, opts: seq<OptionNode>, selectColor: string)
    requires Get(a, "type") == Str("textarea") || Get(a, "type") == Str("rich-text")
    ensures SwitchMarkup(a, labelMarkup, labelVal, opts, selectColor) == labelMarkup + "<textarea " + Serialize(a) + "></textarea>"
  {
  }

  /** A type with no case of its own becomes an empty element named after
      it, and schedules no toggle. */
  lemma SwitchUnknown(a: Attrs, labelMarkup: string, labelVal: Value, opts: seq<OptionNode>, selectColor: string)
    requires !IsKnownType(Get(a, "type"))
    ensures var t := Interp(Get(a, "type"));
      SwitchMarkup(a, labelMarkup, labelVal, opts, selectColor) == "<" + t + "></" + t + ">"
    ensures ToggleOf(a) == None
  {
  }

  /** The label of a visible field holds the required marker it is given. */
  lemma LabelHasSpan(d: Attrs, requiredSpan: string, desc: string)
    requires Get(d, "type") != Str("hidden")
    ensures Contains(LabelOf(d, requiredSpan, desc), requiredSpan)
  {
    var labelText := if Truthy(Get(d, "label")) then Get(d, "label").s else "";
    var tooltip := if desc != "" then Tooltip(desc) else "";
    var pre := "<label for=\"" + Interp(Get(d, "id")) + "\">" + labelText + " ";
    ContainsAfter(pre, requiredSpan, " ", tooltip, "</label>");
  }

  lemma ContainsAfter(pre: string, mid: string, y1: string, y2: string, y3: string)
    ensures Contains(pre + mid + y1 + y2 + y3, mid)
  {
    var s := pre + mid + y1 + y2 + y3;
    assert s[|pre|..][..|mid|] == mid;
  }

  /** The wrapper class names the field by its `name`. */
  lemma WrapperClassIs(f: Field)
    ensures WrapperClass(f) == "form-group field-" + Interp(Get(Collect(f.attrs), "name"))
  {
  }

  /** A hidden field has no label. */
  lemma HiddenNoLabel(f: Field)
    requires IsHidden(f)
    ensures FieldLabel(f) == ""
  {
    assert Get(Decorated(f), "type") == TypeOf(f);
  }

  /** What the wrapper reads from the emitted attributes is what the
      decorated ones hold. */
  lemma EmittedFacts(f: Field)
    ensures Get(Emitted(f), "type") == TypeOf(f)
    ensures Get(Emitted(f), "id") == Get(Decorated(f), "id")
  {
  }

  /** The `fieldOptions.each` loop of the `select` case: one `<option>` per
      option, in document order. */
  method SelectOptionsMarkup(fieldOptions: seq<OptionNode>) returns (optionsMarkup: string)
    ensures optionsMarkup == SelectOptions(fieldOptions)
  {
    optionsMarkup := "";
    var index := 0;
    while index < |fieldOptions|
      invariant 0 <= index <= |fieldOptions|
      invariant optionsMarkup == SelectOptions(fieldOptions[..index])
    {
      var optionAttrs := ParseAttrs(fieldOptions[index].attrs);
      var optionAttrsString := AttrString(optionAttrs);
      var optionText := fieldOptions[index].text;
      var item := "<option " + optionAttrsString + ">" + optionText + "</option>";
      assert item == SelectItem(fieldOptions[index]);
      assert fieldOptions[..index + 1][..index] == fieldOptions[..index];
      optionsMarkup := optionsMarkup + item;
      index := index + 1;
    }
    assert fieldOptions[..index] == fieldOptions;
  }

  /** The `fieldOptions.each` loop of the group cases, over the field's
      attribute object `fieldAttrs` as the case has left it. */
  method GroupOptionsMarkup(fieldAttrs: Attrs, fieldOptions: seq<OptionNode>) returns (optionsMarkup: string)
    ensures optionsMarkup == GroupOptions(fieldAttrs, fieldOptions)
  {
    optionsMarkup := "";
    var optionName := OptionName(fieldAttrs);
    var index := 0;
    while index < |fieldOptions|
      invariant 0 <= index <= |fieldOptions|
      invariant optionsMarkup == GroupOptions(fieldAttrs, fieldOptions[..index])
    {
      var item := GroupOptionMarkup(fieldAttrs, optionName, fieldOptions[index], index);
      GroupOptionsSnoc(fieldAttrs, fieldOptions, index);
      optionsMarkup := optionsMarkup + item;
      index := index + 1;
    }
    assert fieldOptions[..index] == fieldOptions;
  }

  /** The body of the group loop for option `el` at position `index`: its
      attribute object, then its input and label. */
  method GroupOptionMarkup(fieldAttrs: Attrs, optionName: Value, el: OptionNode, index: nat) returns (item: string)
    requires optionName == OptionName(fieldAttrs)
    ensures item == GroupItem(fieldAttrs, el, index)
  {
    var parsed := ParseAttrs(el.attrs);
    var optionAttrs := Extend(fieldAttrs, parsed);
    if Truthy(Get(optionAttrs, "selected")) {
      optionAttrs := Delete(optionAttrs, "selected");
      optionAttrs := Set(optionAttrs, "checked", Null);
    }
    optionAttrs := Set(optionAttrs, "name", optionName);
    optionAttrs := Set(optionAttrs, "id", Str(Interp(Get(fieldAttrs, "id")) + "-" + NatToString(index)));
    assert optionAttrs == OptionAttrs(fieldAttrs, el, index);
    var optionAttrsString := AttrString(optionAttrs);
    var optionText := el.text;
    item := "<input " + optionAttrsString + " /> <label for=\"" + Interp(Get(optionAttrs, "id")) + "\">" + optionText + "</label><br>";
  }

  lemma GroupOptionsSnoc(g: Attrs, opts: seq<OptionNode>, i: nat)
    requires i < |opts|
    ensures GroupOptions(g, opts[..i + 1]) == GroupOptions(g, opts[..i]) + GroupItem(g, opts[i], i)
  {
    NumberedConcatSnoc(ItemOf(g), opts, i);
  }

  lemma NumberedConcatSnoc<T>(item: (T, nat) -> string, xs: seq<T>, i: nat)
    requires i < |xs|
    ensures NumberedConcat(item, xs[..i + 1]) == NumberedConcat(item, xs[..i]) + item(xs[i], i)
  {
    assert xs[..i + 1][..i] == xs[..i];
  }
}
