# formRender field renderer, modelled in Dafny

This project models the core of the `formRender` jQuery plugin
(`src/js/form-render.js`). The plugin turns an XML form schema into HTML
markup. The model covers:

- the attribute object of a field. It is a JavaScript object: an ordered
  map with insertion order, overwrite-in-place, `delete`, and `$.extend`,
  which skips `undefined` values;
- `safeAttr` and `attrString`, which turn that object into `name="value"`
  fragments with `JSON.stringify` quoting;
- `parseAttrs`, which builds the object from the attribute nodes of an
  XML element;
- `markup`, the generic element composer;
- `fieldRender`, the type dispatch that produces one field's markup;
- the document loop, which renders every `field` node in order and joins
  the results.

JavaScript values are `Str`, `Null` or `Undefined` (`JsValue.Value`).
A value is truthy exactly when it is a non-empty string.

Modules:

- `JsValue`: values, truthiness, the string interpolation of a value,
  decimal numbers, and `Array.prototype.join`.
- `JsonQuote`: `JSON.stringify` of a string, and a decoder that undoes it.
- `OrderedAttrs`: the attribute object.
- `AttributeModel`: `safeAttr`, `attrString` and `parseAttrs`.
- `MarkupComposer`: `_helpers.markup`.
- `FieldRenderer`: `fieldRender`. This module holds two things:
  - a functional specification: `RenderField`, built from `Decorated`, `Emitted`, `FieldLabel`, `SwitchMarkup`, `GroupOptions` and `SelectOptions`;
  - imperative methods that follow the source step by step. They update the attribute object and accumulate option markup in loops, and each one is proved equal to the specification.
- `FieldProperties`: what `fieldRender` promises, proved about `RenderField`.
- `DocumentRenderer`: the plugin body, from the parsed schema to the joined output.

Behaviour of the source that a reader might not expect, and that the model
reproduces:

- `id` is always overwritten with `name`, even when the field already has an `id`. It becomes `undefined` when there is no `name`.
- A truthy `required` is set to `null`, not deleted. So a bare `required` is emitted next to `aria-required="true"`.
- The seven text-like types write `<input …>` without a self-closing slash.
- The attribute string is computed once, before the type dispatch. As a result:
  - the textarea case's deletion of `type` and `value` does not reach the output;
  - the group cases never write the field's own attribute string: their deletion of `className` only affects the attributes the option inputs inherit.
- Any non-empty `required` value counts as required, including the string `"false"`.
- The label is `<label for="id">text required tooltip</label>`. Its spaces are always present, even when the marker or the tooltip is empty.
- A `button`'s text is the raw `label` value. So a button without a label reads `undefined`.
- A group whose field has no `name` gives option ids `undefined-0`, `undefined-1`, and so on.

## Model

| member | source | states |
|---|---|---|
| JsValue.NatToStringInjective | src/js/form-render.js:157 | different option indices print as different decimal strings |
| JsValue.JoinEmptyAppend | src/js/form-render.js:264 | `join('')` of two runs of strings is the concatenation of the two joins |
| JsonQuote.Quote | src/js/form-render.js:222 | `JSON.stringify` of a string starts and ends with a double quote |
| JsonQuote.UnquoteQuote | src/js/form-render.js:222 | decoding the JSON string literal gives back exactly the value that was quoted, so the quoting loses nothing |
| JsonQuote.QuoteInjective | src/js/form-render.js:222 | different values get different quoted forms |
| JsonQuote.QuotePlain | src/js/form-render.js:222 | a string without `"`, `\` or control characters is quoted as itself between two double quotes |
| OrderedAttrs.Set | src/js/form-render.js:94-98 | assigning a key makes it present with the new value; every other key keeps its value and its presence; keys stay distinct |
| OrderedAttrs.SetKeys | src/js/form-render.js:94-98 | an existing key keeps its place in the key order, and a new key is appended last |
| OrderedAttrs.Delete | src/js/form-render.js:112-113 | a deleted key is absent and reads `undefined`; every other key keeps its value and its presence; keys stay distinct |
| OrderedAttrs.DeleteKeys | src/js/form-render.js:112-113 | deleting a key leaves the other keys in their original order |
| OrderedAttrs.AssignGet | src/js/form-render.js:147 | after `$.extend`, a key reads the last defined source value when there is one, and the target's value otherwise; a key is present iff the target had it or a source defines it |
| OrderedAttrs.ExtendGet | src/js/form-render.js:147 | `$.extend({}, field, option)`: the option's defined value wins over the field's, and `undefined` never overrides |
| OrderedAttrs.AssignKeys | src/js/form-render.js:147 | copying a source object keeps the target's keys where they were, and appends the source's new keys in the order of their first defined value |
| OrderedAttrs.FirstDefinedKeysMember | src/js/form-render.js:147 | a key is appended by a copy iff the source gives it a defined value and the target does not have it already |
| OrderedAttrs.FirstDefinedKeysFresh | src/js/form-render.js:147 | when a source's keys are distinct and new to the target, the appended keys are exactly its keys with a defined value, in order |
| OrderedAttrs.ExtendKeepsOrder | src/js/form-render.js:147 | `$.extend({}, field, option)` lists the field's keys that have a defined value, in the field's order, then the option's keys that are new, in the option's order; a field key holding `undefined` (a nameless field's `id`) leaves no key |
| OrderedAttrs.AssignFresh | src/js/form-render.js:147 | copying defined, distinct, new keys into an object appends them in order |
| AttributeModel.SafeAttr | src/js/form-render.js:216-229 | the name becomes `class` exactly for `className` (or `class` itself), and is otherwise unchanged; the value part is empty iff the value is falsy; otherwise it is `=` followed by a JSON literal that decodes to the value |
| AttributeModel.FragmentsByKey | src/js/form-render.js:204-212 | there is one fragment per own key; fragment `i` is the `i`-th key, renamed, followed by the value the object now holds for that key, encoded |
| AttributeModel.AttrString | src/js/form-render.js:204-214 | the loop's string is the fragments of all keys in order, joined by single spaces |
| AttributeModel.SerializeSingle | src/js/form-render.js:204-214 | an object with one key serialises to that key's fragment alone |
| AttributeModel.SerializeSetNew | src/js/form-render.js:204-214 | adding a new key appends one space and that key's fragment to the string |
| AttributeModel.SerializeSetExisting | src/js/form-render.js:204-214 | overwriting an existing key replaces its fragment in place and leaves every other fragment unchanged |
| AttributeModel.FragmentOfKey | src/js/form-render.js:204-214 | every present key has its fragment in the string; a key with a falsy value appears as its bare name |
| AttributeModel.ParseAttrs | src/js/form-render.js:231-239 | the loop's object is that of `Collect`: the attribute nodes assigned in document order |
| AttributeModel.CollectGet | src/js/form-render.js:231-239 | a key is present iff some node has that name, and it holds the value of the last node with that name; keys stay distinct |
| AttributeModel.CollectVerbatim | src/js/form-render.js:231-239 | nodes with distinct names give exactly those entries, in document order |
| MarkupComposer.MarkupInput | src/js/form-render.js:72-78 | `input` gives the self-closing `<input attrs/>` and ignores the content |
| MarkupComposer.MarkupWraps | src/js/form-render.js:72-78 | every other tag gives `<tag attrs>`, the content, then `</tag>`; an array of content is joined with no separator |
| FieldRenderer.Decorated | src/js/form-render.js:90-100 | the parsed attributes with `id` set to `name` (`undefined` when there is none); a truthy `required` becomes `null` and `aria-required` becomes `"true"`; every other key is as parsed |
| FieldRenderer.Emitted | src/js/form-render.js:112-113 | the decorated attributes without `label` and `description`; every other key keeps its value and its presence |
| FieldRenderer.FieldRender | src/js/form-render.js:86-202 | the step-by-step render gives exactly `RenderField`: the markup and the deferred toggle id |
| FieldRenderer.DecorateField | src/js/form-render.js:90-108 | the in-place updates of `id` and `required` give `Decorated`, and the label built alongside is `FieldLabel` |
| FieldRenderer.LabelMarkup | src/js/form-render.js:102-108 | the label is empty for a hidden type; otherwise it holds the label text, the marker and the tooltip for the field's `id` |
| FieldRenderer.TypeSwitch | src/js/form-render.js:115-193 | each case's markup uses the attribute string written before the case changes the object; the toggle is recorded only for a checkbox with a truthy `toggle`; whether the type is `hidden` and the `id` both survive the case |
| FieldRenderer.TextareaAttrs | src/js/form-render.js:118-121 | `type` and `value` are gone and every other key is untouched |
| FieldRenderer.SelectAttrs | src/js/form-render.js:124-125 | stripping `-group` from `select` changes no key and no value |
| FieldRenderer.GroupCase | src/js/form-render.js:138-165 | the object loses `className` and its type becomes `checkbox`/`radio`; the markup is the label and then a `checkbox-group`/`radio-group` div of the option inputs |
| FieldRenderer.SelectOptionsMarkup | src/js/form-render.js:127-136 | the loop's markup is one `<option>` per option node, in order |
| FieldRenderer.GroupOptionsMarkup | src/js/form-render.js:144-163 | the loop's markup is one input and label per option node, in order, option `i` numbered `i` |
| FieldRenderer.GroupOptionMarkup | src/js/form-render.js:146-161 | one option's merged, renamed and renumbered input, followed by its label |
| FieldRenderer.LabelHasSpan | src/js/form-render.js:102-108 | the label of a non-hidden field contains the required marker it was given |
| FieldRenderer.HiddenNoLabel | src/js/form-render.js:102-108 | a hidden field has no label |
| FieldRenderer.WrapperClassIs | src/js/form-render.js:94 | the wrapper class names the field by its `name`, because `id` was set to `name` |
| FieldRenderer.EmittedFacts | src/js/form-render.js:112-117 | the switch dispatches on the parsed `type`, and the emitted `id` is the decorated one |
| FieldProperties.WrappedField | src/js/form-render.js:195-199 | a visible field is exactly `<div class="form-group field-{name}">` around its case markup, then `</div>` |
| FieldProperties.WrapperMarkup | src/js/form-render.js:196-198 | the wrapper's one attribute is written as `class="…"` |
| FieldProperties.HiddenField | src/js/form-render.js:170-173 | a hidden field is only ` <input attrs>`: no label, no wrapper, no toggle |
| FieldProperties.RequiredAttributes | src/js/form-render.js:96-107 | a truthy `required` is emitted as a bare `required` next to `aria-required="true"`, and a visible field's label carries the required marker |
| FieldProperties.AriaRequiredFragment | src/js/form-render.js:98 | `aria-required` is written as `aria-required="true"` |
| FieldProperties.OptionalAttributes | src/js/form-render.js:96-100 | without a truthy `required`, `required` and `aria-required` are untouched and there is no marker |
| FieldProperties.DecoratedKeys | src/js/form-render.js:90-98 | the decorated keys are the parsed keys in document order, then `id` when it was not there, then `aria-required` for a truthy `required` when it was not there |
| FieldProperties.EmittedKeys | src/js/form-render.js:112-115 | the attribute string lists the decorated keys in the same order, without `label` and `description` |
| FieldProperties.CheckboxToggle | src/js/form-render.js:182-189 | a toggle is scheduled iff the type is `checkbox` and `toggle` is truthy, and it targets the field's `name` |
| FieldProperties.TextareaKeepsTypeAndValue | src/js/form-render.js:115-122 | a `textarea` still writes its `type` and `value` fragments, because the string was taken before they were deleted |
| FieldProperties.TextLikeInput | src/js/form-render.js:166-174 | the text-like types write the label, then an `<input …>` that is not self-closed |
| FieldProperties.UnknownType | src/js/form-render.js:191-192 | an unknown type `t` renders `<t></t>` whatever its attributes; it is wrapped and schedules nothing |
| FieldProperties.GroupInherits | src/js/form-render.js:140-147 | group options inherit every decorated attribute except `className`, `label` and `description`, with the type stripped of `-group` |
| FieldProperties.GroupOptionName | src/js/form-render.js:145 | a checkbox group's options share the name `name[]`, and a radio group's share `name` |
| FieldProperties.OptionAttributes | src/js/form-render.js:147-157 | an option input has its own `id` and the shared name; a truthy `selected` becomes a bare `checked` and the `selected` key is removed; any other key takes the option's defined value, and otherwise the inherited one; a key is present iff one of these cases gives it, so `id` and `name` are always present (a radio group without a `name` writes a bare `name`) |
| FieldProperties.OptionIdsDistinct | src/js/form-render.js:157 | no two options of a group share an id |
| FieldProperties.GroupOptionsAppend | src/js/form-render.js:146-162 | the group markup of options `a + b` is that of `a`, then the inputs of `b`'s options numbered on from `|a|` |
| FieldProperties.GroupOptionsInOrder | src/js/form-render.js:146-162 | the group markup is the inputs of all options joined in document order, option `i` numbered `i` |
| FieldProperties.SelectOptionsAppend | src/js/form-render.js:128-134 | the option markup of a concatenation of options is the concatenation of their option markups |
| DocumentRenderer.FormRender | src/js/form-render.js:244-264 | no document gives only the error notice; a document gives the success notice, the joined field markup and the deferred toggles |
| DocumentRenderer.RenderForm | src/js/form-render.js:244-264 | the loop that pushes each field's markup and joins them gives exactly `FormRender` |
| DocumentRenderer.OutputAppend | src/js/form-render.js:256-264 | the output of two runs of fields is the two outputs concatenated, with nothing between and nothing reordered |
| DocumentRenderer.OutputAt | src/js/form-render.js:256-264 | each field's markup stands whole in the output, after the fields before it and before the fields after it |
| DocumentRenderer.TogglesOfFields | src/js/form-render.js:182-189 | an id is scheduled for a toggle iff some field of the form asked for it |
| DocumentRenderer.EmptyForm | src/js/form-render.js:249-264 | a form without fields renders the empty string, with the success notice |

## Left out

- `getElement` and `makeId` locate the source element and invent ids for it. Only the schema string they yield matters to the render. `opts.formData` is an input here.
- `$.parseXML` and the `$('field', …)` / `$('option', …)` queries are not modelled. The parsed schema is the input: `NoFormData` or the `field` nodes in document order, each with its attribute nodes and the `option` elements that `$('option', field)` finds among its descendants, taken as given in document order. A parser exception is not modelled.
- The option text fallback chains (`innerHTML || innerContent || innerText || …`, lines 132 and 159) belong to the DOM. Each option node carries its text already chosen.
- `setTimeout` and `kcToggle` (lines 186-188) are not run. The id a checkbox would toggle is recorded and listed in `Rendered.deferred`, in field order.
- `opts.notify` is not called. Its message is returned as a `Notice` value.
- The delivery step is not modelled: `opts.render`, `container.html`, `replaceWith` and the plugin wrapper. The output string is the result.
- AttributeModel.SafeAttr: the rename lookup `safeAttr[name]` (line 221) also finds the members of `Object.prototype`. An attribute named `constructor`, `toString`, `valueOf` or another inherited member is written under the text of that function (`function Object() { [native code] }="x"`), which depends on the engine; the model writes such a name unchanged.
- AttributeModel.AttrString: an attribute named `hasOwnProperty` becomes an own string property, so `attrs.hasOwnProperty(attr)` (line 208) throws a TypeError and the render stops; the model serialises it like any other key.
- AttributeModel.ParseAttrs: assigning a string to `__proto__` (line 235) creates no key, so the source drops an attribute with that name; the model keeps it as an ordinary key. Index-like names, which JavaScript orders first, cannot occur because XML attribute names do not start with a digit.
- A `select` option without any text makes line 132 read `el.childNodes[0].nodeValue` of a missing node and throw; the model takes the option text as given and does not model that exception.
- Lone surrogate code units cannot occur in Dafny strings, so `JSON.stringify`'s handling of them is not modelled.
- FieldRenderer.TypeSwitch: of the attribute object it leaves behind, the contract states only whether its type is `hidden` and its `id`, the only two things read after the switch (lines 195 and 197). The full new object is stated by TextareaAttrs, SelectAttrs and GroupCase for their cases.
