/** The render of a whole form: the schema is parsed, the user is told
    whether there was one, and the markup of every field is concatenated in
    document order. */
module DocumentRenderer {
  import opened JsValue
  import opened FieldRenderer

  /** What `$.parseXML(opts.formData)` and `$('field', formData)` give: no
      document at all, or the document's `field` nodes in document order. */
  datatype ParsedForm = NoFormData | Fields(fields: seq<Field>)

  /** A message handed to `opts.notify`. */
  datatype Notice = Error(message: string) | Success(message: string)

  /** The outcome: the plugin stops after the error notice when there is no
      document, and otherwise reports success, produces the joined markup,
      and leaves behind the deferred toggle calls, in scheduling order. */
  datatype FormResult =
    | Aborted(notice: Notice)
    | Rendered(notice: Notice, output: string, deferred: seq<string>)

  /** The render of every field, in order. */
  function Outputs(fs: seq<Field>, cfg: Config): (outs: seq<FieldOutput>)
    ensures |outs| == |fs|
  {
    seq(|fs|, i requires 0 <= i < |fs| => RenderField(fs[i], cfg))
  }

  /** The strings pushed onto `rendered`, one per field. */
  function Markups(outs: seq<FieldOutput>): (ms: seq<string>)
    ensures |ms| == |outs|
  {
    seq(|outs|, i requires 0 <= i < |outs| => outs[i].markup)
  }

  /** The ids whose toggle switch is scheduled, in field order. */
  function Toggles(outs: seq<FieldOutput>): seq<string> {
    if outs == [] then []
    else
      var t := outs[|outs| - 1].toggle;
      Toggles(outs[..|outs| - 1]) + (if t.Some? then [t.value] else [])
  }

  /** `rendered.join('')`. */
  function Output(outs: seq<FieldOutput>): string {
    Join(Markups(outs), "")
  }

  /** The whole render, as a function of the parsed schema. */
  function FormRender(parsed: ParsedForm, cfg: Config): (r: FormResult)
    ensures r.Aborted? <==> parsed.NoFormData?
    ensures r.Aborted? ==> r.notice == Error(cfg.noFormData)
    ensures r.Rendered? ==> r.notice == Success(cfg.formRendered)
  {
    match parsed
    case NoFormData => Aborted(Error(cfg.noFormData))
    case Fields(fs) => Rendered(Success(cfg.formRendered), Output(Outputs(fs, cfg)), Toggles(Outputs(fs, cfg)))
  }

  /** The plugin body: notify, render every field into `rendered`, join. */
  method RenderForm(formData: ParsedForm, cfg: Config) returns (result: FormResult)
    ensures result == FormRender(formData, cfg)
  {
    if formData.NoFormData? {
      result := Aborted(Error(cfg.noFormData));
      return;
    }
    var notice := Success(cfg.formRendered);
    var fields := formData.fields;
    ghost var outs := Outputs(fields, cfg);
    var rendered: seq<string> := [];
    var deferred: seq<string> := [];
    var index := 0;
    while index < |fields|
      invariant 0 <= index <= |fields|
      invariant rendered == Markups(outs[..index])
      invariant deferred == Toggles(outs[..index])
    {
      var out := FieldRender(fields[index], cfg);
      assert out == outs[index];
      TakeOneMore(outs, index);
      MarkupsSnoc(outs[..index], out);
      TogglesSnoc(outs[..index], out);
      rendered := rendered + [out.markup];
      if out.toggle.Some? {
        deferred := deferred + [out.toggle.value];
      }
      index := index + 1;
    }
    TakeAll(outs);
    var output := Join(rendered, "");
    result := Rendered(notice, output, deferred);
  }

  lemma TakeOneMore<T>(s: seq<T>, i: nat)
    requires i < |s|
    ensures s[..i + 1] == s[..i] + [s[i]]
  {
  }

  lemma TakeAll<T>(s: seq<T>)
    ensures s[..|s|] == s
  {
  }

  lemma SplitAt<T>(s: seq<T>, i: nat)
    requires i < |s|
    ensures s == s[..i] + [s[i]] + s[i + 1..]
  {
  }

  lemma MarkupsSnoc(outs: seq<FieldOutput>, o: FieldOutput)
    ensures Markups(outs + [o]) == Markups(outs) + [o.markup]
  {
  }

  lemma TogglesSnoc(outs: seq<FieldOutput>, o: FieldOutput)
    ensures Toggles(outs + [o]) == Toggles(outs) + (if o.toggle.Some? then [o.toggle.value] else [])
  {
    assert (outs + [o])[..|outs + [o]| - 1] == outs;
  }

  /** The output of two runs of fields is the two outputs, one after the
      other: nothing is inserted between fields, nothing is reordered. */
  lemma {:induction false} OutputAppend(a: seq<FieldOutput>, b: seq<FieldOutput>)
    ensures Output(a + b) == Output(a) + Output(b)
  {
    assert Markups(a + b) == Markups(a) + Markups(b);
    JoinEmptyAppend(Markups(a), Markups(b));
  }

  /** Each field's markup stands whole in the output, between the markup of
      the fields before it and that of the fields after it. */
  lemma {:induction false} OutputAt(fs: seq<Field>, i: nat, cfg: Config)
    requires i < |fs|
    ensures var outs := Outputs(fs, cfg);
      Output(outs) == Output(outs[..i]) + RenderField(fs[i], cfg).markup + Output(outs[i + 1..])
  {
    var outs := Outputs(fs, cfg);
    var o := outs[i];
    SplitAt(outs, i);
    OutputAppend(outs[..i] + [o], outs[i + 1..]);
    MarkupsSnoc(outs[..i], o);
    JoinEmptySnoc(Markups(outs[..i]), o.markup);
  }

  /** The deferred ids are exactly the toggles the fields schedule: each
      belongs to a field that asked for it, and each field's request is
      there. */
  lemma {:induction false} TogglesOfFields(outs: seq<FieldOutput>)
    ensures forall id :: id in Toggles(outs) <==> exists i :: 0 <= i < |outs| && outs[i].toggle == Some(id)
  {
    if outs != [] {
      var init, last := outs[..|outs| - 1], outs[|outs| - 1];
      TogglesOfFields(init);
      assert outs == init + [last];
      forall id
        ensures id in Toggles(outs) <==> exists i :: 0 <= i < |outs| && outs[i].toggle == Some(id)
      {
        if id in Toggles(init) {
          var i :| 0 <= i < |init| && init[i].toggle == Some(id);
          assert outs[i] == init[i];
        }
        if exists i :: 0 <= i < |outs| && outs[i].toggle == Some(id) {
          var i :| 0 <= i < |outs| && outs[i].toggle == Some(id);
          if i < |init| {
            assert init[i] == outs[i];
          }
        }
      }
    }
  }

  /** A form without fields renders to the empty string, still with the
      success notice. */
  lemma EmptyForm(cfg: Config)
    ensures FormRender(Fields([]), cfg) == Rendered(Success(cfg.formRendered), "", [])
  {
  }
}
