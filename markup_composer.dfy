/** `_helpers.markup(type, attrs, content)`: one element from a tag name, an
    attribute object and its content. */
module MarkupComposer {
  import opened JsValue
  import opened OrderedAttrs
  import opened AttributeModel

  /** The `content` argument: a string, or an array joined with `''`. */
  datatype Content = Text(s: string) | Parts(parts: seq<string>)

  function Flatten(c: Content): string {
    match c
    case Text(s) => s
    case Parts(ps) => Join(ps, "")
  }

  /** The tags `markup` writes self-closing (`inlineElems`). */
  predicate IsInline(tag: string) {
    tag in ["input"]
  }

  function Markup(tag: string, attrs: Attrs, content: Content): string {
    var a := Serialize(attrs);
    var c := Flatten(content);
    if IsInline(tag) then "<" + tag + " " + a + "/>"
    else "<" + tag + " " + a + ">" + c + "</" + tag + ">"
  }

  /** An `input` closes itself and its content is thrown away. */
  lemma MarkupInput(attrs: Attrs, c1: Content, c2: Content)
    ensures Markup("input", attrs, c1) == Markup("input", attrs, c2) == "<input " + Serialize(attrs) + "/>"
  {
  }

  /** A `div` around a string: the opening tag with the attribute string,
      the string, the closing tag. */
  lemma MarkupDiv(attrs: Attrs, s: string)
    ensures Markup("div", attrs, Text(s)) == "<div " + Serialize(attrs) + ">" + s + "</div>"
  {
  }

  /** Any other tag opens, holds exactly the content and closes: the content
      is what lies between the opening and closing tags, and an array gives
      the same element as its pieces joined. */
  lemma MarkupWraps(tag: string, attrs: Attrs, c: Content)
    requires !IsInline(tag)
    ensures var r, open, close := Markup(tag, attrs, c), "<" + tag + " " + Serialize(attrs) + ">", "</" + tag + ">";
      && |open| + |close| <= |r|
      && r[..|open|] == open
      && r[|r| - |close|..] == close
      && r[|open|..|r| - |close|] == Flatten(c)
    ensures c.Parts? ==> Markup(tag, attrs, c) == Markup(tag, attrs, Text(Join(c.parts, "")))
  {
  }
}
