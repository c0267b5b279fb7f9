/** The JavaScript values and string operations the renderer relies on. */
module JsValue {

  datatype Option<+T> = None | Some(value: T)

  /** The values an attribute object holds: attribute text from the parsed
      schema, `null` (stored for `required` and `checked`), and `undefined`
      (what reading a missing property yields, and what
      `fieldAttrs.id = fieldAttrs.name` stores when there is no `name`). */
  datatype Value = Str(s: string) | Null | Undefined

  /** JavaScript truthiness on these values: only a non-empty string is truthy. */
  predicate Truthy(v: Value) {
    v.Str? && v.s != ""
  }

  /** String conversion, as a template `${v}` or `v + '…'` performs it. */
  function Interp(v: Value): string {
    match v
    case Str(s) => s
    case Null => "null"
    case Undefined => "undefined"
  }

  function DigitChar(d: nat): (c: char)
    requires d < 10
    ensures '0' <= c <= '9'
  {
    ('0' as int + d) as char
  }

  /** The decimal form of `n`, as `'…' + n` writes an array index. */
  function NatToString(n: nat): (s: string)
    ensures |s| >= 1
    ensures forall i :: 0 <= i < |s| ==> '0' <= s[i] <= '9'
    decreases n
  {
    if n < 10 then [DigitChar(n)] else NatToString(n / 10) + [DigitChar(n % 10)]
  }

  /** Different indices get different decimal strings. */
  lemma {:induction false} NatToStringInjective(a: nat, b: nat)
    requires NatToString(a) == NatToString(b)
    ensures a == b
    decreases a
  {
    if 10 <= a && 10 <= b {
      var sa, sb := NatToString(a), NatToString(b);
      assert sa[|sa| - 1] == DigitChar(a % 10) && sb[|sb| - 1] == DigitChar(b % 10);
      assert sa[..|sa| - 1] == NatToString(a / 10);
      assert sb[..|sb| - 1] == NatToString(b / 10);
      NatToStringInjective(a / 10, b / 10);
    }
  }

  /** `xs.join(sep)`. */
  function Join(xs: seq<string>, sep: string): string
    decreases |xs|
  {
    if |xs| == 0 then ""
    else if |xs| == 1 then xs[0]
    else Join(xs[..|xs| - 1], sep) + sep + xs[|xs| - 1]
  }

  /** Pushing one more piece onto a joined array appends the separator and
      that piece, or gives the piece alone when the array was empty. */
  lemma JoinSnoc(xs: seq<string>, x: string, sep: string)
    ensures Join(xs + [x], sep) == if xs == [] then x else Join(xs, sep) + sep + x
  {
    assert (xs + [x])[..|xs + [x]| - 1] == xs;
  }

  /** Pushing one more piece onto an array joined with `''` appends exactly that piece. */
  lemma JoinEmptySnoc(xs: seq<string>, x: string)
    ensures Join(xs + [x], "") == Join(xs, "") + x
  {
    assert (xs + [x])[..|xs + [x]| - 1] == xs;
  }

  /** Joining with `''` is concatenation: the pieces appear whole, in order. */
  lemma {:induction false} JoinEmptyAppend(xs: seq<string>, ys: seq<string>)
    ensures Join(xs + ys, "") == Join(xs, "") + Join(ys, "")
    decreases |ys|
  {
    if ys == [] {
      assert xs + ys == xs;
    } else {
      var init, last := ys[..|ys| - 1], ys[|ys| - 1];
      assert ys == init + [last];
      assert xs + ys == (xs + init) + [last];
      JoinEmptySnoc(xs + init, last);
      JoinEmptySnoc(init, last);
      JoinEmptyAppend(xs, init);
    }
  }
}
