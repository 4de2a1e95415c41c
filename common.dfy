/** Small shared definitions: optional values, JavaScript string interpolation and `flat()`. */
module Common {

  datatype Option<+T> = None | Some(value: T)

  /** The text a JavaScript template literal produces for a value that may be `undefined`. */
  function Interpolate(o: Option<string>): string
  {
    match o
    case Some(s) => s
    case None => "undefined"
  }

  /** The name of one side of one market, as every worker spells it: `${base}:${quote}:${kind}`. */
  function Key(base: string, quote: Option<string>, kind: string): string
  {
    base + ":" + Interpolate(quote) + ":" + kind
  }

  /** A key reads back as its three fields: the base, a `:`, the quote text, a `:`, the kind. */
  lemma KeyLayout(base: string, quote: Option<string>, kind: string)
    ensures var k, q := Key(base, quote, kind), Interpolate(quote);
      && |k| == |base| + |q| + |kind| + 2
      && k[..|base|] == base && k[|base|] == ':'
      && k[|base| + 1..|base| + 1 + |q|] == q && k[|base| + 1 + |q|] == ':'
      && k[|k| - |kind|..] == kind
  {
    var k, q := Key(base, quote, kind), Interpolate(quote);
    assert k == base + ":" + q + ":" + kind;
    assert k[..|base|] == base;
    assert k[|base| + 1..|base| + 1 + |q|] == q;
    assert k[|k| - |kind|..] == kind;
  }

  /** `Array.prototype.flat()` with depth one. */
  function Flatten<T>(xss: seq<seq<T>>): seq<T>
  {
    if xss == [] then [] else xss[0] + Flatten(xss[1..])
  }

  lemma FlattenTwo<T>(xss: seq<seq<T>>)
    requires |xss| == 2
    ensures Flatten(xss) == xss[0] + xss[1]
  {
    assert xss[1..][1..] == [];
    assert Flatten(xss[1..]) == xss[1..][0] + Flatten(xss[1..][1..]);
    assert xss[1..][0] == xss[1];
  }

  function Min(a: int, b: int): int
  {
    if a < b then a else b
  }
}
