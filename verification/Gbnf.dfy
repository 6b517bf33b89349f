/** Grammar expressions as syntax trees, and the language each derives. Rules of the grammar builder
    are inlined where they are referenced. */
module Gbnf {
  datatype Expr =
    | Epsilon
    | Literal(text: string)
    | AnyChar
    | NotIn(chars: seq<char>)
    | Cat(left: Expr, right: Expr)
    | Alt(alts: seq<Expr>)
    | Star(body: Expr)

  ghost predicate Derives(e: Expr, s: string)
    decreases e, |s|
  {
    match e
    case Epsilon => s == ""
    case Literal(text) => s == text
    case AnyChar => |s| == 1
    case NotIn(chars) => |s| == 1 && s[0] !in chars
    case Cat(left, right) => exists i | 0 <= i <= |s| :: Derives(left, s[..i]) && Derives(right, s[i..])
    case Alt(alts) => exists k | 0 <= k < |alts| :: Derives(alts[k], s)
    case Star(body) => s == "" || exists i | 0 < i <= |s| :: Derives(body, s[..i]) && Derives(e, s[i..])
  }

  lemma DerivesLiteralThen(text: string, right: Expr, s: string)
    ensures Derives(Cat(Literal(text), right), s) <==> text <= s && Derives(right, s[|text|..])
  {
    if text <= s && Derives(right, s[|text|..]) {
      assert s[..|text|] == text;
      assert Derives(Literal(text), s[..|text|]);
    }
  }

  lemma DerivesEither(a: Expr, b: Expr, s: string)
    ensures Derives(Alt([a, b]), s) <==> Derives(a, s) || Derives(b, s)
  {
    var alts := [a, b];
    assert alts[0] == a && alts[1] == b;
  }
}
