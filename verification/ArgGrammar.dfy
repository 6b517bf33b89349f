/** The grammar of a call's arguments: built from the last parameter to the first, it has to accept
    every choice of optional parameters, in order, with all required ones. */
module ArgGrammar {
  import opened Gbnf

  /** `parameter_rule` */
  datatype ParameterRule = ParameterRule(symbol: Expr, isRequired: bool)

  datatype NextArg = NextArg(nextArg: Expr, nextArgWithSep: Expr)

  /** The two rules for the parameters from `i` on: when none has been chosen yet, and after one. */
  function Rules(args: seq<ParameterRule>, valEnd: string, lastEnd: string, i: nat): NextArg
    requires i <= |args|
    decreases |args| - i
  {
    if i == |args| then NextArg(Epsilon, Literal(lastEnd))
    else
      var after := Rules(args, valEnd, lastEnd, i + 1);
      var includeThis := Cat(args[i].symbol, after.nextArgWithSep);
      var includeSep := Cat(Literal(valEnd), includeThis);
      if args[i].isRequired then NextArg(includeThis, includeSep)
      else NextArg(Alt([includeThis, after.nextArg]), Alt([includeSep, after.nextArgWithSep]))
  }

  /** The loop in `build_grammar_xml_tool_call`. */
  method BuildArgRules(args: seq<ParameterRule>, valEnd: string, lastEnd: string) returns (nextArg: Expr)
    ensures nextArg == Rules(args, valEnd, lastEnd, 0).nextArg
  {
    var nextArgWithSep := Literal(lastEnd);
    nextArg := Epsilon;
    var i := |args| - 1;
    while i >= 0
      invariant -1 <= i < |args|
      invariant NextArg(nextArg, nextArgWithSep) == Rules(args, valEnd, lastEnd, i + 1)
    {
      var includeThisArg := Cat(args[i].symbol, nextArgWithSep);
      nextArg := if args[i].isRequired then includeThisArg else Alt([includeThisArg, nextArg]);
      includeThisArg := Cat(Literal(valEnd), includeThisArg);
      nextArgWithSep := if args[i].isRequired then includeThisArg else Alt([includeThisArg, nextArgWithSep]);
      i := i - 1;
    }
  }

  // ------------------------------------------------------------ the intended language

  /** A choice of parameters from `i` on: indices in increasing order that leave out no required one. */
  ghost predicate Choice(args: seq<ParameterRule>, i: nat, chosen: seq<nat>)
    requires i <= |args|
  {
    && (forall k | 0 <= k < |chosen| :: i <= chosen[k] < |args|)
    && (forall j, k | 0 <= j < k < |chosen| :: chosen[j] < chosen[k])
    && (forall n | i <= n < |args| && args[n].isRequired :: n in chosen)
  }

  /** One text per chosen parameter, each derived by its rule. */
  ghost predicate Values(args: seq<ParameterRule>, chosen: seq<nat>, texts: seq<string>) {
    && |texts| == |chosen|
    && forall k | 0 <= k < |chosen| :: chosen[k] < |args| && Derives(args[chosen[k]].symbol, texts[k])
  }

  /** The texts, each after the first preceded by `valEnd`, the last followed by `lastEnd`. */
  function Rest(texts: seq<string>, valEnd: string, lastEnd: string): string {
    if texts == [] then lastEnd else valEnd + (texts[0] + Rest(texts[1..], valEnd, lastEnd))
  }

  function Printed(texts: seq<string>, valEnd: string, lastEnd: string): string {
    if texts == [] then "" else texts[0] + Rest(texts[1..], valEnd, lastEnd)
  }

  // ------------------------------------------------------------ both directions

  lemma WithFirst(args: seq<ParameterRule>, i: nat, chosen: seq<nat>, texts: seq<string>, text: string)
    requires i < |args| && Choice(args, i + 1, chosen) && Values(args, chosen, texts)
    requires Derives(args[i].symbol, text)
    ensures Choice(args, i, [i] + chosen) && Values(args, [i] + chosen, [text] + texts)
  {
    var chosen' := [i] + chosen;
    forall n | i <= n < |args| && args[n].isRequired ensures n in chosen' {
      if n == i { assert chosen'[0] == n; }
    }
  }

  /** `s` is a text of parameter `i`, followed by what the rules allow after it. */
  ghost predicate Takes(args: seq<ParameterRule>, valEnd: string, lastEnd: string, i: nat, s: string)
    requires i < |args|
  {
    exists n | 0 <= n <= |s| ::
      Derives(args[i].symbol, s[..n]) && Derives(Rules(args, valEnd, lastEnd, i + 1).nextArgWithSep, s[n..])
  }

  /** The two alternatives of a rule: take this parameter, or, when it is optional, skip it. */
  lemma RuleCases(args: seq<ParameterRule>, valEnd: string, lastEnd: string, i: nat, s: string)
    requires i < |args|
    ensures var here, after := Rules(args, valEnd, lastEnd, i), Rules(args, valEnd, lastEnd, i + 1);
            && (Derives(here.nextArg, s) <==>
                  Takes(args, valEnd, lastEnd, i, s) || (!args[i].isRequired && Derives(after.nextArg, s)))
            && (Derives(here.nextArgWithSep, s) <==>
                  (valEnd <= s && Takes(args, valEnd, lastEnd, i, s[|valEnd|..])) ||
                  (!args[i].isRequired && Derives(after.nextArgWithSep, s)))
  {
    var after := Rules(args, valEnd, lastEnd, i + 1);
    var includeThis := Cat(args[i].symbol, after.nextArgWithSep);
    assert forall t :: Derives(includeThis, t) <==> Takes(args, valEnd, lastEnd, i, t);
    DerivesLiteralThen(valEnd, includeThis, s);
    DerivesEither(includeThis, after.nextArg, s);
    DerivesEither(Cat(Literal(valEnd), includeThis), after.nextArgWithSep, s);
  }

  /** The rule for parameter `i`, after another parameter or as the first. */
  function RuleOf(args: seq<ParameterRule>, valEnd: string, lastEnd: string, i: nat, withSep: bool): Expr
    requires i <= |args|
  {
    if withSep then Rules(args, valEnd, lastEnd, i).nextArgWithSep else Rules(args, valEnd, lastEnd, i).nextArg
  }

  function Separator(valEnd: string, withSep: bool): string { if withSep then valEnd else "" }

  function Ending(texts: seq<string>, valEnd: string, lastEnd: string, withSep: bool): string {
    if withSep then Rest(texts, valEnd, lastEnd) else Printed(texts, valEnd, lastEnd)
  }

  lemma RuleChosen(args: seq<ParameterRule>, valEnd: string, lastEnd: string, i: nat, withSep: bool, s: string)
      returns (taken: bool, body: string)
    requires i < |args| && Derives(RuleOf(args, valEnd, lastEnd, i, withSep), s)
    ensures taken ==> s == Separator(valEnd, withSep) + body && Takes(args, valEnd, lastEnd, i, body)
    ensures !taken ==> !args[i].isRequired && Derives(RuleOf(args, valEnd, lastEnd, i + 1, withSep), s)
  {
    hide Derives; hide Rules; hide Takes;
    RuleCases(args, valEnd, lastEnd, i, s);
    body := if withSep && valEnd <= s then s[|valEnd|..] else s;
    taken := (withSep ==> valEnd <= s) && Takes(args, valEnd, lastEnd, i, body);
  }

  lemma ChooseNothing(args: seq<ParameterRule>, valEnd: string, lastEnd: string, withSep: bool, s: string)
    requires Derives(RuleOf(args, valEnd, lastEnd, |args|, withSep), s)
    ensures Choice(args, |args|, []) && Values(args, [], []) && s == Ending([], valEnd, lastEnd, withSep)
  {
    NoMoreRules(args, valEnd, lastEnd, s);
  }

  lemma Chosen(args: seq<ParameterRule>, i: nat, chosen: seq<nat>)
    requires i < |args| && !args[i].isRequired && Choice(args, i + 1, chosen)
    ensures Choice(args, i, chosen)
  {}

  /** Whatever the rules derive is the printed form of a choice. */
  lemma {:induction false} DerivedIsPrinted(args: seq<ParameterRule>, valEnd: string, lastEnd: string, i: nat,
                                            withSep: bool, s: string)
      returns (chosen: seq<nat>, texts: seq<string>)
    requires i <= |args| && Derives(RuleOf(args, valEnd, lastEnd, i, withSep), s)
    ensures Choice(args, i, chosen) && Values(args, chosen, texts) && s == Ending(texts, valEnd, lastEnd, withSep)
    decreases |args| - i
  {
    hide *;
    if i == |args| {
      ChooseNothing(args, valEnd, lastEnd, withSep, s);
      return [], [];
    }
    var taken, body := RuleChosen(args, valEnd, lastEnd, i, withSep, s);
    if taken {
      chosen, texts := TakenIsPrinted(args, valEnd, lastEnd, i, withSep, body);
    } else {
      chosen, texts := DerivedIsPrinted(args, valEnd, lastEnd, i + 1, withSep, s);
      Chosen(args, i, chosen);
    }
  }

  lemma {:induction false} TakenIsPrinted(args: seq<ParameterRule>, valEnd: string, lastEnd: string, i: nat,
                                          withSep: bool, s: string)
      returns (chosen: seq<nat>, texts: seq<string>)
    requires i < |args| && Takes(args, valEnd, lastEnd, i, s)
    ensures Choice(args, i, chosen) && Values(args, chosen, texts)
    ensures Separator(valEnd, withSep) + s == Ending(texts, valEnd, lastEnd, withSep)
    decreases |args| - i, 0
  {
    hide Choice; hide Values; hide Derives;
    var n :| 0 <= n <= |s| && Derives(args[i].symbol, s[..n]) &&
             Derives(Rules(args, valEnd, lastEnd, i + 1).nextArgWithSep, s[n..]);
    var moreChosen, moreTexts := DerivedIsPrinted(args, valEnd, lastEnd, i + 1, true, s[n..]);
    WithFirst(args, i, moreChosen, moreTexts, s[..n]);
    chosen, texts := [i] + moreChosen, [s[..n]] + moreTexts;
    assert texts[1..] == moreTexts && s == s[..n] + s[n..];
    assert "" + s == s;
  }

  lemma WithoutFirst(args: seq<ParameterRule>, i: nat, chosen: seq<nat>, texts: seq<string>)
    requires i < |args| && Choice(args, i, chosen) && Values(args, chosen, texts)
    ensures if chosen != [] && chosen[0] == i
            then Choice(args, i + 1, chosen[1..]) && Values(args, chosen[1..], texts[1..])
            else !args[i].isRequired && Choice(args, i + 1, chosen)
  {
    if chosen != [] && chosen[0] == i {
      forall n | i + 1 <= n < |args| && args[n].isRequired ensures n in chosen[1..] {
        var k :| 0 <= k < |chosen| && chosen[k] == n;
        assert chosen[1..][k - 1] == n;
      }
    } else {
      forall k | 0 <= k < |chosen| ensures chosen[k] != i {
        assert k > 0 ==> chosen[0] < chosen[k];
      }
    }
  }

  /** The printed form of every choice is derived. */
  lemma {:induction false} PrintedIsDerived(args: seq<ParameterRule>, valEnd: string, lastEnd: string, i: nat,
                                            chosen: seq<nat>, texts: seq<string>)
    requires i <= |args| && Choice(args, i, chosen) && Values(args, chosen, texts)
    ensures Derives(Rules(args, valEnd, lastEnd, i).nextArgWithSep, Rest(texts, valEnd, lastEnd))
    ensures Derives(Rules(args, valEnd, lastEnd, i).nextArg, Printed(texts, valEnd, lastEnd))
    decreases |args| - i
  {
    hide Derives; hide Rules; hide Choice; hide Values; hide Rest; hide Printed;
    FirstInRange(args, i, chosen);
    if chosen == [] && i == |args| {
      PrintedNothing(args, valEnd, lastEnd, texts);
    } else {
      WithoutFirst(args, i, chosen, texts);
      if chosen != [] && chosen[0] == i {
        SameCount(args, chosen, texts);
        PrintedIsDerived(args, valEnd, lastEnd, i + 1, chosen[1..], texts[1..]);
        StepTaken(args, valEnd, lastEnd, i, chosen, texts);
      } else {
        PrintedIsDerived(args, valEnd, lastEnd, i + 1, chosen, texts);
        RuleCases(args, valEnd, lastEnd, i, Printed(texts, valEnd, lastEnd));
        RuleCases(args, valEnd, lastEnd, i, Rest(texts, valEnd, lastEnd));
      }
    }
  }

  lemma PrintedNothing(args: seq<ParameterRule>, valEnd: string, lastEnd: string, texts: seq<string>)
    requires Values(args, [], texts)
    ensures Derives(Rules(args, valEnd, lastEnd, |args|).nextArgWithSep, Rest(texts, valEnd, lastEnd))
    ensures Derives(Rules(args, valEnd, lastEnd, |args|).nextArg, Printed(texts, valEnd, lastEnd))
  {
    NoMoreRules(args, valEnd, lastEnd, "");
    NoMoreRules(args, valEnd, lastEnd, lastEnd);
  }

  lemma StepTaken(args: seq<ParameterRule>, valEnd: string, lastEnd: string, i: nat,
                  chosen: seq<nat>, texts: seq<string>)
    requires i < |args| && Values(args, chosen, texts) && chosen != [] && chosen[0] == i
    requires Derives(Rules(args, valEnd, lastEnd, i + 1).nextArgWithSep, Rest(texts[1..], valEnd, lastEnd))
    ensures Derives(Rules(args, valEnd, lastEnd, i).nextArgWithSep, Rest(texts, valEnd, lastEnd))
    ensures Derives(Rules(args, valEnd, lastEnd, i).nextArg, Printed(texts, valEnd, lastEnd))
  {
    hide Derives; hide Rules; hide Takes;
    var s, t := Printed(texts, valEnd, lastEnd), Rest(texts, valEnd, lastEnd);
    TakesFirst(args, valEnd, lastEnd, i, chosen, texts);
    assert t == valEnd + s && t[|valEnd|..] == s;
    RuleCases(args, valEnd, lastEnd, i, s);
    RuleCases(args, valEnd, lastEnd, i, t);
  }

  lemma SameCount(args: seq<ParameterRule>, chosen: seq<nat>, texts: seq<string>)
    requires Values(args, chosen, texts)
    ensures |texts| == |chosen|
  {}

  lemma TakesFirst(args: seq<ParameterRule>, valEnd: string, lastEnd: string, i: nat,
                   chosen: seq<nat>, texts: seq<string>)
    requires i < |args| && Values(args, chosen, texts) && chosen != [] && chosen[0] == i
    requires Derives(Rules(args, valEnd, lastEnd, i + 1).nextArgWithSep, Rest(texts[1..], valEnd, lastEnd))
    ensures Takes(args, valEnd, lastEnd, i, Printed(texts, valEnd, lastEnd))
  {
    hide Rules;
    var s, n := Printed(texts, valEnd, lastEnd), |texts[0]|;
    assert s[..n] == texts[0] && s[n..] == Rest(texts[1..], valEnd, lastEnd);
  }

  lemma NoMoreRules(args: seq<ParameterRule>, valEnd: string, lastEnd: string, s: string)
    ensures var end := Rules(args, valEnd, lastEnd, |args|);
            (Derives(end.nextArg, s) <==> s == "") && (Derives(end.nextArgWithSep, s) <==> s == lastEnd)
  {}

  lemma FirstInRange(args: seq<ParameterRule>, i: nat, chosen: seq<nat>)
    requires i <= |args| && Choice(args, i, chosen)
    ensures chosen != [] ==> i <= chosen[0] < |args|
  {}

  /** The grammar of a call's arguments derives exactly the printed choices: the in-order selections
      that contain every required parameter, separated by `valEnd` and closed by `lastEnd`, or the
      empty text when nothing is chosen. */
  lemma ArgumentLanguage(args: seq<ParameterRule>, valEnd: string, lastEnd: string, s: string)
    ensures Derives(Rules(args, valEnd, lastEnd, 0).nextArg, s) <==>
            exists chosen: seq<nat>, texts: seq<string> ::
              Choice(args, 0, chosen) && Values(args, chosen, texts) && s == Printed(texts, valEnd, lastEnd)
  {
    if Derives(Rules(args, valEnd, lastEnd, 0).nextArg, s) {
      var chosen, texts := DerivedIsPrinted(args, valEnd, lastEnd, 0, false, s);
    }
    if chosen: seq<nat>, texts: seq<string> :|
       Choice(args, 0, chosen) && Values(args, chosen, texts) && s == Printed(texts, valEnd, lastEnd) {
      PrintedIsDerived(args, valEnd, lastEnd, 0, chosen, texts);
    }
  }
}
