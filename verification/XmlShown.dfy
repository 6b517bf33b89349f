/** What is shown of unfinished arguments, and its order. */
module XmlShown {
  import opened Wrappers
  import opened Text
  import opened Json
  import opened XmlSpec

  // ------------------------------------------------------------ what is shown of unfinished arguments

  function DropQuote(p: string): string {
    if p != "" && p[|p| - 1] == '"' then p[..|p| - 1] else p
  }

  predicate OnlyClosing(q: string) {
    forall i | 0 <= i < |q| :: q[i] == '"' || q[i] == '}' || q[i] == ':'
  }

  lemma {:induction false} FindLastIs(s: string, t: string, from: nat, k: nat)
    requires k <= from <= |s| && OccursAt(s, t, k) && forall i: nat | k < i <= from :: !OccursAt(s, t, i)
    ensures FindLast(s, t, from) == Some(k)
    decreases from
  {
    hide OccursAt;
    if from > k { FindLastIs(s, t, from - 1, k); }
  }

  lemma {:induction false} FindLastMeans(s: string, t: string, from: nat)
    requires from <= |s|
    ensures match FindLast(s, t, from)
            case Some(k) => OccursAt(s, t, k) && forall i: nat | k < i <= from :: !OccursAt(s, t, i)
            case None => forall i: nat | i <= from :: !OccursAt(s, t, i)
    decreases from
  {
    hide OccursAt;
    if !OccursAt(s, t, from) && from > 0 { FindLastMeans(s, t, from - 1); }
  }

  lemma FlagEnds()
    ensures |Flag| == 26 && Flag[25] == 'G'
  {}

  /** The cut at the flag leaves what stands before it, without an opening quote. */
  lemma FlagCut(p: string, q: string)
    requires OnlyClosing(q)
    ensures CutAtFlag(p + (Flag + q)) == Some(DropQuote(p))
  {
    FlagEnds();
    hide Flag;
    var s, k := p + (Flag + q), |p|;
    assert s[k..k + |Flag|] == Flag;
    forall i: nat | k < i <= |s| ensures !OccursAt(s, Flag, i) {
      if i + 26 <= |s| {
        assert s[i..i + 26][25] == s[i + 25] == q[i + 25 - k - 26];
      }
    }
    FindLastIs(s, Flag, |s|, k);
    forall i | k + |Flag| <= i < |s| ensures ClosingChar(s[i]) {
      assert s[i] == q[i - k - |Flag|];
    }
    assert s[..k] == p;
    if k > 0 { assert s[..k - 1] == p[..k - 1] && s[k - 1] == p[k - 1]; }
  }

  /** Where something else than the end of a value follows the last flag, nothing is shown. */
  lemma FlagInside(json: string, k: nat, i: nat)
    requires OccursAt(json, Flag, k) && forall j: nat | k < j :: !OccursAt(json, Flag, j)
    requires k + |Flag| <= i < |json| && json[i] !in "'\"}: \t\n\r" && json[i] as int !in {11, 12}
    ensures CutAtFlag(json) == None
  {
    hide Flag; hide OccursAt;
    FindLastFirst(json, k);
    FindLastIs(json, Flag, |json|, k);
  }

  lemma FindLastFirst(json: string, k: nat)
    requires OccursAt(json, Flag, k)
    ensures k <= |json|
  {}

  function Comma(args: Members): string {
    if args == [] then "" else ","
  }

  lemma {:induction false} DumpSnoc(args: Members, key: string, value: Value)
    ensures DumpMembers(args + [(key, value)]) ==
            DumpMembers(args) + (Comma(args) + (Quote(key) + (":" + DumpValue(value))))
  {
    hide *;
    var all := args + [(key, value)];
    var rest := Quote(key) + (":" + DumpValue(value));
    CommaIs(args);
    DumpCons(all);
    if args == [] {
      DumpCons(args);
      assert all == [(key, value)];
      assert "" + ("" + rest) == rest && (Quote(key) + ":" + DumpValue(value)) + "" == rest;
    } else {
      assert all[1..] == args[1..] + [(key, value)] && all[0] == args[0];
      DumpSnoc(args[1..], key, value);
      DumpCons(args);
      CommaIs(args[1..]);
      DumpCons(args[1..]);
      SnocText(Quote(args[0].0) + ":" + DumpValue(args[0].1), DumpMembers(args[1..]), rest, |args| == 1);
    }
  }

  lemma CommaIs(args: Members)
    ensures Comma(args) == if args == [] then "" else ","
  {}

  lemma DumpCons(args: Members)
    ensures if args == [] then DumpMembers(args) == ""
            else DumpMembers(args) == Quote(args[0].0) + ":" + DumpValue(args[0].1) +
                                      (if |args| == 1 then "" else "," + DumpMembers(args[1..]))
  {
    hide Quote; hide DumpValue;
  }

  lemma SnocText(front: string, mid: string, rest: string, only: bool)
    requires only ==> mid == ""
    ensures front + ("," + (mid + ((if only then "" else ",") + rest))) ==
            (front + (if only then "" else "," + mid)) + ("," + rest)
  {}

  /** The finished arguments, and the beginning of one more key. */
  function KeyText(args: Members, key: string): string {
    OpenDump(args) + (Comma(args) + ("\"" + EscapeAll(key)))
  }

  /** And, after the whole key, the beginning of its value. */
  function ValueText(args: Members, key: string, text: string): string {
    OpenDump(args) + (Comma(args) + (Quote(key) + (":\"" + EscapeAll(text))))
  }

  lemma OpenDumpIs(args: Members)
    ensures OpenDump(args) == "{" + DumpMembers(args)
  {
    hide DumpMembers;
  }

  lemma {:induction false} PlainStays(s: string)
    requires forall i | 0 <= i < |s| :: 'A' <= s[i] <= '_' && s[i] != '\\'
    ensures EscapeAll(s) == s
  {
    if s != "" {
      PlainStays(s[1..]);
      assert EscapeChar(s[0]) == [s[0]];
    }
  }

  lemma FlagIsPlain()
    ensures EscapeAll(Flag) == Flag
  {
    PlainStays(Flag);
  }

  lemma DumpOfNew(args: Members, key: string, value: Value)
    requires !HasKey(args, key)
    ensures Dump(Put(args, key, value)) ==
            OpenDump(args) + (Comma(args) + (Quote(key) + (":" + (DumpValue(value) + "}"))))
  {
    hide DumpMembers; hide Quote; hide DumpValue; hide Put; hide HasKey;
    PutNewKey(args, key, value);
    DumpSnoc(args, key, value);
    OpenDumpIs(args);
    Sixfold("{", DumpMembers(args), Comma(args), Quote(key), ":", DumpValue(value), "}");
  }

  lemma Sixfold(a: string, b: string, c: string, d: string, e: string, f: string, g: string)
    ensures a + (b + (c + (d + (e + f)))) + g == (a + b) + (c + (d + (e + (f + g))))
  {}

  lemma QuoteOf(a: string, b: string)
    ensures Quote(a + b) == ("\"" + EscapeAll(a)) + (EscapeAll(b) + "\"")
  {
    hide EscapeAll;
    EscapeAllJoins(a, b);
  }

  lemma QuoteOfFlagged(a: string)
    ensures Quote(a + Flag) == ("\"" + EscapeAll(a)) + (Flag + "\"")
  {
    hide EscapeAll; hide Quote; hide Flag;
    FlagIsPlain();
    QuoteOf(a, Flag);
  }

  lemma FlaggedKeyDump(args: Members, key: string)
    requires !HasKey(args, key + Flag)
    ensures CutAtFlag(Dump(Put(args, key + Flag, Str("")))) == Some(DropQuote(KeyText(args, key)))
  {
    hide *;
    DumpOfNew(args, key + Flag, Str(""));
    QuoteOfFlagged(key);
    EmptyValue();
    KeyTextIs(args, key);
    Around(OpenDump(args), Comma(args), "\"" + EscapeAll(key), Flag, "\"", ":" + ("\"\"" + "}"));
    ClosesKey();
    FlagCut(KeyText(args, key), "\"" + (":" + ("\"\"" + "}")));
  }

  lemma EmptyValue()
    ensures DumpValue(Str("")) == "\"\""
  {
    assert EscapeAll("") == "";
  }

  lemma KeyTextIs(args: Members, key: string)
    ensures KeyText(args, key) == OpenDump(args) + (Comma(args) + ("\"" + EscapeAll(key)))
  {
    hide EscapeAll; hide OpenDump;
  }

  lemma ClosesKey()
    ensures OnlyClosing("\"" + (":" + ("\"\"" + "}")))
  {}

  lemma Around(a: string, b: string, c: string, flag: string, d: string, e: string)
    ensures a + (b + ((c + (flag + d)) + e)) == (a + (b + c)) + (flag + (d + e))
  {}

  lemma FlaggedValueDump(args: Members, key: string, text: string)
    requires !HasKey(args, key)
    ensures CutAtFlag(Dump(Put(args, key, Str(text + Flag)))) == Some(DropQuote(ValueText(args, key, text)))
  {
    hide *;
    DumpOfNew(args, key, Str(text + Flag));
    DumpStr(text + Flag);
    QuoteOfFlagged(text);
    ValueTextIs(args, key, text);
    AroundValue(OpenDump(args), Comma(args), Quote(key), EscapeAll(text), Flag);
    ClosesValue();
    FlagCut(ValueText(args, key, text), "\"" + "}");
  }

  lemma DumpStr(text: string)
    ensures DumpValue(Str(text)) == Quote(text)
  {}

  lemma ValueTextIs(args: Members, key: string, text: string)
    ensures ValueText(args, key, text) ==
            OpenDump(args) + (Comma(args) + (Quote(key) + (":\"" + EscapeAll(text))))
  {
    hide EscapeAll; hide OpenDump; hide Quote;
  }

  lemma ClosesValue()
    ensures OnlyClosing("\"" + "}")
  {}

  lemma AroundValue(a: string, b: string, c: string, d: string, flag: string)
    ensures a + (b + (c + (":" + ((("\"" + d) + (flag + "\"")) + "}")))) ==
            (a + (b + (c + (":\"" + d)))) + (flag + ("\"" + "}"))
  {
    assert ":" + ("\"" + d) == ":\"" + d;
  }

  // ------------------------------------------------------------ the order of what is shown

  lemma DropIsPrefix(p: string)
    ensures DropQuote(p) <= p
  {}

  lemma PrefixOfDropped(a: string, b: string, c: string)
    requires a <= b && c != ""
    ensures a <= DropQuote(b + c)
  {
    var t := b + c;
    assert t[..|t| - 1][..|b|] == b;
  }

  lemma EscapeOfSome(x: string)
    requires x != ""
    ensures EscapeAll(x) == EscapeAll(x[..|x| - 1]) + EscapeAll(x[|x| - 1..]) && EscapeAll(x[|x| - 1..]) != ""
  {
    hide *;
    LastOf(x);
    EscapeAllJoins(x[..|x| - 1], x[|x| - 1..]);
    EscapeOne(x[|x| - 1]);
  }

  lemma LastOf(x: string)
    requires x != ""
    ensures x == x[..|x| - 1] + x[|x| - 1..] && x[|x| - 1..] == [x[|x| - 1]]
  {}

  lemma EscapeOne(c: char)
    ensures EscapeAll([c]) != ""
  {
    hide EscapeChar;
    assert [c][1..] == "";
  }

  lemma AllButLast(x: string, y: string)
    requires x <= y && x != y
    ensures x <= y[..|y| - 1]
  {}

  lemma Regroup(a: string, b: string, c: string)
    ensures a + (b + c) == (a + b) + c
  {}

  lemma BothGrow(a: string, u: string, x: string, y: string)
    requires a <= u + x && x <= y
    ensures a <= u + y
  {
    assert u + x <= u + y;
  }

  lemma DropGrows(u: string, x: string, y: string)
    requires x <= y
    ensures DropQuote(u + EscapeAll(x)) <= DropQuote(u + EscapeAll(y))
  {
    hide *;
    if x != y {
      AllButLast(x, y);
      EscapeOfSome(y);
      EscapeAllMonotone(x, y[..|y| - 1]);
      var front, last := EscapeAll(y[..|y| - 1]), EscapeAll(y[|y| - 1..]);
      Regroup(u, front, last);
      DropIsPrefix(u + EscapeAll(x));
      BothGrow(DropQuote(u + EscapeAll(x)), u, EscapeAll(x), front);
      PrefixOfDropped(DropQuote(u + EscapeAll(x)), u + front, last);
    }
  }

  lemma KeyGrows(args: Members, x: string, y: string)
    requires x <= y
    ensures DropQuote(KeyText(args, x)) <= DropQuote(KeyText(args, y))
  {
    hide *;
    KeyTextIs(args, x);
    KeyTextIs(args, y);
    var u := OpenDump(args) + (Comma(args) + "\"");
    Joins4(OpenDump(args), Comma(args), "\"", EscapeAll(x));
    Joins4(OpenDump(args), Comma(args), "\"", EscapeAll(y));
    DropGrows(u, x, y);
  }

  lemma Joins4(a: string, b: string, c: string, d: string)
    ensures a + (b + (c + d)) == (a + (b + c)) + d
  {}

  lemma StartsWithDump(args: Members, key: string)
    ensures OpenDump(args) <= DropQuote(KeyText(args, key))
  {
    hide *;
    KeyTextIs(args, key);
    var tail := "\"" + EscapeAll(key);
    FrontPart(OpenDump(args), Comma(args));
    assert OpenDump(args) + (Comma(args) + tail) == (OpenDump(args) + Comma(args)) + tail;
    PrefixOfDropped(OpenDump(args), OpenDump(args) + Comma(args), tail);
  }

  lemma FrontPart(a: string, b: string)
    ensures a <= a + b
  {}

  lemma QuoteIs(key: string)
    ensures Quote(key) == ("\"" + EscapeAll(key)) + "\""
  {
    hide EscapeAll;
  }

  lemma OpenOfDump(args: Members)
    ensures Dump(args) == OpenDump(args) + "}"
  {
    hide DumpMembers;
  }

  // ------------------------------------------------------------ an argument and the beginning of its value

  /** The finished arguments, one more key, and the beginning of what is printed for its value. */
  function ShownArg(args: Members, key: string, begun: string): string {
    OpenDump(args) + (Comma(args) + (Quote(key) + (":" + begun)))
  }

  /** The text of a value, as far as it is shown while it grows. */
  function BegunText(text: string): string {
    DropQuote("\"" + EscapeAll(text))
  }

  lemma ShownArgIs(args: Members, key: string, begun: string)
    ensures ShownArg(args, key, begun) == OpenDump(args) + (Comma(args) + (Quote(key) + (":" + begun)))
  {
    hide OpenDump; hide Quote;
  }

  lemma DropAfter(a: string, b: string)
    requires b != ""
    ensures DropQuote(a + b) == a + DropQuote(b)
  {
    assert (a + b)[..|a + b| - 1] == a + b[..|b| - 1];
  }

  lemma ShownValue(args: Members, key: string, text: string)
    ensures DropQuote(ValueText(args, key, text)) == ShownArg(args, key, BegunText(text))
  {
    hide *;
    ValueTextIs(args, key, text);
    var front := OpenDump(args) + (Comma(args) + (Quote(key) + ":"));
    BegunTextIs(text);
    ShownArgIs(args, key, BegunText(text));
    assert ":\"" == ":" + "\"";
    assert OpenDump(args) + (Comma(args) + (Quote(key) + (":\"" + EscapeAll(text)))) ==
           front + ("\"" + EscapeAll(text));
    DropAfter(front, "\"" + EscapeAll(text));
    assert OpenDump(args) + (Comma(args) + (Quote(key) + (":" + BegunText(text)))) == front + BegunText(text);
  }

  lemma BegunTextIs(text: string)
    ensures BegunText(text) == DropQuote("\"" + EscapeAll(text))
  {
    hide EscapeAll;
  }

  lemma BegunTextGrows(x: string, y: string)
    requires x <= y
    ensures BegunText(x) <= BegunText(y)
  {
    hide *;
    BegunTextIs(x);
    BegunTextIs(y);
    DropGrows("\"", x, y);
  }

  lemma NoTextShown()
    ensures BegunText("") == ""
  {
    assert EscapeAll("") == "" && "\"" + "" == "\"";
  }

  /** What is shown of a text begins the finished value. */
  lemma BegunTextBegins(text: string)
    ensures BegunText(text) <= DumpValue(Str(text))
  {
    hide *;
    BegunTextIs(text);
    DropIsPrefix("\"" + EscapeAll(text));
    DumpStr(text);
    QuoteIs(text);
    FrontPart("\"" + EscapeAll(text), "\"");
  }

  lemma Joins5(a: string, b: string, c: string, d: string, e: string)
    ensures a + (b + (c + (d + e))) == (a + (b + (c + d))) + e
  {}

  lemma ShownArgGrows(args: Members, key: string, x: string, y: string)
    requires x <= y
    ensures ShownArg(args, key, x) <= ShownArg(args, key, y)
  {
    hide *;
    ShownArgIs(args, key, x);
    ShownArgIs(args, key, y);
    Joins5(OpenDump(args), Comma(args), Quote(key), ":", x);
    Joins5(OpenDump(args), Comma(args), Quote(key), ":", y);
    BothGrow(ShownArg(args, key, x), OpenDump(args) + (Comma(args) + (Quote(key) + ":")), x, y);
  }

  lemma ShownAfterDump(args: Members, key: string, begun: string)
    ensures OpenDump(args) <= ShownArg(args, key, begun)
  {
    hide *;
    ShownArgIs(args, key, begun);
    FrontPart(OpenDump(args), Comma(args) + (Quote(key) + (":" + begun)));
  }

  /** The beginning of a key comes before its value. */
  lemma KeyBeforeArg(args: Members, x: string, key: string, begun: string)
    requires x <= key
    ensures DropQuote(KeyText(args, x)) <= ShownArg(args, key, begun)
  {
    hide *;
    KeyGrows(args, x, key);
    DropIsPrefix(KeyText(args, key));
    KeyTextIs(args, key);
    QuoteIs(key);
    ShownArgIs(args, key, begun);
    var front := KeyText(args, key);
    assert OpenDump(args) + (Comma(args) + ((("\"" + EscapeAll(key)) + "\"") + (":" + begun))) ==
           front + ("\"" + (":" + begun));
    FrontPart(front, "\"" + (":" + begun));
  }

  /** The finished argument. */
  lemma OpenWithArg(args: Members, key: string, value: Value)
    requires !HasKey(args, key)
    ensures OpenDump(args + [(key, value)]) == ShownArg(args, key, DumpValue(value))
  {
    hide *;
    PutNewKey(args, key, value);
    DumpOfNew(args, key, value);
    OpenOfDump(args + [(key, value)]);
    ShownArgIs(args, key, DumpValue(value));
    Sixth(OpenDump(args), Comma(args), Quote(key), ":", DumpValue(value));
    SameFront(OpenDump(args + [(key, value)]), ShownArg(args, key, DumpValue(value)));
  }

  lemma SameFront(a: string, b: string)
    requires a + "}" == b + "}"
    ensures a == b
  {
    assert |a| == |b|;
    assert a == (a + "}")[..|a|] && b == (b + "}")[..|b|];
  }

  lemma Sixth(a: string, b: string, c: string, d: string, e: string)
    ensures a + (b + (c + (d + (e + "}")))) == (a + (b + (c + (d + e)))) + "}"
  {}
}
