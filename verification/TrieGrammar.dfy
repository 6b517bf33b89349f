/** `make_gbnf_excluding`: a trie of forbidden strings turned into a grammar of chunks. */
module TrieGrammar {
  import opened Wrappers
  import opened Gbnf

  type Strings = seq<string>

  // ------------------------------------------------------------ sorting

  /** The order of `std::string`. */
  predicate LexLe(a: string, b: string) {
    a == "" || (b != "" && (a[0] < b[0] || (a[0] == b[0] && LexLe(a[1..], b[1..]))))
  }

  predicate Sorted(f: Strings) {
    forall i, j | 0 <= i <= j < |f| :: LexLe(f[i], f[j])
  }

  function Insert(s: string, f: Strings): Strings {
    if f == [] || LexLe(s, f[0]) then [s] + f else [f[0]] + Insert(s, f[1..])
  }

  function Sort(f: Strings): Strings {
    if f == [] then [] else Insert(f[0], Sort(f[1..]))
  }

  lemma {:induction false} LexTotal(a: string, b: string)
    ensures LexLe(a, b) || LexLe(b, a)
    ensures LexLe(a, a)
  {
    if a != "" { LexTotal(a[1..], a[1..]); }
    if a != "" && b != "" { LexTotal(a[1..], b[1..]); }
  }

  lemma {:induction false} LexTransitive(a: string, b: string, c: string)
    requires LexLe(a, b) && LexLe(b, c)
    ensures LexLe(a, c)
  {
    if a != "" && a[0] == b[0] && b[0] == c[0] {
      LexTransitive(a[1..], b[1..], c[1..]);
    }
  }

  lemma {:induction false} InsertSorts(s: string, f: Strings)
    requires Sorted(f)
    ensures Sorted(Insert(s, f)) && multiset(Insert(s, f)) == multiset(f) + multiset{s}
  {
    var r := Insert(s, f);
    hide LexLe;
    if f != [] { LexTotal(s, f[0]); }
    LexTotal(s, s);
    if f == [] || LexLe(s, f[0]) {
      forall i, j | 0 <= i <= j < |r| ensures LexLe(r[i], r[j]) {
        if i == 0 && j > 0 { LexTransitive(s, f[0], f[j - 1]); }
      }
    } else {
      InsertSorts(s, f[1..]);
      var t := Insert(s, f[1..]);
      assert f == [f[0]] + f[1..];
      forall j | 0 <= j < |t| ensures LexLe(f[0], t[j]) {
        assert t[j] in multiset(t);
        if t[j] != s {
          assert t[j] in multiset(f[1..]);
          var k :| 0 <= k < |f[1..]| && f[1..][k] == t[j];
          assert f[1..][k] == f[k + 1];
        }
      }
      LexTotal(f[0], f[0]);
      assert r == [f[0]] + t;
    }
  }

  lemma {:induction false} SortSorts(f: Strings)
    ensures Sorted(Sort(f)) && multiset(Sort(f)) == multiset(f)
  {
    if f != [] {
      SortSorts(f[1..]);
      InsertSorts(f[0], Sort(f[1..]));
      assert f == [f[0]] + f[1..];
    }
  }

  // ------------------------------------------------------------ the trie

  /** A child of a trie node: its byte, and the range of strings below it. */
  datatype Child = Child(c: char, lo: nat, hi: nat)

  /** The strings in `[l, r)` share their first `depth` bytes. */
  ghost predicate Range(f: Strings, l: nat, r: nat, depth: nat) {
    && l <= r <= |f|
    && (forall k | l <= k < r :: depth <= |f[k]|)
    && (forall j, k | l <= j <= k < r :: LexLe(f[j][depth..], f[k][depth..]))
  }

  predicate Has(f: Strings, k: nat, depth: nat, c: char)
    requires k < |f|
  {
    depth < |f[k]| && f[k][depth] == c
  }

  /** The inner loop: where the run of strings with byte `c` at `depth` ends. */
  function GroupEnd(f: Strings, j: nat, r: nat, depth: nat, c: char): (e: nat)
    requires j <= r <= |f|
    ensures j <= e <= r
    decreases r - j
  {
    if j < r && Has(f, j, depth, c) then GroupEnd(f, j + 1, r, depth, c) else j
  }

  lemma {:induction false} GroupHas(f: Strings, j: nat, r: nat, depth: nat, c: char)
    requires j <= r <= |f|
    ensures var e := GroupEnd(f, j, r, depth, c);
            (forall k | j <= k < e :: Has(f, k, depth, c)) && (e < r ==> !Has(f, e, depth, c))
    decreases r - j
  {
    if j < r && Has(f, j, depth, c) { GroupHas(f, j + 1, r, depth, c); }
  }

  /** Whether every string of the range has more than `depth` bytes in common: a child's range. */
  ghost predicate AllHave(f: Strings, c: Child, depth: nat)
    requires c.hi <= |f|
  {
    forall k | c.lo <= k < c.hi :: Has(f, k, depth, c.c)
  }

  lemma AllLonger(f: Strings, c: Child, depth: nat)
    requires c.hi <= |f| && AllHave(f, c, depth)
    ensures forall k | c.lo <= k < c.hi :: depth + 1 <= |f[k]|
  {
    forall k | c.lo <= k < c.hi ensures depth + 1 <= |f[k]| {
      assert Has(f, k, depth, c.c);
    }
  }

  /** The outer loop of `build_expr`. */
  function Children(f: Strings, i: nat, r: nat, depth: nat): (cs: seq<Child>)
    requires i <= r <= |f| && forall k | i <= k < r :: depth <= |f[k]|
    ensures forall n | 0 <= n < |cs| :: i <= cs[n].lo < cs[n].hi <= r && AllHave(f, cs[n], depth)
    decreases r - i
  {
    if i == r then []
    else if |f[i]| == depth then Children(f, i + 1, r, depth)
    else
      var c := f[i][depth];
      var j := GroupEnd(f, i, r, depth, c);
      GroupHas(f, i, r, depth, c);
      [Child(c, i, j)] + Children(f, j, r, depth)
  }

  function Bytes(cs: seq<Child>): seq<char> {
    if cs == [] then [] else [cs[0].c] + Bytes(cs[1..])
  }

  ghost function MaxLength(f: Strings): nat {
    if f == [] then 0 else var m := MaxLength(f[1..]); if |f[0]| > m then |f[0]| else m
  }

  lemma {:induction false} WithinMaxLength(f: Strings, k: nat)
    requires k < |f|
    ensures |f[k]| <= MaxLength(f)
  {
    if k > 0 { WithinMaxLength(f[1..], k - 1); }
  }

  /** In a sorted range the strings with a given byte next form one run: strings before `i` that lack
      the byte after one that has it cannot be followed by another that has it. */
  lemma RunsAreContiguous(f: Strings, l: nat, r: nat, depth: nat, i: nat, j: nat, k: nat, c: char)
    requires Range(f, l, r, depth) && l <= i <= j <= k < r
    requires Has(f, i, depth, c) && Has(f, k, depth, c)
    ensures Has(f, j, depth, c)
  {
    assert LexLe(f[i][depth..], f[j][depth..]) && LexLe(f[j][depth..], f[k][depth..]);
  }

  lemma ChildrenSkip(f: Strings, i: nat, r: nat, depth: nat)
    requires i < r <= |f| && (forall k | i <= k < r :: depth <= |f[k]|) && |f[i]| == depth
    ensures Children(f, i, r, depth) == Children(f, i + 1, r, depth)
  {}

  /** Each string that goes on with byte `c` lies in the child for `c`. */
  lemma {:induction false} ChildrenCover(f: Strings, l: nat, i: nat, r: nat, depth: nat, k: nat)
    requires Range(f, l, r, depth) && l <= i <= k < r && depth < |f[k]|
    ensures var cs := Children(f, i, r, depth);
            exists n | 0 <= n < |cs| :: cs[n].c == f[k][depth] && cs[n].lo <= k < cs[n].hi
    decreases r - i
  {
    var cs := Children(f, i, r, depth);
    if |f[i]| == depth {
      ChildrenSkip(f, i, r, depth);
      ChildrenCover(f, l, i + 1, r, depth, k);
    } else {
      var c := f[i][depth];
      var j := GroupEnd(f, i, r, depth, c);
      GroupHas(f, i, r, depth, c);
      if k < j {
        assert Has(f, k, depth, c);
        assert cs[0] == Child(c, i, j);
      } else {
        ChildrenCover(f, l, j, r, depth, k);
        var rest := Children(f, j, r, depth);
        var n :| 0 <= n < |rest| && rest[n].c == f[k][depth] && rest[n].lo <= k < rest[n].hi;
        assert cs[n + 1] == rest[n];
      }
    }
  }

  /** `build_expr`, and its loop over the children. */
  function Build(f: Strings, l: nat, r: nat, depth: nat): Option<Expr>
    requires l <= r <= |f| && forall k | l <= k < r :: depth <= |f[k]|
    decreases MaxLength(f) - depth, 1, 0
  {
    var cs := Children(f, l, r, depth);
    if cs == [] then None
    else
      assert Has(f, cs[0].lo, depth, cs[0].c);
      WithinMaxLength(f, cs[0].lo);
      Some(Alt([NotIn(Bytes(cs))] + Branches(f, cs, depth)))
  }

  function Branches(f: Strings, cs: seq<Child>, depth: nat): (bs: seq<Expr>)
    requires forall n | 0 <= n < |cs| :: cs[n].lo < cs[n].hi <= |f| && AllHave(f, cs[n], depth)
    requires cs != [] ==> depth < MaxLength(f)
    decreases MaxLength(f) - depth, 0, |cs|
  {
    if cs == [] then []
    else
      AllLonger(f, cs[0], depth);
      var here := match Build(f, cs[0].lo, cs[0].hi, depth + 1)
                  case Some(e) => [Cat(Literal([cs[0].c]), e)]
                  case None => [];
      here + Branches(f, cs[1..], depth)
  }

  /** `make_gbnf_excluding` */
  function MakeExcluding(forbids: Strings): Expr {
    if forbids == [] then Star(AnyChar)
    else
      var f := Sort(forbids);
      match Build(f, 0, |f|, 0)
      case Some(e) => Star(e)
      case None => Star(NotIn([]))
  }

  // ------------------------------------------------------------ the language of the trie

  /** `t` leaves the strings of the range at its last byte: all but that byte begins one of them, the
      whole of it none. */
  ghost predicate Leaves(f: Strings, l: nat, r: nat, depth: nat, t: string)
    requires l <= r <= |f| && forall k | l <= k < r :: depth <= |f[k]|
  {
    && t != ""
    && (exists k | l <= k < r :: t[..|t| - 1] < f[k][depth..])
    && (forall k | l <= k < r :: !(t <= f[k][depth..]))
  }

  lemma {:induction false} ChildrenDistinct(f: Strings, l: nat, i: nat, r: nat, depth: nat)
    requires Range(f, l, r, depth) && l <= i <= r
    ensures DistinctBytes(Children(f, i, r, depth))
    decreases r - i
  {
    if i < r {
      if |f[i]| == depth {
        ChildrenSkip(f, i, r, depth);
        ChildrenDistinct(f, l, i + 1, r, depth);
      } else {
        var c := f[i][depth];
        var j := GroupEnd(f, i, r, depth, c);
        GroupHas(f, i, r, depth, c);
        ChildrenDistinct(f, l, j, r, depth);
        var rest := Children(f, j, r, depth);
        forall n | 0 <= n < |rest| ensures rest[n].c != c {
          NotAgain(f, l, r, depth, i, j, rest[n], c);
        }
        DistinctCons(Child(c, i, j), rest);
      }
    }
  }

  ghost predicate DistinctBytes(cs: seq<Child>) {
    forall m, n | 0 <= m < n < |cs| :: cs[m].c != cs[n].c
  }

  lemma DistinctCons(d: Child, rest: seq<Child>)
    requires DistinctBytes(rest) && forall n | 0 <= n < |rest| :: rest[n].c != d.c
    ensures DistinctBytes([d] + rest)
  {
    var cs := [d] + rest;
    forall m, n | 0 <= m < n < |cs| ensures cs[m].c != cs[n].c {
      assert cs[n] == rest[n - 1] && (m > 0 ==> cs[m] == rest[m - 1]);
    }
  }

  lemma NotAgain(f: Strings, l: nat, r: nat, depth: nat, i: nat, j: nat, d: Child, c: char)
    requires Range(f, l, r, depth) && l <= i < j <= d.lo < d.hi <= r && AllHave(f, d, depth)
    requires Has(f, i, depth, c) && !Has(f, j, depth, c)
    ensures d.c != c
  {
    assert Has(f, d.lo, depth, d.c);
    if Has(f, d.lo, depth, c) {
      RunsAreContiguous(f, l, r, depth, i, j, d.lo, c);
    }
  }

  /** A child's range holds exactly the strings that go on with its byte. */
  lemma ChildIsGroup(f: Strings, l: nat, r: nat, depth: nat, n: nat, k: nat)
    requires Range(f, l, r, depth) && n < |Children(f, l, r, depth)| && l <= k < r
    ensures var d := Children(f, l, r, depth)[n];
            d.lo <= k < d.hi <==> Has(f, k, depth, d.c)
  {
    var cs := Children(f, l, r, depth);
    var d := cs[n];
    assert AllHave(f, d, depth);
    if Has(f, k, depth, d.c) {
      ChildrenCover(f, l, l, r, depth, k);
      ChildrenDistinct(f, l, l, r, depth);
      var m :| 0 <= m < |cs| && cs[m].c == f[k][depth] && cs[m].lo <= k < cs[m].hi;
      assert !(m < n) && !(n < m);
    }
  }

  /** The bytes of the children are exactly the bytes that can come next. */
  lemma {:induction false} BytesAre(cs: seq<Child>, c: char)
    ensures c in Bytes(cs) <==> exists n | 0 <= n < |cs| :: cs[n].c == c
  {
    if cs != [] {
      BytesAre(cs[1..], c);
      if n :| 0 <= n < |cs| && cs[n].c == c {
        assert n > 0 ==> cs[1..][n - 1] == cs[n];
      }
      if n :| 0 <= n < |cs[1..]| && cs[1..][n].c == c {
        assert cs[n + 1] == cs[1..][n];
      }
      assert Bytes(cs)[0] == cs[0].c;
    }
  }

  lemma ChildRange(f: Strings, l: nat, r: nat, depth: nat, n: nat)
    requires Range(f, l, r, depth) && n < |Children(f, l, r, depth)|
    ensures var d := Children(f, l, r, depth)[n]; Range(f, d.lo, d.hi, depth + 1)
  {
    var d := Children(f, l, r, depth)[n];
    assert AllHave(f, d, depth);
    AllLonger(f, d, depth);
    forall j, k | d.lo <= j <= k < d.hi
      ensures LexLe(f[j][depth + 1..], f[k][depth + 1..])
    {
      assert Has(f, j, depth, d.c) && Has(f, k, depth, d.c);
      assert LexLe(f[j][depth..], f[k][depth..]);
      assert f[j][depth..][1..] == f[j][depth + 1..] && f[k][depth..][1..] == f[k][depth + 1..];
    }
  }

  /** A one-byte text leaves the range exactly when it is none of the bytes that can come next. */
  lemma LeavesAtOnce(f: Strings, l: nat, r: nat, depth: nat, t: string)
    requires Range(f, l, r, depth) && |t| == 1
    ensures Leaves(f, l, r, depth, t) <==>
            Children(f, l, r, depth) != [] && t[0] !in Bytes(Children(f, l, r, depth))
  {
    var cs := Children(f, l, r, depth);
    assert t[..0] == "";
    BytesAre(cs, t[0]);
    forall k | l <= k < r
      ensures "" < f[k][depth..] ==> cs != []
      ensures t <= f[k][depth..] <==> Has(f, k, depth, t[0])
      ensures Has(f, k, depth, t[0]) ==> t[0] in Bytes(cs)
    {
      if depth < |f[k]| { ChildrenCover(f, l, l, r, depth, k); }
      assert t == [t[0]];
    }
    if cs != [] {
      assert AllHave(f, cs[0], depth);
      assert Has(f, cs[0].lo, depth, cs[0].c);
      assert "" < f[cs[0].lo][depth..];
    }
    if t[0] in Bytes(cs) {
      var n :| 0 <= n < |cs| && cs[n].c == t[0];
      assert AllHave(f, cs[n], depth);
      assert Has(f, cs[n].lo, depth, t[0]);
    }
  }

  /** A longer text leaves the range exactly when it goes on with a child's byte and its rest leaves
      that child's range. */
  lemma LeavesLater(f: Strings, l: nat, r: nat, depth: nat, t: string)
    requires Range(f, l, r, depth) && |t| > 1
    ensures Leaves(f, l, r, depth, t) <==>
            var cs := Children(f, l, r, depth);
            exists n | 0 <= n < |cs| :: cs[n].c == t[0] && LeavesChild(f, cs[n], depth, t[1..])
  {
    var cs := Children(f, l, r, depth);
    if Leaves(f, l, r, depth, t) {
      var k :| l <= k < r && t[..|t| - 1] < f[k][depth..];
      assert t[..|t| - 1][0] == t[0];
      ChildrenCover(f, l, l, r, depth, k);
      var n :| 0 <= n < |cs| && cs[n].c == t[0] && cs[n].lo <= k < cs[n].hi;
      LeavesInChild(f, l, r, depth, n, t);
    }
    if n :| 0 <= n < |cs| && cs[n].c == t[0] && LeavesChild(f, cs[n], depth, t[1..]) {
      LeavesInChild(f, l, r, depth, n, t);
    }
  }

  ghost predicate LeavesChild(f: Strings, d: Child, depth: nat, t: string) {
    d.lo <= d.hi <= |f| && AllHave(f, d, depth) && (forall k | d.lo <= k < d.hi :: depth + 1 <= |f[k]|) &&
    Leaves(f, d.lo, d.hi, depth + 1, t)
  }

  lemma TailPrefixes(s: string, depth: nat, t: string)
    requires depth < |s| && t != "" && s[depth] == t[0]
    ensures t <= s[depth..] <==> t[1..] <= s[depth + 1..]
    ensures |t| > 1 ==> (t[..|t| - 1] < s[depth..] <==> t[1..][..|t| - 2] < s[depth + 1..])
  {
    var u := s[depth..];
    assert u == [s[depth]] + s[depth + 1..] && t == [t[0]] + t[1..];
    assert |t| > 1 ==> t[..|t| - 1] == [t[0]] + t[1..][..|t| - 2];
  }

  lemma LeavesInChild(f: Strings, l: nat, r: nat, depth: nat, n: nat, t: string)
    requires Range(f, l, r, depth) && |t| > 1 && n < |Children(f, l, r, depth)|
    requires Children(f, l, r, depth)[n].c == t[0]
    ensures Leaves(f, l, r, depth, t) <==> LeavesChild(f, Children(f, l, r, depth)[n], depth, t[1..])
  {
    var d := Children(f, l, r, depth)[n];
    assert AllHave(f, d, depth);
    AllLonger(f, d, depth);
    forall k | l <= k < r
      ensures d.lo <= k < d.hi <==> Has(f, k, depth, t[0])
      ensures Has(f, k, depth, t[0]) ==> (t <= f[k][depth..] <==> t[1..] <= f[k][depth + 1..])
      ensures Has(f, k, depth, t[0]) ==>
                (t[..|t| - 1] < f[k][depth..] <==> t[1..][..|t| - 2] < f[k][depth + 1..])
      ensures !Has(f, k, depth, t[0]) ==> !(t <= f[k][depth..]) && !(t[..|t| - 1] < f[k][depth..])
    {
      ChildIsGroup(f, l, r, depth, n, k);
      if Has(f, k, depth, t[0]) {
        TailPrefixes(f[k], depth, t);
      } else {
        assert t[..|t| - 1][0] == t[0];
      }
    }
  }

  // ------------------------------------------------------------ grammar = trie

  /** The branches derive a text exactly when one child's subtree derives what follows its byte. */
  ghost predicate SomeBranchDerives(f: Strings, cs: seq<Child>, depth: nat, t: string) {
    exists n | 0 <= n < |cs| :: BranchDerives(f, cs[n], depth, t)
  }

  lemma SomeBranchCons(f: Strings, cs: seq<Child>, depth: nat, t: string)
    requires cs != []
    ensures SomeBranchDerives(f, cs, depth, t) <==>
            BranchDerives(f, cs[0], depth, t) || SomeBranchDerives(f, cs[1..], depth, t)
  {
    hide BranchDerives;
    if SomeBranchDerives(f, cs[1..], depth, t) {
      var n :| 0 <= n < |cs[1..]| && BranchDerives(f, cs[1..][n], depth, t);
      assert BranchDerives(f, cs[n + 1], depth, t);
    }
    if n :| 0 <= n < |cs| && BranchDerives(f, cs[n], depth, t) {
      assert n > 0 ==> cs[1..][n - 1] == cs[n];
    }
  }

  lemma FirstBranchDerives(f: Strings, cs: seq<Child>, depth: nat, t: string)
    requires forall n | 0 <= n < |cs| :: cs[n].lo < cs[n].hi <= |f| && AllHave(f, cs[n], depth)
    requires cs != [] && depth < MaxLength(f)
    ensures Derives(Alt(Branches(f, cs, depth)), t) <==>
            BranchDerives(f, cs[0], depth, t) || Derives(Alt(Branches(f, cs[1..], depth)), t)
  {
    hide Derives; hide Build;
    AllLonger(f, cs[0], depth);
    var rest := Branches(f, cs[1..], depth);
    match Build(f, cs[0].lo, cs[0].hi, depth + 1) {
      case None =>
        assert Branches(f, cs, depth) == rest;
      case Some(e) =>
        AltCons(Cat(Literal([cs[0].c]), e), rest, t);
        DerivesLiteralThen([cs[0].c], e, t);
    }
  }

  lemma {:induction false} BranchesDerive(f: Strings, cs: seq<Child>, depth: nat, t: string)
    requires forall n | 0 <= n < |cs| :: cs[n].lo < cs[n].hi <= |f| && AllHave(f, cs[n], depth)
    requires cs != [] ==> depth < MaxLength(f)
    ensures Derives(Alt(Branches(f, cs, depth)), t) <==> SomeBranchDerives(f, cs, depth, t)
    decreases |cs|
  {
    if cs != [] {
      hide BranchDerives; hide SomeBranchDerives; hide Derives; hide Branches; hide MaxLength;
      FirstBranchDerives(f, cs, depth, t);
      BranchesDerive(f, cs[1..], depth, t);
      SomeBranchCons(f, cs, depth, t);
    }
  }

  lemma AltCons(a: Expr, rest: seq<Expr>, t: string)
    ensures Derives(Alt([a] + rest), t) <==> Derives(a, t) || Derives(Alt(rest), t)
  {
    var alts := [a] + rest;
    if k :| 0 <= k < |alts| && Derives(alts[k], t) {
      assert k > 0 ==> rest[k - 1] == alts[k];
    }
    if Derives(a, t) { assert alts[0] == a; }
    if k :| 0 <= k < |rest| && Derives(rest[k], t) { assert alts[k + 1] == rest[k]; }
  }

  ghost predicate BranchDerives(f: Strings, d: Child, depth: nat, t: string)
  {
    d.lo <= d.hi <= |f| && AllHave(f, d, depth) && (forall k | d.lo <= k < d.hi :: depth + 1 <= |f[k]|) &&
    var e := Build(f, d.lo, d.hi, depth + 1);
    e.Some? && [d.c] <= t && Derives(e.value, t[1..])
  }

  ghost predicate Built(f: Strings, l: nat, r: nat, depth: nat, t: string)
    requires l <= r <= |f| && forall k | l <= k < r :: depth <= |f[k]|
  {
    Build(f, l, r, depth).Some? && Derives(Build(f, l, r, depth).value, t)
  }

  lemma BuiltCases(f: Strings, l: nat, r: nat, depth: nat, t: string)
    requires Range(f, l, r, depth)
    ensures var cs := Children(f, l, r, depth);
            Built(f, l, r, depth, t) <==>
            (cs != [] && |t| == 1 && t[0] !in Bytes(cs)) ||
            exists n | 0 <= n < |cs| :: BranchDerives(f, cs[n], depth, t)
  {
    var cs := Children(f, l, r, depth);
    if cs != [] {
      assert AllHave(f, cs[0], depth) && Has(f, cs[0].lo, depth, cs[0].c);
      WithinMaxLength(f, cs[0].lo);
      AltCons(NotIn(Bytes(cs)), Branches(f, cs, depth), t);
      BranchesDerive(f, cs, depth, t);
    }
  }

  /** The expression built for a range derives exactly the texts that leave the range. */
  lemma {:induction false} BuildDerives(f: Strings, l: nat, r: nat, depth: nat, t: string)
    requires Range(f, l, r, depth)
    ensures Built(f, l, r, depth, t) <==> Leaves(f, l, r, depth, t)
    decreases |t|
  {
    hide Derives; hide Build;
    var cs := Children(f, l, r, depth);
    BuiltCases(f, l, r, depth, t);
    if |t| == 1 {
      LeavesAtOnce(f, l, r, depth, t);
    } else if |t| > 1 {
      LeavesLater(f, l, r, depth, t);
    }
    forall n | 0 <= n < |cs|
      ensures BranchDerives(f, cs[n], depth, t) <==>
              |t| > 1 && cs[n].c == t[0] && LeavesChild(f, cs[n], depth, t[1..])
    {
      ChildRange(f, l, r, depth, n);
      AllLonger(f, cs[n], depth);
      if t != "" {
        BuildDerives(f, cs[n].lo, cs[n].hi, depth + 1, t[1..]);
      }
    }
  }
}
