/** The language of `make_gbnf_excluding`, and how it relates to "no forbidden string inside". */
module TrieLanguage {
  import opened Text
  import opened Gbnf
  import opened TrieGrammar

  /** All of `t` but its last byte is a proper beginning of a forbidden string; the whole is none. */
  ghost predicate IsChunk(f: Strings, t: string) {
    && t != ""
    && (exists k | 0 <= k < |f| :: t[..|t| - 1] < f[k])
    && (forall k | 0 <= k < |f| :: !(t <= f[k]))
  }

  /** A sequence of chunks. */
  ghost predicate Accepted(f: Strings, s: string)
    decreases |s|
  {
    s == "" || exists n | 0 < n <= |s| :: IsChunk(f, s[..n]) && Accepted(f, s[n..])
  }

  ghost predicate SomeNonEmpty(f: Strings) {
    exists k | 0 <= k < |f| :: f[k] != ""
  }

  lemma SameMembers(f: Strings, s: string)
    ensures s in Sort(f) <==> s in f
  {
    SortSorts(f);
    assert s in multiset(f) <==> s in f;
    assert s in multiset(Sort(f)) <==> s in Sort(f);
  }

  lemma ChunkByMembers(f: Strings, t: string)
    ensures IsChunk(f, t) <==>
            t != "" && (exists g | g in f :: t[..|t| - 1] < g) && (forall g | g in f :: !(t <= g))
  {
    forall k | 0 <= k < |f| ensures f[k] in f {}
  }

  lemma ChunkOfSorted(f: Strings, t: string)
    ensures IsChunk(Sort(f), t) <==> IsChunk(f, t)
  {
    ChunkByMembers(f, t);
    ChunkByMembers(Sort(f), t);
    forall g: string ensures g in Sort(f) <==> g in f { SameMembers(f, g); }
  }

  /** A sorted list is a range that shares nothing yet, and leaving it is being a chunk. */
  lemma WholeRange(g: Strings, t: string)
    requires Sorted(g)
    ensures Range(g, 0, |g|, 0) && (Leaves(g, 0, |g|, 0, t) <==> IsChunk(g, t))
  {
    forall j | 0 <= j < |g| ensures g[j][0..] == g[j] {}
  }

  /** The built expression derives exactly the chunks, for any list with a non-empty string. */
  lemma ExpressionDerivesChunks(f: Strings, t: string)
    ensures var g := Sort(f); Built(g, 0, |g|, 0, t) <==> IsChunk(f, t)
  {
    var g := Sort(f);
    SortSorts(f);
    WholeRange(g, t);
    ChunkOfSorted(f, t);
    BuildDerives(g, 0, |g|, 0, t);
  }

  lemma BuildsSomething(f: Strings)
    requires SomeNonEmpty(f)
    ensures var g := Sort(f); Build(g, 0, |g|, 0).Some?
  {
    var k :| 0 <= k < |f| && f[k] != "";
    var g := Sort(f);
    SameMembers(f, f[k]);
    var j :| 0 <= j < |g| && g[j] == f[k];
    SortSorts(f);
    WholeRange(g, "");
    ChildrenCover(g, 0, 0, |g|, 0, j);
  }

  lemma {:induction false} StarOfChunks(f: Strings, e: Expr, s: string)
    requires forall t: string :: Derives(e, t) <==> IsChunk(f, t)
    ensures Derives(Star(e), s) <==> Accepted(f, s)
    decreases |s|
  {
    forall n | 0 < n <= |s| ensures Derives(Star(e), s[n..]) <==> Accepted(f, s[n..]) {
      StarOfChunks(f, e, s[n..]);
    }
  }

  lemma {:induction false} AnyTextDerives(s: string)
    ensures Derives(Star(AnyChar), s)
    decreases |s|
  {
    if s != "" { AnyTextDerives(s[1..]); }
  }

  /** The grammar accepts exactly the sequences of chunks, and everything when nothing is forbidden. */
  lemma ExcludingLanguage(f: Strings, s: string)
    requires f == [] || SomeNonEmpty(f)
    ensures Derives(MakeExcluding(f), s) <==> f == [] || Accepted(f, s)
  {
    if f == [] {
      AnyTextDerives(s);
    } else {
      BuildsSomething(f);
      var g := Sort(f);
      var e := Build(g, 0, |g|, 0).value;
      forall t: string ensures Derives(e, t) <==> IsChunk(f, t) {
        ExpressionDerivesChunks(f, t);
      }
      StarOfChunks(f, e, s);
    }
  }

  // ------------------------------------------------------------ unique decomposition

  lemma ProperPrefixChain(a: string, b: string, c: string)
    ensures a <= b && b < c ==> a < c
  {}

  /** No chunk is the beginning of another: a text splits into chunks in at most one way. */
  lemma ChunksArePrefixFree(f: Strings, s: string, m: nat, n: nat)
    requires m <= |s| && n <= |s| && IsChunk(f, s[..m]) && IsChunk(f, s[..n])
    ensures m == n
  {
    if m < n {
      ShorterChunk(f, s, m, n);
    } else if n < m {
      ShorterChunk(f, s, n, m);
    }
  }

  lemma ShorterChunk(f: Strings, s: string, m: nat, n: nat)
    requires m < n <= |s| && IsChunk(f, s[..n])
    ensures !IsChunk(f, s[..m])
  {
    var k :| 0 <= k < |f| && s[..n][..n - 1] < f[k];
    assert s[..m] == s[..n][..n - 1][..m] <= f[k];
  }

  function Joined(cs: seq<string>): string {
    if cs == [] then "" else cs[0] + Joined(cs[1..])
  }

  ghost predicate Chunks(f: Strings, cs: seq<string>) {
    forall k | 0 <= k < |cs| :: IsChunk(f, cs[k])
  }

  /** A text splits into chunks in at most one way. */
  lemma {:induction false} DecompositionIsUnique(f: Strings, xs: seq<string>, ys: seq<string>)
    requires Chunks(f, xs) && Chunks(f, ys) && Joined(xs) == Joined(ys)
    ensures xs == ys
    decreases |xs|
  {
    if xs != [] && ys != [] {
      var s := Joined(xs);
      assert IsChunk(f, xs[0]) && IsChunk(f, ys[0]);
      assert s[..|xs[0]|] == xs[0] && s[..|ys[0]|] == ys[0];
      ChunksArePrefixFree(f, s, |xs[0]|, |ys[0]|);
      assert s[|xs[0]|..] == Joined(xs[1..]) && s[|ys[0]|..] == Joined(ys[1..]);
      DecompositionIsUnique(f, xs[1..], ys[1..]);
      assert xs == [xs[0]] + xs[1..] && ys == [ys[0]] + ys[1..];
    } else {
      NotEmptyWhenJoined(f, xs);
      NotEmptyWhenJoined(f, ys);
    }
  }

  lemma NotEmptyWhenJoined(f: Strings, cs: seq<string>)
    requires Chunks(f, cs)
    ensures cs != [] ==> Joined(cs) != ""
  {
    if cs != [] { assert IsChunk(f, cs[0]); }
  }

  /** An accepted text is a text that splits into chunks. */
  lemma {:induction false} AcceptedIsJoined(f: Strings, s: string)
    ensures Accepted(f, s) <==> exists cs: seq<string> :: Chunks(f, cs) && Joined(cs) == s
    decreases |s|
  {
    if Accepted(f, s) {
      var cs := Split(f, s);
    }
    if cs: seq<string> :| Chunks(f, cs) && Joined(cs) == s {
      JoinedIsAccepted(f, cs);
    }
  }

  lemma ChunksCons(f: Strings, t: string, rest: seq<string>)
    requires IsChunk(f, t) && Chunks(f, rest)
    ensures Chunks(f, [t] + rest) && Joined([t] + rest) == t + Joined(rest)
  {
    hide IsChunk;
    assert ([t] + rest)[1..] == rest;
  }

  lemma NoChunks(f: Strings)
    ensures Chunks(f, []) && Joined([]) == ""
  {}

  lemma {:induction false} Split(f: Strings, s: string) returns (cs: seq<string>)
    requires Accepted(f, s)
    ensures Chunks(f, cs) && Joined(cs) == s
    decreases |s|
  {
    hide *;
    if s == "" {
      cs := [];
      NoChunks(f);
    } else {
      var n := FirstChunk(f, s);
      var rest := Split(f, s[n..]);
      cs := [s[..n]] + rest;
      ChunksCons(f, s[..n], rest);
      assert s == s[..n] + s[n..];
    }
  }

  lemma {:induction false} JoinedIsAccepted(f: Strings, cs: seq<string>)
    requires Chunks(f, cs)
    ensures Accepted(f, Joined(cs))
  {
    if cs != [] {
      JoinedIsAccepted(f, cs[1..]);
      assert IsChunk(f, cs[0]);
      var s := Joined(cs);
      assert s[..|cs[0]|] == cs[0] && s[|cs[0]|..] == Joined(cs[1..]);
    }
  }

  // ------------------------------------------------------------ soundness at boundaries

  ghost predicate PrefixFree(f: Strings) {
    (forall k | 0 <= k < |f| :: f[k] != "") &&
    forall j, k | 0 <= j < |f| && 0 <= k < |f| :: !(f[j] < f[k])
  }

  /** `p` is where a chunk of `s` starts, or the end. */
  ghost predicate Boundary(f: Strings, s: string, p: nat)
    requires p <= |s|
    decreases |s|
  {
    p == 0 || exists n | 0 < n <= p :: IsChunk(f, s[..n]) && Boundary(f, s[n..], p - n)
  }

  lemma {:induction false} AcceptedFromBoundary(f: Strings, s: string, p: nat)
    requires p <= |s| && Accepted(f, s) && Boundary(f, s, p)
    ensures Accepted(f, s[p..])
    decreases |s|
  {
    hide *;
    if p == 0 {
      assert s[0..] == s;
    } else {
      var n := FirstBoundary(f, s, p);
      var m := FirstChunk(f, s);
      ChunksArePrefixFree(f, s, m, n);
      AcceptedFromBoundary(f, s[n..], p - n);
      assert s[n..][p - n..] == s[p..];
    }
  }

  lemma FirstBoundary(f: Strings, s: string, p: nat) returns (n: nat)
    requires 0 < p <= |s| && Boundary(f, s, p)
    ensures 0 < n <= p && IsChunk(f, s[..n]) && Boundary(f, s[n..], p - n)
  {
    n :| 0 < n <= p && IsChunk(f, s[..n]) && Boundary(f, s[n..], p - n);
  }

  lemma FirstChunk(f: Strings, s: string) returns (m: nat)
    requires s != "" && Accepted(f, s)
    ensures 0 < m <= |s| && IsChunk(f, s[..m]) && Accepted(f, s[m..])
  {
    m :| 0 < m <= |s| && IsChunk(f, s[..m]) && Accepted(f, s[m..]);
  }

  lemma CompareWithChunk(s: string, n: nat, g: string)
    requires 0 < n <= |s|
    ensures g <= s ==> g <= s[..n][..n - 1] || s[..n] <= g
  {}

  /** In a prefix-free set no forbidden string ever starts where a chunk starts. */
  lemma NoForbiddenAtBoundary(f: Strings, s: string, p: nat, k: nat)
    requires PrefixFree(f) && p <= |s| && Accepted(f, s) && Boundary(f, s, p) && k < |f|
    ensures !(f[k] <= s[p..])
  {
    AcceptedFromBoundary(f, s, p);
    var rest := s[p..];
    if rest != "" {
      var n :| 0 < n <= |rest| && IsChunk(f, rest[..n]) && Accepted(f, rest[n..]);
      var t := rest[..n];
      var j :| 0 <= j < |f| && t[..n - 1] < f[j];
      assert !(f[k] < f[j]);
      CompareWithChunk(rest, n, f[k]);
      ProperPrefixChain(f[k], t[..n - 1], f[j]);
    }
  }

  // ------------------------------------------------------------ completeness

  ghost predicate Free(f: Strings, s: string) {
    forall k, i: nat | 0 <= k < |f| :: !OccursAt(s, f[k], i)
  }

  /** `u` is a proper beginning of a forbidden string. */
  ghost predicate Pending(f: Strings, u: string) {
    exists k | 0 <= k < |f| :: u < f[k]
  }

  lemma FreeSuffix(f: Strings, s: string, n: nat)
    requires Free(f, s) && n <= |s|
    ensures Free(f, s[n..])
  {
    forall k, i: nat | 0 <= k < |f| ensures !OccursAt(s[n..], f[k], i) {
      if i + |f[k]| <= |s| - n {
        assert s[n..][i..i + |f[k]|] == s[n + i..n + i + |f[k]|];
        assert !OccursAt(s, f[k], n + i);
      }
    }
  }

  /** From `n` pending bytes on, either all of `s` is pending or a chunk is completed. */
  lemma {:induction false} NextChunk(f: Strings, s: string, n: nat) returns (m: nat)
    requires n <= |s| && Free(f, s) && Pending(f, s[..n])
    ensures m <= |s| && if m == 0 then Pending(f, s) else IsChunk(f, s[..m])
    decreases |s| - n
  {
    if n == |s| {
      assert s[..n] == s;
      return 0;
    }
    var t := s[..n + 1];
    assert t[..n] == s[..n];
    if k :| 0 <= k < |f| && t <= f[k] {
      assert !OccursAt(s, f[k], 0);
      assert s[0..n + 1] == t;
      m := NextChunk(f, s, n + 1);
    } else {
      m := n + 1;
    }
  }

  /** Every text free of forbidden strings is an accepted text followed by a proper beginning of a
      forbidden string: the grammar never stops a harmless text. */
  lemma {:induction false} FreeTextIsAccepted(f: Strings, s: string) returns (n: nat)
    requires SomeNonEmpty(f) && Free(f, s)
    ensures n <= |s| && Accepted(f, s[..n]) && Pending(f, s[n..])
    decreases |s|
  {
    var j :| 0 <= j < |f| && f[j] != "";
    assert s[..0] == "" < f[j];
    var m := NextChunk(f, s, 0);
    if m == 0 {
      assert s[0..] == s && s[..0] == "";
      return 0;
    }
    FreeSuffix(f, s, m);
    var r := FreeTextIsAccepted(f, s[m..]);
    n := m + r;
    assert s[..n][..m] == s[..m] && s[..n][m..] == s[m..][..r] && s[m..][r..] == s[n..];
  }

  // ------------------------------------------------------------ the comment that does not hold

  lemma StrayChunks()
    ensures IsChunk(["</p>"], "<<") && IsChunk(["</p>"], "/") && IsChunk(["</p>"], "p") && IsChunk(["</p>"], ">")
  {
    hide IsChunk;
    StrayChunk("<<", 1);
    StrayChunk("/", 0);
    StrayChunk("p", 0);
    StrayChunk(">", 0);
  }

  lemma StrayChunk(t: string, n: nat)
    requires n < 2 && |t| == n + 1 && (n == 1 ==> t[0] == '<') && (if n == 0 then t[0] != '<' else t[1] != '/')
    ensures IsChunk(["</p>"], t)
  {
    var g := "</p>";
    assert [g][0] == g && g[0] == '<' && g[1] == '/';
    assert t[..n] == g[..n];
    ChunkOf1([g], t, n);
  }

  lemma StrayTextJoined(f: Strings)
    requires IsChunk(f, "<<") && IsChunk(f, "/") && IsChunk(f, "p") && IsChunk(f, ">")
    ensures Accepted(f, "<<" + ("/" + ("p" + (">" + ""))))
  {
    hide *;
    NoChunks(f);
    ChunksCons(f, ">", []);
    ChunksCons(f, "p", [">"] + []);
    ChunksCons(f, "/", ["p"] + ([">"] + []));
    ChunksCons(f, "<<", ["/"] + (["p"] + ([">"] + [])));
    JoinedIsAccepted(f, ["<<"] + (["/"] + (["p"] + ([">"] + []))));
  }

  /** The stated purpose, no forbidden string inside an accepted text, fails for `</p>`. */
  lemma ForbiddenInside()
    ensures Accepted(["</p>"], "<</p>") && !Free(["</p>"], "<</p>")
  {
    var f, s := ["</p>"], "<</p>";
    assert f[0] == "</p>";
    assert s[1..5] == "</p>" && OccursAt(s, f[0], 1);
    hide Accepted; hide IsChunk; hide OccursAt;
    StrayChunks();
    StrayTextJoined(f);
    assert "<<" + ("/" + ("p" + (">" + ""))) == s;
  }

  lemma DifferAt(a: string, b: string, n: nat)
    requires n < |a| && n < |b| && a[n] != b[n]
    ensures !(a <= b)
  {}

  lemma ChunkOf1(f: Strings, t: string, n: nat)
    requires |f| == 1 && |t| == n + 1 && n < |f[0]| && t[..n] == f[0][..n] && t[n] != f[0][n]
    ensures IsChunk(f, t)
  {
    assert t[..|t| - 1] < f[0];
    DifferAt(t, f[0], n);
  }

  // ------------------------------------------------------------ when the comment does hold

  /** `r` can be read from the start of a chunk on: it is some chunks and a proper beginning of a forbidden
      string. */
  ghost predicate Readable(f: Strings, r: string)
    decreases |r|
  {
    Pending(f, r) || exists n | 0 < n <= |r| :: IsChunk(f, r[..n]) && Readable(f, r[n..])
  }

  /** From its byte `o` on, the chunk `t` holds forbidden string `g`, or begins it in such a way that the
      rest of it can be read. */
  ghost predicate Clashes(f: Strings, t: string, o: nat, g: string)
    requires o < |t|
  {
    g <= t[o..] || (t[o..] <= g && Readable(f, g[|t| - o..]))
  }

  ghost predicate SomeChunkClashes(f: Strings) {
    exists t: string, o: nat, k: nat :: o < |t| && k < |f| && IsChunk(f, t) && Clashes(f, t, o, f[k])
  }

  /** A proper beginning of a chunk is a beginning of a forbidden string. */
  lemma ShortIsReadable(f: Strings, t: string, r: string)
    requires IsChunk(f, t) && r < t && r != ""
    ensures Readable(f, r)
  {
    hide Accepted;
    var n := |t|;
    var k :| 0 <= k < |f| && t[..n - 1] < f[k];
    assert r == t[..n - 1][..|r|] && r < f[k];
  }

  lemma {:induction false} AcceptedIsReadable(f: Strings, s: string, r: string)
    requires SomeNonEmpty(f) && Accepted(f, s) && r <= s
    ensures Readable(f, r)
    decreases |s|
  {
    if r == "" {
      var k :| 0 <= k < |f| && f[k] != "";
      assert "" < f[k];
    } else {
      var n := FirstChunk(f, s);
      if n <= |r| {
        assert r[..n] == s[..n] && r[n..] <= s[n..];
        AcceptedIsReadable(f, s[n..], r[n..]);
      } else {
        ShortIsReadable(f, s[..n], r);
      }
    }
  }

  /** No forbidden string has byte `d`. */
  ghost predicate Fresh(f: Strings, d: char) {
    forall k | 0 <= k < |f| :: d !in f[k]
  }

  lemma PrefixMembers(t: string, g: string, d: char)
    requires d in t
    ensures t <= g ==> d in g
  {}

  lemma PendingThenFresh(f: Strings, u: string, d: char)
    requires Pending(f, u) && Fresh(f, d)
    ensures IsChunk(f, u + [d])
  {
    var t := u + [d];
    assert t[..|t| - 1] == u;
    forall k | 0 <= k < |f| ensures !(t <= f[k]) {
      assert t[|u|] == d;
      PrefixMembers(t, f[k], d);
    }
  }

  lemma FirstReadable(f: Strings, r: string) returns (n: nat)
    requires Readable(f, r) && !Pending(f, r)
    ensures 0 < n <= |r| && IsChunk(f, r[..n]) && Readable(f, r[n..])
  {
    n :| 0 < n <= |r| && IsChunk(f, r[..n]) && Readable(f, r[n..]);
  }

  lemma {:induction false} ReadableIsCompleted(f: Strings, r: string, d: char) returns (s: string)
    requires Readable(f, r) && Fresh(f, d)
    ensures r <= s && Accepted(f, s)
    decreases |r|
  {
    hide *;
    if Pending(f, r) {
      s := r + [d];
      PendingThenFresh(f, r, d);
      ChunkIsAccepted(f, s);
    } else {
      var n := FirstReadable(f, r);
      var rest := ReadableIsCompleted(f, r[n..], d);
      s := r[..n] + rest;
      ChunkIsAccepted(f, r[..n]);
      AcceptedConcat(f, r[..n], rest);
      assert r == r[..n] + r[n..];
    }
  }

  lemma SliceSplits(s: string, g: string, i: nat, n: nat)
    requires OccursAt(s, g, i) && i <= n <= |s|
    ensures |g| <= n - i ==> g <= s[..n][i..]
    ensures |g| > n - i ==> s[..n][i..] <= g && g[n - i..] <= s[n..]
  {
    forall m | 0 <= m < |g| ensures g[m] == s[i + m] {
      assert s[i..i + |g|][m] == s[i + m];
    }
  }

  /** The chunk in which an occurrence of `f[k]` starts clashes with it. */
  lemma FirstChunkClashes(f: Strings, s: string, n: nat, k: nat, i: nat)
    requires SomeNonEmpty(f) && k < |f| && OccursAt(s, f[k], i) && i < n <= |s| && Accepted(f, s[n..])
    ensures Clashes(f, s[..n], i, f[k])
  {
    hide Accepted; hide Readable; hide SomeNonEmpty; hide OccursAt;
    SliceSplits(s, f[k], i, n);
    if |f[k]| > n - i {
      AcceptedIsReadable(f, s[n..], f[k][n - i..]);
    }
  }

  lemma {:induction false} ClashOfOccurrence(f: Strings, s: string, k: nat, i: nat) returns (t: string, o: nat)
    requires SomeNonEmpty(f) && Accepted(f, s) && k < |f| && OccursAt(s, f[k], i) && i < |s|
    ensures o < |t| && IsChunk(f, t) && Clashes(f, t, o, f[k])
    decreases |s|
  {
    hide *;
    var n := FirstChunk(f, s);
    if n <= i {
      OccursInTail(s, f[k], n, i);
      t, o := ClashOfOccurrence(f, s[n..], k, i - n);
    } else {
      t, o := s[..n], i;
      FirstChunkClashes(f, s, n, k, i);
    }
  }

  lemma OccurrenceOfClash(f: Strings, t: string, o: nat, k: nat, d: char) returns (s: string)
    requires Fresh(f, d) && k < |f| && o < |t| && IsChunk(f, t) && Clashes(f, t, o, f[k])
    ensures Accepted(f, s) && OccursAt(s, f[k], o)
  {
    hide IsChunk; hide Accepted; hide Fresh; hide Readable;
    ChunkIsAccepted(f, t);
    var g := f[k];
    if g <= t[o..] {
      s := t;
      assert s[o..o + |g|] == t[o..][..|g|] == g;
    } else {
      var rest := ReadableIsCompleted(f, g[|t| - o..], d);
      s := t + rest;
      AcceptedConcat(f, t, rest);
      var r := g[|t| - o..];
      assert g == t[o..] + r;
      assert s[o..o + |g|] == t[o..] + rest[..|r|];
    }
  }

  /** For any list of forbidden strings, provided some byte occurs in none: no accepted text has a forbidden
      string inside exactly when no chunk clashes with one. */
  lemma SoundExactly(f: Strings, d: char)
    requires SomeNonEmpty(f) && Fresh(f, d)
    ensures (forall s: string :: Derives(MakeExcluding(f), s) ==> Free(f, s)) <==> !SomeChunkClashes(f)
  {
    hide Derives; hide MakeExcluding; hide IsChunk; hide Accepted; hide Clashes; hide Fresh;
    if !SomeChunkClashes(f) {
      forall s: string | Derives(MakeExcluding(f), s) ensures Free(f, s) {
        ExcludingLanguage(f, s);
        forall k, i: nat | 0 <= k < |f| ensures !OccursAt(s, f[k], i) {
          if OccursAt(s, f[k], i) { OccurrenceClashes(f, s, k, i, d); }
        }
      }
    } else {
      var t: string, o: nat, k: nat :| o < |t| && k < |f| && IsChunk(f, t) && Clashes(f, t, o, f[k]);
      var s := OccurrenceOfClash(f, t, o, k, d);
      ExcludingLanguage(f, s);
    }
  }

  lemma OccurrenceClashes(f: Strings, s: string, k: nat, i: nat, d: char)
    requires SomeNonEmpty(f) && Fresh(f, d) && Accepted(f, s) && k < |f| && OccursAt(s, f[k], i)
    ensures SomeChunkClashes(f)
  {
    if i < |s| {
      var t, o := ClashOfOccurrence(f, s, k, i);
    } else {
      assert f[k] == "" by { assert i + |f[k]| <= |s|; }
      assert Pending(f, "") by { var j :| 0 <= j < |f| && f[j] != ""; assert "" < f[j]; }
      PendingThenFresh(f, "", d);
      assert "" + [d] == [d] && Clashes(f, [d], 0, f[k]);
    }
  }

  // ------------------------------------------------------------ sets of strings that keep apart

  /** No forbidden string is empty or stands inside another. */
  ghost predicate Apart(f: Strings) {
    && (forall k | 0 <= k < |f| :: f[k] != "")
    && forall j, k, i: nat | 0 <= j < |f| && 0 <= k < |f| && OccursAt(f[j], f[k], i) :: f[j] == f[k]
  }

  /** After `n` bytes of forbidden string `j`, the last `n - o` of them begin forbidden string `k`, and the next
      byte of `k` leaves the trie. */
  ghost predicate Overlaps(f: Strings, j: nat, n: nat, o: nat, k: nat)
    requires j < |f| && k < |f|
  {
    && 0 < o <= n < |f[j]| && f[j][o..n] < f[k]
    && forall m | 0 <= m < |f| :: !(f[j][..n] + [f[k][n - o]] <= f[m])
  }

  ghost predicate SomeOverlap(f: Strings) {
    exists j: nat, n: nat, o: nat, k: nat :: j < |f| && k < |f| && Overlaps(f, j, n, o, k)
  }

  lemma {:induction false} FreeIsReadable(f: Strings, r: string)
    requires SomeNonEmpty(f) && Free(f, r)
    ensures Readable(f, r)
    decreases |r|
  {
    hide Free; hide IsChunk;
    var j :| 0 <= j < |f| && f[j] != "";
    assert r[..0] == "" < f[j];
    var m := NextChunk(f, r, 0);
    if m > 0 {
      FreeSuffix(f, r, m);
      FreeIsReadable(f, r[m..]);
    }
  }

  lemma TailIsFree(f: Strings, k: nat, n: nat)
    requires Apart(f) && k < |f| && 0 < n <= |f[k]|
    ensures Free(f, f[k][n..])
  {
    var g := f[k];
    forall m, i: nat | 0 <= m < |f| ensures !OccursAt(g[n..], f[m], i) {
      OccursInTail(g, f[m], n, n + i);
      if OccursAt(g, f[m], n + i) { assert f[m] == g; }
    }
  }

  lemma OverlapClashes(f: Strings, j: nat, n: nat, o: nat, k: nat)
    requires Apart(f) && j < |f| && k < |f| && Overlaps(f, j, n, o, k)
    ensures SomeChunkClashes(f)
  {
    var g, t := f[k], f[j][..n] + [f[k][n - o]];
    assert t[..|t| - 1] == f[j][..n] < f[j];
    assert IsChunk(f, t);
    assert t[o..] == f[j][o..n] + [g[n - o]] <= g;
    TailIsFree(f, k, |t| - o);
    assert f[k] != "";
    FreeIsReadable(f, g[|t| - o..]);
    assert Clashes(f, t, o, f[k]);
  }

  lemma ClashOverlaps(f: Strings, t: string, o: nat, k: nat)
    requires Apart(f) && k < |f| && o < |t| && IsChunk(f, t) && Clashes(f, t, o, f[k])
    ensures SomeOverlap(f)
  {
    hide Readable;
    var g, n := f[k], |t| - 1;
    var j :| 0 <= j < |f| && t[..n] < f[j];
    assert t[o..] <= g by { if !(t[o..] <= g) { InsideChunk(f, t, o, j, k); } }
    assert o > 0 by { assert t[0..] == t; }
    assert f[j][..n] == t[..n] && f[j][o..n] == t[o..n] == t[o..][..n - o];
    assert g[n - o] == t[o..][n - o] == t[n];
    assert f[j][..n] + [g[n - o]] == t;
    assert Overlaps(f, j, n, o, k);
  }

  /** A forbidden string inside a chunk would end before its last byte, inside another forbidden string. */
  lemma InsideChunk(f: Strings, t: string, o: nat, j: nat, k: nat)
    requires Apart(f) && j < |f| && k < |f| && o < |t| && t[..|t| - 1] < f[j] && f[k] <= t[o..]
    ensures t[o..] <= f[k]
  {
    var g, n := f[k], |t| - 1;
    if o + |g| <= n {
      assert f[j][o..o + |g|] == t[..n][o..o + |g|] == t[o..][..|g|] == g;
      assert OccursAt(f[j], g, o);
    }
  }

  /** When no forbidden string stands inside another, and some byte occurs in none, no accepted text has a
      forbidden string inside exactly when no forbidden string can be left while another one is begun. */
  lemma SoundExactlyApart(f: Strings, d: char)
    requires f != [] && Apart(f) && Fresh(f, d)
    ensures (forall s: string :: Derives(MakeExcluding(f), s) ==> Free(f, s)) <==> !SomeOverlap(f)
  {
    hide Derives; hide MakeExcluding; hide Clashes; hide IsChunk; hide Overlaps; hide Fresh;
    assert f[0] != "";
    SoundExactly(f, d);
    if SomeChunkClashes(f) {
      var t: string, o: nat, k: nat :| o < |t| && k < |f| && IsChunk(f, t) && Clashes(f, t, o, f[k]);
      ClashOverlaps(f, t, o, k);
    }
    if j: nat, n: nat, o: nat, k: nat :| j < |f| && k < |f| && Overlaps(f, j, n, o, k) {
      OverlapClashes(f, j, n, o, k);
    }
  }

  // ------------------------------------------------------------ a single forbidden string

  predicate AllSame(g: string) {
    forall i | 0 <= i < |g| :: g[i] == g[0]
  }

  lemma ChunkEndsDifferently(g: string, t: string)
    requires g != "" && AllSame(g) && IsChunk([g], t)
    ensures |t| <= |g| && t[|t| - 1] != g[0]
  {
    assert t[..|t| - 1] < [g][0] && !(t <= [g][0]);
    assert t[|t| - 1] != g[|t| - 1];
  }

  lemma OccursInTail(s: string, g: string, n: nat, i: nat)
    requires n <= i && n <= |s|
    ensures OccursAt(s, g, i) <==> OccursAt(s[n..], g, i - n)
  {
    if i + |g| <= |s| {
      assert s[n..][i - n..i - n + |g|] == s[i..i + |g|];
    }
  }

  lemma OccursElement(s: string, g: string, i: nat, p: nat)
    requires i <= p < i + |g| && p < |s|
    ensures OccursAt(s, g, i) ==> s[p] == g[p - i]
  {
    if OccursAt(s, g, i) {
      assert s[i..i + |g|][p - i] == s[p];
    }
  }

  lemma {:induction false} ConstantNeverOccurs(g: string, s: string, i: nat)
    requires g != "" && AllSame(g) && Accepted([g], s)
    ensures !OccursAt(s, g, i)
    decreases |s|
  {
    hide IsChunk;
    if s != "" {
      var n :| 0 < n <= |s| && IsChunk([g], s[..n]) && Accepted([g], s[n..]);
      ChunkEndsDifferently(g, s[..n]);
      if n <= i {
        ConstantNeverOccurs(g, s[n..], i - n);
        OccursInTail(s, g, n, i);
      } else {
        OccursElement(s, g, i, n - 1);
        assert s[n - 1] == s[..n][n - 1];
      }
    }
  }

  lemma {:induction false} AcceptedConcat(f: Strings, s: string, t: string)
    requires Accepted(f, s) && Accepted(f, t)
    ensures Accepted(f, s + t)
    decreases |s|
  {
    hide IsChunk;
    if s == "" {
      assert s + t == t;
    } else {
      var n :| 0 < n <= |s| && IsChunk(f, s[..n]) && Accepted(f, s[n..]);
      AcceptedConcat(f, s[n..], t);
      assert (s + t)[..n] == s[..n] && (s + t)[n..] == s[n..] + t;
    }
  }

  lemma ChunkIsAccepted(f: Strings, t: string)
    requires IsChunk(f, t)
    ensures Accepted(f, t)
  {
    assert t[..|t|] == t && t[|t|..] == "";
  }

  /** A shorter free text can be completed to an accepted one by a single byte. */
  lemma CompletesByOne(g: string, s: string) returns (d: char)
    requires g != "" && Free([g], s) && exists i | 0 <= i < |g| :: g[i] != g[0]
    ensures Accepted([g], s + [d])
  {
    hide Accepted; hide IsChunk;
    assert [g][0] != "";
    var n := FreeTextIsAccepted([g], s);
    var u := s[n..];
    assert [g][0] == g && u < g;
    hide Free; hide Pending;
    var i :| 0 <= i < |g| && g[i] != g[0];
    d := if g[|u|] == g[0] then g[i] else g[0];
    ChunkOf1([g], u + [d], |u|);
    ChunkIsAccepted([g], u + [d]);
    AcceptedConcat([g], s[..n], u + [d]);
    assert s[..n] + (u + [d]) == s + [d];
  }

  lemma ShorterIsFree(g: string, s: string)
    requires |s| < |g|
    ensures Free([g], s)
  {}

  /** A forbidden string with two different bytes does occur in some accepted text. */
  lemma SameFront(g: string, k: nat)
    requires 0 < k < |g| && AllSame(g[..k])
    ensures var t := [g[0]] + g[..k]; t[..k] == g[..k] && t[k] == g[0]
  {
    var t := [g[0]] + g[..k];
    forall i | 0 <= i < k ensures t[i] == g[..k][i] {
      assert g[..k][i] == g[..k][0] == g[0];
    }
    assert t[k] == g[..k][k - 1] == g[..k][0];
  }

  lemma StandsAtOne(g: string, k: nat, c: char, rest: string)
    requires k <= |g|
    ensures OccursAt(([c] + g[..k]) + (g[k..] + rest), g, 1)
  {
    var s := ([c] + g[..k]) + (g[k..] + rest);
    assert s[1..1 + |g|] == g[..k] + g[k..] == g;
  }

  lemma OccursInAccepted(g: string, k: nat) returns (s: string)
    requires 0 < k < |g| && g[k] != g[0] && AllSame(g[..k])
    ensures Accepted([g], s) && OccursAt(s, g, 1)
  {
    hide *;
    var tail := g[k..];
    ShorterIsFree(g, tail);
    var d := CompletesByOne(g, tail);
    var t := [g[0]] + g[..k];
    SameFront(g, k);
    ChunkOf1([g], t, k);
    ChunkIsAccepted([g], t);
    AcceptedConcat([g], t, tail + [d]);
    s := t + (tail + [d]);
    StandsAtOne(g, k, g[0], [d]);
  }

  lemma FirstDifference(g: string) returns (k: nat)
    requires g != "" && !AllSame(g)
    ensures 0 < k < |g| && g[k] != g[0] && AllSame(g[..k])
  {
    k := 1;
    while g[k] == g[0]
      invariant 0 < k < |g| && forall i | 0 <= i < k :: g[i] == g[0]
      invariant exists i | k <= i < |g| :: g[i] != g[0]
      decreases |g| - k
    {
      k := k + 1;
    }
  }

  /** For a single forbidden string the grammar does what its comment says exactly when all bytes of
      the string are the same. */
  lemma SoundExactlyForConstants(g: string)
    requires g != ""
    ensures (forall s: string :: Derives(MakeExcluding([g]), s) ==> Free([g], s)) <==> AllSame(g)
  {
    assert [g][0] != "";
    if AllSame(g) {
      forall s: string | Derives(MakeExcluding([g]), s) ensures Free([g], s) {
        ExcludingLanguage([g], s);
        forall k, i: nat | 0 <= k < |[g]| ensures !OccursAt(s, [g][k], i) {
          ConstantNeverOccurs(g, s, i);
        }
      }
    } else {
      var k := FirstDifference(g);
      var s := OccursInAccepted(g, k);
      ExcludingLanguage([g], s);
      assert OccursAt(s, [g][0], 1);
    }
  }
}
