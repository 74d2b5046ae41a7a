/** Syntax trees of regular expressions with finite counted repeats, what they
    match, and the repeats written out. */
module RegexTrees {

  datatype Regex =
    | Lit(c: char)
    | Cat(left: Regex, right: Regex)
    | Alt(left: Regex, right: Regex)
    | Group(body: Regex)
    | Times(body: Regex, n: nat)
    | Between(body: Regex, m: nat, n: nat)

  // ---------- what they match

  ghost predicate Matches(t: Regex, w: string)
    decreases t, 0
  {
    match t
    case Lit(c) => w == [c]
    case Cat(l, r) => exists x, y :: w == x + y && Matches(l, x) && Matches(r, y)
    case Alt(l, r) => Matches(l, w) || Matches(r, w)
    case Group(b) => Matches(b, w)
    case Times(b, n) => Repeated(b, n, w)
    case Between(b, m, n) => RepeatedWithin(b, m, n, w)
  }

  /** The body matches k times in a row. */
  ghost predicate Repeated(b: Regex, k: nat, w: string)
    decreases b, k + 1
  {
    if k == 0 then w == ""
    else exists x, y :: w == x + y && Matches(b, x) && Repeated(b, k - 1, y)
  }

  /** Some number of times from m to n. */
  ghost predicate RepeatedWithin(b: Regex, m: nat, n: nat, w: string)
    decreases b, n + 2
  {
    m <= n && (Repeated(b, n, w) || (n > m && RepeatedWithin(b, m, n - 1, w)))
  }

  lemma WithinStep(b: Regex, m: nat, n: nat, w: string)
    ensures RepeatedWithin(b, m, n, w) <==>
            m <= n && (Repeated(b, n, w) || (n > m && RepeatedWithin(b, m, n - 1, w)))
  {
  }

  lemma {:induction false} WithinIsSome(b: Regex, m: nat, n: nat, w: string)
    ensures RepeatedWithin(b, m, n, w) <==> exists k: nat :: m <= k <= n && Repeated(b, k, w)
    decreases n
  {
    WithinStep(b, m, n, w);
    hide RepeatedWithin, Repeated;
    if n > m {
      WithinIsSome(b, m, n - 1, w);
      if k: nat :| m <= k <= n && Repeated(b, k, w) && k != n {
        assert m <= k <= n - 1;
      }
    }
    if m <= n && Repeated(b, n, w) {
      assert exists k: nat :: m <= k <= n && Repeated(b, k, w);
    }
  }

  // ---------- without repeats

  datatype Plain = Never | Empty | Sym(c: char) | Seq(left: Plain, right: Plain) | Or(left: Plain, right: Plain)

  ghost predicate Accepts(p: Plain, w: string) {
    match p
    case Never => false
    case Empty => w == ""
    case Sym(c) => w == [c]
    case Seq(l, r) => exists x, y :: w == x + y && Accepts(l, x) && Accepts(r, y)
    case Or(l, r) => Accepts(l, w) || Accepts(r, w)
  }

  function Symbols(p: Plain): nat {
    match p
    case Never => 0
    case Empty => 0
    case Sym(_) => 1
    case Seq(l, r) => Symbols(l) + Symbols(r)
    case Or(l, r) => Symbols(l) + Symbols(r)
  }

  function Copies(p: Plain, n: nat): Plain { if n == 0 then Empty else Seq(p, Copies(p, n - 1)) }

  /** Up to n of them. */
  function Optional(p: Plain, n: nat): Plain { if n == 0 then Empty else Or(Empty, Seq(p, Optional(p, n - 1))) }

  /** Every repeat written out: {m,n} as m copies and n - m optional ones. */
  function Unroll(t: Regex): Plain {
    match t
    case Lit(c) => Sym(c)
    case Cat(l, r) => Seq(Unroll(l), Unroll(r))
    case Alt(l, r) => Or(Unroll(l), Unroll(r))
    case Group(b) => Unroll(b)
    case Times(b, n) => Copies(Unroll(b), n)
    case Between(b, m, n) => if m <= n then Seq(Copies(Unroll(b), m), Optional(Unroll(b), n - m)) else Never
  }

  /** Literals in the pattern as written. */
  function Literals(t: Regex): nat {
    match t
    case Lit(_) => 1
    case Cat(l, r) => Literals(l) + Literals(r)
    case Alt(l, r) => Literals(l) + Literals(r)
    case Group(b) => Literals(b)
    case Times(b, _) => Literals(b)
    case Between(b, _, _) => Literals(b)
  }

  /** Literals once every counted repeat has been written out. */
  function Expanded(t: Regex): nat { Symbols(Unroll(t)) }

  // ---------- writing out keeps the meaning

  /** p is the body b with its repeats written out. */
  ghost predicate Same(b: Regex, p: Plain) { forall w :: Accepts(p, w) <==> Matches(b, w) }

  lemma SameOn(b: Regex, p: Plain, w: string)
    requires Same(b, p)
    ensures Accepts(p, w) <==> Matches(b, w)
  {
  }

  lemma RepeatedNone(b: Regex, w: string)
    ensures Repeated(b, 0, w) <==> w == ""
  {
  }

  lemma RepeatedMore(b: Regex, k: nat, x: string, y: string)
    requires Matches(b, x) && Repeated(b, k, y)
    ensures Repeated(b, k + 1, x + y)
  {
    hide Matches;
  }

  lemma RepeatedFirst(b: Regex, k: nat, w: string) returns (x: string, y: string)
    requires k > 0 && Repeated(b, k, w)
    ensures w == x + y && Matches(b, x) && Repeated(b, k - 1, y)
  {
    hide Matches;
    x, y :| w == x + y && Matches(b, x) && Repeated(b, k - 1, y);
  }

  lemma SeqTakes(l: Plain, r: Plain, x: string, y: string)
    requires Accepts(l, x) && Accepts(r, y)
    ensures Accepts(Seq(l, r), x + y)
  {
  }

  lemma SeqTook(l: Plain, r: Plain, w: string) returns (x: string, y: string)
    requires Accepts(Seq(l, r), w)
    ensures w == x + y && Accepts(l, x) && Accepts(r, y)
  {
    x, y :| w == x + y && Accepts(l, x) && Accepts(r, y);
  }

  lemma SmallAccepts(l: Plain, r: Plain, w: string)
    ensures Accepts(Empty, w) <==> w == ""
    ensures Accepts(Or(l, r), w) <==> Accepts(l, w) || Accepts(r, w)
  {
  }

  lemma {:induction false} CopiesTake(b: Regex, p: Plain, n: nat, w: string)
    requires Same(b, p) && Repeated(b, n, w)
    ensures Accepts(Copies(p, n), w)
    decreases n
  {
    hide Same, Repeated, Matches, Accepts;
    SmallAccepts(Empty, Empty, w);
    RepeatedNone(b, w);
    if n > 0 {
      var x, y := RepeatedFirst(b, n, w);
      SameOn(b, p, x);
      CopiesTake(b, p, n - 1, y);
      SeqTakes(p, Copies(p, n - 1), x, y);
    }
  }

  lemma {:induction false} CopiesTook(b: Regex, p: Plain, n: nat, w: string)
    requires Same(b, p) && Accepts(Copies(p, n), w)
    ensures Repeated(b, n, w)
    decreases n
  {
    hide Same, Repeated, Matches, Accepts;
    SmallAccepts(Empty, Empty, w);
    RepeatedNone(b, w);
    if n > 0 {
      var x, y := SeqTook(p, Copies(p, n - 1), w);
      SameOn(b, p, x);
      CopiesTook(b, p, n - 1, y);
      RepeatedMore(b, n - 1, x, y);
    }
  }

  lemma {:induction false} OptionalTakes(b: Regex, p: Plain, n: nat, k: nat, w: string)
    requires Same(b, p) && k <= n && Repeated(b, k, w)
    ensures Accepts(Optional(p, n), w)
    decreases n
  {
    hide Same, Repeated, Matches, Accepts;
    RepeatedNone(b, w);
    SmallAccepts(Empty, Seq(p, Optional(p, if n > 0 then n - 1 else 0)), w);
    if k > 0 {
      var x, y := RepeatedFirst(b, k, w);
      SameOn(b, p, x);
      OptionalTakes(b, p, n - 1, k - 1, y);
      SeqTakes(p, Optional(p, n - 1), x, y);
    }
  }

  lemma {:induction false} OptionalTook(b: Regex, p: Plain, n: nat, w: string) returns (k: nat)
    requires Same(b, p) && Accepts(Optional(p, n), w)
    ensures k <= n && Repeated(b, k, w)
    decreases n
  {
    hide Same, Repeated, Matches, Accepts;
    RepeatedNone(b, w);
    if w == "" {
      return 0;
    }
    SmallAccepts(Empty, Seq(p, Optional(p, if n > 0 then n - 1 else 0)), w);
    var x, y := SeqTook(p, Optional(p, n - 1), w);
    SameOn(b, p, x);
    k := OptionalTook(b, p, n - 1, y);
    RepeatedMore(b, k, x, y);
    k := k + 1;
  }

  /** m times and then k times in a row is m + k times ... */
  lemma {:induction false} RepeatedJoin(b: Regex, m: nat, k: nat, x: string, y: string)
    requires Repeated(b, m, x) && Repeated(b, k, y)
    ensures Repeated(b, m + k, x + y)
    decreases m
  {
    hide Repeated, Matches;
    if m == 0 {
      RepeatedNone(b, x);
      assert x + y == y;
    } else {
      var u, v := RepeatedFirst(b, m, x);
      RepeatedJoin(b, m - 1, k, v, y);
      RepeatedMore(b, m - 1 + k, u, v + y);
      assert x + y == u + (v + y);
    }
  }

  /** ... and the other way round. */
  lemma {:induction false} RepeatedSplit(b: Regex, m: nat, k: nat, w: string) returns (x: string, y: string)
    requires Repeated(b, m + k, w)
    ensures w == x + y && Repeated(b, m, x) && Repeated(b, k, y)
    decreases m
  {
    hide Repeated, Matches;
    if m == 0 {
      RepeatedNone(b, "");
      x, y := "", w;
    } else {
      var u, v := RepeatedFirst(b, m + k, w);
      x, y := RepeatedSplit(b, m - 1, k, v);
      RepeatedMore(b, m - 1, u, x);
      assert w == (u + x) + y;
      x := u + x;
    }
  }

  lemma BetweenTakes(b: Regex, p: Plain, m: nat, n: nat, k: nat, w: string)
    requires Same(b, p) && m <= k <= n && Repeated(b, k, w)
    ensures Accepts(Seq(Copies(p, m), Optional(p, n - m)), w)
  {
    hide Same, Repeated, Copies, Optional, Accepts;
    var x, y := RepeatedSplit(b, m, k - m, w);
    CopiesTake(b, p, m, x);
    OptionalTakes(b, p, n - m, k - m, y);
    SeqTakes(Copies(p, m), Optional(p, n - m), x, y);
  }

  lemma BetweenTook(b: Regex, p: Plain, m: nat, n: nat, w: string) returns (k: nat)
    requires Same(b, p) && m <= n && Accepts(Seq(Copies(p, m), Optional(p, n - m)), w)
    ensures m <= k <= n && Repeated(b, k, w)
  {
    hide Same, Repeated, Copies, Optional, Accepts;
    var x, y := SeqTook(Copies(p, m), Optional(p, n - m), w);
    CopiesTook(b, p, m, x);
    k := OptionalTook(b, p, n - m, y);
    RepeatedJoin(b, m, k, x, y);
    k := m + k;
  }

  lemma BetweenSame(b: Regex, m: nat, n: nat, w: string)
    requires Same(b, Unroll(b))
    ensures Accepts(Unroll(Between(b, m, n)), w) <==> exists k: nat :: m <= k <= n && Repeated(b, k, w)
  {
    hide Same, Repeated, Copies, Optional;
    var p := Unroll(b);
    if m <= n {
      assert Unroll(Between(b, m, n)) == Seq(Copies(p, m), Optional(p, n - m));
      hide Unroll, Accepts;
      if k: nat :| m <= k <= n && Repeated(b, k, w) {
        BetweenTakes(b, p, m, n, k, w);
      }
      if Accepts(Seq(Copies(p, m), Optional(p, n - m)), w) {
        var k := BetweenTook(b, p, m, n, w);
      }
    }
  }

  lemma TimesSame(b: Regex, n: nat, w: string)
    requires Same(b, Unroll(b))
    ensures Accepts(Copies(Unroll(b), n), w) <==> Repeated(b, n, w)
  {
    hide Same, Repeated, Copies, Accepts;
    if Repeated(b, n, w) {
      CopiesTake(b, Unroll(b), n, w);
    }
    if Accepts(Copies(Unroll(b), n), w) {
      CopiesTook(b, Unroll(b), n, w);
    }
  }

  /** A tree and its repeats written out match the same words. */
  lemma {:induction false} UnrollKeepsMeaning(t: Regex)
    ensures Same(t, Unroll(t))
  {
    match t
    case Lit(_) =>
    case Cat(l, r) =>
      UnrollKeepsMeaning(l);
      UnrollKeepsMeaning(r);
    case Alt(l, r) =>
      UnrollKeepsMeaning(l);
      UnrollKeepsMeaning(r);
    case Group(b) => UnrollKeepsMeaning(b);
    case Times(b, n) =>
      UnrollKeepsMeaning(b);
      forall w ensures Accepts(Unroll(t), w) <==> Matches(t, w) {
        TimesSame(b, n, w);
      }
    case Between(b, m, n) =>
      UnrollKeepsMeaning(b);
      forall w ensures Accepts(Unroll(t), w) <==> Matches(t, w) {
        BetweenSame(b, m, n, w);
        WithinIsSome(b, m, n, w);
      }
  }

  lemma {:induction false} SymbolsOfCopies(p: Plain, n: nat)
    ensures Symbols(Copies(p, n)) == n * Symbols(p)
    ensures Symbols(Optional(p, n)) == n * Symbols(p)
  {
    if n > 0 {
      SymbolsOfCopies(p, n - 1);
      assert n * Symbols(p) == Symbols(p) + (n - 1) * Symbols(p);
    }
  }

  /** What writing out costs. */
  lemma ExpandedRepeats(b: Regex, m: nat, n: nat)
    ensures Expanded(Times(b, n)) == n * Expanded(b)
    ensures Expanded(Between(b, m, n)) == if m <= n then n * Expanded(b) else 0
  {
    SymbolsOfCopies(Unroll(b), n);
    if m <= n {
      SymbolsOfCopies(Unroll(b), m);
      SymbolsOfCopies(Unroll(b), n - m);
      assert m * Expanded(b) + (n - m) * Expanded(b) == n * Expanded(b);
    }
  }
}
