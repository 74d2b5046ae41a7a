/** fuzz_repeat_product_excessive (harnesses/common.h): the guard that keeps
    patterns with exploding counted repeats away from TRE. */
module RepeatGuard {
  import opened Digits
  import opened RegexTrees

  const MAX_REPEAT_PRODUCT := 1_000_000
  const SATURATED := 10_000_000
  const EXACT_IN_DOUBLE := 0x20_0000_0000_0000  // 2^53

  // ---------- counted repeats, in unbounded arithmetic

  predicate GroupChar(c: char) { IsDigit(c) || c == ',' }

  function Max(a: nat, b: nat): nat { if a < b then b else a }

  predicate HasDigit(t: string) { exists i :: 0 <= i < |t| && IsDigit(t[i]) }

  /** The numbers between the commas of a brace's content; an empty one is 0. */
  function Numbers(t: string): (ns: seq<nat>)
    requires forall i :: 0 <= i < |t| ==> GroupChar(t[i])
    ensures |ns| > 0
  {
    if t == [] then [0]
    else
      var before, c := Numbers(t[..|t| - 1]), t[|t| - 1];
      assert GroupChar(c);
      if c == ',' then before + [0]
      else before[..|before| - 1] + [before[|before| - 1] * 10 + DigitValue(c)]
  }

  function Largest(ns: seq<nat>): nat {
    if ns == [] then 0 else Max(Largest(ns[..|ns| - 1]), ns[|ns| - 1])
  }

  /** Position p opens a counted repeat that q closes. */
  ghost predicate Repeat(s: string, p: nat, q: nat) {
    && p < q < |s| && s[p] == '{' && s[q] == '}'
    && (forall k :: p < k < q ==> GroupChar(s[k]))
    && HasDigit(s[p + 1..q])
  }

  /** The first position from i on that holds neither digit nor comma. */
  function Close(s: string, i: nat): (q: nat)
    requires i <= |s|
    ensures i <= q <= |s|
    ensures forall k :: i <= k < q ==> GroupChar(s[k])
    ensures q < |s| ==> !GroupChar(s[q])
    decreases |s| - i
  {
    if i < |s| && GroupChar(s[i]) then Close(s, i + 1) else i
  }

  predicate Counted(s: string, p: nat)
    requires p < |s|
  {
    && s[p] == '{'
    && var q := Close(s, p + 1);
       q < |s| && s[q] == '}' && HasDigit(s[p + 1..q])
  }

  lemma CountedIsRepeat(s: string, p: nat)
    requires p < |s|
    ensures Counted(s, p) <==> exists q: nat :: Repeat(s, p, q)
    ensures forall q: nat :: Repeat(s, p, q) ==> q == Close(s, p + 1)
  {
    if Counted(s, p) {
      assert Repeat(s, p, Close(s, p + 1));
    }
  }

  /** What the repeat opened at p multiplies the pattern by. */
  function Factor(s: string, p: nat): (f: nat)
    requires p < |s|
    ensures f >= 1
  {
    if Counted(s, p) then Max(1, Largest(Numbers(s[p + 1..Close(s, p + 1)]))) else 1
  }

  function Product(s: string, i: nat): (r: nat)
    requires i <= |s|
    ensures r >= 1
    decreases |s| - i
  {
    if i == |s| then 1 else
      var f, rest := Factor(s, i), Product(s, i + 1);
      assert f * rest >= 1;
      f * rest
  }

  lemma {:induction false} NothingOpens(s: string, i: nat, j: nat)
    requires i <= j <= |s|
    requires forall k :: i <= k < j ==> s[k] != '{'
    ensures Product(s, i) == Product(s, j)
    decreases j - i
  {
    if i < j {
      NothingOpens(s, i + 1, j);
    }
  }

  // ---------- the guard

  function Saturate(n: nat): nat { if n > SATURATED then SATURATED else n }

  /** The scan of the brace at p has come to q: what it has read is digits and
      commas, with the last number still in `cur`. */
  ghost predicate Read(s: string, p: nat, q: nat, counted: bool, cur: nat, bound: nat) {
    && p < q <= |s| && s[p] == '{'
    && (forall k :: p < k < q ==> GroupChar(s[k]))
    && (counted <==> HasDigit(s[p + 1..q]))
    && var ns := Numbers(s[p + 1..q]);
       cur == Saturate(ns[|ns| - 1]) && bound == Saturate(Largest(ns[..|ns| - 1]))
  }

  lemma LargestLast(ns: seq<nat>)
    requires ns != []
    ensures Largest(ns) == Max(Largest(ns[..|ns| - 1]), ns[|ns| - 1])
  {
  }

  /** What one more character makes of the last number. */
  function Pushed(ns: seq<nat>, c: char): seq<nat>
    requires |ns| > 0 && GroupChar(c)
  {
    if c == ',' then ns + [0] else ns[..|ns| - 1] + [ns[|ns| - 1] * 10 + DigitValue(c)]
  }

  lemma NumbersPush(t: string, c: char)
    requires GroupChar(c) && forall i :: 0 <= i < |t| ==> GroupChar(t[i])
    ensures forall i :: 0 <= i < |t + [c]| ==> GroupChar((t + [c])[i])
    ensures Numbers(t + [c]) == Pushed(Numbers(t), c)
  {
    var u := t + [c];
    assert u[..|u| - 1] == t;
  }

  lemma DigitPush(t: string, c: char)
    ensures HasDigit(t + [c]) <==> HasDigit(t) || IsDigit(c)
  {
    var u := t + [c];
    assert u[|t|] == c;
    if HasDigit(t) {
      var i :| 0 <= i < |t| && IsDigit(t[i]);
      assert IsDigit(u[i]);
    }
  }

  lemma NumbersOfOneMore(s: string, p: nat, q: nat)
    requires p < q < |s| && forall k :: p < k < q ==> GroupChar(s[k])
    ensures HasDigit(s[p + 1..q + 1]) <==> HasDigit(s[p + 1..q]) || IsDigit(s[q])
    ensures GroupChar(s[q]) ==> Numbers(s[p + 1..q + 1]) == Pushed(Numbers(s[p + 1..q]), s[q])
  {
    hide Numbers;
    var t, u := s[p + 1..q], s[p + 1..q + 1];
    assert u == t + [s[q]];
    if GroupChar(s[q]) {
      NumbersPush(t, s[q]);
    }
    DigitPush(t, s[q]);
  }

  lemma ReadOneMore(s: string, p: nat, q: nat, counted: bool, cur: nat, bound: nat)
    requires Read(s, p, q, counted, cur, bound) && q < |s|
    ensures IsDigit(s[q]) ==> Read(s, p, q + 1, true, Saturate(cur * 10 + DigitValue(s[q])), bound)
    ensures s[q] == ',' ==> Read(s, p, q + 1, counted, 0, Max(bound, cur))
  {
    hide Numbers, Largest, HasDigit;
    NumbersOfOneMore(s, p, q);
    var ns := Numbers(s[p + 1..q]);
    LargestLast(ns);
    var n := ns[|ns| - 1] * 10 + (if IsDigit(s[q]) then DigitValue(s[q]) else 0);
    assert (ns + [0])[..|ns|] == ns;
    assert (ns[..|ns| - 1] + [n])[..|ns| - 1] == ns[..|ns| - 1];
  }

  lemma ReadAll(s: string, p: nat, q: nat, counted: bool, cur: nat, bound: nat)
    requires Read(s, p, q, counted, cur, bound) && counted && q < |s| && s[q] == '}'
    ensures Counted(s, p) && q == Close(s, p + 1)
    ensures Max(1, Max(bound, cur)) == Saturate(Factor(s, p))
  {
    assert Repeat(s, p, q);
    CountedIsRepeat(s, p);
  }

  /** A brace whose content ends at q without a digit, or without being
      closed there, is no counted repeat. */
  lemma NoRepeatPast(s: string, p: nat, q: nat)
    requires p < q <= |s| && s[p] == '{' && forall k :: p < k < q ==> GroupChar(s[k])
    requires q == |s| || !GroupChar(s[q])
    requires q == |s| || s[q] != '}' || !HasDigit(s[p + 1..q])
    ensures !Counted(s, p)
  {
    CountedIsRepeat(s, p);
    assert forall r: nat :: Repeat(s, p, r) ==> !(r < q) && !(q < r);
  }

  /** Read one brace (839-862): is it a counted repeat, where does it end, and
      what is the largest number in it? */
  method ReadBrace(pattern: string, p: nat) returns (counted: bool, q: nat, bound: nat)
    requires p < |pattern| && pattern[p] == '{'
    ensures counted <==> Counted(pattern, p)
    ensures counted ==> q == Close(pattern, p + 1) && Max(1, bound) == Saturate(Factor(pattern, p))
    ensures bound <= 10_000_000
  {
    var cur: nat := 0;
    bound, counted, q := 0, false, p + 1;
    while q < |pattern| && pattern[q] != '}'
      invariant Read(pattern, p, q, counted, cur, bound)
    {
      ReadOneMore(pattern, p, q, counted, cur, bound);
      if IsDigit(pattern[q]) {
        cur := cur * 10 + DigitValue(pattern[q]);
        if cur > SATURATED {
          cur := SATURATED;
        }
        counted := true;
      } else if pattern[q] == ',' {
        if cur > bound {
          bound := cur;
        }
        cur := 0;
      } else {
        NoRepeatPast(pattern, p, q);
        counted := false;
        return;
      }
      q := q + 1;
    }
    if !counted || q == |pattern| {
      NoRepeatPast(pattern, p, q);
      counted := false;
      return;
    }
    ReadAll(pattern, p, q, counted, cur, bound);
    if cur > bound {
      bound := cur;
    }
  }

  function Multiplied(product: nat, bound: nat): nat {
    if bound > 1 then product * bound else product
  }

  /** `product` is the product of the repeats before p, within the budget. */
  predicate Scanned(s: string, p: nat, product: nat)
    requires p <= |s|
  {
    1 <= product <= MAX_REPEAT_PRODUCT && Product(s, 0) == product * Product(s, p)
  }

  lemma MulMono(a: nat, b: nat, c: nat)
    requires a <= b
    ensures a * c <= b * c && c * a <= c * b
  {
  }

  lemma MulAssoc(a: nat, b: nat, c: nat)
    ensures a * (b * c) == (a * b) * c
  {
  }

  /** Multiplying by the saturated bound decides like multiplying by the
      factor itself, and loses nothing as long as the budget lasts. */
  lemma OverBudget(product: nat, next: nat, bound: nat, factor: nat, rest: nat, whole: nat)
    requires 1 <= product <= MAX_REPEAT_PRODUCT && rest >= 1 && whole == factor * rest
    requires bound <= SATURATED && Max(1, bound) == Saturate(factor)
    requires next == if bound > 1 then product * bound else product
    ensures next < EXACT_IN_DOUBLE
    ensures next > MAX_REPEAT_PRODUCT ==> product * whole > MAX_REPEAT_PRODUCT
    ensures 1 <= next <= MAX_REPEAT_PRODUCT ==> product * whole == next * rest
    ensures next >= 1
  {
    var b := Max(1, bound);
    MulAssoc(product, factor, rest);
    MulMono(b, factor, product);
    MulMono(1, rest, product * factor);
    MulMono(product, MAX_REPEAT_PRODUCT, b);
    MulMono(1, product, b);
    assert next == product * b;
  }

  lemma ScanRepeat(s: string, p: nat, q: nat, product: nat, bound: nat)
    requires p < q < |s| && Counted(s, p) && q == Close(s, p + 1) && Scanned(s, p, product)
    requires bound <= SATURATED && Max(1, bound) == Saturate(Factor(s, p))
    ensures var next := Multiplied(product, bound);
      && next < EXACT_IN_DOUBLE
      && if next > MAX_REPEAT_PRODUCT then Product(s, 0) > MAX_REPEAT_PRODUCT else Scanned(s, q + 1, next)
  {
    NothingOpens(s, p + 1, q + 1);
    OverBudget(product, Multiplied(product, bound), bound, Factor(s, p), Product(s, q + 1), Product(s, p));
  }

  lemma ScanStart(s: string)
    ensures Scanned(s, 0, 1)
  {
  }

  lemma ScanPlain(s: string, p: nat, product: nat)
    requires p < |s| && !Counted(s, p) && Scanned(s, p, product)
    ensures Scanned(s, p + 1, product)
  {
  }

  lemma ScanDone(s: string, product: nat)
    requires Scanned(s, |s|, product)
    ensures Product(s, 0) <= MAX_REPEAT_PRODUCT
  {
  }

  /** The guard rejects a pattern exactly when the product of its repeat bounds
      is over the budget, although it saturates each number, stops early,
      rescans a brace it could not read, and works in doubles. */
  method RepeatProductExcessive(pattern: string) returns (excessive: bool)
    ensures excessive <==> Product(pattern, 0) > 1_000_000
  {
    var product: nat, p: nat := 1, 0;
    ScanStart(pattern);
    while p < |pattern|
      invariant p <= |pattern| && Scanned(pattern, p, product)
    {
      if pattern[p] == '{' {
        var counted, q, bound := ReadBrace(pattern, p);
        if counted {
          ScanRepeat(pattern, p, q, product, bound);
          product := Multiplied(product, bound);
          if product > MAX_REPEAT_PRODUCT {
            return true;
          }
          p := q + 1;
          continue;
        }
      }
      ScanPlain(pattern, p, product);
      p := p + 1;
    }
    ScanDone(pattern, product);
    return false;
  }

  // ---------- what the budget bounds

  predicate NoBraceLiterals(t: Regex) {
    match t
    case Lit(c) => c != '{' && c != '}'
    case Cat(l, r) => NoBraceLiterals(l) && NoBraceLiterals(r)
    case Alt(l, r) => NoBraceLiterals(l) && NoBraceLiterals(r)
    case Group(b) => NoBraceLiterals(b)
    case Times(b, _) => NoBraceLiterals(b)
    case Between(b, _, _) => NoBraceLiterals(b)
  }

  function Print(t: Regex): string {
    match t
    case Lit(c) => [c]
    case Cat(l, r) => Print(l) + Print(r)
    case Alt(l, r) => Print(l) + "|" + Print(r)
    case Group(b) => "(" + Print(b) + ")"
    case Times(b, n) => Print(b) + ("{" + Decimal(n) + "}")
    case Between(b, m, n) => Print(b) + ("{" + (Decimal(m) + "," + Decimal(n)) + "}")
  }

  function Mul(a: nat, b: nat): (r: nat)
    requires a >= 1 && b >= 1
    ensures r == a * b && r >= a && r >= b
  {
    assert a * b >= a && a * b >= b;
    a * b
  }

  function Repeats(t: Regex): (r: nat)
    ensures r >= 1
  {
    match t
    case Lit(_) => 1
    case Cat(l, r) => Mul(Repeats(l), Repeats(r))
    case Alt(l, r) => Mul(Repeats(l), Repeats(r))
    case Group(b) => Repeats(b)
    case Times(b, n) => Mul(Repeats(b), Max(1, n))
    case Between(b, m, n) => Mul(Repeats(b), Max(1, Max(m, n)))
  }

  lemma SumWithinProduct(e1: nat, e2: nat, r1: nat, r2: nat, l1: nat, l2: nat)
    requires e1 <= r1 * l1 && e2 <= r2 * l2 && r1 >= 1 && r2 >= 1
    ensures e1 + e2 <= Mul(r1, r2) * (l1 + l2)
  {
    var p := Mul(r1, r2);
    MulMono(r1, p, l1);
    MulMono(r2, p, l2);
    assert p * (l1 + l2) == p * l1 + p * l2;
  }

  lemma CopiesWithinProduct(e: nat, r: nat, l: nat, n: nat)
    requires e <= r * l && r >= 1
    ensures n * e <= Mul(r, Max(1, n)) * l
  {
    var m := Max(1, n);
    MulMono(n, m, e);
    MulMono(e, r * l, m);
    MulAssoc(m, r, l);
    assert m * r == Mul(r, m);
  }

  lemma {:induction false} ExpandedWithinRepeats(t: Regex)
    ensures Expanded(t) <= Repeats(t) * Literals(t)
  {
    match t
    case Lit(_) =>
    case Cat(l, r) =>
      ExpandedWithinRepeats(l);
      ExpandedWithinRepeats(r);
      SumWithinProduct(Expanded(l), Expanded(r), Repeats(l), Repeats(r), Literals(l), Literals(r));
    case Alt(l, r) =>
      ExpandedWithinRepeats(l);
      ExpandedWithinRepeats(r);
      SumWithinProduct(Expanded(l), Expanded(r), Repeats(l), Repeats(r), Literals(l), Literals(r));
    case Group(b) => ExpandedWithinRepeats(b);
    case Times(b, n) =>
      ExpandedWithinRepeats(b);
      ExpandedRepeats(b, 0, n);
      CopiesWithinProduct(Expanded(b), Repeats(b), Literals(b), n);
    case Between(b, m, n) =>
      ExpandedWithinRepeats(b);
      ExpandedRepeats(b, m, n);
      CopiesWithinProduct(Expanded(b), Repeats(b), Literals(b), Max(m, n));
  }

  // ---------- reading back what was printed

  /** Every brace that opens is followed by one that closes. */
  predicate BracesClose(s: string) {
    forall p :: 0 <= p < |s| && s[p] == '{' ==> exists q :: p < q < |s| && s[q] == '}'
  }

  lemma {:induction false} CloseWithin(a: string, b: string, i: nat)
    requires i <= |a| && Close(a, i) < |a|
    ensures Close(a + b, i) == Close(a, i)
    decreases |a| - i
  {
    if GroupChar(a[i]) {
      CloseWithin(a, b, i + 1);
    }
  }

  /** Text behind a can only add to what its braces say. */
  lemma FactorBefore(a: string, b: string, p: nat)
    requires p < |a|
    ensures Factor(a + b, p) >= Factor(a, p)
    ensures BracesClose(a) ==> Factor(a + b, p) == Factor(a, p)
  {
    if a[p] == '{' {
      var c := Close(a, p + 1);
      assert BracesClose(a) ==> c < |a|;
      if c < |a| {
        CloseWithin(a, b, p + 1);
        assert (a + b)[p + 1..c] == a[p + 1..c];
      }
    }
  }

  lemma {:induction false} CloseAfter(a: string, b: string, i: nat)
    requires i <= |b|
    ensures Close(a + b, |a| + i) == |a| + Close(b, i)
    decreases |b| - i
  {
    if i < |b| && GroupChar(b[i]) {
      CloseAfter(a, b, i + 1);
    }
  }

  lemma {:induction false} ProductAfter(a: string, b: string, i: nat)
    requires i <= |b|
    ensures Product(a + b, |a| + i) == Product(b, i)
    decreases |b| - i
  {
    if i < |b| {
      ProductAfter(a, b, i + 1);
      CloseAfter(a, b, i + 1);
      var c := Close(b, i + 1);
      assert (a + b)[|a| + i + 1..|a| + c] == b[i + 1..c];
    }
  }

  lemma MulBoth(a: nat, b: nat, c: nat, d: nat)
    requires a >= c && b >= d
    ensures a * b >= c * d
  {
    MulMono(c, a, d);
    MulMono(d, b, a);
  }

  /** The repeats of both parts multiply, and those that straddle the seam
      come on top. */
  lemma {:induction false} ProductOfConcat(a: string, b: string, i: nat)
    requires i <= |a|
    ensures Product(a + b, i) >= Product(a, i) * Product(b, 0)
    ensures BracesClose(a) ==> Product(a + b, i) == Product(a, i) * Product(b, 0)
    decreases |a| - i
  {
    if i == |a| {
      ProductAfter(a, b, 0);
    } else {
      ProductOfConcat(a, b, i + 1);
      FactorBefore(a, b, i);
      hide Factor, BracesClose;
      MulAssoc(Factor(a, i), Product(a, i + 1), Product(b, 0));
      MulBoth(Factor(a + b, i), Product(a + b, i + 1), Factor(a, i), Product(a, i + 1) * Product(b, 0));
    }
  }

  lemma LastPushed(ns: seq<nat>, n: nat, c: char)
    requires IsDigit(c)
    ensures Pushed(ns + [n], c) == ns + [n * 10 + DigitValue(c)]
  {
  }

  lemma EndsInZero(t: string)
    requires forall i :: 0 <= i < |t| ==> GroupChar(t[i])
    requires t == [] || t[|t| - 1] == ','
    ensures Numbers(t)[|Numbers(t)| - 1] == 0
  {
  }

  lemma {:induction false} NumbersOfDecimal(t: string, n: nat)
    requires forall i :: 0 <= i < |t| ==> GroupChar(t[i])
    requires t == [] || t[|t| - 1] == ','
    ensures forall i :: 0 <= i < |t + Decimal(n)| ==> GroupChar((t + Decimal(n))[i])
    ensures Numbers(t + Decimal(n)) == Numbers(t)[..|Numbers(t)| - 1] + [n]
  {
    hide Numbers, Digit, IsDigit, DigitValue;
    EndsInZero(t);
    var front := Numbers(t)[..|Numbers(t)| - 1];
    assert Numbers(t) == front + [0];
    if n < 10 {
      NumbersPush(t, Digit(n));
      LastPushed(front, 0, Digit(n));
    } else {
      NumbersOfDecimal(t, n / 10);
      assert t + Decimal(n) == (t + Decimal(n / 10)) + [Digit(n % 10)];
      NumbersPush(t + Decimal(n / 10), Digit(n % 10));
      LastPushed(front, n / 10, Digit(n % 10));
      assert n == (n / 10) * 10 + n % 10;
    }
  }

  /** The repeats of the text multiply to r, or to more if it may hold braces
      that are not `closed`. */
  predicate Amounts(s: string, r: nat, closed: bool) {
    Product(s, 0) >= r && (closed ==> BracesClose(s) && Product(s, 0) == r)
  }

  lemma ProductStep(s: string, i: nat)
    requires i < |s|
    ensures Product(s, i) == Factor(s, i) * Product(s, i + 1) && Product(s, |s|) == 1
  {
  }

  lemma FactorOfBraces(content: string)
    requires forall i :: 0 <= i < |content| ==> GroupChar(content[i])
    requires HasDigit(content)
    ensures var s := "{" + content + "}";
      Factor(s, 0) == Max(1, Largest(Numbers(content))) && BracesClose(s)
  {
    var s := "{" + content + "}";
    assert s[1..|s| - 1] == content && s[|s| - 1] == '}';
    assert Repeat(s, 0, |s| - 1);
    CountedIsRepeat(s, 0);
    hide Numbers, Largest, HasDigit;
  }

  /** Where only the first character opens a repeat, it is the product. */
  lemma ProductOfOne(s: string)
    requires s != [] && forall k :: 1 <= k < |s| ==> s[k] != '{'
    ensures Product(s, 0) == Factor(s, 0)
  {
    NothingOpens(s, 1, |s|);
    ProductStep(s, 0);
    hide Product, Factor;
  }

  lemma ProductOfBraces(content: string)
    requires forall i :: 0 <= i < |content| ==> GroupChar(content[i])
    requires HasDigit(content)
    ensures Amounts("{" + content + "}", Max(1, Largest(Numbers(content))), true)
  {
    hide Product, Factor, Numbers, Largest, HasDigit, BracesClose;
    var s := "{" + content + "}";
    FactorOfBraces(content);
    assert forall k :: 1 <= k < |s| ==> s[k] == '}' || GroupChar(s[k]);
    ProductOfOne(s);
  }

  lemma BracesCloseConcat(a: string, b: string)
    requires BracesClose(a) && BracesClose(b)
    ensures BracesClose(a + b)
  {
    var s := a + b;
    forall p | 0 <= p < |s| && s[p] == '{' ensures exists q :: p < q < |s| && s[q] == '}' {
      if p < |a| {
        var q :| p < q < |a| && a[q] == '}';
        assert s[q] == '}';
      } else {
        var q :| p - |a| < q < |b| && b[q] == '}';
        assert s[|a| + q] == '}';
      }
    }
  }

  lemma ProductOfLiteral(c: char)
    ensures Amounts([c], 1, c != '{')
  {
    if c != '{' {
      NothingOpens([c], 0, 1);
    }
  }

  lemma ConcatPrint(a: string, ra: nat, b: string, rb: nat, closed: bool)
    requires ra >= 1 && rb >= 1 && Amounts(a, ra, closed) && Amounts(b, rb, closed)
    ensures Amounts(a + b, Mul(ra, rb), closed)
  {
    ProductOfConcat(a, b, 0);
    MulBoth(Product(a, 0), Product(b, 0), ra, rb);
    if closed {
      BracesCloseConcat(a, b);
    }
  }

  lemma LargestOfOne(n: nat)
    ensures Numbers("") == [0] && Largest([n]) == n
  {
    assert [n][..0] == [];
  }

  lemma NumbersOfOne(n: nat)
    ensures var t := Decimal(n);
      && (forall i :: 0 <= i < |t| ==> GroupChar(t[i]))
      && HasDigit(t)
      && Numbers(t) == [n] && Largest([n]) == n
  {
    hide Decimal, Numbers, Largest;
    DecimalDigits(n);
    assert IsDigit(Decimal(n)[0]);
    LargestOfOne(n);
    NumbersOfDecimal("", n);
    assert "" + Decimal(n) == Decimal(n) && [0][..0] + [n] == [n];
  }

  lemma Weaken(s: string, r: nat, closed: bool, less: bool)
    requires Amounts(s, r, closed) && (less ==> closed)
    ensures Amounts(s, r, less)
  {
  }

  lemma PrintPair(a: string, ra: nat, ca: bool, b: string, rb: nat, cb: bool)
    requires ra >= 1 && rb >= 1 && Amounts(a, ra, ca) && Amounts(b, rb, cb)
    ensures Amounts(a + b, Mul(ra, rb), ca && cb)
  {
    Weaken(a, ra, ca, ca && cb);
    Weaken(b, rb, cb, ca && cb);
    hide Amounts;
    ConcatPrint(a, ra, b, rb, ca && cb);
  }

  lemma PrintRepeat(b: Regex, content: string, n: nat)
    requires Amounts(Print(b), Repeats(b), NoBraceLiterals(b))
    requires forall i :: 0 <= i < |content| ==> GroupChar(content[i])
    requires HasDigit(content) && Largest(Numbers(content)) == n
    ensures Amounts(Print(b) + ("{" + content + "}"), Mul(Repeats(b), Max(1, n)), NoBraceLiterals(b))
  {
    ProductOfBraces(content);
    ConcatPrint(Print(b), Repeats(b), "{" + content + "}", Max(1, n), NoBraceLiterals(b));
  }

  lemma LargestOfPair(m: nat, n: nat)
    ensures Largest([m, n]) == Max(m, n)
  {
    assert [m][..0] == [] && Largest([m]) == m;
    assert [m, n][..1] == [m];
  }

  lemma NumbersOfPair(m: nat, n: nat)
    ensures var t := Decimal(m) + "," + Decimal(n);
      && (forall i :: 0 <= i < |t| ==> GroupChar(t[i]))
      && HasDigit(t)
      && Largest(Numbers(t)) == Max(m, n)
  {
    hide Decimal, Numbers, Largest;
    NumbersOfOne(m);
    var t := Decimal(m) + ",";
    NumbersPush(Decimal(m), ',');
    NumbersOfDecimal(t, n);
    assert Numbers(t) == [m] + [0] == [m, 0];
    assert [m, 0][..1] + [n] == [m, n];
    LargestOfPair(m, n);
    DecimalDigits(m);
    assert IsDigit((t + Decimal(n))[0]);
  }

  /** Scanning the printed text finds the repeats of the tree, and nothing else
      unless a literal is a brace. */
  lemma {:induction false} ProductOfPrint(t: Regex)
    ensures Amounts(Print(t), Repeats(t), NoBraceLiterals(t))
  {
    hide Amounts, Decimal;
    match t
    case Lit(c) =>
      ProductOfLiteral(c);
      Weaken([c], 1, c != '{', NoBraceLiterals(t));
    case Cat(l, r) =>
      ProductOfPrint(l);
      ProductOfPrint(r);
      PrintPair(Print(l), Repeats(l), NoBraceLiterals(l), Print(r), Repeats(r), NoBraceLiterals(r));
    case Alt(l, r) =>
      ProductOfPrint(l);
      ProductOfPrint(r);
      ProductOfLiteral('|');
      PrintPair(Print(l), Repeats(l), NoBraceLiterals(l), "|", 1, true);
      PrintPair(Print(l) + "|", Repeats(l), NoBraceLiterals(l), Print(r), Repeats(r), NoBraceLiterals(r));
    case Group(b) =>
      ProductOfPrint(b);
      ProductOfLiteral('(');
      ProductOfLiteral(')');
      PrintPair("(", 1, true, Print(b), Repeats(b), NoBraceLiterals(b));
      PrintPair("(" + Print(b), Repeats(b), NoBraceLiterals(b), ")", 1, true);
    case Times(b, n) =>
      ProductOfPrint(b);
      NumbersOfOne(n);
      PrintRepeat(b, Decimal(n), n);
    case Between(b, m, n) =>
      ProductOfPrint(b);
      NumbersOfPair(m, n);
      PrintRepeat(b, Decimal(m) + "," + Decimal(n), Max(m, n));
  }

  /** A pattern the guard lets through expands to at most 10^6 literals for
      each one written. */
  lemma AcceptedPatternsStaySmall(t: Regex)
    requires Product(Print(t), 0) <= 1_000_000
    ensures Expanded(t) <= 1_000_000 * Literals(t)
  {
    ProductOfPrint(t);
    ExpandedWithinRepeats(t);
    MulMono(Repeats(t), MAX_REPEAT_PRODUCT, Literals(t));
  }
}
