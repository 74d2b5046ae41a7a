/** The execution budget of harnesses/eval.c, across compilation, evaluation,
    errors and jumps. */
module EvalBudget {

  const EVAL_BUDGET := 20000
  const CPU_LIMIT := 1.0
  const CLOCKS_PER_SEC := 1_000_000

  /** How a call into R ends: a value, an R error of its own, or a jump past
      every frame of the harness (an interrupt). */
  datatype End = Finishes | Fails | Jumps

  /** A call into R: the clock() reading at each interrupt check it makes, how
      it ends if nothing stops it, and the checks made while unwinding from a
      budget error. */
  datatype Script = Script(polls: seq<int>, end: End, unwinding: seq<int>)

  /** A top-level expression: its compilation and its evaluation. */
  datatype Expr = Expr(compilation: Script, evaluation: Script)

  datatype Input = Input(accepted: bool, clock: int, exprs: seq<Expr>)

  // ---------- where an input is cut off

  predicate Late(now: int, start: int) {
    (now - start) as real / CLOCKS_PER_SEC as real > CPU_LIMIT
  }

  /** In clock ticks: more than a million of them have passed. */
  lemma LateIsAMillionTicks(now: int, start: int)
    ensures Late(now, start) <==> now - start > 1_000_000
  {
  }

  /** How many of these checks pass before one raises an error, with b checks
      left. */
  function Cut(polls: seq<int>, start: int, b: nat): (n: nat)
    requires b >= 1
    ensures n <= |polls| && n < b
  {
    if polls == [] || b == 1 || Late(polls[0], start) then 0
    else 1 + Cut(polls[1..], start, b - 1)
  }

  /** It is the first check that is the b-th or comes too late. */
  lemma {:induction false} CutIsFirst(polls: seq<int>, start: int, b: nat)
    requires b >= 1
    ensures var n := Cut(polls, start, b);
      && (forall i :: 0 <= i < n ==> i + 1 < b && !Late(polls[i], start))
      && (n < |polls| ==> n + 1 == b || Late(polls[n], start))
  {
    if polls != [] && b != 1 && !Late(polls[0], start) {
      CutIsFirst(polls[1..], start, b - 1);
    }
  }

  lemma {:induction false} CutConcat(x: seq<int>, y: seq<int>, start: int, b: nat)
    requires b >= 1
    ensures Cut(x + y, start, b) ==
            if Cut(x, start, b) < |x| then Cut(x, start, b)
            else |x| + Cut(y, start, b - |x|)
  {
    if x == [] {
      assert x + y == y;
    } else if b != 1 && !Late(x[0], start) {
      assert (x + y)[1..] == x[1..] + y;
      CutConcat(x[1..], y, start, b - 1);
    }
  }

  /** The checks the evaluations of an input make, one after the other, up to
      the first that does not finish, with no budget at all. */
  function Polls(exprs: seq<Expr>): seq<int> {
    if exprs == [] || exprs[0].compilation.end.Jumps? then []
    else
      var e := exprs[0].evaluation;
      e.polls + (if e.end.Finishes? then Polls(exprs[1..]) else [])
  }

  /** Does one of these expressions end the input by itself? */
  predicate Stops(exprs: seq<Expr>) {
    exists i :: 0 <= i < |exprs| && (exprs[i].compilation.end.Jumps? || !exprs[i].evaluation.end.Finishes?)
  }

  lemma PollsFrom(exprs: seq<Expr>, i: nat)
    requires i < |exprs|
    ensures var e := exprs[i];
      Polls(exprs[i..]) ==
      if e.compilation.end.Jumps? then []
      else e.evaluation.polls + (if e.evaluation.end.Finishes? then Polls(exprs[i + 1..]) else [])
    ensures exprs[i].compilation.end.Jumps? || !exprs[i].evaluation.end.Finishes?
            ==> Stops(exprs)
    ensures !Stops(exprs[..i]) && !exprs[i].compilation.end.Jumps? && exprs[i].evaluation.end.Finishes?
            ==> !Stops(exprs[..i + 1])
  {
    assert exprs[i..][1..] == exprs[i + 1..];
    assert exprs[..i + 1] == exprs[..i] + [exprs[i]];
  }

  lemma NothingLeft(exprs: seq<Expr>)
    ensures exprs[..|exprs|] == exprs && Polls(exprs[|exprs|..]) == []
    ensures !Stops(exprs[..0])
  {
  }

  lemma CutNothing(start: int, b: nat)
    requires b >= 1
    ensures Cut([], start, b) == 0
  {
  }

  /** The input was charged for every check up to the first that is out of
      budget or of time, which alone raised an error; it has finished exactly if
      there was none and no expression ended it. */
  predicate Charged(exprs: seq<Expr>, start: int, counted: nat, raised: nat, end: End) {
    var polls := Polls(exprs);
    var n := Cut(polls, start, 20000);
    && counted == (if n < |polls| then n + 1 else n)
    && raised == (if n < |polls| then 1 else 0)
    && (end == Finishes <==> n == |polls| && !Stops(exprs))
  }

  /** The first i expressions have finished, with this much of the budget left. */
  predicate Reached(exprs: seq<Expr>, i: nat, start: int, counted: nat, budget: int)
    requires i <= |exprs|
  {
    && counted + budget == EVAL_BUDGET && budget >= 1 && !Stops(exprs[..i])
    && counted + |Polls(exprs[i..])| == |Polls(exprs)|
    && Cut(Polls(exprs), start, EVAL_BUDGET) == counted + Cut(Polls(exprs[i..]), start, budget)
  }

  lemma ReachedFirst(exprs: seq<Expr>, start: int)
    ensures Reached(exprs, 0, start, 0, EVAL_BUDGET)
  {
    assert exprs[0..] == exprs;
  }

  lemma ReachedLast(exprs: seq<Expr>, start: int, counted: nat, budget: int)
    requires Reached(exprs, |exprs|, start, counted, budget)
    ensures Charged(exprs, start, counted, 0, Finishes)
  {
    hide Stops;
    NothingLeft(exprs);
  }

  lemma CompilationJumps(exprs: seq<Expr>, i: nat, start: int, counted: nat, budget: int)
    requires i < |exprs| && Reached(exprs, i, start, counted, budget) && exprs[i].compilation.end.Jumps?
    ensures Charged(exprs, start, counted, 0, Jumps)
  {
    PollsFrom(exprs, i);
    CutNothing(start, budget);
    hide Cut, Stops, Polls;
  }

  /** How evaluating the next expression goes on, or ends the input. */
  lemma Evaluated(exprs: seq<Expr>, i: nat, start: int, counted: nat, budget: int)
    requires i < |exprs| && Reached(exprs, i, start, counted, budget) && !exprs[i].compilation.end.Jumps?
    ensures var e := exprs[i].evaluation;
      var n := Cut(e.polls, start, budget);
      if n < |e.polls| then Charged(exprs, start, counted + n + 1, 1, Fails)
      else if e.end.Finishes? then Reached(exprs, i + 1, start, counted + n, budget - n)
      else Charged(exprs, start, counted + n, 0, e.end)
  {
    var e := exprs[i].evaluation;
    var rest := if e.end.Finishes? then Polls(exprs[i + 1..]) else [];
    PollsFrom(exprs, i);
    CutConcat(e.polls, rest, start, budget);
    hide Cut, Stops, Polls;
  }

  /** What the checks of an input find, from b on. */
  predicate CountsDown(seen: seq<int>, b: int) {
    forall i :: 0 <= i < |seen| ==> seen[i] == b - i
  }

  predicate AllAre(seen: seq<int>, b: int) { forall i :: 0 <= i < |seen| ==> seen[i] == b }

  lemma CountsOn(x: seq<int>, y: seq<int>, b: int)
    requires CountsDown(x, b) && CountsDown(y, b - |x|)
    ensures CountsDown(x + y, b)
  {
  }

  // ---------- the harness

  class EvalTarget {
    var budget: int
    var cpuStart: int
    ghost var counted: nat  // checks charged to the budget
    ghost var raised: nat   // budget and CPU errors

    constructor ()
      ensures budget == 0 && counted == 0 && raised == 0
    {
      budget, cpuStart, counted, raised := 0, 0, 0, 0;
    }

    /** eval_poll_budget: an interrupt check at this moment. */
    method PollBudget(now: int) returns (error: bool)
      modifies this
      ensures cpuStart == old(cpuStart)
      ensures old(budget) <= 0 ==> !error && budget == old(budget) && counted == old(counted) && raised == old(raised)
      ensures old(budget) > 0 ==>
                && (error <==> old(budget) == 1 || Late(now, cpuStart))
                && budget == (if error then 0 else old(budget) - 1)
                && counted == old(counted) + 1 && raised == old(raised) + (if error then 1 else 0)
    {
      if budget <= 0 {
        return false;
      }
      counted := counted + 1;
      budget := budget - 1;
      if budget == 0 {
        raised := raised + 1;
        return true;
      }
      if Late(now, cpuStart) {
        budget := 0;
        raised := raised + 1;
        return true;
      }
      return false;
    }

    /** Checks made while an error unwinds find no budget, so none counts. */
    method Unwind(polls: seq<int>)
      requires budget == 0
      modifies this
      ensures budget == 0 && cpuStart == old(cpuStart) && counted == old(counted) && raised == old(raised)
    {
      var i := 0;
      while i < |polls|
        invariant budget == 0 && cpuStart == old(cpuStart) && counted == old(counted) && raised == old(raised)
      {
        var error := PollBudget(polls[i]);
        i := i + 1;
      }
    }

    /** R_tryEvalSilent: R runs, polling, until it ends or a check raises;
        `seen` is the budget that each of these checks finds. */
    method TryEval(s: Script) returns (end: End, ghost seen: seq<int>)
      modifies this
      ensures cpuStart == old(cpuStart)
      ensures old(budget) <= 0 ==>
                budget == old(budget) && counted == old(counted) && raised == old(raised) && end == s.end
      ensures old(budget) > 0 ==>
                var n := Cut(s.polls, cpuStart, old(budget));
                if n < |s.polls|
                then end == Fails && budget == 0 && counted == old(counted) + n + 1 && raised == old(raised) + 1
                else && end == s.end && budget == old(budget) - n >= 1
                     && counted == old(counted) + n && raised == old(raised)
      ensures old(budget) > 0 ==> CountsDown(seen, old(budget)) && |seen| == counted - old(counted) <= old(budget)
      ensures old(budget) <= 0 ==> |seen| == |s.polls| && AllAre(seen, old(budget))
    {
      ghost var b := budget;
      seen := [];
      var i := 0;
      while i < |s.polls|
        invariant i <= |s.polls| && cpuStart == old(cpuStart) && raised == old(raised)
        invariant b <= 0 ==> budget == b && counted == old(counted)
        invariant b > 0 ==> budget == b - i >= 1 && counted == old(counted) + i
        invariant b > 0 ==> Cut(s.polls, cpuStart, b) == i + Cut(s.polls[i..], cpuStart, budget)
        invariant |seen| == i && forall k :: 0 <= k < i ==> seen[k] == if b > 0 then b - k else b
      {
        seen := seen + [budget];
        var error := PollBudget(s.polls[i]);
        assert s.polls[i..][1..] == s.polls[i + 1..];
        if error {
          Unwind(s.unwinding);
          end := Fails;
          return;
        }
        i := i + 1;
      }
      end := s.end;
    }

    /** eval_compile: the budget is paused, and restored unless R jumped away. */
    method Compile(s: Script) returns (end: End)
      modifies this
      ensures end == s.end && cpuStart == old(cpuStart) && counted == old(counted) && raised == old(raised)
      ensures budget == if end.Jumps? then 0 else old(budget)
    {
      var saved := budget;
      budget := 0;
      ghost var paused;
      end, paused := TryEval(s);
      if end.Jumps? {
        return;
      }
      budget := saved;
    }

    /** eval_source, from the parsed input on: one budget for all of it, so
        that every check an evaluation makes before it ends finds at least one
        left, and none finds the 0 that means no limit. */
    method Source(input: Input) returns (end: End, ghost seen: seq<int>)
      requires budget == 0 && counted == 0 && raised == 0
      modifies this
      ensures !end.Jumps? ==> budget == 0
      ensures !input.accepted ==> end == Fails && counted == 0 && raised == 0
      ensures input.accepted ==> Charged(input.exprs, input.clock, counted, raised, end)
      ensures |seen| == counted <= 20000 && CountsDown(seen, 20000)
    {
      seen := [];
      assert CountsDown(seen, EVAL_BUDGET);
      if !input.accepted {
        end := Fails;
        return;
      }
      hide Cut, Late, Polls, Stops, CountsDown, AllAre, Charged, Reached;
      cpuStart := input.clock;
      budget := EVAL_BUDGET;
      var i := 0;
      ReachedFirst(input.exprs, cpuStart);
      while i < |input.exprs|
        invariant i <= |input.exprs| && cpuStart == input.clock && raised == 0
        invariant Reached(input.exprs, i, cpuStart, counted, budget)
        invariant |seen| == counted && counted + budget == EVAL_BUDGET && budget >= 1
        invariant CountsDown(seen, EVAL_BUDGET)
      {
        var e := input.exprs[i];
        end := Compile(e.compilation);
        if end.Jumps? {
          CompilationJumps(input.exprs, i, cpuStart, counted, EVAL_BUDGET - counted);
          return;
        }
        Evaluated(input.exprs, i, cpuStart, counted, budget);
        ghost var n := Cut(e.evaluation.polls, cpuStart, budget);
        ghost var before, more := counted, [];
        end, more := TryEval(e.evaluation);
        CountsOn(seen, more, EVAL_BUDGET);
        seen := seen + more;
        assert |seen| == counted == before + (if n < |e.evaluation.polls| then n + 1 else n);
        if !end.Finishes? {
          if end.Jumps? {
            return;
          }
          budget := 0;
          return;
        }
        i := i + 1;
      }
      ReachedLast(input.exprs, cpuStart, counted, budget);
      budget := 0;
      end := Finishes;
    }

    /** eval_run: whatever happens in R, afterwards the budget is off; an input
        is charged for every check its expressions make, up to and including
        the first one that is out of budget or of time, which alone raises an
        error; and no input is charged for more than the whole budget. */
    method Run(input: Input) returns (end: End, ghost seen: seq<int>)
      requires budget == 0
      modifies this
      ensures budget == 0
      ensures |seen| == counted && forall i :: 0 <= i < |seen| ==> seen[i] == 20000 - i >= 1
      ensures counted <= 20000 && raised <= 1
      ensures input.accepted ==> Charged(input.exprs, input.clock, counted, raised, end)
    {
      counted, raised := 0, 0;
      end, seen := Source(input);
      budget := 0;
    }
  }
}
