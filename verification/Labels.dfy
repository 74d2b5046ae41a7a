/** What a timeout dump calls the slot that was running (harnesses/common.h). */
module Labels {
  import opened Digits

  const MAX_LABELS := 128
  const LABEL_MAX := 4096
  const INT_MAX := 0x7fff_ffff

  /** A call slot: none, R_NilValue, or a call. */
  datatype Sexp = Null | NilValue | Call(id: nat)

  predicate IsCall(c: Sexp) { c.Call? }

  /** The lines deparse() gives for a call, or its failure. */
  datatype Deparsed = Fails | Lines(lines: seq<string>)

  // ---------- what a label says

  const OPENING := "==fuzz== slot "
  const OF := " of "
  const DOTS := "    ...\n"

  function SlotList(slots: seq<nat>): string
    requires slots != []
  {
    if |slots| == 1 then Decimal(slots[0])
    else SlotList(slots[..|slots| - 1]) + ", " + Decimal(slots[|slots| - 1])
  }

  function Total(n: nat): string { OF + Decimal(n) + ":\n" }

  function Header(slots: seq<nat>, n: nat): string
    requires slots != []
  {
    OPENING + SlotList(slots) + Total(n)
  }

  /** Is there room for this line after `len` characters, and for the dots? */
  predicate FitsLine(len: nat, line: string) { len + 4 + |line| + 1 < LABEL_MAX - (|DOTS| + 1) }

  /** How many of the lines fit, one after the other. */
  function Fitting(len: nat, lines: seq<string>): (k: nat)
    ensures k <= |lines|
    decreases |lines|
  {
    if lines != [] && FitsLine(len, lines[0])
    then 1 + Fitting(len + 4 + |lines[0]| + 1, lines[1..])
    else 0
  }

  function Indented(lines: seq<string>): string {
    if lines == [] then "" else "    " + lines[0] + "\n" + Indented(lines[1..])
  }

  /** The longest prefix of the lines that fits, then the dots exactly when
      lines were dropped. */
  function Body(len: nat, d: Deparsed): string {
    match d
    case Fails => ""
    case Lines(lines) =>
      var k := Fitting(len, lines);
      Indented(lines[..k]) + (if k < |lines| then DOTS else "")
  }

  /** The k lines fit, and one more would not. */
  lemma {:induction false} FittingIsLongest(len: nat, lines: seq<string>)
    requires len < LABEL_MAX - (|DOTS| + 1)
    ensures var k := Fitting(len, lines);
      && len + |Indented(lines[..k])| < LABEL_MAX - (|DOTS| + 1)
      && (k < |lines| ==> len + |Indented(lines[..k + 1])| >= LABEL_MAX - (|DOTS| + 1))
    decreases |lines|
  {
    if lines != [] {
      var rest := lines[1..];
      if FitsLine(len, lines[0]) {
        FittingIsLongest(len + 4 + |lines[0]| + 1, rest);
        var k := Fitting(len, lines);
        assert lines[..k][0] == lines[0] && lines[..k][1..] == rest[..k - 1];
        assert k < |lines| ==> lines[..k + 1][1..] == rest[..k];
      } else {
        assert lines[..1][0] == lines[0] && lines[..1][1..] == [];
      }
    }
  }

  /** The deparsed part stays as it was built behind the first slot's header. */
  function FreshBody(slot: nat, n: nat, d: Deparsed): string { Body(|Header([slot], n)|, d) }

  function LabelText(slots: seq<nat>, n: nat, d: Deparsed): string
    requires slots != []
  {
    Header(slots, n) + FreshBody(slots[0], n, d)
  }

  /** With its terminator, a fresh label fits the buffer it is built in. */
  lemma FreshLabelFits(slot: nat, n: nat, d: Deparsed)
    requires slot <= INT_MAX && n <= INT_MAX
    ensures |LabelText([slot], n, d)| + 1 <= 4096
  {
    DecimalIsShort(slot, 10);
    DecimalIsShort(n, 10);
    assert |Header([slot], n)| <= |OPENING| + 10 + |OF| + 10 + 2;
    if d.Lines? {
      FittingIsLongest(|Header([slot], n)|, d.lines);
    }
  }

  // ---------- which calls get one

  /** One registration: a call, the slot it is run in, and how many there are. */
  datatype Use = Use(call: Sexp, slot: nat, total: nat)

  /** The distinct calls, in the order of their first registrations. */
  function DistinctCalls(uses: seq<Use>): seq<Sexp> {
    if uses == [] then []
    else
      var before, c := DistinctCalls(uses[..|uses| - 1]), uses[|uses| - 1].call;
      if IsCall(c) && c !in before then before + [c] else before
  }

  /** The slots a call was registered in, in that order. */
  function SlotsOf(uses: seq<Use>, c: Sexp): seq<nat> {
    if uses == [] then []
    else
      var last := uses[|uses| - 1];
      SlotsOf(uses[..|uses| - 1], c) + (if last.call == c then [last.slot] else [])
  }

  /** The total given when a call was first registered. */
  function TotalOf(uses: seq<Use>, c: Sexp): nat {
    if uses == [] then 0
    else
      var init, last := uses[..|uses| - 1], uses[|uses| - 1];
      if last.call == c && SlotsOf(init, c) == [] then last.total else TotalOf(init, c)
  }

  predicate Occurs(uses: seq<Use>, c: Sexp) { exists i :: 0 <= i < |uses| && uses[i].call == c }

  lemma OccursLast(init: seq<Use>, last: Use, c: Sexp)
    ensures Occurs(init + [last], c) <==> Occurs(init, c) || last.call == c
  {
    var uses := init + [last];
    assert uses[|init|] == last;
    if Occurs(init, c) {
      var i :| 0 <= i < |init| && init[i].call == c;
      assert uses[i].call == c;
    }
  }

  /** Every call is among them, once. */
  lemma {:induction false} DistinctCallsAreAll(uses: seq<Use>)
    ensures forall c :: c in DistinctCalls(uses) <==> c != Null && c != NilValue && Occurs(uses, c)
    ensures forall i, j :: 0 <= i < j < |DistinctCalls(uses)| ==> DistinctCalls(uses)[i] != DistinctCalls(uses)[j]
  {
    if uses != [] {
      var init, last := uses[..|uses| - 1], uses[|uses| - 1];
      DistinctCallsAreAll(init);
      forall c ensures Occurs(uses, c) <==> Occurs(init, c) || last.call == c {
        OccursLast(init, last, c);
        assert uses == init + [last];
      }
    }
  }

  /** What fuzz_label_calls registers: slot i is calls[i]. */
  function SlotUses(calls: seq<Sexp>, total: nat): seq<Use> {
    if calls == [] then []
    else
      var n := |calls| - 1;
      SlotUses(calls[..n], total) + [Use(calls[n], n, total)]
  }

  lemma OneMoreSlot(uses: seq<Use>, u: Use, c: Sexp)
    ensures SlotsOf(uses + [u], c) == SlotsOf(uses, c) + (if u.call == c then [u.slot] else [])
    ensures TotalOf(uses + [u], c) == if u.call == c && SlotsOf(uses, c) == [] then u.total else TotalOf(uses, c)
    ensures DistinctCalls(uses + [u]) ==
            DistinctCalls(uses) + (if IsCall(u.call) && u.call !in DistinctCalls(uses) then [u.call] else [])
  {
    assert (uses + [u])[..|uses|] == uses;
  }

  /** These are the places of c among the calls, in increasing order. */
  predicate Places(slots: seq<nat>, calls: seq<Sexp>, c: Sexp) {
    && (forall k :: 0 <= k < |slots| ==> slots[k] < |calls| && calls[slots[k]] == c)
    && (forall i: nat :: i < |calls| && calls[i] == c ==> i in slots)
    && (forall i, j :: 0 <= i < j < |slots| ==> slots[i] < slots[j])
  }

  lemma OneMorePlace(slots: seq<nat>, calls: seq<Sexp>, last: Sexp, c: Sexp)
    requires Places(slots, calls, c)
    ensures Places(slots + (if last == c then [|calls|] else []), calls + [last], c)
  {
    var slots', calls' := slots + (if last == c then [|calls|] else []), calls + [last];
    forall i: nat | i < |calls'| && calls'[i] == c ensures i in slots' {
      if i < |calls| {
        assert calls[i] == c && i in slots;
      } else {
        assert slots'[|slots|] == i;
      }
    }
  }

  lemma {:induction false} SlotsOfAreThePlaces(calls: seq<Sexp>, total: nat, c: Sexp)
    ensures var slots := SlotsOf(SlotUses(calls, total), c);
      Places(slots, calls, c) && (slots != [] ==> TotalOf(SlotUses(calls, total), c) == total)
  {
    if calls != [] {
      hide SlotsOf, TotalOf, DistinctCalls, Places;
      var n := |calls| - 1;
      var uses := SlotUses(calls[..n], total);
      SlotsOfAreThePlaces(calls[..n], total, c);
      OneMoreSlot(uses, Use(calls[n], n, total), c);
      OneMorePlace(SlotsOf(uses, c), calls[..n], calls[n], c);
      assert calls == calls[..n] + [calls[n]];
    }
  }

  // ---------- finding " of "

  predicate OccursAt(s: string, pat: string, i: nat) { i + |pat| <= |s| && s[i..i + |pat|] == pat }

  /** strstr(): the first occurrence, if any. */
  function StrStr(s: string, pat: string, i: nat): (r: nat)
    requires i <= |s|
    ensures i <= r <= |s| || r == |s| + 1
    ensures r <= |s| ==> OccursAt(s, pat, r)
    ensures forall k :: i <= k < r ==> !OccursAt(s, pat, k)
    decreases |s| - i
  {
    if OccursAt(s, pat, i) then i else if i == |s| then |s| + 1 else StrStr(s, pat, i + 1)
  }

  /** No blank is followed by an "o". */
  predicate NoBlankO(s: string) {
    forall i :: 0 <= i < |s| - 1 && s[i] == ' ' ==> s[i + 1] != 'o'
  }

  lemma NoBlankOJoin(x: string, y: string)
    requires NoBlankO(x) && NoBlankO(y) && (x != "" && y != "" && x[|x| - 1] == ' ' ==> y[0] != 'o')
    ensures NoBlankO(x + y)
  {
    var s := x + y;
    forall i | 0 <= i < |s| - 1 && s[i] == ' ' ensures s[i + 1] != 'o' {
      if i >= |x| {
        assert s[i] == y[i - |x|] && s[i + 1] == y[i + 1 - |x|];
      }
    }
  }

  lemma DecimalHasNoBlank(n: nat)
    ensures Decimal(n) != "" && NoBlankO(Decimal(n)) && Decimal(n)[0] != 'o'
    ensures Decimal(n)[|Decimal(n)| - 1] != ' '
  {
    hide Decimal;
    DecimalDigits(n);
    assert IsDigit(Decimal(n)[0]) && IsDigit(Decimal(n)[|Decimal(n)| - 1]);
  }

  lemma SlotHasNoOf(front: string, sep: string, n: nat)
    requires NoBlankO(front) && (front != "" ==> front[|front| - 1] != ' ')
    requires sep == OPENING || sep == ", "
    ensures var s := front + sep + Decimal(n); NoBlankO(s) && s[|s| - 1] != ' '
  {
    hide Decimal;
    DecimalHasNoBlank(n);
    assert NoBlankO(sep);
    hide NoBlankO;
    NoBlankOJoin(front, sep);
    NoBlankOJoin(front + sep, Decimal(n));
  }

  lemma {:induction false} SlotListHasNoOf(slots: seq<nat>)
    requires slots != []
    ensures var s := OPENING + SlotList(slots); NoBlankO(s) && s[|s| - 1] != ' '
  {
    if |slots| == 1 {
      SlotHasNoOf("", OPENING, slots[0]);
      assert "" + OPENING + Decimal(slots[0]) == OPENING + SlotList(slots);
    } else {
      var init, last := slots[..|slots| - 1], slots[|slots| - 1];
      SlotListHasNoOf(init);
      SlotHasNoOf(OPENING + SlotList(init), ", ", last);
      assert OPENING + SlotList(init) + ", " + Decimal(last) == OPENING + SlotList(slots);
    }
  }

  lemma OfIsBlankO(s: string, k: nat)
    ensures OccursAt(s, OF, k) ==> k + 1 < |s| && s[k] == ' ' && s[k + 1] == 'o'
  {
    if OccursAt(s, OF, k) {
      assert s[k..k + 4][0] == ' ' && s[k..k + 4][1] == 'o';
    }
  }

  /** So the first " of " of a label ends its list of slots. */
  lemma FirstOf(slots: seq<nat>, n: nat, body: string)
    requires slots != []
    ensures StrStr(Header(slots, n) + body, OF, 0) == |OPENING + SlotList(slots)|
  {
    var front := OPENING + SlotList(slots);
    var s := Header(slots, n) + body;
    SlotListHasNoOf(slots);
    assert s == front + OF + (Decimal(n) + ":\n" + body);
    assert s[|front|..|front| + 4] == OF && OccursAt(s, OF, |front|);
    forall k: nat | k < |front| ensures !OccursAt(s, OF, k) {
      OfIsBlankO(s, k);
      assert s[k] == front[k] && (k + 1 < |front| ==> s[k + 1] == front[k + 1]);
    }
  }

  // ---------- reading a label back

  /** The numbers of a list separated by ", ". */
  function ReadList(s: string): seq<int>
    decreases |s|
  {
    var k := StrStr(s, ", ", 0);
    if k <= |s| then [ReadNumber(s[..k])] + ReadList(s[k + 2..]) else [ReadNumber(s)]
  }

  /** What follows the first occurrence of a text, or nothing. */
  function After(s: string, pat: string): string {
    var k := StrStr(s, pat, 0);
    if k <= |s| then s[k + |pat|..] else ""
  }

  function Before(s: string, pat: string): string {
    var k := StrStr(s, pat, 0);
    if k <= |s| then s[..k] else s
  }

  /** The slots and the total a label names, and what it says below them. */
  function SlotsRead(text: string): seq<int> { ReadList(Before(After(text, "slot "), " of ")) }

  function TotalRead(text: string): int { ReadNumber(Before(After(After(text, "slot "), " of "), ":")) }

  function LinesRead(text: string): string { After(text, ":\n") }

  lemma OccursLike(s: string, pat: string, j: nat)
    requires pat != "" && OccursAt(s, pat, j)
    ensures j < |s| && s[j] == pat[0] && (|pat| > 1 ==> j + 1 < |s| && s[j + 1] == pat[1])
  {
    assert s[j..j + |pat|][0] == s[j];
    assert |pat| > 1 ==> s[j..j + |pat|][1] == s[j + 1];
  }

  /** A text that does not begin the pattern anywhere ends where it comes. */
  lemma FirstBetween(front: string, pat: string, rest: string)
    requires forall j: nat :: j < |front| ==> !OccursAt(front + pat + rest, pat, j)
    ensures var s := front + pat + rest;
      StrStr(s, pat, 0) == |front| && Before(s, pat) == front && After(s, pat) == rest
  {
    var s := front + pat + rest;
    assert s[|front|..|front| + |pat|] == pat;
    assert OccursAt(s, pat, |front|);
    assert s[..|front|] == front && s[|front| + |pat|..] == rest;
  }

  lemma {:induction false} SlotListFirst(x: nat, rest: seq<nat>)
    requires rest != []
    ensures SlotList([x] + rest) == Decimal(x) + ", " + SlotList(rest)
  {
    var all, n := [x] + rest, |rest|;
    assert all[..n] == [x] + rest[..n - 1] && all[n] == rest[n - 1];
    if n == 1 {
      assert all[..n] == [x];
    } else {
      SlotListFirst(x, rest[..n - 1]);
      assert Decimal(x) + ", " + (SlotList(rest[..n - 1]) + ", " + Decimal(rest[n - 1]))
          == (Decimal(x) + ", " + SlotList(rest[..n - 1])) + ", " + Decimal(rest[n - 1]);
    }
  }

  /** Digits first, then a text that begins with something else. */
  lemma FirstAfterDecimal(x: nat, pat: string, rest: string)
    requires pat != "" && !IsDigit(pat[0])
    ensures StrStr(Decimal(x) + pat + rest, pat, 0) == |Decimal(x)|
    ensures Before(Decimal(x) + pat + rest, pat) == Decimal(x)
    ensures After(Decimal(x) + pat + rest, pat) == rest
  {
    hide Decimal;
    DecimalDigits(x);
    var d := Decimal(x);
    var s := d + pat + rest;
    assert s[|d|..|d| + |pat|] == pat;
    forall j: nat | j < |d| ensures !OccursAt(s, pat, j) {
      assert s[j] == d[j];
      if OccursAt(s, pat, j) {
        OccursLike(s, pat, j);
      }
    }
    FirstBetween(d, pat, rest);
  }

  lemma NoCommaIn(x: nat)
    ensures StrStr(Decimal(x), ", ", 0) == |Decimal(x)| + 1
  {
    hide Decimal;
    DecimalDigits(x);
    var s := Decimal(x);
    forall j: nat ensures !OccursAt(s, ", ", j) {
      if OccursAt(s, ", ", j) {
        OccursLike(s, ", ", j);
      }
    }
  }

  lemma {:induction false} ListReadsBack(slots: seq<nat>)
    requires slots != []
    ensures ReadList(SlotList(slots)) == slots
  {
    var x, rest := slots[0], slots[1..];
    hide Decimal;
    DecimalReadsBack(x);
    if rest == [] {
      NoCommaIn(x);
      assert slots == [x];
    } else {
      SlotListFirst(x, rest);
      assert slots == [x] + rest;
      FirstAfterDecimal(x, ", ", SlotList(rest));
      ListReadsBack(rest);
      var s := SlotList(slots);
      assert s[..|Decimal(x)|] == Decimal(x) && s[|Decimal(x)| + 2..] == SlotList(rest);
    }
  }

  /** A list of slots is digits and ", ", and ends in a digit. */
  lemma {:induction false} SlotListChars(slots: seq<nat>)
    requires slots != []
    ensures var s := SlotList(slots);
      && s != "" && IsDigit(s[|s| - 1])
      && forall i :: 0 <= i < |s| ==> IsDigit(s[i]) || s[i] == ',' || s[i] == ' '
  {
    hide Decimal;
    DecimalDigits(slots[|slots| - 1]);
    if |slots| > 1 {
      SlotListChars(slots[..|slots| - 1]);
    }
  }

  lemma OpeningEnds(rest: string)
    ensures After(OPENING + rest, "slot ") == rest
  {
    var front := "==fuzz== ";
    var s := front + "slot " + rest;
    assert s == OPENING + rest;
    forall j: nat | j < |front| ensures !OccursAt(s, "slot ", j) {
      assert s[j] == front[j];
      if OccursAt(s, "slot ", j) {
        OccursLike(s, "slot ", j);
      }
    }
    FirstBetween(front, "slot ", rest);
  }

  lemma SlotsEnd(slots: seq<nat>, rest: string)
    requires slots != []
    ensures var s := SlotList(slots) + OF + rest; Before(s, OF) == SlotList(slots) && After(s, OF) == rest
  {
    SlotListChars(slots);
    var front := SlotList(slots);
    var s := front + OF + rest;
    forall j: nat | j < |front| ensures !OccursAt(s, OF, j) {
      assert s[j] == front[j] && (j + 1 < |front| ==> s[j + 1] == front[j + 1]);
      if OccursAt(s, OF, j) {
        OccursLike(s, OF, j);
      }
    }
    FirstBetween(front, OF, rest);
  }

  predicate NoColon(s: string) { forall i :: 0 <= i < |s| ==> s[i] != ':' }

  lemma NoColonJoin(x: string, y: string)
    ensures NoColon(x) && NoColon(y) ==> NoColon(x + y)
  {
  }

  lemma HeaderEnds(slots: seq<nat>, n: nat, body: string)
    requires slots != []
    ensures After(Header(slots, n) + body, ":\n") == body
  {
    hide Decimal, SlotList;
    SlotListChars(slots);
    DecimalDigits(n);
    var list, d := SlotList(slots), Decimal(n);
    var front := OPENING + list + OF + d;
    var s := front + ":\n" + body;
    assert s == Header(slots, n) + body;
    NoColonJoin(OPENING, list);
    NoColonJoin(OPENING + list, OF);
    NoColonJoin(OPENING + list + OF, d);
    forall j: nat | j < |front| ensures !OccursAt(s, ":\n", j) {
      assert s[j] == front[j];
      if OccursAt(s, ":\n", j) {
        OccursLike(s, ":\n", j);
      }
    }
    FirstBetween(front, ":\n", body);
  }

  /** Reading a label back gives its slots, its total and what it says. */
  lemma LabelReadsBack(slots: seq<nat>, n: nat, body: string)
    requires slots != []
    ensures var text := Header(slots, n) + body;
      SlotsRead(text) == slots && TotalRead(text) == n && LinesRead(text) == body
  {
    var total := Decimal(n) + ":" + ("\n" + body);
    var text := OPENING + (SlotList(slots) + OF + total);
    assert Header(slots, n) + body == text;
    HeaderEnds(slots, n, body);
    hide Decimal, SlotList, StrStr, ReadNumber, ReadList;
    OpeningEnds(SlotList(slots) + OF + total);
    SlotsEnd(slots, total);
    ListReadsBack(slots);
    FirstAfterDecimal(n, ":", "\n" + body);
    DecimalReadsBack(n);
    hide Before, After;
  }

  // ---------- the table

  datatype Label = Label(call: Sexp, text: string)

  /** One label for each distinct call, as many as there is room for, each with
      that call's slots. */
  ghost predicate Registered(ls: seq<Label>, uses: seq<Use>, deparse: Sexp -> Deparsed) {
    var d := DistinctCalls(uses);
    && |ls| == (if |d| < 128 then |d| else 128)
    && forall i :: 0 <= i < |ls| ==>
         && ls[i].call == d[i]
         && SlotsOf(uses, d[i]) != []
         && ls[i].text == LabelText(SlotsOf(uses, d[i]), TotalOf(uses, d[i]), deparse(d[i]))
  }

  /** Registering one call leaves what the others' labels say. */
  lemma OthersUnchanged(ls: seq<Label>, uses: seq<Use>, u: Use)
    ensures forall i :: 0 <= i < |ls| && ls[i].call != u.call ==>
              && SlotsOf(uses + [u], ls[i].call) == SlotsOf(uses, ls[i].call)
              && TotalOf(uses + [u], ls[i].call) == TotalOf(uses, ls[i].call)
  {
    forall i | 0 <= i < |ls| && ls[i].call != u.call
      ensures SlotsOf(uses + [u], ls[i].call) == SlotsOf(uses, ls[i].call)
      ensures TotalOf(uses + [u], ls[i].call) == TotalOf(uses, ls[i].call)
    {
      OneMoreSlot(uses, u, ls[i].call);
    }
  }

  lemma RegisterNone(ls: seq<Label>, uses: seq<Use>, u: Use, deparse: Sexp -> Deparsed)
    requires Registered(ls, uses, deparse) && !IsCall(u.call)
    ensures Registered(ls, uses + [u], deparse)
  {
    DistinctCallsAreAll(uses);
    assert forall i :: 0 <= i < |ls| ==> ls[i].call in DistinctCalls(uses);
    hide DistinctCalls, SlotsOf, TotalOf, LabelText;
    OthersUnchanged(ls, uses, u);
    OneMoreSlot(uses, u, u.call);
  }

  lemma RegisterFull(ls: seq<Label>, uses: seq<Use>, u: Use, deparse: Sexp -> Deparsed)
    requires Registered(ls, uses, deparse) && |ls| == MAX_LABELS
    requires forall i :: 0 <= i < |ls| ==> ls[i].call != u.call
    ensures Registered(ls, uses + [u], deparse)
  {
    hide DistinctCalls, SlotsOf, TotalOf, LabelText;
    OthersUnchanged(ls, uses, u);
    OneMoreSlot(uses, u, u.call);
  }

  lemma Splice(front: string, total: string, body: string, sep: string, number: string)
    ensures var t := front + total + body;
      t[..|front|] + sep + number + t[|front|..] == front + sep + number + total + body
  {
    var t := front + total + body;
    assert t[..|front|] == front && t[|front|..] == total + body;
  }

  lemma Longer(slots: seq<nat>, slot: nat)
    requires slots != []
    ensures OPENING + SlotList(slots + [slot]) == OPENING + SlotList(slots) + ", " + Decimal(slot)
  {
    assert (slots + [slot])[..|slots|] == slots;
  }

  lemma AddSlot(slots: seq<nat>, slot: nat, n: nat, d: Deparsed)
    requires slots != []
    ensures var t, of := LabelText(slots, n, d), |OPENING + SlotList(slots)|;
      && of <= |t|
      && t[..of] + ", " + Decimal(slot) + t[of..] == LabelText(slots + [slot], n, d)
  {
    var front, body := OPENING + SlotList(slots), FreshBody(slots[0], n, d);
    Splice(front, Total(n), body, ", ", Decimal(slot));
    Longer(slots, slot);
    assert (slots + [slot])[0] == slots[0];
  }

  lemma RegisterKnown(ls: seq<Label>, at: nat, uses: seq<Use>, slot: nat, total: nat, deparse: Sexp -> Deparsed)
    requires Registered(ls, uses, deparse) && at < |ls|
    ensures var call, t := ls[at].call, ls[at].text;
      var of := StrStr(t, OF, 0);
      of <= |t| && Registered(ls[at := Label(call, t[..of] + ", " + Decimal(slot) + t[of..])],
                              uses + [Use(call, slot, total)], deparse)
  {
    hide Header, SlotList, Body, Fitting, DistinctCalls, SlotsOf, TotalOf, StrStr, FreshBody;
    var call, slots := ls[at].call, SlotsOf(uses, ls[at].call);
    var u, n := Use(call, slot, total), TotalOf(uses, call);
    DistinctCallsAreAll(uses);
    assert call in DistinctCalls(uses);
    OneMoreSlot(uses, u, call);
    FirstOf(slots, n, FreshBody(slots[0], n, deparse(call)));
    AddSlot(slots, slot, n, deparse(call));
    OthersUnchanged(ls, uses, u);
  }

  lemma {:induction false} NoSlotsYet(uses: seq<Use>, call: Sexp)
    requires !Occurs(uses, call)
    ensures SlotsOf(uses, call) == []
  {
    if uses != [] {
      NoSlotsYet(uses[..|uses| - 1], call);
    }
  }

  lemma RegisterNew(ls: seq<Label>, uses: seq<Use>, u: Use, deparse: Sexp -> Deparsed)
    requires Registered(ls, uses, deparse) && |ls| < MAX_LABELS && IsCall(u.call)
    requires forall i :: 0 <= i < |ls| ==> ls[i].call != u.call
    ensures Registered(ls + [Label(u.call, LabelText([u.slot], u.total, deparse(u.call)))], uses + [u], deparse)
  {
    hide LabelText, DistinctCalls, SlotsOf, TotalOf, Occurs;
    var d := DistinctCalls(uses);
    DistinctCallsAreAll(uses);
    assert forall k :: 0 <= k < |d| ==> d[k] != u.call;
    NoSlotsYet(uses, u.call);
    OneMoreSlot(uses, u, u.call);
    assert SlotsOf(uses + [u], u.call) == [u.slot];
    OthersUnchanged(ls, uses, u);
  }

  lemma NoLines(len: nat, lines: seq<string>)
    requires lines == []
    ensures Fitting(len, lines) == 0 && Indented(lines) == ""
  {
  }

  lemma FittingStep(len: nat, lines: seq<string>, i: nat)
    requires i < |lines|
    ensures Fitting(len, lines[i..]) ==
            if FitsLine(len, lines[i]) then 1 + Fitting(len + 4 + |lines[i]| + 1, lines[i + 1..]) else 0
  {
    assert lines[i..][0] == lines[i] && lines[i..][1..] == lines[i + 1..];
  }

  lemma {:induction false} IndentedLast(lines: seq<string>, i: nat)
    requires i < |lines|
    ensures Indented(lines[..i + 1]) == Indented(lines[..i]) + "    " + lines[i] + "\n"
  {
    if i == 0 {
      assert lines[..1][1..] == [];
      assert Indented(lines[..1]) == "    " + lines[0] + "\n" + "";
    } else {
      IndentedLast(lines[1..], i - 1);
      assert lines[..i + 1][1..] == lines[1..][..i];
      assert lines[..i][1..] == lines[1..][..i - 1];
    }
  }

  /** The lines shown below a header of this length. */
  predicate ShowsLines(text: string, len: nat, d: Deparsed) {
    match d
    case Fails => text == ""
    case Lines(lines) =>
      var k := Fitting(len, lines);
      text == Indented(lines[..k]) + (if k < |lines| then "    ...\n" else "")
  }

  /** Read back, each label names its call's slots in the order registered and
      the total given first, and shows the call's lines. */
  ghost predicate ReadsBack(ls: seq<Label>, uses: seq<Use>, deparse: Sexp -> Deparsed) {
    forall i :: 0 <= i < |ls| ==>
      var call, text := ls[i].call, ls[i].text;
      && SlotsOf(uses, call) != []
      && SlotsRead(text) == SlotsOf(uses, call)
      && TotalRead(text) == TotalOf(uses, call)
      && ShowsLines(LinesRead(text), |Header([SlotsOf(uses, call)[0]], TotalOf(uses, call))|, deparse(call))
  }

  lemma RegisteredReadBack(ls: seq<Label>, uses: seq<Use>, deparse: Sexp -> Deparsed)
    requires Registered(ls, uses, deparse)
    ensures ReadsBack(ls, uses, deparse)
  {
    hide SlotsRead, TotalRead, LinesRead, Header, DistinctCalls, SlotsOf, TotalOf;
    forall i | 0 <= i < |ls|
      ensures var call, text := ls[i].call, ls[i].text;
        && SlotsRead(text) == SlotsOf(uses, call)
        && TotalRead(text) == TotalOf(uses, call)
        && ShowsLines(LinesRead(text), |Header([SlotsOf(uses, call)[0]], TotalOf(uses, call))|, deparse(call))
    {
      var call := ls[i].call;
      var slots, n := SlotsOf(uses, call), TotalOf(uses, call);
      LabelReadsBack(slots, n, FreshBody(slots[0], n, deparse(call)));
    }
  }

  class FuzzLabels {
    const labels: array<Label>
    var n: nat
    var current: int
    const deparse: Sexp -> Deparsed  // R's deparse(), for the calls registered

    ghost predicate Valid()
      reads this, labels
    {
      labels.Length == MAX_LABELS && n <= MAX_LABELS && -1 <= current < n
    }

    constructor (deparse: Sexp -> Deparsed)
      ensures Valid() && n == 0 && current == -1 && this.deparse == deparse && fresh(labels)
    {
      labels := new Label[MAX_LABELS](_ => Label(Null, ""));
      n, current := 0, -1;
      this.deparse := deparse;
    }

    /** fuzz_do_deparse: append line by line; the first that does not fit is
        replaced by the dots and ends it. */
    method Deparse(call: Sexp, header: string) returns (text: string)
      ensures text == header + Body(|header|, deparse(call))
    {
      hide Fitting, Indented, FitsLine;
      text := header;
      match deparse(call)
      case Fails => assert text + "" == text;
      case Lines(lines) =>
        var i := 0;
        NoLines(|header|, lines[..0]);
        while i < |lines|
          invariant i <= |lines| && i <= Fitting(|header|, lines)
          invariant text == header + Indented(lines[..i])
          invariant Fitting(|header|, lines) == i + Fitting(|text|, lines[i..])
        {
          FittingStep(|text|, lines, i);
          if !FitsLine(|text|, lines[i]) {
            text := text + DOTS;
            return;
          }
          IndentedLast(lines, i);
          text := text + "    " + lines[i] + "\n";
          i := i + 1;
        }
        NoLines(|text|, lines[i..]);
    }

    /** The table holds the labels of these registrations. */
    ghost predicate Holds(uses: seq<Use>)
      reads this, labels
    {
      Valid() && Registered(labels[..n], uses, deparse)
    }

    /** fuzz_label_call, for any call, slot number and total. */
    method LabelCall(call: Sexp, slot: nat, total: nat, ghost uses: seq<Use>)
      requires Holds(uses)
      modifies this`n, labels
      ensures Holds(uses + [Use(call, slot, total)])
      ensures ReadsBack(labels[..n], uses + [Use(call, slot, total)], deparse)
    {
      hide Registered, ReadsBack, StrStr, Body, Header, SlotList, DistinctCalls;
      ghost var table, u := labels[..n], Use(call, slot, total);
      if !IsCall(call) {
        RegisterNone(table, uses, u, deparse);
        RegisteredReadBack(table, uses + [u], deparse);
        return;
      }
      var i := 0;
      while i < n
        invariant i <= n && labels[..n] == table
        invariant forall k :: 0 <= k < i ==> labels[k].call != call
      {
        if labels[i].call == call {
          var before := labels[i].text;
          var of := StrStr(before, OF, 0);
          RegisterKnown(table, i, uses, slot, total, deparse);
          labels[i] := Label(call, before[..of] + ", " + Decimal(slot) + before[of..]);
          assert labels[..n] == table[i := labels[i]];
          RegisteredReadBack(labels[..n], uses + [u], deparse);
          return;
        }
        i := i + 1;
      }
      if n == MAX_LABELS {
        RegisterFull(table, uses, u, deparse);
        RegisteredReadBack(table, uses + [u], deparse);
        return;
      }
      var text := Deparse(call, Header([slot], total));
      RegisterNew(table, uses, u, deparse);
      labels[n] := Label(call, text);
      n := n + 1;
      assert labels[..n] == table + [Label(call, text)];
      RegisteredReadBack(labels[..n], uses + [u], deparse);
    }

    /** fuzz_label_calls on a fresh table: one label for each distinct call, its
        header naming exactly that call's slots in order. */
    method LabelCalls(calls: seq<Sexp>)
      requires Valid() && n == 0
      modifies this`n, labels
      ensures Holds(SlotUses(calls, |calls|)) && ReadsBack(labels[..n], SlotUses(calls, |calls|), deparse)
    {
      var i := 0;
      while i < |calls|
        invariant i <= |calls| && Holds(SlotUses(calls[..i], |calls|))
      {
        LabelCall(calls[i], i, |calls|, SlotUses(calls[..i], |calls|));
        assert calls[..i + 1][..i] == calls[..i];
        i := i + 1;
      }
      assert calls[..i] == calls;
      RegisteredReadBack(labels[..n], SlotUses(calls, |calls|), deparse);
    }

    /** fuzz_label_enter: the label of the call about to run, or none. */
    method Enter(call: Sexp)
      requires Valid()
      modifies this`current
      ensures Valid()
      ensures if current == -1 then forall i :: 0 <= i < n ==> labels[i].call != call
              else labels[current].call == call && forall i :: 0 <= i < current ==> labels[i].call != call
    {
      var found := -1;
      var i := 0;
      while i < n
        invariant i <= n && Valid() && found == -1
        invariant forall k :: 0 <= k < i ==> labels[k].call != call
      {
        if labels[i].call == call {
          found := i;
          break;
        }
        i := i + 1;
      }
      current := found;
    }

    /** Is this what a dump should show once these calls were entered? */
    ghost predicate Shows(at: int, entered: seq<Sexp>)
      reads this, labels
    {
      && labels.Length == MAX_LABELS && n <= MAX_LABELS && -1 <= at < n
      && (at >= 0 ==> entered != [] && labels[at].call == entered[|entered| - 1])
      && (at == -1 && entered != [] ==>
            forall i :: 0 <= i < n ==> labels[i].call != entered[|entered| - 1])
    }

    /** fuzz_do_target_run around an input that enters these calls and then
        returns or jumps out: `shown` is what a dump finds after each of them. */
    method RunInput(entered: seq<Sexp>, jumps: bool) returns (shown: seq<int>)
      requires Valid()
      modifies this`current
      ensures Valid() && |shown| == |entered| + 1
      ensures forall i :: 0 <= i <= |entered| ==> Shows(shown[i], entered[..i])
      ensures current == if jumps then shown[|entered|] else -1
    {
      current := -1;
      shown := [current];
      var i := 0;
      while i < |entered|
        invariant i <= |entered| && |shown| == i + 1 && Valid() && shown[i] == current
        invariant forall j :: 0 <= j <= i ==> Shows(shown[j], entered[..j])
      {
        Enter(entered[i]);
        i := i + 1;
        assert Shows(current, entered[..i]);
        shown := shown + [current];
      }
      if !jumps {
        current := -1;
      }
    }
  }
}
