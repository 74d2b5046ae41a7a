/** The slots for repeated calls and lists in a bytecode stream, as
    patches/0020-serialize-validate-bytecode-repetition-types-and-indices.patch
    reads them. */
module BytecodeReps {

  const BC_REPS_INIT := 1024

  /** The type code a definition or a plain cell carries in the stream. */
  datatype Type = LangSxp | ListSxp | AttrLangSxp | AttrListSxp | OtherSxp(code: int)

  /** Cells by type code, in the order of their allocation. */
  datatype Cell = Cell(ty: Type, id: nat)

  datatype Slot = Empty | Holds(cell: Cell)

  /** ATTRLANGSXP and ATTRLISTSXP are the same cells with attributes. */
  function Plainly(ty: Type): Type {
    if ty.AttrLangSxp? then LangSxp else if ty.AttrListSxp? then ListSxp else ty
  }

  predicate IsCellType(ty: Type) { Plainly(ty).LangSxp? || Plainly(ty).ListSxp? }

  /** A cell of one of the two types that may be repeated. */
  predicate IsLangOrList(c: Cell) { c.ty.LangSxp? || c.ty.ListSxp? }

  type CellType = ty: Type | IsCellType(ty) witness LangSxp

  /** What ReadBCLang does with the slots, in stream order: return an earlier
      definition, define one of a type the stream names, or read a cell without
      an index, for which only the cell types lead here. */
  datatype Access = Ref(pos: int) | Def(pos: int, ty: Type) | Plain(cellTy: CellType)

  datatype Result<T> = Error | Ok(value: T)

  /** allocSExp: it labels a cell as any type it is given. */
  function MakeCell(ty: Type, id: nat): Cell { Cell(Plainly(ty), id) }

  // ---------- what a stream means

  /** Definitions so far, cells allocated so far, cells returned so far. */
  datatype Reading = Reading(defs: seq<Cell>, made: nat, read: seq<Cell>)

  function Step(r: Reading, a: Access): Result<Reading> {
    match a
    case Ref(pos) =>
      if 0 <= pos < |r.defs| then Ok(r.(read := r.read + [r.defs[pos]])) else Error
    case Def(pos, ty) =>
      if 0 <= pos <= |r.defs| && IsCellType(ty) then
        var cell := MakeCell(ty, r.made);
        Ok(Reading(if pos == |r.defs| then r.defs + [cell] else r.defs[pos := cell], r.made + 1, r.read + [cell]))
      else Error
    case Plain(ty) => Ok(Reading(r.defs, r.made + 1, r.read + [MakeCell(ty, r.made)]))
  }

  function Meaning(accesses: seq<Access>): Result<Reading> {
    if accesses == [] then Ok(Reading([], 0, []))
    else match Meaning(accesses[..|accesses| - 1])
      case Error => Error
      case Ok(r) => Step(r, accesses[|accesses| - 1])
  }

  /** Only call and list cells are ever defined or read. */
  lemma {:induction false} OnlyLangOrList(accesses: seq<Access>)
    requires Meaning(accesses).Ok?
    ensures var m := Meaning(accesses).value;
      && (forall i :: 0 <= i < |m.defs| ==> IsLangOrList(m.defs[i]))
      && (forall i :: 0 <= i < |m.read| ==> IsLangOrList(m.read[i]))
  {
    if accesses != [] {
      OnlyLangOrList(accesses[..|accesses| - 1]);
    }
  }

  // ---------- the same, read off the accesses

  /** The type an access that makes a cell names. */
  function Named(a: Access): Type
    requires !a.Ref?
  {
    if a.Def? then a.ty else a.cellTy
  }

  predicate NamesLang(a: Access) { !a.Ref? && (Named(a).LangSxp? || Named(a).AttrLangSxp?) }

  predicate NamesList(a: Access) { !a.Ref? && (Named(a).ListSxp? || Named(a).AttrListSxp?) }

  /** The latest definition at an index; -1 if there is none. */
  function LatestDef(accesses: seq<Access>, pos: int): (j: int)
    ensures -1 <= j < |accesses|
    ensures j >= 0 ==> accesses[j].Def? && accesses[j].pos == pos
    ensures forall k :: j < k < |accesses| ==> !(accesses[k].Def? && accesses[k].pos == pos)
  {
    if accesses == [] then -1
    else
      var n := |accesses| - 1;
      if accesses[n].Def? && accesses[n].pos == pos then n else LatestDef(accesses[..n], pos)
  }

  predicate Defined(accesses: seq<Access>, pos: int) { LatestDef(accesses, pos) >= 0 }

  /** May this access follow those?  A reference needs a definition at its
      index; a definition names a call or a list, and either takes an index in
      use or the next one. */
  predicate MayFollow(accesses: seq<Access>, a: Access) {
    match a
    case Ref(pos) => Defined(accesses, pos)
    case Def(pos, _) =>
      && (NamesLang(a) || NamesList(a))
      && (Defined(accesses, pos) || pos == 0 || (pos > 0 && Defined(accesses, pos - 1)))
    case Plain(_) => true
  }

  predicate Acceptable(accesses: seq<Access>) {
    forall k :: 0 <= k < |accesses| ==> MayFollow(accesses[..k], accesses[k])
  }

  /** The access that made what access k returns. */
  function Maker(accesses: seq<Access>, k: nat): int
    requires k < |accesses|
  {
    if accesses[k].Ref? then LatestDef(accesses[..k], accesses[k].pos) else k
  }

  predicate CellAt(accesses: seq<Access>, cells: seq<Cell>, k: nat)
    requires k < |accesses| == |cells|
  {
    var d := Maker(accesses, k);
    && 0 <= d && cells[k] == cells[d]
    && (cells[k].ty.LangSxp? <==> NamesLang(accesses[d]))
    && (cells[k].ty.ListSxp? <==> NamesList(accesses[d]))
  }

  /** Each access returns the cell its maker made, of the type named there, and
      no two accesses make the same one. */
  predicate CellsOf(accesses: seq<Access>, cells: seq<Cell>) {
    && |cells| == |accesses|
    && (forall k :: 0 <= k < |cells| ==> CellAt(accesses, cells, k))
    && (forall j, k :: 0 <= j < k < |cells| && !accesses[j].Ref? && !accesses[k].Ref? ==> cells[j] != cells[k])
  }

  /** What the reading knows of the accesses so far. */
  predicate Knows(r: Reading, accesses: seq<Access>) {
    && CellsOf(accesses, r.read)
    && (forall pos :: 0 <= pos < |r.defs| ==> Defined(accesses, pos) && r.defs[pos] == r.read[LatestDef(accesses, pos)])
    && (forall k :: 0 <= k < |accesses| && accesses[k].Def? ==> 0 <= accesses[k].pos < |r.defs|)
    && (forall k :: 0 <= k < |r.read| ==> r.read[k].id < r.made)
  }

  lemma DefinedIsHeld(r: Reading, accesses: seq<Access>, pos: int)
    requires Knows(r, accesses)
    ensures Defined(accesses, pos) <==> 0 <= pos < |r.defs|
  {
  }

  lemma LatestDefAfter(accesses: seq<Access>, a: Access, pos: int)
    ensures LatestDef(accesses + [a], pos) ==
            if a.Def? && a.pos == pos then |accesses| else LatestDef(accesses, pos)
  {
    assert (accesses + [a])[..|accesses|] == accesses;
  }

  lemma CellAtKept(accesses: seq<Access>, a: Access, cells: seq<Cell>, cell: Cell, k: nat)
    requires k < |accesses| == |cells| && CellAt(accesses, cells, k)
    ensures CellAt(accesses + [a], cells + [cell], k)
  {
    assert (accesses + [a])[..k] == accesses[..k];
  }

  lemma CellAtRef(accesses: seq<Access>, a: Access, cells: seq<Cell>)
    requires CellsOf(accesses, cells) && a.Ref? && Defined(accesses, a.pos)
    ensures CellAt(accesses + [a], cells + [cells[LatestDef(accesses, a.pos)]], |accesses|)
  {
    var longer, d := accesses + [a], LatestDef(accesses, a.pos);
    assert longer[..|accesses|] == accesses;
    assert CellAt(accesses, cells, d) && Maker(accesses, d) == d;
  }

  lemma CellsOfLonger(accesses: seq<Access>, a: Access, cells: seq<Cell>, cell: Cell)
    requires CellsOf(accesses, cells) && CellAt(accesses + [a], cells + [cell], |accesses|)
    requires a.Ref? || forall j :: 0 <= j < |cells| ==> cells[j] != cell
    ensures CellsOf(accesses + [a], cells + [cell])
  {
    hide CellAt;
    forall k | 0 <= k < |accesses| + 1 ensures CellAt(accesses + [a], cells + [cell], k) {
      if k < |accesses| {
        CellAtKept(accesses, a, cells, cell, k);
      }
    }
  }

  lemma CellAtNew(accesses: seq<Access>, a: Access, cells: seq<Cell>, id: nat)
    requires |cells| == |accesses| && (NamesLang(a) || NamesList(a))
    ensures CellAt(accesses + [a], cells + [MakeCell(Named(a), id)], |accesses|)
  {
  }

  lemma NamesCell(a: Access)
    ensures !a.Ref? ==> (IsCellType(Named(a)) <==> NamesLang(a) || NamesList(a))
    ensures a.Plain? ==> NamesLang(a) || NamesList(a)
  {
    if a.Plain? {
      assert IsCellType(a.cellTy);
    }
  }

  /** The definitions are known after one more cell as before. */
  lemma DefsLonger(r: Reading, accesses: seq<Access>, a: Access, cell: Cell)
    requires Knows(r, accesses)
    ensures forall pos :: 0 <= pos < |r.defs| && !(a.Def? && a.pos == pos) ==>
              && LatestDef(accesses + [a], pos) == LatestDef(accesses, pos) >= 0
              && (r.read + [cell])[LatestDef(accesses, pos)] == r.defs[pos]
  {
    forall pos | 0 <= pos < |r.defs| && !(a.Def? && a.pos == pos)
      ensures LatestDef(accesses + [a], pos) == LatestDef(accesses, pos) >= 0
    {
      LatestDefAfter(accesses, a, pos);
    }
  }

  lemma RefKnows(r: Reading, accesses: seq<Access>, a: Access)
    requires Knows(r, accesses) && a.Ref? && 0 <= a.pos < |r.defs|
    ensures Knows(Step(r, a).value, accesses + [a])
  {
    hide CellAt;
    CellAtRef(accesses, a, r.read);
    CellsOfLonger(accesses, a, r.read, r.defs[a.pos]);
    DefsLonger(r, accesses, a, r.defs[a.pos]);
    hide LatestDef;
  }

  lemma MakeKnows(r: Reading, accesses: seq<Access>, a: Access)
    requires Knows(r, accesses) && !a.Ref? && (NamesLang(a) || NamesList(a))
    requires a.Def? ==> 0 <= a.pos <= |r.defs|
    ensures Step(r, a).Ok? && Knows(Step(r, a).value, accesses + [a])
  {
    hide CellAt;
    var cell := MakeCell(Named(a), r.made);
    NamesCell(a);
    CellAtNew(accesses, a, r.read, r.made);
    CellsOfLonger(accesses, a, r.read, cell);
    DefsLonger(r, accesses, a, cell);
    if a.Def? {
      LatestDefAfter(accesses, a, a.pos);
    }
    hide LatestDef, NamesLang, NamesList, IsCellType;
  }

  /** One more access is accepted exactly if it may follow, and then the reading
      knows it too. */
  lemma StepKnows(r: Reading, accesses: seq<Access>, a: Access)
    requires Knows(r, accesses)
    ensures Step(r, a).Ok? <==> MayFollow(accesses, a)
    ensures Step(r, a).Ok? ==> Knows(Step(r, a).value, accesses + [a])
  {
    NamesCell(a);
    if !a.Plain? {
      DefinedIsHeld(r, accesses, a.pos);
      DefinedIsHeld(r, accesses, a.pos - 1);
    }
    if Step(r, a).Ok? {
      if a.Ref? {
        RefKnows(r, accesses, a);
      } else {
        MakeKnows(r, accesses, a);
      }
    }
    hide Knows, Defined, NamesLang, NamesList, IsCellType;
  }
  lemma AcceptableLonger(accesses: seq<Access>, a: Access)
    ensures Acceptable(accesses + [a]) <==> Acceptable(accesses) && MayFollow(accesses, a)
  {
    hide MayFollow;
    var longer := accesses + [a];
    assert longer[..|accesses|] == accesses && longer[|accesses|] == a;
    assert forall k :: 0 <= k < |accesses| ==> longer[..k] == accesses[..k];
  }

  /** The stream is accepted exactly if each access may follow those before it,
      and the cells read are those the accesses name. */
  lemma {:induction false} MeaningIsNamed(accesses: seq<Access>)
    ensures Meaning(accesses).Ok? <==> Acceptable(accesses)
    ensures Meaning(accesses).Ok? ==> Knows(Meaning(accesses).value, accesses)
  {
    if accesses != [] {
      hide Knows, MayFollow, Step, Acceptable;
      var n := |accesses| - 1;
      var init, last := accesses[..n], accesses[n];
      MeaningIsNamed(init);
      assert accesses == init + [last];
      AcceptableLonger(init, last);
      if Meaning(init).Ok? {
        StepKnows(Meaning(init).value, init, last);
      }
    }
  }
  lemma ReadingIsNamed(accesses: seq<Access>)
    ensures Meaning(accesses).Ok? <==> Acceptable(accesses)
    ensures Meaning(accesses).Ok? ==> CellsOf(accesses, Meaning(accesses).value.read)
  {
    MeaningIsNamed(accesses);
  }

  // ---------- the growing reader

  class BCReps {
    var slots: array<Slot>
    var ndefs: nat

    ghost predicate Valid()
      reads this, slots
    {
      && ndefs <= slots.Length <= (if 2 * ndefs > 1024 then 2 * ndefs else 1024)
      && (forall i :: 0 <= i < ndefs ==> slots[i].Holds? && IsLangOrList(slots[i].cell))
      && (forall i :: ndefs <= i < slots.Length ==> slots[i].Empty?)
    }

    ghost function Defs(): (s: seq<Cell>)
      reads this, slots
      requires Valid()
      ensures |s| == ndefs && forall i :: 0 <= i < ndefs ==> slots[i] == Holds(s[i])
    {
      seq(ndefs, i requires 0 <= i < ndefs && Valid() reads this, slots => slots[i].cell)
    }

    /** The count from the stream is a hint, capped. */
    constructor (n: nat)
      ensures Valid() && Defs() == [] && fresh(slots)
      ensures slots.Length == if n < 1024 then n else 1024
    {
      slots := new Slot[if n < BC_REPS_INIT then n else BC_REPS_INIT](_ => Empty);
      ndefs := 0;
    }

    /** GrowBCReps, when the next definition has no slot. */
    method Grow()
      requires Valid() && ndefs == slots.Length
      modifies this
      ensures fresh(slots) && ndefs == old(ndefs) && ndefs < slots.Length
      ensures slots.Length <= (if 2 * (ndefs + 1) > BC_REPS_INIT then 2 * (ndefs + 1) else BC_REPS_INIT)
      ensures slots[..ndefs] == old(slots[..]) && forall i :: ndefs <= i < slots.Length ==> slots[i].Empty?
    {
      var n := slots.Length;
      var newn := if n < 16 then 16 else 2 * n;
      var s := new Slot[newn](_ => Empty);
      var i := 0;
      while i < n
        invariant slots == old(slots) && ndefs == old(ndefs) == n
        invariant i <= n && s[..i] == slots[..i]
        invariant forall k :: i <= k < newn ==> s[k].Empty?
      {
        s[i] := slots[i];
        i := i + 1;
      }
      slots := s;
    }

    method ReadRef(pos: int) returns (r: Result<Cell>)
      requires Valid()
      ensures r == if 0 <= pos < ndefs then Ok(Defs()[pos]) else Error
    {
      if pos < 0 || pos >= ndefs {
        return Error;
      }
      return Ok(slots[pos].cell);
    }

    method ReadDef(pos: int, ty: Type, id: nat) returns (r: Result<Cell>)
      requires Valid()
      modifies this, slots
      ensures Valid() && (slots == old(slots) || fresh(slots))
      ensures 0 <= pos <= old(ndefs) && IsCellType(ty) ==>
                && r == Ok(MakeCell(ty, id))
                && Defs() == (if pos == old(ndefs) then old(Defs()) + [r.value] else old(Defs())[pos := r.value])
      ensures !(0 <= pos <= old(ndefs) && IsCellType(ty)) ==> r == Error && Defs() == old(Defs())
      ensures r.Ok? ==>
                && (r.value.ty.LangSxp? <==> ty.LangSxp? || ty.AttrLangSxp?)
                && (r.value.ty.ListSxp? <==> ty.ListSxp? || ty.AttrListSxp?)
    {
      if pos < 0 || pos > ndefs {
        return Error;
      }
      if !IsCellType(ty) {
        return Error;
      }
      var ans := MakeCell(ty, id);
      if pos >= slots.Length {
        Grow();
      }
      slots[pos] := Holds(ans);
      if pos == ndefs {
        ndefs := ndefs + 1;
      }
      return Ok(ans);
    }
  }

  lemma MeaningOfNone(accesses: seq<Access>)
    requires accesses == []
    ensures Meaning(accesses) == Ok(Reading([], 0, []))
  {
  }

  lemma NextMeaning(accesses: seq<Access>, i: nat, r: Reading)
    requires i < |accesses| && Meaning(accesses[..i]) == Ok(r)
    ensures Meaning(accesses[..i + 1]) == Step(r, accesses[i])
  {
    assert accesses[..i + 1][..i] == accesses[..i];
  }

  lemma {:induction false} ErrorStays(accesses: seq<Access>, i: nat)
    requires i <= |accesses| && Meaning(accesses[..i]).Error?
    ensures Meaning(accesses).Error?
    decreases |accesses| - i
  {
    if i == |accesses| {
      assert accesses[..i] == accesses;
    } else {
      assert accesses[..i + 1][..i] == accesses[..i];
      ErrorStays(accesses, i + 1);
    }
  }

  /** ReadBC over the accesses of a stream: whatever count the stream claims,
      the result is what the accesses mean. */
  method ReadBC(n: int, accesses: seq<Access>) returns (r: Result<seq<Cell>>)
    ensures n < 0 ==> r == Error
    ensures n >= 0 ==>
              match Meaning(accesses)
              case Error => r == Error
              case Ok(m) => r == Ok(m.read)
    ensures n >= 0 ==> (r.Ok? <==> Acceptable(accesses))
    ensures r.Ok? ==> CellsOf(accesses, r.value)
  {
    hide Meaning, Acceptable, CellsOf, Knows;
    if n < 0 {
      return Error;
    }
    ReadingIsNamed(accesses);
    var reps := new BCReps(n);
    var read: seq<Cell>, made := [], 0;
    MeaningOfNone(accesses[..0]);
    var i := 0;
    while i < |accesses|
      invariant i <= |accesses| && reps.Valid() && fresh(reps) && fresh(reps.slots)
      invariant Meaning(accesses[..i]) == Ok(Reading(reps.Defs(), made, read))
    {
      NextMeaning(accesses, i, Reading(reps.Defs(), made, read));
      match accesses[i] {
        case Ref(pos) =>
          var c := reps.ReadRef(pos);
          if c.Error? {
            ErrorStays(accesses, i + 1);
            return Error;
          }
          read := read + [c.value];
        case Def(pos, ty) =>
          var c := reps.ReadDef(pos, ty, made);
          if c.Error? {
            ErrorStays(accesses, i + 1);
            return Error;
          }
          read, made := read + [c.value], made + 1;
        case Plain(ty) =>
          read, made := read + [MakeCell(ty, made)], made + 1;
      }
      i := i + 1;
    }
    assert accesses[..i] == accesses;
    return Ok(read);
  }

  // ---------- the pre-sized reader it replaces

  /** The old reader trusted the count and checked nothing: any type made a
      cell, a negative index defined nothing, an empty slot read as R_NilValue,
      and only an index outside the table is undefined. */
  datatype Presized = Undefined | Table(slots: seq<Slot>, made: nat, read: seq<Slot>)

  function OldStep(t: Presized, a: Access): Presized
    requires t.Table?
  {
    match a
    case Ref(pos) =>
      if 0 <= pos < |t.slots| then t.(read := t.read + [t.slots[pos]]) else Undefined
    case Def(pos, ty) =>
      var cell := MakeCell(ty, t.made);
      if pos < 0 then Table(t.slots, t.made + 1, t.read + [Holds(cell)])
      else if pos < |t.slots| then Table(t.slots[pos := Holds(cell)], t.made + 1, t.read + [Holds(cell)])
      else Undefined
    case Plain(ty) => Table(t.slots, t.made + 1, t.read + [Holds(MakeCell(ty, t.made))])
  }

  function OldReading(n: nat, accesses: seq<Access>): Presized {
    if accesses == [] then Table(seq(n, _ => Empty), 0, [])
    else match OldReading(n, accesses[..|accesses| - 1])
      case Undefined => Undefined
      case Table(s, a, r) => OldStep(Table(s, a, r), accesses[|accesses| - 1])
  }

  /** Slots of a pre-sized table holding these definitions. */
  predicate Mirrors(slots: seq<Slot>, defs: seq<Cell>) {
    && |defs| <= |slots|
    && (forall i :: 0 <= i < |defs| ==> slots[i] == Holds(defs[i]))
    && (forall i :: |defs| <= i < |slots| ==> slots[i] == Empty)
  }

  lemma {:induction false} DefsOnlyGrow(accesses: seq<Access>, i: nat)
    requires i <= |accesses| && Meaning(accesses).Ok?
    ensures Meaning(accesses[..i]).Ok? && |Meaning(accesses[..i]).value.defs| <= |Meaning(accesses).value.defs|
    decreases |accesses|
  {
    if i == |accesses| {
      assert accesses[..i] == accesses;
    } else {
      var init := accesses[..|accesses| - 1];
      DefsOnlyGrow(init, i);
      assert init[..i] == accesses[..i];
    }
  }

  /** On every stream the growing reader accepts, a table pre-sized for its
      definitions returns the same cells. */
  lemma {:induction false} SameAsPresized(n: nat, accesses: seq<Access>)
    requires Meaning(accesses).Ok? && |Meaning(accesses).value.defs| <= n
    ensures var m, t := Meaning(accesses).value, OldReading(n, accesses);
      && t.Table? && |t.read| == |m.read| && (forall i :: 0 <= i < |m.read| ==> t.read[i] == Holds(m.read[i]))
      && t.made == m.made && Mirrors(t.slots, m.defs) && |t.slots| == n
  {
    if accesses != [] {
      DefsOnlyGrow(accesses, |accesses| - 1);
      SameAsPresized(n, accesses[..|accesses| - 1]);
    }
  }

  /** What the writer emits: definitions numbered in writing order, references
      to what has been written, and cell types only. */
  predicate Written(accesses: seq<Access>, defs: nat) {
    if accesses == [] then defs == 0
    else
      var init, last := accesses[..|accesses| - 1], accesses[|accesses| - 1];
      match last
      case Ref(pos) => 0 <= pos < defs && Written(init, defs)
      case Def(pos, ty) => defs > 0 && pos == defs - 1 && IsCellType(ty) && Written(init, defs - 1)
      case Plain(_) => Written(init, defs)
  }

  /** Every written stream is accepted, with one slot per definition. */
  lemma {:induction false} WrittenIsAccepted(accesses: seq<Access>, defs: nat)
    requires Written(accesses, defs)
    ensures Meaning(accesses).Ok? && |Meaning(accesses).value.defs| == defs
  {
    if accesses != [] {
      var init, last := accesses[..|accesses| - 1], accesses[|accesses| - 1];
      WrittenIsAccepted(init, if last.Def? then defs - 1 else defs);
    }
  }
}
