/** fuzz_chartr_table_excessive (harnesses/character.c) against the spec
    builder of do_chartr() that it stands in front of. */
module ChartrGuard {
  import opened Utf8

  const MAX_CHARTR_TABLE := 2_000_000

  /** A C string: no zero octet but the last. */
  predicate CString(text: Bytes) {
    && text != [] && text[|text| - 1] == 0
    && forall i :: 0 <= i < |text| - 1 ==> text[i] != 0
  }

  // ---------- the lenient decoder

  function Announced(lead: Byte): (n: nat)
    ensures 1 <= n <= 4
  {
    if lead < 0x80 then 1 else if lead < 0xE0 then 2 else if lead < 0xF0 then 3 else 4
  }

  /** The octets after i that continue the sequence its lead announces. */
  predicate Continued(text: Bytes, i: nat)
    requires i < |text|
  {
    && i + Announced(text[i]) <= |text|
    && forall k :: i < k < i + Announced(text[i]) ==> IsCont(text[k])
  }

  /** Octets taken for the character at i: one if its sequence breaks off. */
  function Taken(text: Bytes, i: nat): (n: nat)
    requires i < |text|
    ensures 1 <= n <= 4 && i + n <= |text|
  {
    if Continued(text, i) then Announced(text[i]) else 1
  }

  function CodePoint(text: Bytes, i: nat): nat
    requires i < |text|
  {
    if Continued(text, i) then Value(text[i..i + Announced(text[i])]) else text[i]
  }

  /** What v holds once k octets of the sequence have been read. */
  function Partial(text: Bytes, i: nat, k: nat): nat
    requires 1 <= k && i + k <= |text|
  {
    if k == 1 then
      var n := Announced(text[i]);
      if n == 1 then text[i] else Low(text[i], if n == 2 then 32 else if n == 3 then 16 else 8)
    else Partial(text, i, k - 1) * 64 + Low(text[i + k - 1], 64)
  }

  lemma PartialIsValue(text: Bytes, i: nat, n: nat)
    requires i + n <= |text| && i < |text| && n == Announced(text[i])
    ensures Partial(text, i, n) == Value(text[i..i + n])
  {
    var bs := text[i..i + n];
    assert forall k :: 0 <= k < n ==> bs[k] == text[i + k];
    if n >= 2 {
      assert Partial(text, i, 2) == Partial(text, i, 1) * 64 + Low(text[i + 1], 64);
    }
    if n >= 3 {
      assert Partial(text, i, 3) == Partial(text, i, 2) * 64 + Low(text[i + 2], 64);
    }
    if n >= 4 {
      assert Partial(text, i, 4) == Partial(text, i, 3) * 64 + Low(text[i + 3], 64);
    }
  }

  /** fuzz_decode_utf8 at position i.  It never looks past the terminator,
      which is no continuation octet. */
  method DecodeUtf8(text: array<Byte>, i: nat) returns (cp: nat, len: nat)
    requires CString(text[..]) && i < text.Length - 1
    ensures cp == CodePoint(text[..], i) && len == Taken(text[..], i)
    ensures i + len < text.Length
  {
    ghost var s := text[..];
    var c := text[i];
    len := if c < 0x80 then 1 else if c < 0xE0 then 2 else if c < 0xF0 then 3 else 4;
    var v := if len == 1 then c else Low(c, if len == 2 then 32 else if len == 3 then 16 else 8);
    var k := 1;
    while k < len
      invariant 1 <= k <= len && i + k < text.Length
      invariant forall m :: i < m < i + k ==> IsCont(s[m])
      invariant v == Partial(s, i, k)
    {
      if !IsCont(text[i + k]) {
        return c, 1;
      }
      v := v * 64 + Low(text[i + k], 64);
      k := k + 1;
    }
    PartialIsValue(s, i, len);
    return v, len;
  }

  /** The characters the lenient decoder sees from i on. */
  function Characters(text: Bytes, i: nat): seq<nat>
    requires text != []
    decreases |text| - i
  {
    if i >= |text| - 1 then [] else [CodePoint(text, i)] + Characters(text, i + Taken(text, i))
  }

  lemma CharactersStep(text: Bytes, i: nat, cp: nat, n: nat)
    requires text != [] && i < |text| - 1 && CodePoint(text, i) == cp && Taken(text, i) == n
    ensures Characters(text, i) == [cp] + Characters(text, i + n)
  {
  }

  lemma CharacterOfEncoded(before: Bytes, cp: Scalar, rest: Bytes)
    ensures var text, i := before + Encode(cp) + rest, |before|;
      CodePoint(text, i) == cp && Taken(text, i) == |Encode(cp)|
  {
    var bs := Encode(cp);
    EncodeDecodes(cp);
    var text, i := before + bs + rest, |before|;
    assert text[i..i + |bs|] == bs;
    assert forall k :: i <= k < i + |bs| ==> text[k] == bs[k - i];
    assert Announced(text[i]) == |bs|;
    assert Continued(text, i);
  }

  /** On a string that is UTF-8 it sees the encoded characters. */
  lemma {:induction false} CharactersOfEncoded(before: Bytes, cps: seq<Scalar>)
    ensures Characters(before + EncodeAll(cps) + [0], |before|) == cps
    decreases |cps|
  {
    hide CodePoint, Taken, Encode;
    var text := before + EncodeAll(cps) + [0];
    if cps != [] {
      var bs, rest := Encode(cps[0]), EncodeAll(cps[1..]) + [0];
      CharacterOfEncoded(before, cps[0], rest);
      assert text == before + bs + rest;
      CharactersStep(text, |before|, cps[0], |bs|);
      CharactersOfEncoded(before + bs, cps[1..]);
      assert text == (before + bs) + EncodeAll(cps[1..]) + [0];
    }
  }

  // ---------- counting entries

  const DASH := 0x2D

  /** Entries of the spec as the guard counts them. */
  function Entries(cps: seq<nat>): nat {
    if |cps| >= 3 && cps[1] == DASH then
      (if cps[2] >= cps[0] then cps[2] - cps[0] + 1 else 0) + Entries(cps[3..])
    else if cps != [] then 1 + Entries(cps[1..])
    else 0
  }

  function Sum(l: seq<nat>): nat {
    if |l| == 0 then 0 else if |l| == 1 then l[0] else if |l| == 2 then l[0] + l[1] else l[0] + l[1] + l[2]
  }

  /** The characters from i on begin with the first k of c, and go on at j. */
  predicate Looked(text: Bytes, i: nat, c: seq<nat>, l: seq<nat>, j: nat)
    requires text != []
  {
    && |c| == |l| <= 3
    && Characters(text, i) == c + Characters(text, j)
    && j == i + Sum(l)
    && (|l| >= 1 ==> Characters(text, i + l[0]) == c[1..] + Characters(text, j))
    && (forall k :: 0 <= k < |l| ==> l[k] >= 1)
  }

  lemma Append(c: seq<nat>, x: nat, rest: seq<nat>)
    ensures c + ([x] + rest) == (c + [x]) + rest
  {
  }

  lemma LookFurther(text: Bytes, i: nat, c: seq<nat>, l: seq<nat>, j: nat)
    requires CString(text) && Looked(text, i, c, l, j) && |c| < 3 && j < |text| - 1
    ensures Looked(text, i, c + [CodePoint(text, j)], l + [Taken(text, j)], j + Taken(text, j))
  {
    var cp, rest := CodePoint(text, j), Characters(text, j + Taken(text, j));
    assert Characters(text, j) == [cp] + rest;
    Append(c, cp, rest);
    if |l| >= 1 {
      Append(c[1..], cp, rest);
      assert (c + [cp])[1..] == c[1..] + [cp];
    } else {
      assert c + [cp] == [cp] && (c + [cp])[1..] == [];
    }
  }

  /** Of the k characters looked at, are the first three a range? */
  predicate IsRange(k: nat, c: seq<nat>)
    requires |c| == 4
  {
    k == 3 && c[1] == DASH
  }

  /** Entries the window stands for, and the octets that make them up. */
  function Gain(k: nat, c: seq<nat>): nat
    requires |c| == 4
  {
    if !IsRange(k, c) then 1 else if c[2] >= c[0] then c[2] - c[0] + 1 else 0
  }

  function Skip(k: nat, c: seq<nat>, l: seq<nat>): nat
    requires |c| == |l| == 4
  {
    if IsRange(k, c) then l[0] + l[1] + l[2] else l[0]
  }

  /** The window of k characters at i accounts for its entries and octets. */
  predicate Window(text: Bytes, i: nat, k: nat, c: seq<nat>, l: seq<nat>)
    requires text != [] && |c| == |l| == 4
  {
    && 1 <= k <= 3 && l[0] >= 1
    && Entries(Characters(text, i)) == Gain(k, c) + Entries(Characters(text, i + Skip(k, c, l)))
  }

  lemma EntriesStep(text: Bytes, i: nat, k: nat, c: seq<nat>, l: seq<nat>, j: nat)
    requires CString(text) && i < |text| - 1 && |c| == |l| == 4 && 1 <= k <= 3
    requires Looked(text, i, c[..k], l[..k], j) && (k == 3 || j >= |text| - 1)
    ensures Window(text, i, k, c, l)
  {
    hide CodePoint, Taken;
    var all := Characters(text, i);
    var c', l' := c[..k], l[..k];
    if k == 3 {
      assert all[3..] == Characters(text, j);
    } else {
      assert Characters(text, j) == [];
    }
    assert all[1..] == Characters(text, i + l'[0]);
    assert forall m :: 0 <= m < k ==> c'[m] == c[m] && l'[m] == l[m];
  }

  lemma LookedAtNone(text: Bytes, i: nat)
    requires text != []
    ensures Looked(text, i, [], [], i)
  {
  }

  /** Look at the next characters from i on, three if there are as many. */
  method LookAhead(text: array<Byte>, i: nat, cps: array<nat>, lens: array<nat>) returns (k: nat)
    requires CString(text[..]) && i < text.Length - 1
    requires cps != lens && cps.Length == lens.Length == 4
    modifies cps, lens
    ensures text[..] == old(text[..])
    ensures Window(text[..], i, k, cps[..], lens[..])
  {
    hide CodePoint, Taken, Looked, Window, Characters;
    ghost var s := text[..];
    var j: nat := i;
    LookedAtNone(s, i);
    k := 0;
    while k < 3 && j < text.Length - 1
      invariant k <= 3 && text[..] == s
      invariant Looked(s, i, cps[..k], lens[..k], j)
      invariant k == 0 ==> j == i
    {
      ghost var c, l := cps[..k], lens[..k];
      LookFurther(s, i, c, l, j);
      var cp, len := DecodeUtf8(text, j);
      cps[k], lens[k] := cp, len;
      assert cps[..k + 1] == c + [cp] && lens[..k + 1] == l + [len];
      j := j + len;
      k := k + 1;
    }
    assert cps[..][..k] == cps[..k] && lens[..][..k] == lens[..k];
    EntriesStep(s, i, k, cps[..], lens[..], j);
  }

  /** The entries counted up to i, within the limit. */
  predicate Counted(text: Bytes, i: nat, entries: nat)
    requires text != []
  {
    entries <= MAX_CHARTR_TABLE && Entries(Characters(text, 0)) == entries + Entries(Characters(text, i))
  }

  lemma CountStep(text: Bytes, i: nat, j: nat, entries: nat, gain: nat)
    requires text != [] && Counted(text, i, entries)
    requires Entries(Characters(text, i)) == gain + Entries(Characters(text, j))
    ensures if entries + gain > MAX_CHARTR_TABLE then Entries(Characters(text, 0)) > MAX_CHARTR_TABLE
            else Counted(text, j, entries + gain)
  {
  }

  lemma CountDone(text: Bytes, i: nat, entries: nat)
    requires text != [] && i >= |text| - 1
    ensures Counted(text, i, entries) ==> Entries(Characters(text, 0)) <= MAX_CHARTR_TABLE
  {
  }

  // ---------- the spec builder

  datatype Item = Char(c: nat) | Range(first: nat, last: nat)

  datatype Built = Decreasing | Built(items: seq<Item>)

  /** wtr_build_spec: ranges while three characters are left to look at, the
      last two always literal; a decreasing range is an error. */
  function Build(s: seq<nat>): Built {
    if |s| < 3 then Built(seq(|s|, i requires 0 <= i < |s| => Char(s[i])))
    else if s[1] == DASH then
      if s[0] > s[2] then Decreasing
      else match Build(s[3..])
        case Decreasing => Decreasing
        case Built(items) => Built([Range(s[0], s[2])] + items)
    else match Build(s[1..])
      case Decreasing => Decreasing
      case Built(items) => Built([Char(s[0])] + items)
  }

  /** Reading a spec loses nothing: written out again its items are the spec. */
  function Spelled(items: seq<Item>): seq<nat> {
    if items == [] then []
    else
      (match items[0] case Char(c) => [c] case Range(first, last) => [first, 0x2D, last]) + Spelled(items[1..])
  }

  lemma SpelledFirst(item: Item, items: seq<Item>)
    ensures Spelled([item] + items) ==
            (match item case Char(c) => [c] case Range(first, last) => [first, 0x2D, last]) + Spelled(items)
  {
    assert ([item] + items)[1..] == items;
  }

  lemma {:induction false} BuiltIsTheSpec(s: seq<nat>)
    ensures Build(s).Built? ==> Spelled(Build(s).items) == s
    ensures Build(s).Built? ==>
              forall k :: 0 <= k < |Build(s).items| && Build(s).items[k].Range? ==>
                Build(s).items[k].first <= Build(s).items[k].last
    ensures Build(s).Decreasing? ==> exists i :: 0 <= i < |s| - 2 && s[i + 1] == 0x2D && s[i] > s[i + 2]
  {
    if |s| < 3 {
      if s != [] {
        var rest := Build(s[1..]).items;
        assert Build(s).items == [Char(s[0])] + rest;
        BuiltIsTheSpec(s[1..]);
        SpelledFirst(Char(s[0]), rest);
        assert s == [s[0]] + s[1..];
      }
    } else if s[1] == DASH {
      BuiltIsTheSpec(s[3..]);
      if Build(s).Built? {
        SpelledFirst(Range(s[0], s[2]), Build(s[3..]).items);
        assert s == [s[0], DASH, s[2]] + s[3..];
      } else if s[0] <= s[2] {
        var i :| 0 <= i < |s[3..]| - 2 && s[3..][i + 1] == DASH && s[3..][i] > s[3..][i + 2];
        assert s[i + 4] == DASH && s[i + 3] > s[i + 5];
      }
    } else {
      BuiltIsTheSpec(s[1..]);
      if Build(s).Built? {
        SpelledFirst(Char(s[0]), Build(s[1..]).items);
        assert s == [s[0]] + s[1..];
      } else {
        var i :| 0 <= i < |s[1..]| - 2 && s[1..][i + 1] == DASH && s[1..][i] > s[1..][i + 2];
        assert s[i + 2] == DASH && s[i + 1] > s[i + 3];
      }
    }
  }

  lemma BuildFrom(s: seq<nat>, i: nat)
    requires i <= |s|
    ensures i < |s| && (i >= |s| - 2 || s[i + 1] != DASH) ==>
              Build(s[i..]) == match Build(s[i + 1..])
                               case Decreasing => Decreasing
                               case Built(b) => Built([Char(s[i])] + b)
    ensures i < |s| - 2 && s[i + 1] == DASH ==>
              Build(s[i..]) == if s[i] > s[i + 2] then Decreasing
                               else match Build(s[i + 3..])
                                 case Decreasing => Decreasing
                                 case Built(b) => Built([Range(s[i], s[i + 2])] + b)
    ensures i == |s| ==> Build(s[i..]) == Built([])
  {
    if i < |s| {
      var t := s[i..];
      assert t[1..] == s[i + 1..];
      if i >= |s| - 2 {
        assert Build(t).items == [Char(s[i])] + Build(s[i + 1..]).items;
      } else {
        assert t[3..] == s[i + 3..];
      }
    }
  }

  predicate Continues(done: seq<Item>, rest: Built, all: Built) {
    match rest
    case Decreasing => all.Decreasing?
    case Built(items) => all == Built(done + items)
  }

  lemma ContinuesNext(done: seq<Item>, item: Item, rest: Built, all: Built)
    requires Continues(done, match rest case Decreasing => Decreasing case Built(b) => Built([item] + b), all)
    ensures Continues(done + [item], rest, all)
  {
    if rest.Built? {
      assert done + ([item] + rest.items) == done + [item] + rest.items;
    }
  }

  /** wtr_build_spec, as its two loops have it. */
  method BuildSpec(s: seq<nat>) returns (b: Built)
    ensures b == Build(s)
  {
    hide Build;
    var items := [];
    var i := 0;
    assert s[0..] == s;
    while i < |s| - 2
      invariant 0 <= i <= |s| && Continues(items, Build(s[i..]), Build(s))
      decreases |s| - i
    {
      BuildFrom(s, i);
      if s[i + 1] == DASH {
        if s[i] > s[i + 2] {
          return Decreasing;
        }
        ContinuesNext(items, Range(s[i], s[i + 2]), Build(s[i + 3..]), Build(s));
        items := items + [Range(s[i], s[i + 2])];
        i := i + 3;
      } else {
        ContinuesNext(items, Char(s[i]), Build(s[i + 1..]), Build(s));
        items := items + [Char(s[i])];
        i := i + 1;
      }
    }
    while i < |s|
      invariant |s| - 2 <= i <= |s| && 0 <= i && Continues(items, Build(s[i..]), Build(s))
    {
      BuildFrom(s, i);
      ContinuesNext(items, Char(s[i]), Build(s[i + 1..]), Build(s));
      items := items + [Char(s[i])];
      i := i + 1;
    }
    BuildFrom(s, i);
    assert items + [] == items;
    return Built(items);
  }

  function ExpandItem(item: Item): seq<nat> {
    match item
    case Char(c) => [c]
    case Range(first, last) => if first <= last then seq(last - first + 1, k requires k >= 0 => first + k) else []
  }

  /** The characters the table is built from, one entry each. */
  function Expand(items: seq<Item>): seq<nat> {
    if items == [] then [] else ExpandItem(items[0]) + Expand(items[1..])
  }

  /** A range stands for each character from its first to its last, in order. */
  lemma RangeIsExpanded(first: nat, last: nat)
    ensures forall c: nat :: c in ExpandItem(Range(first, last)) <==> first <= c <= last
    ensures var cs := ExpandItem(Range(first, last)); forall i, j :: 0 <= i < j < |cs| ==> cs[i] < cs[j]
  {
    forall c: nat | first <= c <= last ensures c in ExpandItem(Range(first, last)) {
      assert ExpandItem(Range(first, last))[c - first] == c;
    }
  }

  lemma ExpandFirst(item: Item, items: seq<Item>)
    ensures Expand([item] + items) == ExpandItem(item) + Expand(items)
  {
    assert ([item] + items)[1..] == items;
  }

  lemma {:induction false} EntriesOfBuilt(s: seq<nat>)
    requires Build(s).Built?
    ensures Entries(s) == |Expand(Build(s).items)|
  {
    if |s| < 3 {
      if s != [] {
        var items := Build(s).items;
        assert items == [Char(s[0])] + Build(s[1..]).items;
        EntriesOfBuilt(s[1..]);
        ExpandFirst(Char(s[0]), Build(s[1..]).items);
      }
    } else if s[1] == DASH {
      EntriesOfBuilt(s[3..]);
      ExpandFirst(Range(s[0], s[2]), Build(s[3..]).items);
    } else {
      EntriesOfBuilt(s[1..]);
      ExpandFirst(Char(s[0]), Build(s[1..]).items);
    }
  }

  /** On every valid UTF-8 spec without a decreasing range, what the guard
      counts is the number of entries do_chartr() would build. */
  lemma GuardCountsTheTable(text: Bytes, cps: seq<Scalar>)
    requires CString(text) && text == EncodeAll(cps) + [0]
    requires Build(cps).Built?
    ensures Entries(Characters(text, 0)) == |Expand(Build(cps).items)|
  {
    CharactersOfEncoded([], cps);
    assert text == [] + EncodeAll(cps) + [0];
    EntriesOfBuilt(cps);
  }

  // ---------- the guard

  /** The guard refuses a spec exactly when it counts more entries than
      allowed, early exit or not; on a valid UTF-8 spec without a decreasing
      range, exactly when do_chartr() would build more than allowed. */
  method TableExcessive(text: array<Byte>) returns (excessive: bool)
    requires CString(text[..])
    ensures excessive <==> Entries(Characters(text[..], 0)) > 2_000_000
    ensures forall cps: seq<Scalar> :: text[..] == EncodeAll(cps) + [0] && Build(cps).Built? ==>
              (excessive <==> |Expand(Build(cps).items)| > 2_000_000)
  {
    hide CodePoint, Taken;
    ghost var s := text[..];
    forall cps: seq<Scalar> | s == EncodeAll(cps) + [0] && Build(cps).Built?
      ensures Entries(Characters(s, 0)) == |Expand(Build(cps).items)|
    {
      GuardCountsTheTable(s, cps);
    }
    hide Entries, Characters, Build, Expand, EncodeAll;
    var n := text.Length - 1;
    var cps, lens := new nat[4], new nat[4];
    var entries: nat := 0;
    var i: nat := 0;
    while i < n
      invariant text[..] == s && Counted(s, i, entries)
      decreases n - i
    {
      var k := LookAhead(text, i, cps, lens);
      CountStep(s, i, i + Skip(k, cps[..], lens[..]), entries, Gain(k, cps[..]));
      if k == 3 && cps[1] == DASH {
        if cps[2] >= cps[0] {
          entries := entries + (cps[2] - cps[0]) + 1;
        }
        i := i + lens[0] + lens[1] + lens[2];
      } else {
        entries := entries + 1;
        i := i + lens[0];
      }
      if entries > MAX_CHARTR_TABLE {
        return true;
      }
    }
    CountDone(s, i, entries);
    return false;
  }
}
