/**
 * StringsHeader: the part the two enum-constant generators share. Enum
 * values are interned into one string table whose index 0 is a
 * placeholder, and a C header gets, per enum, a typedef, an INVALID
 * constant and one constant per value numbered by the table.
 */
module StringsHeader {
  import opened Text
  import opened Mangling

  /** One entry of the insertion-ordered enum dictionary. */
  datatype EnumDef = EnumDef(name: string, values: seq<string>)

  // ---------------------------------------------------------------------
  // String interning
  // ---------------------------------------------------------------------

  /** A table slot: the placeholder `0` at index 0, strings after it. */
  datatype Slot = Sentinel | Str(s: string)

  /** The placeholder first and only there; every string at most once. */
  predicate TableValid(t: seq<Slot>)
  {
    |t| >= 1 && t[0] == Sentinel &&
    (forall i | 1 <= i < |t| :: t[i].Str?) &&
    (forall i, j | 0 <= i < j < |t| :: t[i] != t[j])
  }

  /** `t.index(v)`: the first index holding `v`, or -1 where Python raises. */
  function Position(t: seq<Slot>, v: string): (r: int)
    ensures -1 <= r < |t|
    ensures r == -1 <==> Str(v) !in t
    ensures r >= 0 ==> t[r] == Str(v) && forall j | 0 <= j < r :: t[j] != Str(v)
  {
    if |t| == 0 then -1
    else if t[0] == Str(v) then 0
    else
      var p := Position(t[1..], v);
      if p < 0 then -1 else p + 1
  }

  /** The index the generator uses for `v`: its position, 0 when absent. */
  function Index(t: seq<Slot>, v: string): nat
  {
    if Str(v) in t then Position(t, v) else 0
  }

  /** The table after looking `v` up and appending it when missing. */
  function Interned(t: seq<Slot>, v: string): seq<Slot>
  {
    if Str(v) in t then t else t + [Str(v)]
  }

  /** Interning keeps the table valid, only ever appends, and finds `v` at index 1 or later. */
  lemma InternedValid(t: seq<Slot>, v: string)
    requires TableValid(t)
    ensures TableValid(Interned(t, v))
    ensures t <= Interned(t, v)
    ensures 1 <= Position(Interned(t, v), v)
    ensures Str(v) in t ==> Position(Interned(t, v), v) == Position(t, v)
    ensures Str(v) !in t ==> Position(Interned(t, v), v) == |t|
  {
    var u := Interned(t, v);
    if Str(v) !in t {
      assert u[|t|] == Str(v);
      assert forall j | 0 <= j < |t| :: u[j] != Str(v);
      assert forall i, j | 0 <= i < j < |u| :: u[i] != u[j] by {
        forall i, j | 0 <= i < j < |u| ensures u[i] != u[j] {
          if j == |t| {
            assert u[i] == t[i];
          }
        }
      }
    }
  }

  /** Appending never moves a string that is already in the table. */
  lemma PositionExtend(t: seq<Slot>, more: seq<Slot>, v: string)
    requires Str(v) in t
    ensures Position(t + more, v) == Position(t, v)
  {
    var p := Position(t, v);
    var q := Position(t + more, v);
    assert (t + more)[p] == Str(v);
    assert q <= p;
    assert t[q] == Str(v);
  }

  /**
   * The string table the generator threads through enum processing. Its
   * only operation is lookup-or-append.
   */
  class StringTable {
    var entries: seq<Slot>

    ghost predicate Valid()
      reads this
    {
      TableValid(entries)
    }

    constructor ()
      ensures entries == [Sentinel] && Valid()
    {
      entries := [Sentinel];
    }

    /**
     * `wgpu_strings.index(v)`, and on failure append `v` and use the old
     * length: an existing string keeps its index and the table is not
     * touched; a new string goes at the end.
     */
    method InternOrLookup(v: string) returns (index: nat)
      requires Valid()
      modifies this
      ensures Valid()
      ensures entries == Interned(old(entries), v)
      ensures 1 <= index < |entries| && entries[index] == Str(v)
      ensures index == Position(entries, v)
      ensures Str(v) in old(entries) ==> index == Position(old(entries), v)
      ensures Str(v) !in old(entries) ==> index == |old(entries)|
    {
      InternedValid(entries, v);
      var i := 0;
      while i < |entries|
        invariant 0 <= i <= |entries|
        invariant forall j | 0 <= j < i :: entries[j] != Str(v)
      {
        if entries[i] == Str(v) {
          return i;
        }
        i := i + 1;
      }
      index := |entries|;
      entries := entries + [Str(v)];
    }
  }

  // ---------------------------------------------------------------------
  // Header emission
  // ---------------------------------------------------------------------

  /** One line of the generated C header. */
  datatype Line =
    | Typedef(enumName: string)
    | Invalid(enumName: string)
    | Define(enumName: string, value: string, number: nat)
    | Blank

  const TypedefWord := "typedef int "
  const DefineWord := "#define "
  const Semicolon := ";"
  const Space := " "
  const Newline := "\n"

  function RenderLine(d: Dialect, l: Line): string
  {
    match l
    case Typedef(n) => TypedefWord + Identifier(d, n, "") + Semicolon + Newline
    case Invalid(n) => DefineWord + Identifier(d, n, InvalidValue) + Space + NatToString(0) + Newline
    case Define(n, v, k) => DefineWord + Identifier(d, n, v) + Space + NatToString(k) + Newline
    case Blank => Newline
  }

  /** The header text of a sequence of lines. */
  function RenderLines(d: Dialect, ls: seq<Line>): string
  {
    if |ls| == 0 then "" else RenderLines(d, ls[..|ls| - 1]) + RenderLine(d, ls[|ls| - 1])
  }

  /** Header lines produced so far and the string table they were numbered against. */
  datatype Emitted = Emitted(lines: seq<Line>, table: seq<Slot>)

  function AddLine(acc: Emitted, l: Line): Emitted
  {
    Emitted(acc.lines + [l], acc.table)
  }

  /** The `#define` of one value, numbered by interning the value. */
  function EmitValue(acc: Emitted, name: string, v: string): Emitted
  {
    var u := Interned(acc.table, v);
    Emitted(acc.lines + [Define(name, v, Index(u, v))], u)
  }

  function EmitValues(acc: Emitted, name: string, values: seq<string>): Emitted
  {
    if |values| == 0 then acc
    else EmitValue(EmitValues(acc, name, values[..|values| - 1]), name, values[|values| - 1])
  }

  /** The type, the INVALID constant, the values and a blank line. */
  function EmitEnum(acc: Emitted, e: EnumDef): Emitted
  {
    var head := AddLine(AddLine(acc, Typedef(e.name)), Invalid(e.name));
    AddLine(EmitValues(head, e.name, e.values), Blank)
  }

  function EmitEnums(enums: seq<EnumDef>): Emitted
  {
    if |enums| == 0 then Emitted([], [Sentinel])
    else EmitEnum(EmitEnums(enums[..|enums| - 1]), enums[|enums| - 1])
  }

  const Preamble := "#pragma once\n\n"

  /** The text written to the generated header. */
  function HeaderText(d: Dialect, enums: seq<EnumDef>): string
  {
    Preamble + RenderLines(d, EmitEnums(enums).lines)
  }

  /** The final string table. */
  function FinalTable(enums: seq<EnumDef>): seq<Slot>
  {
    EmitEnums(enums).table
  }

  lemma RenderAppend(d: Dialect, ls: seq<Line>, l: Line)
    ensures RenderLines(d, ls + [l]) == RenderLines(d, ls) + RenderLine(d, l)
  {
    assert (ls + [l])[..|ls|] == ls;
  }

  /** Appending a line's text to the header text renders one more line. */
  lemma ExtendHeader(d: Dialect, ls: seq<Line>, l: Line)
    ensures Preamble + RenderLines(d, ls + [l]) == (Preamble + RenderLines(d, ls)) + RenderLine(d, l)
  {
    RenderAppend(d, ls, l);
    var p, x, y := Preamble, RenderLines(d, ls), RenderLine(d, l);
    assert (p + x) + y == p + (x + y);
  }

  /** Emit one `#define` per value into the header, interning the values. */
  method EmitValuesInto(d: Dialect, table: StringTable, header: string, ghost acc: Emitted, name: string, values: seq<string>)
    returns (header': string)
    requires table.Valid() && table.entries == acc.table
    requires header == Preamble + RenderLines(d, acc.lines)
    modifies table
    ensures table.Valid() && table.entries == EmitValues(acc, name, values).table
    ensures header' == Preamble + RenderLines(d, EmitValues(acc, name, values).lines)
  {
    header' := header;
    ghost var cur := acc;
    for j := 0 to |values|
      invariant table.Valid() && table.entries == cur.table
      invariant cur == EmitValues(acc, name, values[..j])
      invariant header' == Preamble + RenderLines(d, cur.lines)
    {
      var v := values[j];
      assert values[..j + 1][..j] == values[..j];
      var index := table.InternOrLookup(v);
      header' := header' + RenderLine(d, Define(name, v, index));
      ExtendHeader(d, cur.lines, Define(name, v, index));
      cur := EmitValue(cur, name, v);
    }
    assert values[..|values|] == values;
  }

  /** Emit the lines of one enum into the header, interning its values. */
  method EmitEnumInto(d: Dialect, table: StringTable, header: string, ghost acc: Emitted, e: EnumDef)
    returns (header': string)
    requires table.Valid() && table.entries == acc.table
    requires header == Preamble + RenderLines(d, acc.lines)
    modifies table
    ensures table.Valid() && table.entries == EmitEnum(acc, e).table
    ensures header' == Preamble + RenderLines(d, EmitEnum(acc, e).lines)
  {
    var typedef, invalid := Typedef(e.name), Invalid(e.name);
    header' := header + RenderLine(d, typedef);
    ExtendHeader(d, acc.lines, typedef);
    header' := header' + RenderLine(d, invalid);
    ExtendHeader(d, acc.lines + [typedef], invalid);
    ghost var head := AddLine(AddLine(acc, typedef), invalid);
    header' := EmitValuesInto(d, table, header', head, e.name, e.values);
    ghost var vs := EmitValues(head, e.name, e.values);
    header' := header' + RenderLine(d, Blank);
    ExtendHeader(d, vs.lines, Blank);
  }

  /**
   * Emit the header: for each enum its type, its INVALID constant and one
   * constant per value, numbered through the shared string table.
   */
  method GenerateHeader(d: Dialect, enums: seq<EnumDef>) returns (header: string, table: StringTable)
    ensures fresh(table) && table.Valid()
    ensures header == HeaderText(d, enums)
    ensures table.entries == FinalTable(enums)
  {
    header := Preamble;
    table := new StringTable();
    for k := 0 to |enums|
      invariant table.Valid()
      invariant header == HeaderText(d, enums[..k])
      invariant table.entries == FinalTable(enums[..k])
    {
      assert enums[..k + 1][..k] == enums[..k];
      header := EmitEnumInto(d, table, header, EmitEnums(enums[..k]), enums[k]);
    }
    assert enums[..|enums|] == enums;
  }

  // ---------------------------------------------------------------------
  // What the emitted header and table promise
  // ---------------------------------------------------------------------

  /**
   * The table is valid and every value `#define` names the index that
   * holds its string.
   */
  ghost predicate EmitInv(acc: Emitted)
  {
    TableValid(acc.table) &&
    forall l | l in acc.lines && l.Define? :: 1 <= l.number < |acc.table| && acc.table[l.number] == Str(l.value)
  }

  /** Emission only appends lines and table entries. */
  ghost predicate Grows(a: Emitted, b: Emitted)
  {
    a.lines <= b.lines && a.table <= b.table
  }

  lemma EmitValueInv(acc: Emitted, name: string, v: string)
    requires EmitInv(acc)
    ensures EmitInv(EmitValue(acc, name, v)) && Grows(acc, EmitValue(acc, name, v))
    ensures Str(v) in EmitValue(acc, name, v).table
  {
    var r := EmitValue(acc, name, v);
    InternedValid(acc.table, v);
    forall l | l in r.lines && l.Define?
      ensures 1 <= l.number < |r.table| && r.table[l.number] == Str(l.value)
    {
      if l in acc.lines {
        assert r.table[l.number] == acc.table[l.number];
      } else {
        assert l == Define(name, v, Index(r.table, v));
      }
    }
  }

  lemma {:induction false} EmitValuesInv(acc: Emitted, name: string, values: seq<string>)
    requires EmitInv(acc)
    ensures EmitInv(EmitValues(acc, name, values)) && Grows(acc, EmitValues(acc, name, values))
    ensures forall v | v in values :: Str(v) in EmitValues(acc, name, values).table
    decreases |values|
  {
    if |values| > 0 {
      var init := values[..|values| - 1];
      var last := values[|values| - 1];
      var prev := EmitValues(acc, name, init);
      assert values == init + [last];
      EmitValuesInv(acc, name, init);
      EmitValueInv(prev, name, last);
      InternedStep(prev.table, EmitValue(prev, name, last).table, init, last);
      GrowsTrans(acc, prev, EmitValue(prev, name, last));
    }
  }

  /** A table that only grew still holds the earlier values and now holds `last`. */
  lemma InternedStep(t1: seq<Slot>, t2: seq<Slot>, init: seq<string>, last: string)
    requires t1 <= t2 && Str(last) in t2
    requires forall v | v in init :: Str(v) in t1
    ensures forall v | v in init + [last] :: Str(v) in t2
  {
    forall v | v in init + [last] ensures Str(v) in t2 {
      if v in init {
        var k :| 0 <= k < |t1| && t1[k] == Str(v);
        assert t2[k] == Str(v);
      }
    }
  }

  lemma GrowsTrans(a: Emitted, b: Emitted, c: Emitted)
    requires Grows(a, b) && Grows(b, c)
    ensures Grows(a, c)
  {
  }

  lemma AddLineInv(acc: Emitted, l: Line)
    requires EmitInv(acc) && !l.Define?
    ensures EmitInv(AddLine(acc, l)) && Grows(acc, AddLine(acc, l))
  {
  }

  lemma EmitEnumInv(acc: Emitted, e: EnumDef)
    requires EmitInv(acc)
    ensures EmitInv(EmitEnum(acc, e)) && Grows(acc, EmitEnum(acc, e))
    ensures forall v | v in e.values :: Str(v) in EmitEnum(acc, e).table
  {
    var a1 := AddLine(acc, Typedef(e.name));
    AddLineInv(acc, Typedef(e.name));
    var head := AddLine(a1, Invalid(e.name));
    AddLineInv(a1, Invalid(e.name));
    EmitValuesInv(head, e.name, e.values);
    AddLineInv(EmitValues(head, e.name, e.values), Blank);
  }

  /**
   * The header and the table it was numbered against: the table keeps
   * the placeholder at 0 and every string once, and each value constant
   * is the index of its string.
   */
  lemma HeaderDefinesIndexTable(enums: seq<EnumDef>)
    ensures TableValid(FinalTable(enums))
    ensures forall l | l in EmitEnums(enums).lines && l.Define? ::
      1 <= l.number < |FinalTable(enums)| && FinalTable(enums)[l.number] == Str(l.value)
  {
    EmitEnumsInv(enums);
  }

  lemma {:induction false} EmitEnumsInv(enums: seq<EnumDef>)
    ensures EmitInv(EmitEnums(enums))
    decreases |enums|
  {
    if |enums| > 0 {
      EmitEnumsInv(enums[..|enums| - 1]);
      EmitEnumInv(EmitEnums(enums[..|enums| - 1]), enums[|enums| - 1]);
    }
  }

  /** Once a string is in the table, growing the table does not change its index. */
  lemma IndexStable(a: seq<Slot>, b: seq<Slot>, v: string)
    requires a <= b && Str(v) in a
    ensures Index(b, v) == Index(a, v)
  {
    PositionExtend(a, b[|a|..], v);
    assert a + b[|a|..] == b;
  }

  lemma {:induction false} EmitValuesDefines(acc: Emitted, name: string, values: seq<string>)
    requires EmitInv(acc)
    ensures forall v | v in values ::
      Define(name, v, Index(EmitValues(acc, name, values).table, v)) in EmitValues(acc, name, values).lines
    decreases |values|
  {
    if |values| > 0 {
      var init := values[..|values| - 1];
      var last := values[|values| - 1];
      assert values == init + [last];
      EmitValuesDefines(acc, name, init);
      EmitValuesInv(acc, name, init);
      DefineStep(EmitValues(acc, name, init), name, init, last);
    }
  }

  /** One more value keeps every earlier value's `#define` and adds its own. */
  lemma DefineStep(prev: Emitted, name: string, init: seq<string>, last: string)
    requires forall v | v in init :: Str(v) in prev.table
    requires forall v | v in init :: Define(name, v, Index(prev.table, v)) in prev.lines
    ensures forall v | v in init + [last] ::
      Define(name, v, Index(EmitValue(prev, name, last).table, v)) in EmitValue(prev, name, last).lines
  {
    var r := EmitValue(prev, name, last);
    assert r.lines == prev.lines + [Define(name, last, Index(r.table, last))];
    forall v | v in init + [last] ensures Define(name, v, Index(r.table, v)) in r.lines {
      if v !in init {
        assert v == last;
      } else {
        IndexStable(prev.table, r.table, v);
        assert Define(name, v, Index(prev.table, v)) in prev.lines;
      }
    }
  }

  /** The strings the values of `enums[..n]` contribute. */
  ghost predicate Declared(enums: seq<EnumDef>, v: string)
  {
    exists i | 0 <= i < |enums| :: v in enums[i].values
  }

  /** One enum's lines: its type, its INVALID constant and a numbered constant per value. */
  lemma EmitEnumDefines(acc: Emitted, e: EnumDef)
    requires EmitInv(acc)
    ensures Typedef(e.name) in EmitEnum(acc, e).lines && Invalid(e.name) in EmitEnum(acc, e).lines
    ensures forall v | v in e.values :: Define(e.name, v, Index(EmitEnum(acc, e).table, v)) in EmitEnum(acc, e).lines
  {
    var a1 := AddLine(acc, Typedef(e.name));
    var head := AddLine(a1, Invalid(e.name));
    var vs := EmitValues(head, e.name, e.values);
    AddLineInv(acc, Typedef(e.name));
    AddLineInv(a1, Invalid(e.name));
    EmitValuesInv(head, e.name, e.values);
    EmitValuesDefines(head, e.name, e.values);
    assert Typedef(e.name) in head.lines && Invalid(e.name) in head.lines;
    assert vs.lines <= EmitEnum(acc, e).lines;
  }

  /** Every enum gets its type line and its INVALID line. */
  lemma {:induction false} HeaderDeclaresEveryEnum(enums: seq<EnumDef>)
    ensures forall i | 0 <= i < |enums| ::
      Typedef(enums[i].name) in EmitEnums(enums).lines && Invalid(enums[i].name) in EmitEnums(enums).lines
    decreases |enums|
  {
    if |enums| > 0 {
      var init := enums[..|enums| - 1];
      var prev := EmitEnums(init);
      HeaderDeclaresEveryEnum(init);
      EmitEnumsInv(init);
      EmitEnumInv(prev, enums[|enums| - 1]);
      EmitEnumDefines(prev, enums[|enums| - 1]);
      forall i | 0 <= i < |enums| - 1
        ensures Typedef(enums[i].name) in EmitEnums(enums).lines && Invalid(enums[i].name) in EmitEnums(enums).lines
      {
        assert enums[i] == init[i];
      }
    }
  }

  /** Every value of every enum gets a `#define` numbered by its index in the final table. */
  lemma {:induction false} HeaderDefinesEveryValue(enums: seq<EnumDef>)
    ensures forall i, v | 0 <= i < |enums| && v in enums[i].values ::
      Define(enums[i].name, v, Index(FinalTable(enums), v)) in EmitEnums(enums).lines
    decreases |enums|
  {
    if |enums| > 0 {
      var init := enums[..|enums| - 1];
      HeaderDefinesEveryValue(init);
      assert FinalTable(init) == EmitEnums(init).table;
      EmitEnumsInv(init);
      assert enums == init + [enums[|enums| - 1]];
      DefineEnumStep(EmitEnums(init), init, enums[|enums| - 1]);
    }
  }

  /** Emitting one more enum keeps every earlier `#define` and numbers the new values. */
  lemma DefineEnumStep(prev: Emitted, init: seq<EnumDef>, e: EnumDef)
    requires EmitInv(prev)
    requires forall i, v | 0 <= i < |init| && v in init[i].values ::
      Define(init[i].name, v, Index(prev.table, v)) in prev.lines
    ensures forall i, v | 0 <= i < |init + [e]| && v in (init + [e])[i].values ::
      Define((init + [e])[i].name, v, Index(EmitEnum(prev, e).table, v)) in EmitEnum(prev, e).lines
  {
    var r := EmitEnum(prev, e);
    var enums := init + [e];
    EmitEnumInv(prev, e);
    EmitEnumDefines(prev, e);
    forall i, v | 0 <= i < |enums| && v in enums[i].values
      ensures Define(enums[i].name, v, Index(r.table, v)) in r.lines
    {
      if i < |init| {
        assert enums[i] == init[i];
        var l := Define(init[i].name, v, Index(prev.table, v));
        assert l in prev.lines;
        assert Str(v) in prev.table by {
          assert prev.table[l.number] == Str(v);
        }
        IndexStable(prev.table, r.table, v);
      } else {
        assert enums[i] == e;
      }
    }
  }

  lemma {:induction false} EmitValuesOnlyValues(acc: Emitted, name: string, values: seq<string>)
    ensures forall x | x in EmitValues(acc, name, values).table :: x in acc.table || (x.Str? && x.s in values)
    decreases |values|
  {
    if |values| > 0 {
      var init := values[..|values| - 1];
      EmitValuesOnlyValues(acc, name, init);
      assert forall v | v in init :: v in values;
    }
  }

  lemma {:induction false} TableOnlyDeclared(enums: seq<EnumDef>)
    ensures forall x | x in FinalTable(enums) :: x == Sentinel || (x.Str? && Declared(enums, x.s))
    decreases |enums|
  {
    if |enums| > 0 {
      var init := enums[..|enums| - 1];
      var e := enums[|enums| - 1];
      TableOnlyDeclared(init);
      var head := AddLine(AddLine(EmitEnums(init), Typedef(e.name)), Invalid(e.name));
      EmitValuesOnlyValues(head, e.name, e.values);
      forall x | x in FinalTable(enums) ensures x == Sentinel || (x.Str? && Declared(enums, x.s)) {
        if x in FinalTable(init) && x != Sentinel {
          var i :| 0 <= i < |init| && x.s in init[i].values;
          assert enums[i] == init[i];
        } else if x != Sentinel {
          assert x.s in enums[|enums| - 1].values;
        }
      }
    }
  }

  /** The table holds the placeholder and exactly the strings some enum declares. */
  lemma TableHoldsDeclaredStrings(enums: seq<EnumDef>)
    ensures |FinalTable(enums)| >= 1 && FinalTable(enums)[0] == Sentinel
    ensures forall v :: Str(v) in FinalTable(enums) <==> Declared(enums, v)
  {
    HeaderDefinesIndexTable(enums);
    HeaderDefinesEveryValue(enums);
    TableOnlyDeclared(enums);
    forall v | Declared(enums, v) ensures Str(v) in FinalTable(enums) {
      var i :| 0 <= i < |enums| && v in enums[i].values;
      var l := Define(enums[i].name, v, Index(FinalTable(enums), v));
      assert l in EmitEnums(enums).lines;
      assert FinalTable(enums)[l.number] == Str(v);
    }
  }

  /** The distinct strings the enums declare. */
  function DeclaredSet(enums: seq<EnumDef>): set<string>
  {
    set i, v | 0 <= i < |enums| && v in enums[i].values :: v
  }

  /** The strings at indices 1 to `n - 1`. */
  function StringsBelow(t: seq<Slot>, n: nat): set<string>
    requires n <= |t|
  {
    set i | 1 <= i < n && t[i].Str? :: t[i].s
  }

  lemma {:induction false} StringsBelowCount(t: seq<Slot>, n: nat)
    requires TableValid(t) && 1 <= n <= |t|
    ensures |StringsBelow(t, n)| == n - 1
    decreases n
  {
    if n > 1 {
      StringsBelowCount(t, n - 1);
      var v := t[n - 1].s;
      assert StringsBelow(t, n) == StringsBelow(t, n - 1) + {v};
      assert v !in StringsBelow(t, n - 1) by {
        forall i | 1 <= i < n - 1 && t[i].Str? ensures t[i].s != v {
          assert t[i] != t[n - 1];
        }
      }
    } else {
      assert StringsBelow(t, n) == {};
    }
  }

  /** The table has one entry per distinct declared string, plus the placeholder. */
  lemma TableSize(enums: seq<EnumDef>)
    ensures |FinalTable(enums)| == 1 + |DeclaredSet(enums)|
  {
    var t := FinalTable(enums);
    TableHoldsDeclaredStrings(enums);
    HeaderDefinesIndexTable(enums);
    StringsBelowCount(t, |t|);
    StringsBelowDeclared(enums, t);
  }

  /** A table whose strings are exactly the declared ones holds the declared set after its placeholder. */
  lemma StringsBelowDeclared(enums: seq<EnumDef>, t: seq<Slot>)
    requires |t| >= 1 && t[0] == Sentinel
    requires forall v :: Str(v) in t <==> Declared(enums, v)
    ensures StringsBelow(t, |t|) == DeclaredSet(enums)
  {
    forall v | v in DeclaredSet(enums) ensures v in StringsBelow(t, |t|) {
      assert Declared(enums, v);
      var i :| 0 <= i < |t| && t[i] == Str(v);
    }
    forall v | v in StringsBelow(t, |t|) ensures v in DeclaredSet(enums) {
      var i :| 1 <= i < |t| && t[i].Str? && t[i].s == v;
      assert Str(v) in t;
      var j :| 0 <= j < |enums| && v in enums[j].values;
    }
  }

  /**
   * Two value constants share a number exactly when they name the same
   * string, whichever enums they belong to.
   */
  lemma NumbersIdentifyStrings(enums: seq<EnumDef>, a: Line, b: Line)
    requires a in EmitEnums(enums).lines && b in EmitEnums(enums).lines
    requires a.Define? && b.Define?
    ensures a.number == b.number <==> a.value == b.value
  {
    HeaderDefinesIndexTable(enums);
    var t := FinalTable(enums);
    assert t[a.number] == Str(a.value) && t[b.number] == Str(b.value);
  }

  /** A new string is appended and numbered by the old table length. */
  lemma EmitFreshValue(acc: Emitted, name: string, v: string)
    requires Str(v) !in acc.table
    ensures EmitValue(acc, name, v) == Emitted(acc.lines + [Define(name, v, |acc.table|)], acc.table + [Str(v)])
  {
    var u := acc.table + [Str(v)];
    assert u[|acc.table|] == Str(v);
    assert forall j | 0 <= j < |acc.table| :: u[j] != Str(v);
  }

  /** One enum with two values, the first new to the table and the second given. */
  lemma EmitEnumOfTwo(acc: Emitted, n: string, p: string, q: string)
    ensures EmitEnum(acc, EnumDef(n, [p, q])) ==
      var head := AddLine(AddLine(acc, Typedef(n)), Invalid(n));
      AddLine(EmitValue(EmitValue(head, n, p), n, q), Blank)
  {
    var head := AddLine(AddLine(acc, Typedef(n)), Invalid(n));
    assert [p, q][..1] == [p];
    assert [p][..0] == [];
    assert EmitValues(head, n, [p]) == EmitValue(head, n, p);
  }

  /** One enum with two values both new to the table: they take the next two numbers. */
  lemma EmitEnumOfTwoFresh(acc: Emitted, n: string, p: string, q: string)
    requires p != q && Str(p) !in acc.table && Str(q) !in acc.table
    ensures EmitEnum(acc, EnumDef(n, [p, q])) ==
      Emitted(acc.lines + [Typedef(n), Invalid(n), Define(n, p, |acc.table|), Define(n, q, |acc.table| + 1), Blank],
              acc.table + [Str(p), Str(q)])
  {
    var head := AddLine(AddLine(acc, Typedef(n)), Invalid(n));
    EmitEnumOfTwo(acc, n, p, q);
    EmitFreshValue(head, n, p);
    var m := EmitValue(head, n, p);
    assert Str(q) !in m.table;
    EmitFreshValue(m, n, q);
  }

  /**
   * Two enums with four different values: the values get 1 to 4 in
   * order of appearance and each enum's INVALID constant stays 0.
   */
  lemma TwoEnumsNumberedInOrder(n1: string, n2: string, a: string, b: string, c: string, d: string)
    requires a != b && a != c && a != d && b != c && b != d && c != d
    ensures FinalTable([EnumDef(n1, [a, b]), EnumDef(n2, [c, d])])
      == [Sentinel, Str(a), Str(b), Str(c), Str(d)]
    ensures EmitEnums([EnumDef(n1, [a, b]), EnumDef(n2, [c, d])]).lines
      == [Typedef(n1), Invalid(n1), Define(n1, a, 1), Define(n1, b, 2), Blank,
          Typedef(n2), Invalid(n2), Define(n2, c, 3), Define(n2, d, 4), Blank]
  {
    var e1, e2 := EnumDef(n1, [a, b]), EnumDef(n2, [c, d]);
    assert [e1, e2][..1] == [e1];
    assert [e1][..0] == [];
    var start := Emitted([], [Sentinel]);
    assert EmitEnums([e1]) == EmitEnum(start, e1);
    EmitEnumOfTwoFresh(start, n1, a, b);
    var first := EmitEnums([e1]);
    assert first.table == [Sentinel, Str(a), Str(b)];
    assert first.lines == [Typedef(n1), Invalid(n1), Define(n1, a, 1), Define(n1, b, 2), Blank];
    EmitEnumOfTwoFresh(first, n2, c, d);
    assert EmitEnums([e1, e2]) == EmitEnum(first, e2);
  }

  /** A string two enums share is stored once and both constants get its index. */
  lemma SharedValueStoredOnce(n1: string, n2: string, x: string, y: string)
    requires x != y
    ensures FinalTable([EnumDef(n1, [x, y]), EnumDef(n2, [x])]) == [Sentinel, Str(x), Str(y)]
    ensures EmitEnums([EnumDef(n1, [x, y]), EnumDef(n2, [x])]).lines
      == [Typedef(n1), Invalid(n1), Define(n1, x, 1), Define(n1, y, 2), Blank,
          Typedef(n2), Invalid(n2), Define(n2, x, 1), Blank]
  {
    var e1, e2 := EnumDef(n1, [x, y]), EnumDef(n2, [x]);
    assert [e1, e2][..1] == [e1];
    assert [e1][..0] == [];
    var h1 := Emitted([Typedef(n1), Invalid(n1)], [Sentinel]);
    EmitEnumOfTwo(Emitted([], [Sentinel]), n1, x, y);
    EmitFreshValue(h1, n1, x);
    EmitFreshValue(EmitValue(h1, n1, x), n1, y);
    var first := Emitted([Typedef(n1), Invalid(n1), Define(n1, x, 1), Define(n1, y, 2), Blank],
                         [Sentinel, Str(x), Str(y)]);
    assert EmitEnums([e1]) == first;
    var h2 := AddLine(AddLine(first, Typedef(n2)), Invalid(n2));
    assert [x][..0] == [];
    assert EmitValues(h2, n2, [x]) == EmitValue(h2, n2, x);
    assert Index(h2.table, x) == 1;
  }

  // ---------------------------------------------------------------------
  // The string table as an array literal
  // ---------------------------------------------------------------------

  const Comma := ','

  /**
   * How a table is printed: the element for index 0, the quote around
   * each string, and how a placeholder elsewhere would print.
   */
  datatype LiteralStyle = LiteralStyle(hole: string, quote: char, placeholder: string)

  /** Python: `"'%s'" % x` for every entry, then entry 0 blanked out. */
  const PythonStyle := LiteralStyle("", '\'', "'0'")

  /** JavaScript: `JSON.stringify`, where `undefined` prints as `null`. */
  const JsonStyle := LiteralStyle("null", '"', "null")

  function Quoted(style: LiteralStyle, x: Slot): string
  {
    match x
    case Sentinel => style.placeholder
    case Str(v) => [style.quote] + v + [style.quote]
  }

  /** The table's entries quoted, with entry 0 replaced by the hole. */
  function TableEntries(style: LiteralStyle, t: seq<Slot>): (r: seq<string>)
    ensures |r| == |t|
  {
    seq(|t|, i requires 0 <= i < |t| => if i == 0 then style.hole else Quoted(style, t[i]))
  }

  /** `','.join(...)` of the entries: the inside of the array literal. */
  function TableText(style: LiteralStyle, t: seq<Slot>): string
  {
    Join(TableEntries(style, t), Comma)
  }

  /** A quote that is not the separator, and a hole that reads as no string and holds no comma. */
  predicate StyleFits(style: LiteralStyle)
  {
    style.quote != Comma && Comma !in style.hole &&
    !(|style.hole| >= 2 && style.hole[0] == style.quote && style.hole[|style.hole| - 1] == style.quote)
  }

  /**
   * Reading an element of the array literal back: a quoted element is its
   * string, anything else is the placeholder.
   */
  function ReadEntry(style: LiteralStyle, p: string): Slot
  {
    if |p| >= 2 && p[0] == style.quote && p[|p| - 1] == style.quote then Str(p[1..|p| - 1]) else Sentinel
  }

  function ReadTable(style: LiteralStyle, text: string): (r: seq<Slot>)
    ensures |r| == |Split(text, Comma)|
  {
    var parts := Split(text, Comma);
    seq(|parts|, i requires 0 <= i < |parts| => ReadEntry(style, parts[i]))
  }

  /**
   * The printed literal reads back as the table: the placeholder at index
   * 0, then every string at its own index, provided no string holds a
   * comma. In particular it has exactly `|t|` elements.
   */
  lemma TableTextRoundTrip(style: LiteralStyle, t: seq<Slot>)
    requires StyleFits(style)
    requires TableValid(t)
    requires forall i | 1 <= i < |t| :: Comma !in t[i].s
    ensures Split(TableText(style, t), Comma) == TableEntries(style, t)
    ensures ReadTable(style, TableText(style, t)) == t
    ensures |Split(TableText(style, t), Comma)| == |t|
  {
    var es := TableEntries(style, t);
    forall p | p in es ensures Comma !in p {
      var i :| 0 <= i < |es| && es[i] == p;
      if i > 0 {
        assert p == [style.quote] + t[i].s + [style.quote];
        assert Comma !in t[i].s;
        forall k | 0 <= k < |p| ensures p[k] != Comma {
          if 0 < k < |p| - 1 {
            assert p[k] == t[i].s[k - 1];
          }
        }
      }
    }
    SplitJoin(es, Comma);
    var r := ReadTable(style, TableText(style, t));
    forall i | 0 <= i < |t| ensures r[i] == t[i] {
      if i > 0 {
        var q := es[i];
        assert q == [style.quote] + t[i].s + [style.quote];
        assert q[1..|q| - 1] == t[i].s;
      }
    }
  }

  lemma StylesFit()
    ensures StyleFits(PythonStyle) && StyleFits(JsonStyle)
  {
    assert JsonStyle.hole[0] == 'n';
  }
}
