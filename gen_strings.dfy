/**
 * GenStrings: the earlier JavaScript version of the enum-constant
 * generator (idl/gen_webgpu_strings.js). It walks the same kind of enum
 * dictionary, writes the same header shape with its own identifier
 * mangling, and prints the table as a JSON array.
 */
module GenStrings {
  import opened Text
  import opened Mangling
  import opened StringsHeader

  const VarOpen := "var wgpuStrings = ["
  const VarClose := "];"

  /** The line printed to the console: the table as JSON, `null` first. */
  function PrintedTable(t: seq<Slot>): string
  {
    VarOpen + TableText(JsonStyle, t) + VarClose
  }

  /**
   * The generator: emit the header while interning every value, then
   * print the table.
   */
  method Run(enums: seq<EnumDef>) returns (header: string, printed: string)
    ensures header == HeaderText(JavaScript, enums)
    ensures printed == PrintedTable(FinalTable(enums))
  {
    var table;
    header, table := GenerateHeader(JavaScript, enums);
    printed := PrintedTable(table.entries);
  }

  /**
   * The printed array has one element per table entry: `null` for the
   * placeholder, then every distinct value, each at its index.
   */
  lemma PrintedTableReadsBack(enums: seq<EnumDef>)
    requires forall i, v | 0 <= i < |enums| && v in enums[i].values :: Comma !in v
    ensures ReadTable(JsonStyle, TableText(JsonStyle, FinalTable(enums))) == FinalTable(enums)
    ensures Split(TableText(JsonStyle, FinalTable(enums)), Comma)[0] == JsonStyle.hole
  {
    var t := FinalTable(enums);
    HeaderDefinesIndexTable(enums);
    TableHoldsDeclaredStrings(enums);
    forall i | 1 <= i < |t| ensures Comma !in t[i].s {
      assert Str(t[i].s) in t;
      assert Declared(enums, t[i].s);
    }
    StylesFit();
    TableTextRoundTrip(JsonStyle, t);
    assert TableEntries(JsonStyle, t)[0] == JsonStyle.hole;
  }

  /** Every line of the header belongs to one of the enums. */
  lemma {:induction false} LinesNameEnums(enums: seq<EnumDef>)
    ensures forall l | l in EmitEnums(enums).lines && !l.Blank? ::
      exists i | 0 <= i < |enums| :: enums[i].name == l.enumName
    decreases |enums|
  {
    if |enums| > 0 {
      var init := enums[..|enums| - 1];
      var e := enums[|enums| - 1];
      LinesNameEnums(init);
      var head := AddLine(AddLine(EmitEnums(init), Typedef(e.name)), Invalid(e.name));
      ValuesLinesName(head, e.name, e.values);
      forall l | l in EmitEnums(enums).lines && !l.Blank?
        ensures exists i | 0 <= i < |enums| :: enums[i].name == l.enumName
      {
        if l in EmitEnums(init).lines {
          var i :| 0 <= i < |init| && init[i].name == l.enumName;
          assert enums[i] == init[i];
        } else {
          assert enums[|enums| - 1].name == l.enumName;
        }
      }
    }
  }

  lemma {:induction false} ValuesLinesName(acc: Emitted, name: string, values: seq<string>)
    ensures forall l | l in EmitValues(acc, name, values).lines :: l in acc.lines || (l.Define? && l.enumName == name)
    decreases |values|
  {
    if |values| > 0 {
      ValuesLinesName(acc, name, values[..|values| - 1]);
    }
  }

  /** Lines whose identifiers agree render the same in both dialects. */
  lemma {:induction false} RenderAgrees(ls: seq<Line>)
    requires forall l | l in ls && !l.Blank? :: forall v :: Identifier(Python, l.enumName, v) == Identifier(JavaScript, l.enumName, v)
    ensures RenderLines(Python, ls) == RenderLines(JavaScript, ls)
    decreases |ls|
  {
    if |ls| > 0 {
      assert forall l | l in ls[..|ls| - 1] :: l in ls;
      RenderAgrees(ls[..|ls| - 1]);
      var l := ls[|ls| - 1];
      if !l.Blank? {
        assert Identifier(Python, l.enumName, "") == Identifier(JavaScript, l.enumName, "");
        assert Identifier(Python, l.enumName, InvalidValue) == Identifier(JavaScript, l.enumName, InvalidValue);
      }
      if l.Define? {
        assert Identifier(Python, l.enumName, l.value) == Identifier(JavaScript, l.enumName, l.value);
      }
    }
  }

  /**
   * When every enum name is "GPU" followed by a rest with no other
   * "GPU", the JavaScript generator writes the same header as the Python
   * one.
   */
  lemma HeadersAgree(enums: seq<EnumDef>)
    requires forall i | 0 <= i < |enums| ::
      |enums[i].name| >= |VendorWord| && enums[i].name[..|VendorWord|] == VendorWord &&
      !Contains(enums[i].name[|VendorWord|..], VendorWord)
    ensures HeaderText(JavaScript, enums) == HeaderText(Python, enums)
  {
    var ls := EmitEnums(enums).lines;
    LinesNameEnums(enums);
    forall l | l in ls && !l.Blank?
      ensures forall v :: Identifier(Python, l.enumName, v) == Identifier(JavaScript, l.enumName, v)
    {
      var i :| 0 <= i < |enums| && enums[i].name == l.enumName;
      var rest := enums[i].name[|VendorWord|..];
      assert enums[i].name == VendorWord + rest;
      forall v ensures Identifier(Python, l.enumName, v) == Identifier(JavaScript, l.enumName, v) {
        DialectsAgree(rest, v);
      }
    }
    RenderAgrees(ls);
  }
}
