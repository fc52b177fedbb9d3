/**
 * IdlGenerator: the build-time generator that turns the WebGPU IDL's
 * enumerations into C constants and a shared string table
 * (idl/webgpu_api_generator.py).
 *
 * Pipeline: textual fixups of the IDL source, parsing (external), enum
 * extraction, identifier mangling, string interning while the header is
 * emitted, then patching of the runtime JavaScript library's table and
 * its comment, each patch followed by an assertion.
 */
module IdlGenerator {
  import opened Text
  import opened Mangling
  import opened StringsHeader

  // ---------------------------------------------------------------------
  // IDL fixups (load_and_fixup_idl)
  // ---------------------------------------------------------------------

  const FrozenMessagesLine := "readonly attribute FrozenArray<GPUCompilationMessage> messages;"
  const LodMaxClampDefault := "float lodMaxClamp = 0xffffffff;"
  const ExposedBlock := "[\n    Exposed=(Window, DedicatedWorker)\n]"
  const NonGuaranteedLimits := "record<DOMString, GPUSize32> nonGuaranteedLimits = {};"

  /**
   * The lazy `.*?` followed by `close`, started at index `k`: the first
   * index at or after `k` holding `close`, provided no newline comes
   * before it (`.` never matches a newline).
   */
  function LazyClose(s: string, k: nat, close: char): (r: Option<nat>)
    requires close != '\n'
    ensures r.Some? ==> k <= r.value < |s| && s[r.value] == close
    ensures r.Some? ==> forall m | k <= m < r.value :: s[m] != close && s[m] != '\n'
    ensures r.None? ==> forall m | k <= m < |s| :: s[m] == close ==> exists n :: k <= n < m && s[n] == '\n'
    decreases |s| - k
  {
    if k >= |s| || s[k] == '\n' then None
    else if s[k] == close then Some(k)
    else LazyClose(s, k + 1, close)
  }

  /**
   * `re.sub(r'\[..*?\]', '', s)`: remove every bracket group that opens
   * with `[`, has at least one character, and closes at the first `]`
   * on the same line.
   */
  function StripBracketGroups(s: string): string
    decreases |s|
  {
    if |s| == 0 then ""
    else if s[0] == '[' && |s| >= 2 && s[1] != '\n' then
      match LazyClose(s, 2, ']')
      case Some(j) => StripBracketGroups(s[j + 1..])
      case None => [s[0]] + StripBracketGroups(s[1..])
    else [s[0]] + StripBracketGroups(s[1..])
  }

  /** Text without `[` passes the bracket regex unchanged. */
  lemma {:induction false} StripWithoutBrackets(s: string)
    requires '[' !in s
    ensures StripBracketGroups(s) == s
    decreases |s|
  {
    if |s| > 0 {
      assert s[0] != '[';
      assert forall c | c in s[1..] :: c in s;
      StripWithoutBrackets(s[1..]);
      assert [s[0]] + s[1..] == s;
    }
  }

  /** A one-line bracket group is removed entirely. */
  lemma StripOneLineGroup(a: string, t: string)
    requires |a| >= 1 && ']' !in a && '\n' !in a
    ensures StripBracketGroups("[" + a + "]" + t) == StripBracketGroups(t)
  {
    var s := "[" + a + "]" + t;
    assert s[1] == a[0];
    assert s[|a| + 1] == ']';
    forall m | 2 <= m < |a| + 1 ensures s[m] != ']' && s[m] != '\n' {
      assert s[m] == a[m - 1];
    }
    LazyCloseFinds(s, 2, |a| + 1, ']');
    assert s[|a| + 2..] == t;
  }

  lemma {:induction false} LazyCloseFinds(s: string, k: nat, j: nat, close: char)
    requires close != '\n' && k <= j < |s| && s[j] == close
    requires forall m | k <= m < j :: s[m] != close && s[m] != '\n'
    ensures LazyClose(s, k, close) == Some(j)
    decreases j - k
  {
    if k < j {
      LazyCloseFinds(s, k + 1, j, close);
    }
  }

  /**
   * A bracket opening a line of its own is not a match for the regex:
   * the `[` and the newline after it are kept.
   */
  lemma StripKeepsMultiLineOpen(t: string)
    ensures StripBracketGroups("[\n" + t) == "[\n" + StripBracketGroups(t)
  {
    var s := "[\n" + t;
    assert s[1..] == "\n" + t;
    assert ("\n" + t)[1..] == t;
  }

  /** The whole fixup chain, in the order the loader applies it. */
  function Fixup(src: string): string
  {
    var s1 := ReplaceAll(src, FrozenMessagesLine, "");
    var s2 := StripBracketGroups(s1);
    var s3 := ReplaceAll(s2, LodMaxClampDefault, "");
    var s4 := ReplaceAll(s3, ExposedBlock, "");
    ReplaceAll(s4, NonGuaranteedLimits, "")
  }

  /**
   * A bracket that opens a line of its own, with no other `[` after it,
   * is not a match for the bracket regex: the text is kept as it is.
   */
  lemma StripKeepsOwnLineBracket(block: string)
    requires |block| >= 2 && block[0] == '[' && block[1] == '\n'
    requires forall i | 2 <= i < |block| :: block[i] != '['
    ensures StripBracketGroups(block) == block
  {
    var body := block[2..];
    assert '[' !in body by {
      forall k | 0 <= k < |body| ensures body[k] != '[' {
        assert body[k] == block[k + 2];
      }
    }
    StripKeepsMultiLineOpen(body);
    StripWithoutBrackets(body);
    assert block == "[\n" + body;
  }

  /**
   * The multi-line `Exposed` attribute block survives the bracket regex
   * and is removed by its own literal replacement, so the whole chain
   * erases it.
   */
  lemma ExposedBlockSurvivesBracketRegex(block: string)
    requires block == ExposedBlock
    ensures StripBracketGroups(block) == block
    ensures ReplaceAll(block, ExposedBlock, "") == ""
  {
    assert forall i | 2 <= i < |block| :: block[i] != '[';
    StripKeepsOwnLineBracket(block);
    ReplaceHit(block, "", "");
    assert block + "" == block;
  }

  // ---------------------------------------------------------------------
  // Enum extraction
  // ---------------------------------------------------------------------

  /** What the IDL parser hands back; only enums matter to the generator. */
  datatype Decl = IncludesStatement | EnumDecl(name: string, values: seq<string>) | OtherDecl

  function Names(d: seq<EnumDef>): (r: seq<string>)
    ensures |r| == |d| && forall i | 0 <= i < |d| :: r[i] == d[i].name
  {
    if |d| == 0 then [] else [d[0].name] + Names(d[1..])
  }

  predicate UniqueNames(d: seq<EnumDef>)
  {
    forall i, j | 0 <= i < j < |d| :: d[i].name != d[j].name
  }

  function Lookup(d: seq<EnumDef>, n: string): (r: Option<seq<string>>)
    ensures r.None? <==> n !in Names(d)
  {
    if |d| == 0 then None
    else if d[0].name == n then Some(d[0].values)
    else Lookup(d[1..], n)
  }

  /**
   * Python `d[n] = vs`: an existing key keeps its position and takes the
   * new value; a new key goes at the end.
   */
  function Assign(d: seq<EnumDef>, n: string, vs: seq<string>): (r: seq<EnumDef>)
    ensures n in Names(d) ==> Names(r) == Names(d)
    ensures n !in Names(d) ==> Names(r) == Names(d) + [n]
  {
    if |d| == 0 then [EnumDef(n, vs)]
    else if d[0].name == n then [EnumDef(n, vs)] + d[1..]
    else
      var r := [d[0]] + Assign(d[1..], n, vs);
      assert Names(r) == [d[0].name] + Names(Assign(d[1..], n, vs));
      assert Names(d) == [d[0].name] + Names(d[1..]);
      r
  }

  /** After `d[n] = vs`, `d[n]` is `vs` and every other key reads as before. */
  lemma {:induction false} AssignLookup(d: seq<EnumDef>, n: string, vs: seq<string>, m: string)
    ensures Lookup(Assign(d, n, vs), m) == if m == n then Some(vs) else Lookup(d, m)
    decreases |d|
  {
    if |d| > 0 && d[0].name != n {
      AssignLookup(d[1..], n, vs, m);
    }
  }

  /** Assigning keeps the keys distinct. */
  lemma AssignUnique(d: seq<EnumDef>, n: string, vs: seq<string>)
    requires UniqueNames(d)
    ensures UniqueNames(Assign(d, n, vs))
  {
    var r := Assign(d, n, vs);
    forall i, j | 0 <= i < j < |r| ensures r[i].name != r[j].name {
      assert Names(r)[i] == r[i].name && Names(r)[j] == r[j].name;
      if n !in Names(d) {
        if j == |d| {
          assert r[j].name == n;
          assert Names(d)[i] == r[i].name;
        } else {
          assert Names(d)[i] == r[i].name && Names(d)[j] == r[j].name;
        }
      } else {
        assert Names(d)[i] == r[i].name && Names(d)[j] == r[j].name;
      }
    }
  }

  /** The dictionary after processing a prefix of the declarations. */
  function Extracted(ds: seq<Decl>): seq<EnumDef>
  {
    if |ds| == 0 then []
    else
      var d := Extracted(ds[..|ds| - 1]);
      match ds[|ds| - 1]
      case EnumDecl(n, vs) => Assign(d, n, vs)
      case _ => d
  }

  /** The values of the last enum declaration named `n`, if there is one. */
  function LastDeclared(ds: seq<Decl>, n: string): Option<seq<string>>
  {
    if |ds| == 0 then None
    else match ds[|ds| - 1]
      case EnumDecl(m, vs) => if m == n then Some(vs) else LastDeclared(ds[..|ds| - 1], n)
      case _ => LastDeclared(ds[..|ds| - 1], n)
  }

  /**
   * Walk the declarations, skipping includes statements, and record
   * every enum's values under its name, value by value.
   */
  method ExtractEnums(ds: seq<Decl>) returns (enums: seq<EnumDef>)
    ensures enums == Extracted(ds)
    ensures UniqueNames(enums)
    ensures forall n :: Lookup(enums, n) == LastDeclared(ds, n)
  {
    enums := [];
    for k := 0 to |ds|
      invariant enums == Extracted(ds[..k])
    {
      assert ds[..k + 1][..k] == ds[..k];
      if ds[k].IncludesStatement? {
        continue;
      }
      if ds[k].EnumDecl? {
        var name := ds[k].name;
        var before := enums;
        enums := Assign(enums, name, []);
        for t := 0 to |ds[k].values|
          invariant enums == Assign(before, name, ds[k].values[..t])
        {
          AssignLookup(before, name, ds[k].values[..t], name);
          var cur := Lookup(enums, name).value;
          assert cur == ds[k].values[..t];
          enums := Assign(enums, name, cur + [ds[k].values[t]]);
          assert cur + [ds[k].values[t]] == ds[k].values[..t + 1];
          AssignTwice(before, name, ds[k].values[..t], ds[k].values[..t + 1]);
        }
        assert ds[k].values[..|ds[k].values|] == ds[k].values;
      }
    }
    assert ds[..|ds|] == ds;
    ExtractedUnique(ds);
    forall n ensures Lookup(enums, n) == LastDeclared(ds, n) {
      ExtractedLookup(ds, n);
    }
  }

  lemma {:induction false} AssignTwice(d: seq<EnumDef>, n: string, a: seq<string>, b: seq<string>)
    ensures Assign(Assign(d, n, a), n, b) == Assign(d, n, b)
    decreases |d|
  {
    if |d| > 0 && d[0].name != n {
      AssignTwice(d[1..], n, a, b);
      var r := Assign(d, n, a);
      assert r[0] == d[0] && r[1..] == Assign(d[1..], n, a);
    }
  }

  /** Each enum name appears once in the dictionary. */
  lemma {:induction false} ExtractedUnique(ds: seq<Decl>)
    ensures UniqueNames(Extracted(ds))
    decreases |ds|
  {
    if |ds| > 0 {
      ExtractedUnique(ds[..|ds| - 1]);
      if ds[|ds| - 1].EnumDecl? {
        AssignUnique(Extracted(ds[..|ds| - 1]), ds[|ds| - 1].name, ds[|ds| - 1].values);
      }
    }
  }

  /**
   * A name is a key exactly when some enum declaration carries it, and
   * its values are those of the last such declaration.
   */
  lemma {:induction false} ExtractedLookup(ds: seq<Decl>, n: string)
    ensures Lookup(Extracted(ds), n) == LastDeclared(ds, n)
    decreases |ds|
  {
    if |ds| > 0 {
      ExtractedLookup(ds[..|ds| - 1], n);
      if ds[|ds| - 1].EnumDecl? {
        AssignLookup(Extracted(ds[..|ds| - 1]), ds[|ds| - 1].name, ds[|ds| - 1].values, n);
      }
    }
  }

  /** A later declaration of the same enum keeps the key's first position. */
  lemma RedeclarationKeepsPosition(ds: seq<Decl>, n: string, vs: seq<string>)
    requires n in Names(Extracted(ds))
    ensures Names(Extracted(ds + [EnumDecl(n, vs)])) == Names(Extracted(ds))
    ensures Lookup(Extracted(ds + [EnumDecl(n, vs)]), n) == Some(vs)
  {
    assert (ds + [EnumDecl(n, vs)])[..|ds|] == ds;
    AssignLookup(Extracted(ds), n, vs, n);
  }

  // ---------------------------------------------------------------------
  // Patching the runtime library
  // ---------------------------------------------------------------------

  const TableOpen := "wgpuStrings: ["
  /** What the table regex needs to start matching: the opening and the hole's comma. */
  const TableMatchStart := "wgpuStrings: [,"
  const TableClose := "]"
  const CommentStem := "// Global constant string table for all WebGPU strings"
  const CountWords := ". Contains "
  const EntriesWords := " entries, using "
  const BytesWords := " bytes."

  predicate StartsWith(s: string, p: string)
  {
    |p| <= |s| && s[..|p|] == p
  }

  /**
   * `re.sub(r'wgpuStrings: \[,.*?\]', rep, s)`: every match, scanning
   * left to right, runs from the opening to the first `]` on its line.
   */
  function SubTable(s: string, rep: string): string
    decreases |s|
  {
    if |s| == 0 then ""
    else if StartsWith(s, TableMatchStart) && LazyClose(s, |TableMatchStart|, ']').Some? then
      rep + SubTable(s[LazyClose(s, |TableMatchStart|, ']').value + 1..], rep)
    else [s[0]] + SubTable(s[1..], rep)
  }

  /** The end of the line holding index `k`: the next newline, or the end of the text. */
  function LineEnd(s: string, k: nat): (r: nat)
    requires k <= |s|
    ensures k <= r <= |s| && (r < |s| ==> s[r] == '\n')
    ensures forall m | k <= m < r :: s[m] != '\n'
    decreases |s| - k
  {
    if k == |s| || s[k] == '\n' then k else LineEnd(s, k + 1)
  }

  /**
   * `re.sub(r'// Global constant string table for all WebGPU strings.*', rep, s)`:
   * every occurrence of the stem and the rest of its line.
   */
  function SubComment(s: string, rep: string): string
    decreases |s|
  {
    if |s| == 0 then ""
    else if StartsWith(s, CommentStem) then rep + SubComment(s[LineEnd(s, |CommentStem|)..], rep)
    else [s[0]] + SubComment(s[1..], rep)
  }

  /** The table literal written into the library. */
  function NewStrings(t: seq<Slot>): string
  {
    TableOpen + TableText(PythonStyle, t) + TableClose
  }

  /** The comment above it: the number of entries and the literal's length. */
  function NewComment(t: seq<Slot>): string
  {
    CommentStem + CountWords + NatToString(|t|) + EntriesWords + NatToString(|TableText(PythonStyle, t)|) + BytesWords
  }

  /** How a patch ends: the new library text, or the assertion that stopped the generator. */
  datatype PatchResult = Patched(js: string) | TableMissing | CommentMissing

  /** Substitute the table, check it is there, substitute the comment, check it is there. */
  function Patch(js: string, t: seq<Slot>): PatchResult
  {
    var s1 := SubTable(js, NewStrings(t));
    if !Contains(s1, NewStrings(t)) then TableMissing
    else
      var s2 := SubComment(s1, NewComment(t));
      if !Contains(s2, NewComment(t)) then CommentMissing
      else Patched(s2)
  }

  /** Without a table opening, the table regex changes nothing. */
  lemma {:induction false} SubTableAbsent(s: string, rep: string)
    requires !Contains(s, TableOpen)
    ensures SubTable(s, rep) == s
    decreases |s|
  {
    if |s| > 0 {
      MatchStartOpens(s);
      assert !Contains(s[1..], TableOpen);
      SubTableAbsent(s[1..], rep);
    }
  }

  lemma MatchStartOpens(s: string)
    ensures StartsWith(s, TableMatchStart) ==> StartsWith(s, TableOpen)
  {
    if StartsWith(s, TableMatchStart) {
      assert s[..|TableOpen|] == TableMatchStart[..|TableOpen|];
    }
  }

  /** A text holding `a + b` holds `a`. */
  lemma ContainsPrefixOf(s: string, a: string, b: string)
    ensures Contains(s, a + b) ==> Contains(s, a)
  {
    ContainsIffOccurs(s, a + b);
    ContainsIffOccurs(s, a);
    forall i: nat | OccursAt(s, a + b, i) ensures OccursAt(s, a, i) {
      assert s[i..i + |a|] == (a + b)[..|a|];
    }
  }

  /**
   * A library with no table opening at all makes the first assertion
   * fail: the generator stops before touching the comment.
   */
  lemma PatchNeedsTable(js: string, t: seq<Slot>)
    requires !Contains(js, TableOpen)
    ensures Patch(js, t) == TableMissing
  {
    SubTableAbsent(js, NewStrings(t));
    ContainsPrefixOf(js, TableOpen, TableText(PythonStyle, t) + TableClose);
    assert TableOpen + (TableText(PythonStyle, t) + TableClose) == NewStrings(t);
  }

  /** A match anywhere in the text leaves the replacement in the result. */
  lemma {:induction false} SubTableHit(s: string, rep: string, i: nat)
    requires i <= |s| && StartsWith(s[i..], TableMatchStart)
    requires LazyClose(s[i..], |TableMatchStart|, ']').Some?
    ensures Contains(SubTable(s, rep), rep)
    decreases i
  {
    if StartsWith(s, TableMatchStart) && LazyClose(s, |TableMatchStart|, ']').Some? {
      ContainsFront(rep, SubTable(s[LazyClose(s, |TableMatchStart|, ']').value + 1..], rep));
    } else {
      assert i > 0;
      assert s[1..][i - 1..] == s[i..];
      SubTableHit(s[1..], rep, i - 1);
      ContainsAfter([s[0]], SubTable(s[1..], rep), rep);
    }
  }

  /** A stem anywhere in the text leaves the replacement in the result. */
  lemma {:induction false} SubCommentHit(s: string, rep: string, i: nat)
    requires i <= |s| && StartsWith(s[i..], CommentStem)
    ensures Contains(SubComment(s, rep), rep)
    decreases i
  {
    if StartsWith(s, CommentStem) {
      ContainsFront(rep, SubComment(s[LineEnd(s, |CommentStem|)..], rep));
    } else {
      assert i > 0;
      assert s[1..][i - 1..] == s[i..];
      SubCommentHit(s[1..], rep, i - 1);
      ContainsAfter([s[0]], SubComment(s[1..], rep), rep);
    }
  }

  /**
   * A library with a table literal (opening, hole, first `]` on the same
   * line) whose substituted text still holds the comment stem is patched.
   */
  lemma PatchSucceeds(js: string, t: seq<Slot>, i: nat, k: nat)
    requires i <= |js| && StartsWith(js[i..], TableMatchStart)
    requires LazyClose(js[i..], |TableMatchStart|, ']').Some?
    requires k <= |SubTable(js, NewStrings(t))| && StartsWith(SubTable(js, NewStrings(t))[k..], CommentStem)
    ensures Patch(js, t).Patched?
    ensures Contains(Patch(js, t).js, NewComment(t))
  {
    SubTableHit(js, NewStrings(t), i);
    SubCommentHit(SubTable(js, NewStrings(t)), NewComment(t), k);
  }

  /**
   * The generator end to end, from the parsed declarations: extract the
   * enums, emit the header (written out before anything else can fail),
   * then patch the library's table and comment.
   */
  method Run(ds: seq<Decl>, js: string) returns (header: string, result: PatchResult)
    ensures header == HeaderText(Python, Extracted(ds))
    ensures result == Patch(js, FinalTable(Extracted(ds)))
    ensures result.Patched? ==> Contains(result.js, NewComment(FinalTable(Extracted(ds))))
  {
    var enums := ExtractEnums(ds);
    var table;
    header, table := GenerateHeader(Python, enums);
    result := Patch(js, table.entries);
  }
}
