/**
 * Mangling: how the enum-constant generator turns an IDL enum name and
 * one of its values into a C macro name, in the Python generator
 * (idl/webgpu_api_generator.py) and in its earlier JavaScript twin
 * (idl/gen_webgpu_strings.js), which differ only in how they drop the
 * vendor word.
 */
module Mangling {
  import opened Text

  // ---------------------------------------------------------------------
  // Identifier mangling (enum_name_to_cpp_identifier)
  // ---------------------------------------------------------------------

  predicate IsUpperAscii(c: char)
  {
    'A' as int <= c as int <= 'Z' as int
  }

  predicate IsAlnumAscii(c: char)
  {
    IsUpperAscii(c) || ('a' as int <= c as int <= 'z' as int) || IsDigit(c)
  }

  /** A character allowed in the generated upper-case macro names. */
  predicate IsMacroChar(c: char)
  {
    IsUpperAscii(c) || IsDigit(c) || c == '_'
  }

  const MacroPrefix := "WGPU"
  const VendorWord := "GPU"
  const Hyphen := "-"
  const Underscore := "_"
  const InvalidValue := "INVALID"

  /** `re.sub(r'([A-Z])', '_\1', s)`: an underscore before each capital. */
  function UnderscoreCaps(s: string): string
  {
    if |s| == 0 then ""
    else (if IsUpperAscii(s[0]) then ['_', s[0]] else [s[0]]) + UnderscoreCaps(s[1..])
  }

  /** Inserting underscores adds no other character. */
  lemma {:induction false} UnderscoreCapsChars(s: string)
    ensures forall c | c in UnderscoreCaps(s) :: c in s || c == '_'
    decreases |s|
  {
    if |s| > 0 {
      UnderscoreCapsChars(s[1..]);
      assert forall c | c in s[1..] :: c in s;
    }
  }

  /**
   * `'WGPU'` + UPPER(the bare name with `_` before each capital), then,
   * for a non-empty value, `'_'` + UPPER(value) with every '-' turned
   * into '_'.
   */
  function MacroName(bare: string, value: string): string
  {
    var stem := MacroPrefix + Upper(UnderscoreCaps(bare));
    if value == "" then stem else stem + Underscore + ReplaceAll(Upper(value), Hyphen, Underscore)
  }

  /** The Python generator drops every "GPU" from the enum name. */
  function Mangle(name: string, value: string): string
  {
    MacroName(ReplaceAll(name, VendorWord, ""), value)
  }

  /** The JavaScript generator drops only the first "GPU". */
  function JsMangle(name: string, value: string): string
  {
    MacroName(ReplaceFirst(name, VendorWord, ""), value)
  }

  /** Which of the two generators produced a header. */
  datatype Dialect = Python | JavaScript

  function Identifier(d: Dialect, name: string, value: string): string
  {
    match d
    case Python => Mangle(name, value)
    case JavaScript => JsMangle(name, value)
  }

  lemma UpperMacroChars(s: string)
    requires forall c | c in s :: IsAlnumAscii(c) || c == '_' || c == '-'
    ensures forall c | c in Upper(s) :: IsMacroChar(c) || c == '-'
  {
    forall c | c in Upper(s) ensures IsMacroChar(c) || c == '-' {
      var i :| 0 <= i < |s| && Upper(s)[i] == c;
      assert s[i] in s;
    }
  }

  /** The type part `WGPU_...` of a macro name. */
  lemma StemMacroChars(bare: string)
    requires forall c | c in bare :: IsAlnumAscii(c)
    ensures forall c | c in MacroName(bare, "") :: IsMacroChar(c)
  {
    var caps := UnderscoreCaps(bare);
    UnderscoreCapsChars(bare);
    UpperMacroChars(caps);
    var up := Upper(caps);
    assert forall c | c in up :: c != '-' by {
      forall c | c in up ensures c != '-' {
        var i :| 0 <= i < |caps| && up[i] == c;
        assert caps[i] in caps;
      }
    }
    var p := MacroPrefix;
    assert MacroName(bare, "") == p + up;
    forall c | c in p + up ensures IsMacroChar(c) {
      if c !in up {
        assert c in p;
      }
    }
  }

  /** The value part `_...` of a macro name. */
  lemma SuffixMacroChars(value: string)
    requires forall c | c in value :: IsAlnumAscii(c) || c == '-'
    ensures forall c | c in Underscore + ReplaceAll(Upper(value), Hyphen, Underscore) :: IsMacroChar(c)
  {
    var up := Upper(value);
    UpperMacroChars(value);
    ReplaceChars(up, Hyphen, Underscore);
    ReplaceRemovesChar(up, '-', Underscore);
  }

  /** A bare name of letters and digits and a value of letters, digits and hyphens make a macro name. */
  lemma MacroNameChars(bare: string, value: string)
    requires forall c | c in bare :: IsAlnumAscii(c)
    requires forall c | c in value :: IsAlnumAscii(c) || c == '-'
    ensures forall c | c in MacroName(bare, value) :: IsMacroChar(c)
  {
    StemMacroChars(bare);
    if value != "" {
      SuffixMacroChars(value);
      var stem := MacroName(bare, "");
      var tail := Underscore + ReplaceAll(Upper(value), Hyphen, Underscore);
      assert MacroName(bare, value) == stem + tail;
      forall c | c in stem + tail ensures IsMacroChar(c) {
        if c !in stem {
          assert c in tail;
        }
      }
    }
  }

  /**
   * For IDL names made of letters and digits and values made of letters,
   * digits and hyphens, every identifier either generator makes consists
   * only of capitals, digits and underscores.
   */
  lemma IdentifierIsMacroName(d: Dialect, name: string, value: string)
    requires forall c | c in name :: IsAlnumAscii(c)
    requires forall c | c in value :: IsAlnumAscii(c) || c == '-'
    ensures forall c | c in Identifier(d, name, value) :: IsMacroChar(c)
  {
    var bare := if d == Python then ReplaceAll(name, VendorWord, "") else ReplaceFirst(name, VendorWord, "");
    if d == Python {
      ReplaceChars(name, VendorWord, "");
    } else {
      ReplaceFirstChars(name, VendorWord);
    }
    MacroNameChars(bare, value);
  }

  /** Dropping the first occurrence adds no character. */
  lemma ReplaceFirstChars(s: string, find: string)
    ensures forall c | c in ReplaceFirst(s, find, "") :: c in s
  {
    var i := IndexFrom(s, find, 0);
    if i >= 0 {
      var r := s[..i] + "" + s[i + |find|..];
      forall c | c in r ensures c in s {
        var k :| 0 <= k < |r| && r[k] == c;
        if k < i {
          assert r[k] == s[k];
        } else {
          assert r[k] == s[k + |find|];
        }
      }
    }
  }

  /**
   * The type identifier is a proper prefix of every value identifier of
   * the enum, and what follows it starts with `_`.
   */
  lemma IdentifierExtendsType(d: Dialect, name: string, value: string)
    requires value != ""
    ensures Identifier(d, name, "") < Identifier(d, name, value)
    ensures Identifier(d, name, value)[|Identifier(d, name, "")|] == '_'
  {
    var bare := if d == Python then ReplaceAll(name, VendorWord, "") else ReplaceFirst(name, VendorWord, "");
    var stem := MacroName(bare, "");
    var tail := ReplaceAll(Upper(value), Hyphen, Underscore);
    assert Identifier(d, name, value) == stem + (Underscore + tail);
  }

  /** The INVALID constant is the type identifier followed by `_INVALID`. */
  lemma InvalidIdentifier(d: Dialect, name: string)
    ensures Identifier(d, name, InvalidValue) == Identifier(d, name, "") + Underscore + InvalidValue
  {
    InvalidSuffix();
  }

  lemma InvalidSuffix()
    ensures ReplaceAll(Upper(InvalidValue), Hyphen, Underscore) == InvalidValue
  {
    var up := Upper(InvalidValue);
    assert up == InvalidValue;
    ReplaceAbsentChar(up, '-', Underscore);
  }

  /**
   * Mangling has no collision check: values differing only in '-' versus
   * '_' give the same macro name.
   */
  lemma MangleCollides(name: string)
    ensures "a-b" != "a_b" && Mangle(name, "a-b") == Mangle(name, "a_b")
  {
    assert Upper("a-b") == "A" + ("-" + "B");
    ReplaceSkip("A", "-" + "B", "-", "_");
    ReplaceHit("-", "B", "_");
    ReplaceSkip("B", "", "-", "_");
    assert Upper("a_b") == "A" + "_B";
    ReplaceSkip("A_B", "", "-", "_");
    assert "A_B" + "" == "A_B";
  }

  /** Inserting underscores never shortens the name. */
  lemma {:induction false} UnderscoreCapsLonger(s: string)
    ensures |UnderscoreCaps(s)| >= |s|
    decreases |s|
  {
    if |s| > 0 {
      UnderscoreCapsLonger(s[1..]);
    }
  }

  /** Dropping the leading "GPU" the JavaScript way. */
  lemma ReplaceFirstLeading(rest: string)
    ensures ReplaceFirst(VendorWord + rest, VendorWord, "") == rest
  {
    var s := VendorWord + rest;
    assert s[..|VendorWord|] == VendorWord;
    assert IndexFrom(s, VendorWord, 0) == 0;
    assert s[|VendorWord|..] == rest;
  }

  /**
   * For a name that starts with "GPU" and holds no other "GPU" (every
   * WebGPU enum name), both generators produce the same identifiers.
   */
  lemma DialectsAgree(rest: string, value: string)
    requires !Contains(rest, VendorWord)
    ensures JsMangle(VendorWord + rest, value) == Mangle(VendorWord + rest, value)
  {
    ReplaceFirstLeading(rest);
    ReplaceHit(VendorWord, rest, "");
    ReplaceAbsent(rest, VendorWord, "");
    assert "" + rest == rest;
  }

  /**
   * A name with a second "GPU" keeps it in the JavaScript identifier:
   * `GPUGPU` gives `WGPU` in Python but a longer name in JavaScript.
   */
  lemma DialectsDiffer()
    ensures Mangle(VendorWord + VendorWord, "") == MacroPrefix
    ensures JsMangle(VendorWord + VendorWord, "") != MacroPrefix
  {
    ReplaceFirstLeading(VendorWord);
    ReplaceHit(VendorWord, VendorWord, "");
    ReplaceHit(VendorWord, "", "");
    assert VendorWord + "" == VendorWord;
    assert ReplaceAll(VendorWord + VendorWord, VendorWord, "") == "";
    assert UnderscoreCaps("") == "";
    UnderscoreCapsLonger(VendorWord);
  }

  // ---------------------------------------------------------------------
  // A concrete vector: GPUTextureFormat / rgba8unorm-srgb
  // ---------------------------------------------------------------------

  lemma UpperAppend(a: string, b: string)
    ensures Upper(a + b) == Upper(a) + Upper(b)
  {
    assert forall i | 0 <= i < |a + b| :: Upper(a + b)[i] == (Upper(a) + Upper(b))[i];
  }

  lemma {:induction false} UnderscoreCapsAppend(a: string, b: string)
    ensures UnderscoreCaps(a + b) == UnderscoreCaps(a) + UnderscoreCaps(b)
    decreases |a|
  {
    if |a| > 0 {
      assert (a + b)[0] == a[0] && (a + b)[1..] == a[1..] + b;
      UnderscoreCapsAppend(a[1..], b);
    } else {
      assert a + b == b;
    }
  }

  lemma {:induction false} UnderscoreCapsLower(w: string)
    requires forall i | 0 <= i < |w| :: !IsUpperAscii(w[i])
    ensures UnderscoreCaps(w) == w
    decreases |w|
  {
    if |w| > 0 {
      UnderscoreCapsLower(w[1..]);
      assert [w[0]] + w[1..] == w;
    }
  }

  lemma ConsTwo(a: char, w: string)
    requires |w| >= 1
    ensures [a, w[0]] + w[1..] == [a] + w
  {
    assert w == [w[0]] + w[1..];
  }

  /** A capitalised word gets one underscore, before its capital. */
  lemma UnderscoreCapsWord(w: string)
    requires |w| >= 1 && IsUpperAscii(w[0]) && forall i | 1 <= i < |w| :: !IsUpperAscii(w[i])
    ensures UnderscoreCaps(w) == Underscore + w
  {
    UnderscoreCapsLower(w[1..]);
    ConsTwo('_', w);
  }

  /** A capitalised word that upper-cases to `wu`. */
  ghost predicate CapWord(w: string, wu: string)
  {
    |w| >= 1 && IsUpperAscii(w[0]) && (forall i | 1 <= i < |w| :: !IsUpperAscii(w[i])) && Upper(w) == wu
  }

  lemma TextureWord(t: string, tu: string)
    requires t == "Texture" && tu == "TEXTURE"
    ensures CapWord(t, tu)
  {
  }

  lemma FormatWord(f: string, fu: string)
    requires f == "Format" && fu == "FORMAT"
    ensures CapWord(f, fu)
  {
  }

  lemma NoVendorLetter(t: string, f: string)
    requires t == "Texture" && f == "Format"
    ensures VendorWord[0] !in t && VendorWord[0] !in f
  {
  }

  lemma RgbaWord(v: string, vu: string)
    requires v == "rgba8unorm" && vu == "RGBA8UNORM"
    ensures Upper(v) == vu
  {
  }

  lemma SrgbWord(w: string, wu: string)
    requires w == "srgb" && wu == "SRGB"
    ensures Upper(w) == wu
  {
  }

  lemma NoHyphen(vu: string, wu: string)
    requires vu == "RGBA8UNORM" && wu == "SRGB"
    ensures Hyphen[0] !in vu && Hyphen[0] !in wu
  {
  }

  /** Two capitalised words mangle to `_` and the first, `_` and the second. */
  lemma TwoWords(t: string, f: string, tu: string, fu: string)
    requires CapWord(t, tu) && CapWord(f, fu)
    ensures Upper(UnderscoreCaps(t + f)) == Underscore + tu + (Underscore + fu)
  {
    assert UnderscoreCaps(t + f) == (Underscore + t) + (Underscore + f) by {
      UnderscoreCapsAppend(t, f);
      UnderscoreCapsWord(t);
      UnderscoreCapsWord(f);
    }
    assert Upper(Underscore + t) == Underscore + tu by {
      UpperAppend(Underscore, t);
    }
    assert Upper(Underscore + f) == Underscore + fu by {
      UpperAppend(Underscore, f);
    }
    UpperAppend(Underscore + t, Underscore + f);
  }

  /** Two hyphenated words without hyphens upper-case to the words joined by `_`. */
  lemma HyphenWords(v: string, w: string, vu: string, wu: string)
    requires Upper(v) == vu && Upper(w) == wu && Hyphen[0] !in vu && Hyphen[0] !in wu
    ensures ReplaceAll(Upper(v + Hyphen + w), Hyphen, Underscore) == vu + Underscore + wu
  {
    assert Upper(v + Hyphen + w) == vu + (Hyphen + wu) by {
      UpperAppend(v + Hyphen, w);
      UpperAppend(v, Hyphen);
      assert Upper(Hyphen) == Hyphen;
    }
    assert ReplaceAll(wu, Hyphen, Underscore) == wu by {
      ReplaceSkip(wu, "", Hyphen, Underscore);
      assert wu + "" == wu;
    }
    assert ReplaceAll(Hyphen + wu, Hyphen, Underscore) == Underscore + wu by {
      ReplaceHit(Hyphen, wu, Underscore);
    }
    ReplaceSkip(vu, Hyphen + wu, Hyphen, Underscore);
  }

  /**
   * The macro of the texture format `rgba8unorm-srgb` from the bare type
   * name `TextureFormat`: `WGPU_TEXTURE_FORMAT_RGBA8UNORM_SRGB`, written
   * in pieces.
   */
  lemma MacroNameVector(t: string, f: string, v: string, w: string, tu: string, fu: string, vu: string, wu: string)
    requires t == "Texture" && f == "Format" && v == "rgba8unorm" && w == "srgb"
    requires tu == "TEXTURE" && fu == "FORMAT" && vu == "RGBA8UNORM" && wu == "SRGB"
    ensures MacroName(t + f, v + Hyphen + w) ==
      MacroPrefix + Underscore + tu + Underscore + fu + Underscore + vu + Underscore + wu
  {
    TextureWord(t, tu);
    FormatWord(f, fu);
    RgbaWord(v, vu);
    SrgbWord(w, wu);
    NoHyphen(vu, wu);
    TwoWords(t, f, tu, fu);
    HyphenWords(v, w, vu, wu);
    MacroNameOf(t + f, v + Hyphen + w, Underscore + tu + (Underscore + fu), vu + Underscore + wu);
    RegroupMacro(MacroPrefix, Underscore, tu, fu, vu, wu);
  }

  lemma RegroupMacro(p: string, u: string, tu: string, fu: string, vu: string, wu: string)
    ensures p + (u + tu + (u + fu)) + u + (vu + u + wu) == p + u + tu + u + fu + u + vu + u + wu
  {
  }

  lemma MacroNameOf(bare: string, value: string, a: string, b: string)
    requires value != "" && Upper(UnderscoreCaps(bare)) == a && ReplaceAll(Upper(value), Hyphen, Underscore) == b
    ensures MacroName(bare, value) == MacroPrefix + a + Underscore + b
  {
  }

  /**
   * Both generators turn `GPUTextureFormat` and `rgba8unorm-srgb` into
   * `WGPU_TEXTURE_FORMAT_RGBA8UNORM_SRGB`, the constant the header
   * defines.
   */
  lemma IdentifierVector(d: Dialect, t: string, f: string, v: string, w: string, tu: string, fu: string, vu: string, wu: string)
    requires t == "Texture" && f == "Format" && v == "rgba8unorm" && w == "srgb"
    requires tu == "TEXTURE" && fu == "FORMAT" && vu == "RGBA8UNORM" && wu == "SRGB"
    ensures Identifier(d, VendorWord + t + f, v + Hyphen + w) ==
      MacroPrefix + Underscore + tu + Underscore + fu + Underscore + vu + Underscore + wu
  {
    NoVendorLetter(t, f);
    var tf := t + f;
    assert VendorWord[0] !in tf;
    assert VendorWord + t + f == VendorWord + tf;
    if d == Python {
      ReplaceHit(VendorWord, tf, "");
      ReplaceSkip(tf, "", VendorWord, "");
      assert tf + "" == tf && "" + tf == tf;
    } else {
      ReplaceFirstLeading(tf);
    }
    MacroNameVector(t, f, v, w, tu, fu, vu, wu);
  }
}
