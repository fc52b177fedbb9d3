/**
 * JsCodecs: the small value codecs of the browser library
 * (lib/lib_webgpu.js): the runtime string-table decoder, the feature
 * bitmask written by `get_features` and read back from a device
 * descriptor, the 53-bit integer split into two 32-bit heap words, and
 * the layout of the supported-limits structure.
 *
 * The wasm heap is a sequence (or, where it is written, an array) of
 * 32-bit words held as integers in [0, 2^32).
 */
module JsCodecs {
  import opened Text
  import opened Bits
  import Compress

  // ---------------------------------------------------------------------
  // $wgpuDecodeStrings
  // ---------------------------------------------------------------------

  /** `[,].concat(parts)`: a hole at index 0, then the parts. */
  function WithHole(parts: seq<string>): (r: seq<Option<string>>)
    ensures |r| == |parts| + 1 && r[0] == None
    ensures forall i | 0 <= i < |parts| :: r[i + 1] == Some(parts[i])
  {
    if |parts| == 0 then [None]
    else WithHole(parts[..|parts| - 1]) + [Some(parts[|parts| - 1])]
  }

  /**
   * What the library decoder returns. Its loop runs while the FIRST
   * code is non-empty, popping codes from the end; so an empty first
   * code disables every substitution, and otherwise all codes are used.
   */
  function LibDecoded(s: string, c: string, ch: nat): seq<Option<string>>
    requires Compress.StartChar(ch) + |Split(c, Compress.Bar)| <= Compress.CharLimit
  {
    var codes := Split(c, Compress.Bar);
    if codes[0] != [] then WithHole(Split(Compress.Decode(s, codes, Compress.StartChar(ch)), ' '))
    else WithHole(Split(s, ' '))
  }

  /** The library's `$wgpuDecodeStrings`. */
  method DecodeStrings(s: string, c: string, ch: nat) returns (r: seq<Option<string>>)
    requires Compress.StartChar(ch) + |Split(c, Compress.Bar)| <= Compress.CharLimit
    ensures r == LibDecoded(s, c, ch)
  {
    var next := Compress.StartChar(ch);
    var codes := Split(c, Compress.Bar);
    var t := s;
    while |codes| > 0 && codes[0] != []
      invariant next + |codes| == Compress.StartChar(ch) + |Split(c, Compress.Bar)|
      invariant codes == Split(c, Compress.Bar)[..|codes|]
      invariant Split(c, Compress.Bar)[0] == [] ==> t == s
      invariant Split(c, Compress.Bar)[0] != [] ==>
        Compress.Decode(t, codes, next) == Compress.Decode(s, Split(c, Compress.Bar), Compress.StartChar(ch))
      decreases |codes|
    {
      var code := codes[|codes| - 1];
      codes := codes[..|codes| - 1];
      t := Compress.ReplaceAllLoop(t, [Compress.CodeChar(next)], code);
      next := next + 1;
    }
    r := WithHole(Split(t, ' '));
  }

  /**
   * The library decoder and the script's decoder (scripts/compress_strings.js)
   * produce the same strings, after the hole, whenever the first code is
   * non-empty; with an empty first code the library decoder substitutes nothing.
   */
  lemma DecodersAgree(s: string, c: string, ch: nat, i: nat)
    requires Compress.StartChar(ch) + |Split(c, Compress.Bar)| <= Compress.CharLimit
    requires Split(c, Compress.Bar)[0] != []
    requires i < |Split(Compress.Decode(s, Split(c, Compress.Bar), Compress.StartChar(ch)), ' ')|
    ensures LibDecoded(s, c, ch)[i + 1] == Some(Split(Compress.Decode(s, Split(c, Compress.Bar), Compress.StartChar(ch)), ' ')[i])
  {
  }

  /** One character code substituted into a text with one occurrence of it. */
  lemma ReplaceOneHit(x: char, p2: string, p3: string, rep: string)
    requires x !in p2 && x !in p3
    ensures ReplaceAll(p2 + [x] + p3, [x], rep) == p2 + rep + p3
  {
    assert p2 + [x] + p3 == p2 + ([x] + p3);
    ReplaceSkip(p2, [x] + p3, [x], rep);
    ReplaceHit([x], p3, rep);
    ReplaceAbsentChar(p3, x, rep);
  }

  /** One character code substituted into a text with two occurrences of it. */
  lemma ReplaceTwoHits(x: char, p1: string, p2: string, p3: string, rep: string)
    requires x !in p1 && x !in p2 && x !in p3
    ensures ReplaceAll(p1 + [x] + p2 + [x] + p3, [x], rep) == p1 + rep + p2 + rep + p3
  {
    var tail := p2 + [x] + p3;
    assert p1 + [x] + p2 + [x] + p3 == p1 + ([x] + tail);
    ReplaceSkip(p1, [x] + tail, [x], rep);
    ReplaceHit([x], tail, rep);
    ReplaceOneHit(x, p2, p3, rep);
    assert p1 + (rep + (p2 + rep + p3)) == p1 + rep + p2 + rep + p3;
  }

  /** A single code with no separator decodes by one substitution. */
  lemma DecodeSingleCode(s: string, c: string, ch: nat)
    requires c != [] && Compress.Bar !in c && Compress.StartChar(ch) < Compress.CharLimit
    ensures Split(c, Compress.Bar) == [c]
    ensures LibDecoded(s, c, ch) == WithHole(Split(ReplaceAll(s, [Compress.CodeChar(Compress.StartChar(ch))], c), ' '))
  {
    SplitPiece(c, Compress.Bar);
    assert [c][..0] == [];
    var start := Compress.StartChar(ch);
    var t := ReplaceAll(s, [Compress.CodeChar(start)], c);
    assert Compress.Decode(s, [c], start) == Compress.Decode(t, [], start + 1) == t;
  }

  /** Splitting two words separated by a single space. */
  lemma SplitTwoWords(a: string, b: string)
    requires ' ' !in a && ' ' !in b
    ensures Split(a + [' '] + b, ' ') == [a, b]
  {
    SplitAfterPiece(a, ' ', b);
    SplitPiece(b, ' ');
  }

  /** Splitting three words separated by single spaces. */
  lemma SplitThreeWords(a: string, b: string, c: string)
    requires ' ' !in a && ' ' !in b && ' ' !in c
    ensures Split(a + [' '] + b + [' '] + c, ' ') == [a, b, c]
  {
    assert a + [' '] + b + [' '] + c == a + [' '] + (b + [' '] + c);
    SplitAfterPiece(a, ' ', b + [' '] + c);
    SplitTwoWords(b, c);
  }

  /**
   * One code for character `x`, decoded into a text of three
   * space-separated words where the code itself holds a space.
   */
  lemma DecodeThreeWords(x: char, ch: nat, u: string, st: string, bs: string, b: string, m: string)
    requires Compress.StartChar(ch) < Compress.CharLimit && Compress.CodeChar(Compress.StartChar(ch)) == x
    requires x !in u && x !in st && x !in bs && x != ' ' && x != Compress.Bar
    requires ' ' !in u && ' ' !in st && ' ' !in bs && ' ' !in b && ' ' !in m
    requires Compress.Bar !in b && Compress.Bar !in m
    ensures Compress.StartChar(ch) + |Split(b + [' '] + m, Compress.Bar)| <= Compress.CharLimit &&
      LibDecoded(u + [x] + st + [x] + bs, b + [' '] + m, ch) == WithHole([u + b, m + st + b, m + bs])
  {
    var c := b + [' '] + m;
    assert Compress.Bar !in c;
    DecodeSingleCode(u + [x] + st + [x] + bs, c, ch);
    ReplaceTwoHits(x, u, st, bs, c);
    RegroupAroundSpace(u, st, bs, b, m);
    SplitThreeWords(u + b, m + st + b, m + bs);
  }

  /** A code holding one space splits the words around each substitution. */
  lemma RegroupAroundSpace(u: string, st: string, bs: string, b: string, m: string)
    ensures u + (b + [' '] + m) + st + (b + [' '] + m) + bs == (u + b) + [' '] + (m + st + b) + [' '] + (m + bs)
  {
  }

  /** One code for character `x`, decoded into a text of two space-separated words. */
  lemma DecodeTwoWords(x: char, ch: nat, p: string, q: string, c: string)
    requires Compress.StartChar(ch) < Compress.CharLimit && Compress.CodeChar(Compress.StartChar(ch)) == x
    requires x !in p && x !in q && x != ' '
    requires ' ' !in p && ' ' !in q && ' ' !in c && c != [] && Compress.Bar !in c
    ensures Compress.StartChar(ch) + |Split(c, Compress.Bar)| <= Compress.CharLimit &&
      LibDecoded([x] + p + [' '] + [x] + q, c, ch) == WithHole([c + p, c + q])
  {
    DecodeSingleCode([x] + p + [' '] + [x] + q, c, ch);
    RegroupTwo(x, p, q, c);
    ReplaceTwoHits(x, [], p + [' '], q, c);
    SplitTwoWords(c + p, c + q);
  }

  lemma RegroupTwo(x: char, p: string, q: string, c: string)
    ensures [x] + p + [' '] + [x] + q == [] + [x] + (p + [' ']) + [x] + q
    ensures [] + c + (p + [' ']) + c + q == (c + p) + [' '] + (c + q)
  {
  }

  lemma PlainUint(s: string) requires s == "uint" ensures ' ' !in s && '|' !in s {}

  /** The index-format table (lib/lib_webgpu.js:396-397): `('A16 A32', 'uint')`. */
  lemma IndexFormatsVector(c: string, p: string, q: string)
    requires c == "uint" && p == "16" && q == "32"
    ensures Compress.StartChar(0) + |Split(c, Compress.Bar)| <= Compress.CharLimit &&
      LibDecoded("A" + p + " " + "A" + q, c, 0) == [None, Some(c + p), Some(c + q)]
  {
    PlainUint(c);
    DecodeTwoWords('A', 0, p, q, c);
  }

  lemma PlainMaxUniform(s: string) requires s == "maxUniform" ensures ' ' !in s && '4' !in s {}
  lemma PlainStorage(s: string) requires s == "Storage" ensures ' ' !in s && '4' !in s {}
  lemma PlainBufferSize(s: string) requires s == "BufferSize" ensures ' ' !in s && '4' !in s {}
  lemma PlainBinding(s: string) requires s == "BufferBindingSize" ensures ' ' !in s && '|' !in s {}
  lemma PlainMax(s: string) requires s == "max" ensures ' ' !in s && '|' !in s {}

  /**
   * The 64-bit limit names (lib/lib_webgpu.js:372-373), after `.slice(1)`:
   * the text `maxUniform4Storage4BufferSize` with the single code
   * `BufferBindingSize max` for character 52 ('4'), written in pieces.
   */
  lemma Limit64NamesVector(u: string, st: string, bs: string, b: string, m: string)
    requires u == "maxUniform" && st == "Storage" && bs == "BufferSize"
    requires b == "BufferBindingSize" && m == "max"
    ensures Compress.StartChar(52) + |Split(b + " " + m, Compress.Bar)| <= Compress.CharLimit &&
      LibDecoded(u + "4" + st + "4" + bs, b + " " + m, 52)[1..] == [Some(u + b), Some(m + st + b), Some(m + bs)]
  {
    PlainMaxUniform(u);
    PlainStorage(st);
    PlainBufferSize(bs);
    PlainBinding(b);
    PlainMax(m);
    DecodeThreeWords('4', 52, u, st, bs, b, m);
    assert u + "4" + st + "4" + bs == u + ['4'] + st + ['4'] + bs;
    assert b + " " + m == b + [' '] + m;
    var parts := [u + b, m + st + b, m + bs];
    var r := WithHole(parts);
    assert r[1] == Some(parts[0]) && r[2] == Some(parts[1]) && r[3] == Some(parts[2]);
    assert r[1..] == [r[1], r[2], r[3]];
    assert LibDecoded(u + "4" + st + "4" + bs, b + " " + m, 52) == r;
  }

  /**
   * A code list whose first code is empty (a leading `|`) turns the
   * library decoder's loop off entirely: the text is only split.
   */
  lemma EmptyFirstCode(s: string, rest: string, ch: nat)
    requires Compress.StartChar(ch) + |Split([Compress.Bar] + rest, Compress.Bar)| <= Compress.CharLimit
    ensures LibDecoded(s, [Compress.Bar] + rest, ch) == WithHole(Split(s, ' '))
  {
    assert Split([Compress.Bar] + rest, Compress.Bar)[0] == [];
  }

  // ---------------------------------------------------------------------
  // Features: get_features, supports_feature, $wgpuReadFeaturesBitfield
  // ---------------------------------------------------------------------

  /** The number of entries of `_wgpuFeatures`. */
  const FeatureCount: bv32 := 14

  /** `_wgpuFeatures` in bit order, as the comment at lib/lib_webgpu.js:375 lists it. */
  const FeatureNames: seq<string> := [
    "depth-clip-control", "depth32float-stencil8", "texture-compression-bc",
    "texture-compression-bc-sliced-3d", "texture-compression-etc2", "texture-compression-astc",
    "timestamp-query", "indirect-first-instance", "shader-f16", "rg11b10ufloat-renderable",
    "bgra8unorm-storage", "float32-filterable", "clip-distances", "dual-source-blending"]

  lemma FeatureIndex(i: bv32)
    requires i < FeatureCount
    ensures 0 <= i as int < |FeatureNames|
  {
  }

  /** Bit `i` of `mask` is set exactly when feature `i` is in `supported`. */
  ghost predicate Encodes(mask: bv32, supported: set<string>)
  {
    EncodesBelow(mask, supported, FeatureCount)
  }

  /** `Encodes`, for the first `n` features. */
  ghost predicate EncodesBelow(mask: bv32, supported: set<string>, n: bv32)
    requires n <= FeatureCount
  {
    forall i: bv32 | i < n ::
      (FeatureIndex(i); HasBit(mask, i) <==> FeatureNames[i as int] in supported)
  }

  /**
   * `wgpu_adapter_or_device_get_features`: walks the feature table with
   * `id` doubling, setting bit `id` for each feature the adapter or
   * device reports. `supported` is its `features` set.
   */
  method GetFeatures(supported: set<string>) returns (mask: bv32)
    ensures Encodes(mask, supported)
    ensures mask < 1 << FeatureCount
  {
    var id: bv32 := 1;
    var i: bv32 := 0;
    mask := 0;
    while i < FeatureCount
      invariant i <= FeatureCount && id == 1 << i && mask < id
      invariant EncodesBelow(mask, supported, i)
      decreases FeatureCount - i
    {
      FeatureIndex(i);
      ghost var before := mask;
      if FeatureNames[i as int] in supported {
        SetBitBelow(mask, i);
        mask := mask | id;
      }
      EncodeStep(before, mask, supported, i);
      id := id * 2;
      i := i + 1;
    }
  }

  /** One step of the feature walk: bit `i` is decided, lower bits are kept. */
  lemma NextMask(before: bv32, after: bv32, i: bv32, set_: bool)
    requires i < 31 && before < 1 << i
    requires after == if set_ then before | (1 << i) else before
    ensures forall j: bv32 | j < i + 1 ::
      HasBit(after, j) <==> (if j == i then set_ else HasBit(before, j))
  {
    forall j: bv32 | j < i + 1
      ensures HasBit(after, j) <==> (if j == i then set_ else HasBit(before, j))
    {
      if set_ {
        SetBit(before, i, j);
      } else if j == i {
        NoBitAbove(before, i, i);
      }
    }
  }

  lemma EncodeStep(before: bv32, after: bv32, supported: set<string>, i: bv32)
    requires i < FeatureCount && before < 1 << i && EncodesBelow(before, supported, i)
    requires after == if FeatureNames[i as int] in supported then before | (1 << i) else before
    ensures EncodesBelow(after, supported, i + 1)
  {
    NextMask(before, after, i, FeatureNames[i as int] in supported);
  }

  /** The features whose bit is set in `v`, among the first `n`, in table order. */
  function Listed(v: bv32, n: bv32): seq<string>
    requires n <= FeatureCount
    decreases n as int
  {
    if n == 0 then []
    else Listed(v, n - 1) + (if HasBit(v, n - 1) then [FeatureNames[(n - 1) as int]] else [])
  }

  /**
   * `$wgpuReadFeaturesBitfield`: lists, in table order, the features
   * whose bit below 14 is set in the descriptor word `v`.
   */
  method ReadFeaturesBitfield(v: bv32) returns (required: seq<string>)
    ensures required == Listed(v, FeatureCount)
  {
    required := [];
    var i: bv32 := 0;
    while i < FeatureCount
      invariant i <= FeatureCount && required == Listed(v, i)
      decreases FeatureCount - i
    {
      MaskTest(v, i);
      FeatureIndex(i);
      ListedStep(v, i);
      if v & (1 << i) != 0 {
        required := required + [FeatureNames[i as int]];
      }
      i := i + 1;
    }
  }

  /** One more feature index extends the list by that feature when its bit is set. */
  lemma ListedStep(v: bv32, i: bv32)
    requires i < FeatureCount
    ensures 0 <= i as int < |FeatureNames|
    ensures Listed(v, i + 1) == Listed(v, i) + (if HasBit(v, i) then [FeatureNames[i as int]] else [])
  {
    assert i + 1 - 1 == i;
  }

  /**
   * Reading back a mask that encodes `supported` lists exactly the
   * supported features, in table order.
   */
  lemma {:induction false} ListedEncoded(mask: bv32, supported: set<string>, n: bv32)
    requires n <= FeatureCount && EncodesBelow(mask, supported, n)
    ensures Listed(mask, n) == Filter(FeatureNames[..n as int], supported)
    decreases n as int
  {
    if n > 0 {
      ListedEncoded(mask, supported, n - 1);
      FeatureIndex(n - 1);
      FilterPrefix(FeatureNames, (n - 1) as int, supported);
    }
  }

  /** decode(encode(S)) is S in table order (the features outside the table are dropped). */
  lemma FeaturesRoundTrip(mask: bv32, supported: set<string>)
    requires Encodes(mask, supported)
    ensures Listed(mask, FeatureCount) == Filter(FeatureNames, supported)
    ensures forall x :: x in Listed(mask, FeatureCount) <==> x in FeatureNames && x in supported
  {
    ListedEncoded(mask, supported, FeatureCount);
    assert FeatureNames[..FeatureCount as int] == FeatureNames;
  }

  /**
   * `wgpu_adapter_or_device_supports_feature`: looks up entry
   * `31 - Math.clz32(feature)` of the table; an index outside the table
   * reads `undefined`, which no `features` set holds.
   */
  function SupportsFeature(supported: set<string>, feature: bv32): bool
  {
    var k := 31 - Clz32(feature) as int;
    0 <= k < |FeatureNames| && FeatureNames[k] in supported
  }

  /**
   * `supports_feature(1 << i)` answers bit `i` of `get_features` for
   * every table feature, bits past the table are never supported, and
   * `supports_feature(0)` is false.
   */
  lemma SupportsAgreesWithGetFeatures(mask: bv32, supported: set<string>, i: bv32)
    requires Encodes(mask, supported) && i < 32
    ensures i < FeatureCount ==> (SupportsFeature(supported, 1 << i) <==> HasBit(mask, i))
    ensures FeatureCount <= i ==> !SupportsFeature(supported, 1 << i)
    ensures !SupportsFeature(supported, 0)
  {
    TopBitIndex(i);
    Clz32OfBit(i);
  }

  /**
   * The debug check at lib/lib_webgpu.js:856 as written: meant to reject
   * a combination of feature bits, it tests the adapter or device id.
   */
  predicate SingleFeatureCheckAsWritten(adapterOrDevice: bv32, feature: bv32)
  {
    adapterOrDevice & (adapterOrDevice - 1) == 0
  }

  /** The check the comment at lib/lib_webgpu.js:856 describes: one feature bit at most. */
  predicate SingleFeatureCheck(feature: bv32)
  {
    feature & (feature - 1) == 0
  }

  /**
   * As written, the check rejects asking device 3 about the single
   * feature `shader-f16` (bit 8), and accepts asking adapter 2 about
   * the combination of bits 0 and 1.
   */
  lemma SingleFeatureCheckAsWrittenTestsHandle()
    ensures !SingleFeatureCheckAsWritten(3, 1 << 8) && SingleFeatureCheck(1 << 8)
    ensures SingleFeatureCheckAsWritten(2, 3) && !SingleFeatureCheck(3)
  {
  }

  /** The corrected check accepts exactly 0 and the single feature bits. */
  lemma SingleFeatureCheckAcceptsBits(feature: bv32)
    ensures SingleFeatureCheck(feature) <==> feature == 0 || exists i: bv32 :: i < 32 && feature == Bit(i)
  {
    SingleBitTest(feature);
  }

  // ---------------------------------------------------------------------
  // 53-bit integers in two heap words
  // ---------------------------------------------------------------------

  const TwoTo32 := 0x1_0000_0000
  const TwoTo64 := 0x1_0000_0000_0000_0000

  /** JavaScript's ToUint32 on an integral number: wrap into [0, 2^32). */
  function ToUint32(n: int): (w: int)
    ensures 0 <= w < TwoTo32
    ensures 0 <= n < TwoTo32 ==> w == n
  {
    n % TwoTo32
  }

  /** `n / d` of JavaScript numbers, truncated toward zero as ToUint32 does. */
  function TruncDiv(n: int, d: int): int
    requires d > 0
  {
    if n >= 0 then n / d else -((-n) / d)
  }

  /** The two words `$wgpuWriteI53ToU64HeapIdx` stores: low word, then high word. */
  function I53Words(n: int): (ws: seq<int>)
    ensures |ws| == 2
  {
    [ToUint32(n), ToUint32(TruncDiv(n, TwoTo32))]
  }

  /** `$wgpuReadI53FromU64HeapIdx`: low word plus high word times 2^32. */
  function ReadI53(heap: seq<int>, idx: nat): int
    requires idx + 1 < |heap|
  {
    heap[idx] + heap[idx + 1] * TwoTo32
  }

  /** `h` with `ws` written from index `at` on. */
  function Overwrite(h: seq<int>, at: nat, ws: seq<int>): (r: seq<int>)
    requires at + |ws| <= |h|
    ensures |r| == |h|
  {
    h[..at] + ws + h[at + |ws|..]
  }

  /** The written words read back. */
  lemma OverwriteReads(h: seq<int>, at: nat, ws: seq<int>)
    requires at + |ws| <= |h|
    ensures Overwrite(h, at, ws)[at..at + |ws|] == ws
  {
  }

  /** Writing `ws` at `at` leaves every other word as it was. */
  lemma OverwriteKeeps(h: seq<int>, at: nat, ws: seq<int>, k: nat)
    requires at + |ws| <= |h| && k < |h| && !(at <= k < at + |ws|)
    ensures Overwrite(h, at, ws)[k] == h[k]
  {
  }

  /** Writing `ws` and then `vs` right after it writes `ws + vs`. */
  lemma OverwriteTwice(h: seq<int>, at: nat, ws: seq<int>, vs: seq<int>)
    requires at + |ws| + |vs| <= |h|
    ensures Overwrite(Overwrite(h, at, ws), at + |ws|, vs) == Overwrite(h, at, ws + vs)
  {
  }

  /** `$wgpuWriteI53ToU64HeapIdx`, without `WASM_BIGINT`: returns the updated heap. */
  method WriteI53(heap: seq<int>, idx: nat, n: int) returns (h: seq<int>)
    requires 0 < idx && idx + 1 < |heap|
    ensures h == Overwrite(heap, idx, I53Words(n))
  {
    h := heap[idx := ToUint32(n)];
    h := h[idx + 1 := ToUint32(TruncDiv(n, TwoTo32))];
    assert h == Overwrite(heap, idx, I53Words(n));
  }

  /** Every integer in [0, 2^64), so every safe integer in [0, 2^53), reads back. */
  lemma I53RoundTrip(h: seq<int>, idx: nat, n: int)
    requires idx + 1 < |h| && 0 <= n < TwoTo64
    ensures ReadI53(Overwrite(h, idx, I53Words(n)), idx) == n
  {
    var ws := Overwrite(h, idx, I53Words(n));
    assert ws[idx] == n % TwoTo32 && ws[idx + 1] == n / TwoTo32;
  }

  /** The two words themselves hold the number. */
  lemma I53WordsRoundTrip(n: int, rest: seq<int>)
    requires 0 <= n < TwoTo64
    ensures ReadI53(I53Words(n) + rest, 0) == n
  {
    var ws := I53Words(n) + rest;
    assert ws[0] == n % TwoTo32 && ws[1] == n / TwoTo32;
  }

  /** A negative number does not survive: -1 reads back as 2^32 - 1. */
  lemma I53Negative(h: seq<int>, idx: nat)
    requires idx + 1 < |h|
    ensures ReadI53(Overwrite(h, idx, I53Words(-1)), idx) == TwoTo32 - 1
  {
    var ws := Overwrite(h, idx, I53Words(-1));
    assert ws[idx] == TwoTo32 - 1 && ws[idx + 1] == 0;
  }

  // ---------------------------------------------------------------------
  // Supported limits: wgpu_adapter_or_device_get_limits, $wgpuReadSupportedLimits
  // ---------------------------------------------------------------------

  /** `wgpu64BitLimitNames` (lib/lib_webgpu.js:372). */
  const Limit64Names: seq<string> := ["maxUniformBufferBindingSize", "maxStorageBufferBindingSize", "maxBufferSize"]

  /** `wgpu32BitLimitNames` (lib/lib_webgpu.js:368). */
  const Limit32Names: seq<string> := [
    "maxTextureDimension1D", "maxTextureDimension2D", "maxTextureDimension3D", "maxTextureArrayLayers",
    "maxBindGroups", "maxBindGroupsPlusVertexBuffers", "maxBindingsPerBindGroup",
    "maxDynamicUniformBuffersPerPipelineLayout", "maxDynamicStorageBuffersPerPipelineLayout",
    "maxSampledTexturesPerShaderStage", "maxSamplersPerShaderStage", "maxStorageBuffersPerShaderStage",
    "maxStorageTexturesPerShaderStage", "maxUniformBuffersPerShaderStage", "minUniformBufferOffsetAlignment",
    "minStorageBufferOffsetAlignment", "maxVertexBuffers", "maxVertexAttributes", "maxVertexBufferArrayStride",
    "maxInterStageShaderVariables", "maxColorAttachments", "maxColorAttachmentBytesPerSample",
    "maxComputeWorkgroupStorageSize", "maxComputeInvocationsPerWorkgroup", "maxComputeWorkgroupSizeX",
    "maxComputeWorkgroupSizeY", "maxComputeWorkgroupSizeZ", "maxComputeWorkgroupsPerDimension"]

  /** The words of `WGpuSupportedLimits`: three two-word fields, then 28 one-word fields. */
  const LimitsWords := 34

  /**
   * `l[name]` of the browser's limits object; a missing limit reads
   * `undefined`, which ToUint32 turns into 0.
   */
  function Lookup(l: map<string, int>, name: string): int
  {
    if name in l then l[name] else 0
  }

  /** The words written for the 64-bit limits `names`. */
  function Words64(l: map<string, int>, names: seq<string>): (ws: seq<int>)
    ensures |ws| == 2 * |names|
  {
    if |names| == 0 then []
    else Words64(l, names[..|names| - 1]) + I53Words(Lookup(l, names[|names| - 1]))
  }

  /** The words written for the 32-bit limits `names`. */
  function Words32(l: map<string, int>, names: seq<string>): (ws: seq<int>)
    ensures |ws| == |names|
  {
    if |names| == 0 then []
    else Words32(l, names[..|names| - 1]) + [ToUint32(Lookup(l, names[|names| - 1]))]
  }

  /** What `get_limits` writes: exactly the 34 words of the structure. */
  function LimitWords(l: map<string, int>): (ws: seq<int>)
    ensures |ws| == LimitsWords
  {
    Words64(l, Limit64Names) + Words32(l, Limit32Names)
  }

  /** `wgpu_adapter_or_device_get_limits`, writing through the byte pointer `limits`. */
  method GetLimits(heap: seq<int>, limits: nat, l: map<string, int>) returns (h: seq<int>)
    requires limits != 0 && limits % 4 == 0 && limits / 4 + LimitsWords <= |heap|
    ensures h == Overwrite(heap, limits / 4, LimitWords(l))
  {
    var start := limits / 4;
    var idx;
    h, idx := Write64BitLimits(heap, start, l, Limit64Names);
    h, idx := Write32BitLimits(h, idx, l, Limit32Names);
    OverwriteTwice(heap, start, Words64(l, Limit64Names), Words32(l, Limit32Names));
  }

  /** The loop over `_wgpu64BitLimitNames`: two words per limit. */
  method Write64BitLimits(heap: seq<int>, start: nat, l: map<string, int>, names: seq<string>)
    returns (h: seq<int>, idx: nat)
    requires 0 < start && start + 2 * |names| <= |heap|
    ensures idx == start + 2 * |names|
    ensures h == Overwrite(heap, start, Words64(l, names))
  {
    h := heap;
    idx := start;
    var k := 0;
    while k < |names|
      invariant k <= |names| && idx == start + 2 * k && |h| == |heap|
      invariant h == Overwrite(heap, start, Words64(l, names[..k]))
    {
      Step64(heap, start, l, names, k);
      h := WriteI53(h, idx, Lookup(l, names[k]));
      idx := idx + 2;
      k := k + 1;
    }
    WholePrefix(names);
  }

  /** The loop over `_wgpu32BitLimitNames`: `HEAPU32[limits++] = l[limitName]`. */
  method Write32BitLimits(heap: seq<int>, start: nat, l: map<string, int>, names: seq<string>)
    returns (h: seq<int>, idx: nat)
    requires start + |names| <= |heap|
    ensures idx == start + |names|
    ensures h == Overwrite(heap, start, Words32(l, names))
  {
    h := heap;
    idx := start;
    var k := 0;
    while k < |names|
      invariant k <= |names| && idx == start + k
      invariant h == Overwrite(heap, start, Words32(l, names[..k]))
    {
      ghost var before := h;
      h := h[idx := ToUint32(Lookup(l, names[k]))];
      assert h == Overwrite(before, idx, [ToUint32(Lookup(l, names[k]))]);
      Step32(heap, start, l, names, k);
      idx := idx + 1;
      k := k + 1;
    }
    WholePrefix(names);
  }

  lemma Step64(h: seq<int>, start: nat, l: map<string, int>, names: seq<string>, k: nat)
    requires k < |names| && start + 2 * |names| <= |h|
    ensures Overwrite(Overwrite(h, start, Words64(l, names[..k])), start + 2 * k, I53Words(Lookup(l, names[k])))
      == Overwrite(h, start, Words64(l, names[..k + 1]))
  {
    assert names[..k + 1][..k] == names[..k];
    OverwriteTwice(h, start, Words64(l, names[..k]), I53Words(Lookup(l, names[k])));
  }

  lemma Step32(h: seq<int>, start: nat, l: map<string, int>, names: seq<string>, k: nat)
    requires k < |names| && start + |names| <= |h|
    ensures Overwrite(Overwrite(h, start, Words32(l, names[..k])), start + k, [ToUint32(Lookup(l, names[k]))])
      == Overwrite(h, start, Words32(l, names[..k + 1]))
  {
    assert names[..k + 1][..k] == names[..k];
    OverwriteTwice(h, start, Words32(l, names[..k]), [ToUint32(Lookup(l, names[k]))]);
  }

  lemma WholePrefix(names: seq<string>)
    ensures names[..|names|] == names
  {
  }

  /** The limit values stored in `ws`: `n` two-word numbers. */
  function Read64(ws: seq<int>, n: nat): (vs: seq<int>)
    requires 2 * n <= |ws|
    ensures |vs| == n
  {
    if n == 0 then [] else Read64(ws, n - 1) + [ReadI53(ws, 2 * (n - 1))]
  }

  /** `requiredLimits` built left to right: a non-zero value sets its name. */
  function Collect(acc: map<string, int>, names: seq<string>, vals: seq<int>): map<string, int>
    requires |names| == |vals|
  {
    if |names| == 0 then acc
    else
      var m := Collect(acc, names[..|names| - 1], vals[..|vals| - 1]);
      if vals[|vals| - 1] != 0 then m[names[|names| - 1] := vals[|vals| - 1]] else m
  }

  /** What `$wgpuReadSupportedLimits` returns for the 34 structure words `ws`. */
  function RequiredLimits(ws: seq<int>): map<string, int>
    requires |ws| == LimitsWords
  {
    Collect(Collect(map[], Limit64Names, Read64(ws, |Limit64Names|)), Limit32Names, ws[2 * |Limit64Names|..])
  }

  /** `$wgpuReadSupportedLimits`, from the word index `heap32Idx`. */
  method ReadSupportedLimits(heap: seq<int>, heap32Idx: nat) returns (required: map<string, int>)
    requires 0 < heap32Idx && heap32Idx + LimitsWords <= |heap|
    ensures required == RequiredLimits(heap[heap32Idx..heap32Idx + LimitsWords])
  {
    var idx;
    required, idx := Read64BitLimits(heap, heap32Idx, Limit64Names, map[]);
    required, idx := Read32BitLimits(heap, idx, Limit32Names, required);
    LimitSlices(heap, heap32Idx);
  }

  lemma LimitSlices(heap: seq<int>, at: nat)
    requires at + LimitsWords <= |heap|
    ensures Read64(heap[at..at + 2 * |Limit64Names|], |Limit64Names|) ==
      Read64(heap[at..at + LimitsWords], |Limit64Names|)
    ensures heap[at + 2 * |Limit64Names|..at + 2 * |Limit64Names| + |Limit32Names|] ==
      heap[at..at + LimitsWords][2 * |Limit64Names|..]
  {
    Read64Prefix(heap[at..at + LimitsWords], 2 * |Limit64Names|, |Limit64Names|);
    assert heap[at..at + LimitsWords][..2 * |Limit64Names|] == heap[at..at + 2 * |Limit64Names|];
  }

  /** `Read64` looks only at the first `2 * n` words. */
  lemma {:induction false} Read64Prefix(ws: seq<int>, m: nat, n: nat)
    requires 2 * n <= m <= |ws|
    ensures Read64(ws[..m], n) == Read64(ws, n)
  {
    if n > 0 {
      Read64Prefix(ws, m, n - 1);
    }
  }

  /** The loop over `_wgpu64BitLimitNames`: one two-word number per name. */
  method Read64BitLimits(heap: seq<int>, start: nat, names: seq<string>, acc: map<string, int>)
    returns (required: map<string, int>, idx: nat)
    requires 0 < start && start + 2 * |names| <= |heap|
    ensures idx == start + 2 * |names|
    ensures required == Collect(acc, names, Read64(heap[start..idx], |names|))
  {
    ghost var vals := Read64(heap[start..start + 2 * |names|], |names|);
    required := acc;
    idx := start;
    var k := 0;
    while k < |names|
      invariant k <= |names| && idx == start + 2 * k
      invariant required == Collect(acc, names[..k], vals[..k])
    {
      var v := ReadI53(heap, idx);
      Read64At(heap[start..start + 2 * |names|], |names|, k);
      if v != 0 {
        required := required[names[k] := v];
      }
      CollectStep(acc, names, vals, k);
      idx := idx + 2;
      k := k + 1;
    }
    WholePrefix(names);
    assert vals[..k] == vals;
  }

  /** The `k`-th number read is the one at words `2 * k` and `2 * k + 1`. */
  lemma {:induction false} Read64At(ws: seq<int>, n: nat, k: nat)
    requires k < n && 2 * n <= |ws|
    ensures Read64(ws, n)[k] == ReadI53(ws, 2 * k)
  {
    if k < n - 1 {
      Read64At(ws, n - 1, k);
    }
  }

  /** The loop over `_wgpu32BitLimitNames`: one word per name. */
  method Read32BitLimits(heap: seq<int>, start: nat, names: seq<string>, acc: map<string, int>)
    returns (required: map<string, int>, idx: nat)
    requires start + |names| <= |heap|
    ensures idx == start + |names|
    ensures required == Collect(acc, names, heap[start..idx])
  {
    ghost var vals := heap[start..start + |names|];
    required := acc;
    idx := start;
    var k := 0;
    while k < |names|
      invariant k <= |names| && idx == start + k
      invariant required == Collect(acc, names[..k], vals[..k])
    {
      var v := heap[idx];
      if v != 0 {
        required := required[names[k] := v];
      }
      CollectStep(acc, names, vals, k);
      idx := idx + 1;
      k := k + 1;
    }
    WholePrefix(names);
    assert vals[..k] == vals;
  }

  /** One more name and value extend the collected map. */
  lemma CollectStep(acc: map<string, int>, names: seq<string>, vals: seq<int>, k: nat)
    requires k < |names| <= |vals|
    ensures Collect(acc, names[..k + 1], vals[..k + 1]) ==
      var m := Collect(acc, names[..k], vals[..k]);
      if vals[k] != 0 then m[names[k] := vals[k]] else m
  {
    assert names[..k + 1][..k] == names[..k];
    assert vals[..k + 1][..k] == vals[..k];
  }

  /** The limit values of `names`, in order. */
  function Vals(l: map<string, int>, names: seq<string>): (vs: seq<int>)
    ensures |vs| == |names|
    ensures forall k | 0 <= k < |names| :: vs[k] == Lookup(l, names[k])
  {
    if |names| == 0 then [] else Vals(l, names[..|names| - 1]) + [Lookup(l, names[|names| - 1])]
  }

  /** The non-zero limits among `names`: what the descriptor reader should reproduce. */
  function NonZero(l: map<string, int>, names: seq<string>): map<string, int>
  {
    map n | n in names && Lookup(l, n) != 0 :: Lookup(l, n)
  }

  /** Two-word numbers below 2^64 read back as written. */
  lemma {:induction false} Read64Words(l: map<string, int>, names: seq<string>, rest: seq<int>)
    requires forall n | n in names :: 0 <= Lookup(l, n) < TwoTo64
    ensures Read64(Words64(l, names) + rest, |names|) == Vals(l, names)
  {
    if |names| > 0 {
      var init := names[..|names| - 1];
      var last := Lookup(l, names[|names| - 1]);
      var tail := I53Words(last) + rest;
      assert Words64(l, names) + rest == Words64(l, init) + tail;
      Read64Words(l, init, tail);
      assert (Words64(l, init) + tail)[2 * |init|..] == tail;
      I53WordsRoundTrip(last, rest);
      ReadI53Shift(Words64(l, init), tail);
    }
  }

  lemma ReadI53Shift(pre: seq<int>, ws: seq<int>)
    requires 2 <= |ws|
    ensures ReadI53(pre + ws, |pre|) == ReadI53(ws, 0)
  {
  }

  /** One-word numbers below 2^32 are stored unchanged. */
  lemma {:induction false} Words32Vals(l: map<string, int>, names: seq<string>)
    requires forall n | n in names :: 0 <= Lookup(l, n) < TwoTo32
    ensures Words32(l, names) == Vals(l, names)
  {
    if |names| > 0 {
      Words32Vals(l, names[..|names| - 1]);
    }
  }

  /** Collecting the values of `names` adds exactly their non-zero limits. */
  lemma {:induction false} CollectVals(l: map<string, int>, prev: seq<string>, names: seq<string>)
    ensures Collect(NonZero(l, prev), names, Vals(l, names)) == NonZero(l, prev + names)
  {
    if |names| == 0 {
      assert prev + names == prev;
    } else {
      var init := names[..|names| - 1];
      var n := names[|names| - 1];
      CollectVals(l, prev, init);
      assert Vals(l, names)[..|names| - 1] == Vals(l, init);
      assert prev + names == (prev + init) + [n];
      var m := NonZero(l, prev + init);
      if Lookup(l, n) != 0 {
        assert m[n := Lookup(l, n)] == NonZero(l, prev + names);
      } else {
        assert m == NonZero(l, prev + names);
      }
    }
  }

  /** The round trip for any lists of two-word and one-word fields. */
  lemma {:induction false} FieldsRoundTrip(l: map<string, int>, n64: seq<string>, n32: seq<string>)
    requires forall n | n in n64 :: 0 <= Lookup(l, n) < TwoTo64
    requires forall n | n in n32 :: 0 <= Lookup(l, n) < TwoTo32
    ensures Collect(Collect(map[], n64, Read64(Words64(l, n64) + Words32(l, n32), |n64|)), n32,
        (Words64(l, n64) + Words32(l, n32))[2 * |n64|..]) == NonZero(l, n64 + n32)
  {
    var ws := Words64(l, n64) + Words32(l, n32);
    Read64Words(l, n64, Words32(l, n32));
    Words32Vals(l, n32);
    assert ws[2 * |n64|..] == Words32(l, n32);
    assert NonZero(l, []) == map[];
    CollectVals(l, [], n64);
    assert [] + n64 == n64;
    CollectVals(l, n64, n32);
  }

  /**
   * Reading back the structure `get_limits` wrote yields exactly the
   * non-zero limits, when each value fits its field.
   */
  lemma LimitsRoundTrip(h: seq<int>, at: nat, l: map<string, int>)
    requires at + LimitsWords <= |h|
    requires forall n | n in Limit64Names :: 0 <= Lookup(l, n) < TwoTo64
    requires forall n | n in Limit32Names :: 0 <= Lookup(l, n) < TwoTo32
    ensures RequiredLimits(Overwrite(h, at, LimitWords(l))[at..at + LimitsWords]) ==
      NonZero(l, Limit64Names + Limit32Names)
  {
    OverwriteReads(h, at, LimitWords(l));
    FieldsRoundTrip(l, Limit64Names, Limit32Names);
  }
}
