/**
 * Compress: the build-time string-array compressor
 * (scripts/compress_strings.js) and the decoder it relies on. The
 * compressor repeatedly replaces a frequent substring by a single
 * substitution character, then re-encodes the original with the codes in
 * reverse numbering so that the decoder, which pops codes from the end of
 * a `|`-joined list, undoes them in reverse order.
 */
module Compress {
  import opened Text

  // ---------------------------------------------------------------------
  // Substring frequencies (findSubStringsOfLengthN)
  // ---------------------------------------------------------------------

  /** Number of start positions below `m` at which `k` occurs in `s` (overlaps counted). */
  function Count(s: string, k: string, m: nat): nat
  {
    if m == 0 then 0
    else Count(s, k, m - 1) + (if OccursAt(s, k, m - 1) then 1 else 0)
  }

  /** Number of start positions of a length-`n` window in `s`. */
  function Windows(n: nat, s: string): nat
  {
    if n <= |s| then |s| - n + 1 else 0
  }

  /**
   * Count every length-`n` substring of `s`: the keys are exactly the
   * length-`n` substrings occurring in `s`, each with its number of
   * (overlapping) occurrences.
   */
  method FindSubStrings(n: nat, s: string) returns (subs: map<string, nat>)
    ensures forall k :: k in subs <==> |k| == n && Count(s, k, Windows(n, s)) > 0
    ensures forall k | k in subs :: subs[k] == Count(s, k, Windows(n, s))
  {
    subs := map[];
    var i := 0;
    while i + n <= |s|
      invariant i <= Windows(n, s)
      invariant n <= |s| ==> i <= |s| - n + 1
      invariant n > |s| ==> i == 0
      invariant Counted(s, n, i, subs)
    {
      var sub := s[i..i + n];
      var subs' := subs[sub := if sub in subs then subs[sub] + 1 else 1];
      CountedStep(s, n, i, subs, subs');
      subs := subs';
      i := i + 1;
    }
    assert i == Windows(n, s);
  }

  /** `subs` holds the counts of the length-`n` windows starting below `i`. */
  ghost predicate Counted(s: string, n: nat, i: nat, subs: map<string, nat>)
  {
    (forall k :: k in subs <==> |k| == n && Count(s, k, i) > 0) &&
    (forall k | k in subs :: subs[k] == Count(s, k, i))
  }

  lemma CountedStep(s: string, n: nat, i: nat, subs: map<string, nat>, subs': map<string, nat>)
    requires i + n <= |s| && Counted(s, n, i, subs)
    requires subs' == subs[s[i..i + n] := if s[i..i + n] in subs then subs[s[i..i + n]] + 1 else 1]
    ensures Counted(s, n, i + 1, subs')
  {
    var sub := s[i..i + n];
    forall k ensures k in subs' <==> |k| == n && Count(s, k, i + 1) > 0 {
      if |k| == n {
        CountStep(s, k, i, sub);
      }
    }
    forall k | k in subs' ensures subs'[k] == Count(s, k, i + 1) {
      CountStep(s, k, i, sub);
    }
  }

  lemma CountStep(s: string, k: string, i: nat, sub: string)
    requires i + |sub| <= |s| && sub == s[i..i + |sub|] && |k| == |sub|
    ensures Count(s, k, i + 1) == Count(s, k, i) + (if k == sub then 1 else 0)
  {
  }

  /** A string occurs at most once per window position. */
  lemma {:induction false} CountAtMost(s: string, k: string, m: nat)
    ensures Count(s, k, m) <= m
  {
    if m > 0 {
      CountAtMost(s, k, m - 1);
    }
  }

  /** A substring occurring twice is shorter than the text. */
  lemma CountTwiceShorter(s: string, k: string)
    requires Count(s, k, Windows(|k|, s)) >= 2
    ensures |k| < |s|
  {
    CountAtMost(s, k, Windows(|k|, s));
  }

  /** The whole text occurs in itself exactly once. */
  lemma CountWhole(s: string, k: string)
    requires |k| == |s|
    ensures Count(s, k, Windows(|k|, s)) == (if k == s then 1 else 0)
  {
    assert Windows(|k|, s) == 1;
    assert Count(s, k, 0) == 0;
    assert s[0..|k|] == s;
  }

  // ---------------------------------------------------------------------
  // replaceAll
  // ---------------------------------------------------------------------

  /** Occurrences in a suffix are occurrences in the whole, shifted. */
  lemma OccursShift(s: string, sub: string, d: nat, j: nat)
    requires d <= |s|
    ensures OccursAt(s[d..], sub, j) <==> OccursAt(s, sub, d + j)
  {
    if d + j + |sub| <= |s| {
      assert s[d..][j..j + |sub|] == s[d + j..d + j + |sub|];
    }
  }

  /** `find` does not start anywhere before index `n` of `s`. */
  predicate NoneBefore(s: string, find: string, n: nat)
  {
    forall j: nat | j < n :: !OccursAt(s, find, j)
  }

  /** Unfolding `ReplaceAll` at a position where the pattern does not start. */
  lemma ReplaceStep(s: string, find: string, rep: string)
    requires find != [] && |s| >= |find| && !OccursAt(s, find, 0)
    ensures ReplaceAll(s, find, rep) == [s[0]] + ReplaceAll(s[1..], find, rep)
  {
  }

  /**
   * When the first occurrence of `find` in `x + find + y` is the one right
   * after `x`, replacing all of them keeps `x`, replaces that one and goes
   * on after it.
   */
  lemma {:induction false} ReplaceBeforeFirst(x: string, find: string, y: string, rep: string)
    requires find != []
    requires NoneBefore(x + find + y, find, |x|)
    ensures ReplaceAll(x + find + y, find, rep) == x + rep + ReplaceAll(y, find, rep)
    decreases |x|
  {
    var s := x + find + y;
    if |x| == 0 {
      assert s == find + y;
      ReplaceHit(find, y, rep);
    } else {
      assert !OccursAt(s, find, 0);
      assert s[1..] == x[1..] + find + y;
      NoneBeforeTail(s, find, |x|);
      ReplaceBeforeFirst(x[1..], find, y, rep);
      ReplaceStep(s, find, rep);
      var r := ReplaceAll(y, find, rep);
      assert [s[0]] + (x[1..] + rep + r) == x + rep + r by {
        assert [s[0]] + x[1..] == x;
      }
    }
  }

  /** Dropping the first character keeps the pattern away from one position fewer. */
  lemma NoneBeforeTail(s: string, find: string, n: nat)
    requires 1 <= n <= |s| && NoneBefore(s, find, n)
    ensures NoneBefore(s[1..], find, n - 1)
  {
    forall j: nat | j < n - 1 ensures !OccursAt(s[1..], find, j) {
      OccursShift(s, find, 1, j);
    }
  }

  /**
   * The compressor's `replaceAll` loop: search from `iStart`, splice the
   * replacement in, resume after it. It computes `ReplaceAll`. An empty
   * `find` would make the loop run for ever, so callers never pass one.
   */
  method ReplaceAllLoop(str: string, find: string, replace: string) returns (r: string)
    requires find != []
    ensures r == ReplaceAll(str, find, replace)
  {
    var s := str;
    var iStart: nat := 0;
    while true
      invariant iStart <= |s|
      invariant ReplaceAll(str, find, replace) == s[..iStart] + ReplaceAll(s[iStart..], find, replace)
      decreases |s| - iStart
    {
      var i := IndexFrom(s, find, iStart);
      if i < 0 {
        ResumeMissing(s, find, replace, iStart);
        return s;
      }
      var s' := s[..i] + replace + s[i + |find|..];
      ResumeFound(s, find, replace, iStart, i, s');
      s := s';
      iStart := i + |replace|;
    }
  }

  /** No occurrence from `iStart` on: the rest is left as it is. */
  lemma ResumeMissing(s: string, find: string, rep: string, iStart: nat)
    requires find != [] && iStart <= |s| && IndexFrom(s, find, iStart) < 0
    ensures s[..iStart] + ReplaceAll(s[iStart..], find, rep) == s
  {
    IndexFromFirst(s, find, iStart);
    assert !Contains(s[iStart..], find) by {
      ContainsIffOccurs(s[iStart..], find);
      forall j: nat ensures !OccursAt(s[iStart..], find, j) {
        OccursShift(s, find, iStart, j);
      }
    }
    ReplaceAbsent(s[iStart..], find, rep);
    assert s[..iStart] + s[iStart..] == s;
  }

  /** One splice of the loop, resuming right after the inserted text. */
  lemma ResumeFound(s: string, find: string, rep: string, iStart: nat, i: nat, s': string)
    requires find != [] && iStart <= |s| && i == IndexFrom(s, find, iStart)
    requires s' == s[..i] + rep + s[i + |find|..]
    ensures i + |rep| <= |s'|
    ensures s[..iStart] + ReplaceAll(s[iStart..], find, rep) == s'[..i + |rep|] + ReplaceAll(s'[i + |rep|..], find, rep)
  {
    IndexFromFirst(s, find, iStart);
    var x := s[iStart..i];
    var y := s[i + |find|..];
    FirstAfter(s, find, iStart, i);
    ReplaceBeforeFirst(x, find, y, rep);
    SpliceParts(s, iStart, i, |find|, rep, s');
    var r := ReplaceAll(y, find, rep);
    Assemble(s[..iStart], x, rep, r, ReplaceAll(s[iStart..], find, rep), s'[..i + |rep|]);
  }

  lemma Assemble(p: string, x: string, rep: string, r: string, a: string, b: string)
    requires a == x + rep + r && b == p + x + rep
    ensures p + a == b + r
  {
  }

  lemma FirstAfter(s: string, find: string, iStart: nat, i: nat)
    requires iStart <= i && OccursAt(s, find, i)
    requires forall j: nat :: iStart <= j < i ==> !OccursAt(s, find, j)
    ensures s[iStart..] == s[iStart..i] + find + s[i + |find|..]
    ensures NoneBefore(s[iStart..], find, i - iStart)
  {
    assert s[iStart..] == s[iStart..i] + find + s[i + |find|..];
    forall j: nat | j < i - iStart ensures !OccursAt(s[iStart..], find, j) {
      OccursShift(s, find, iStart, j);
    }
  }

  lemma SpliceParts(s: string, iStart: nat, i: nat, f: nat, rep: string, s': string)
    requires iStart <= i && i + f <= |s| && s' == s[..i] + rep + s[i + f..]
    ensures i + |rep| <= |s'|
    ensures s'[..i + |rep|] == s[..iStart] + s[iStart..i] + rep
    ensures s'[i + |rep|..] == s[i + f..]
  {
  }

  // ---------------------------------------------------------------------
  // The decoder (wgpuDecodeStrings) and the re-encoding it undoes
  // ---------------------------------------------------------------------

  /** The separator of the code list. */
  const Bar := '|'
  /** `ch || 65`: the first substitution character when none is given. */
  const DefaultStart := 65
  /** Substitution characters stay below the UTF-16 surrogate range. */
  const CharLimit := 0xD800

  /** `String.fromCharCode(n)` for `n` below the surrogate range. */
  function CodeChar(n: nat): char
    requires n < CharLimit
  {
    n as char
  }

  /** `ch || 65`, with 0 standing for an absent argument. */
  function StartChar(ch: nat): nat
  {
    if ch == 0 then DefaultStart else ch
  }

  /**
   * What the decoder computes: the code popped `k`-th from the end of
   * the list replaces every occurrence of character `ch + k`.
   */
  function Decode(s: string, codes: seq<string>, ch: nat): string
    requires ch + |codes| <= CharLimit
    decreases |codes|
  {
    if |codes| == 0 then s
    else Decode(ReplaceAll(s, [CodeChar(ch)], codes[|codes| - 1]), codes[..|codes| - 1], ch + 1)
  }

  /**
   * The final re-encoding of the compressor: `codes[i]` is replaced by
   * character `start + |codes| - 1 - i`, for `i` upwards, so the last
   * code gets `start`.
   */
  function Encode(s: string, codes: seq<string>, start: nat): string
    requires start + |codes| <= CharLimit
    requires forall i | 0 <= i < |codes| :: codes[i] != []
    decreases |codes|
  {
    if |codes| == 0 then s
    else ReplaceAll(Encode(s, codes[..|codes| - 1], start + 1), codes[|codes| - 1], [CodeChar(start)])
  }

  /** The script's decoder: split the code list, pop codes, substitute. */
  method DecodeStrings(s: string, c: string, ch: nat) returns (r: string)
    requires StartChar(ch) + |Split(c, Bar)| <= CharLimit
    ensures r == Decode(s, Split(c, Bar), StartChar(ch))
  {
    var next := StartChar(ch);
    var codes := Split(c, Bar);
    r := s;
    while |codes| > 0
      invariant next + |codes| == StartChar(ch) + |Split(c, Bar)|
      invariant Decode(r, codes, next) == Decode(s, Split(c, Bar), StartChar(ch))
      decreases |codes|
    {
      var code := codes[|codes| - 1];
      codes := codes[..|codes| - 1];
      r := ReplaceAllLoop(r, [CodeChar(next)], code);
      next := next + 1;
    }
  }

  /** The re-encoded text holds only characters of the original and code characters. */
  lemma {:induction false} EncodeChars(s: string, codes: seq<string>, start: nat)
    requires start + |codes| <= CharLimit
    requires forall i | 0 <= i < |codes| :: codes[i] != []
    ensures forall c | c in Encode(s, codes, start) :: c in s || start <= c as int < start + |codes|
    decreases |codes|
  {
    if |codes| > 0 {
      var init := codes[..|codes| - 1];
      EncodeChars(s, init, start + 1);
      ReplaceChars(Encode(s, init, start + 1), codes[|codes| - 1], [CodeChar(start)]);
    }
  }

  /**
   * Decoding undoes the re-encoding whenever the original text holds
   * none of the code characters: each step replaces a character that
   * was not there before by its code, and the decoder, taking the codes
   * in reverse, puts every code back.
   */
  lemma {:induction false} DecodeEncode(s: string, codes: seq<string>, start: nat)
    requires start + |codes| <= CharLimit
    requires forall i | 0 <= i < |codes| :: codes[i] != []
    requires forall c | c in s :: !(start <= c as int < start + |codes|)
    ensures Decode(Encode(s, codes, start), codes, start) == s
    decreases |codes|
  {
    if |codes| > 0 {
      var init := codes[..|codes| - 1];
      var last := codes[|codes| - 1];
      var e := Encode(s, init, start + 1);
      EncodeChars(s, init, start + 1);
      assert CodeChar(start) !in e;
      ReplaceInverse(e, last, CodeChar(start));
      DecodeEncode(s, init, start + 1);
    }
  }

  /**
   * The full trip through the text of a decoder call: the codes are
   * joined with `|` and split again, which gives them back when none
   * holds a `|`.
   */
  lemma DecodeJoinedCodes(s: string, codes: seq<string>, start: nat)
    requires 1 <= |codes| && start + |codes| <= CharLimit
    requires forall i | 0 <= i < |codes| :: codes[i] != [] && Bar !in codes[i]
    requires forall c | c in s :: !(start <= c as int < start + |codes|)
    ensures Split(Join(codes, Bar), Bar) == codes
    ensures Decode(Encode(s, codes, start), Split(Join(codes, Bar), Bar), start) == s
  {
    SplitJoin(codes, Bar);
    DecodeEncode(s, codes, start);
  }

  // ---------------------------------------------------------------------
  // One compression attempt (optimizeStringOnce)
  // ---------------------------------------------------------------------

  /**
   * Characters saved by substituting a `len`-character substring that
   * occurs `count` times, less the `|`-separated code that must be listed.
   */
  function Gain(count: nat, len: nat): int
  {
    count * (len - 1) - (len + 1)
  }

  /** `k` is a candidate substitution for `s`: at least two characters and a positive gain. */
  ghost predicate Winning(s: string, k: string)
  {
    |k| >= 2 && Gain(Count(s, k, Windows(|k|, s)), |k|) > 0
  }

  /** `m` is the largest count among the length-`len` substrings of `s` (0 when there are none). */
  ghost predicate MaxIs(s: string, len: nat, m: nat)
  {
    (forall k | |k| == len :: Count(s, k, Windows(len, s)) <= m) &&
    (m == 0 || exists k | |k| == len :: Count(s, k, Windows(len, s)) == m)
  }

  /**
   * One length of the scan: the largest count, and the substrings of this
   * length with a positive gain, visiting the counted keys in any order.
   */
  method ScanLength(len: nat, s: string) returns (maxCount: nat, wins: set<string>)
    ensures MaxIs(s, len, maxCount)
    ensures forall k :: k in wins <==> |k| == len && Gain(Count(s, k, Windows(len, s)), len) > 0
  {
    var subs := FindSubStrings(len, s);
    var keys := subs.Keys;
    maxCount := 0;
    wins := {};
    while keys != {}
      invariant keys <= subs.Keys
      invariant forall k | k in subs && k !in keys :: subs[k] <= maxCount
      invariant maxCount == 0 || exists k | k in subs && k !in keys :: subs[k] == maxCount
      invariant forall k :: k in wins <==> k in subs && k !in keys && Gain(subs[k], len) > 0
      decreases keys
    {
      var k :| k in keys;
      if subs[k] > maxCount {
        maxCount := subs[k];
      }
      if Gain(subs[k], len) > 0 {
        wins := wins + {k};
      }
      keys := keys - {k};
    }
    ScannedMeans(len, s, subs, maxCount, wins);
  }

  /**
   * What the scan loop leaves over the counted map `subs` is what
   * `ScanLength` promises over all substrings of length `len`: a
   * substring missing from the map does not occur.
   */
  lemma ScannedMeans(len: nat, s: string, subs: map<string, nat>, maxCount: nat, wins: set<string>)
    requires forall k :: k in subs <==> |k| == len && Count(s, k, Windows(len, s)) > 0
    requires forall k | k in subs :: subs[k] == Count(s, k, Windows(len, s))
    requires forall k | k in subs :: subs[k] <= maxCount
    requires maxCount == 0 || exists k | k in subs :: subs[k] == maxCount
    requires forall k :: k in wins <==> k in subs && Gain(subs[k], len) > 0
    ensures MaxIs(s, len, maxCount)
    ensures forall k :: k in wins <==> |k| == len && Gain(Count(s, k, Windows(len, s)), len) > 0
  {
    forall k | |k| == len
      ensures Count(s, k, Windows(len, s)) <= maxCount
    {
      if k !in subs {
        assert Count(s, k, Windows(len, s)) == 0;
      }
    }
    if maxCount != 0 {
      var k :| k in subs && subs[k] == maxCount;
      assert |k| == len && Count(s, k, Windows(len, s)) == maxCount;
    }
    forall k
      ensures k in wins <==> |k| == len && Gain(Count(s, k, Windows(len, s)), len) > 0
    {
      if k !in subs && |k| == len {
        assert Count(s, k, Windows(len, s)) == 0;
        assert Gain(0, len) < 0;
      }
    }
  }

  /** At the full length the only substring is the text itself, counted once. */
  lemma MaxAtFullLength(s: string, m: nat)
    requires |s| >= 1 && MaxIs(s, |s|, m)
    ensures m == 1
  {
    CountWhole(s, s);
    if m != 0 {
      var k :| |k| == |s| && Count(s, k, Windows(|s|, s)) == m;
      CountWhole(s, k);
    }
  }

  /**
   * The length scan: lengths 2, 3, ... until the largest count is 1,
   * collecting every substring with a positive gain. It stops at the
   * latest at the full length of `s`.
   */
  method CollectWinnings(s: string) returns (winnings: set<string>, stop: nat)
    requires |s| >= 2
    ensures 2 <= stop <= |s| && MaxIs(s, stop, 1)
    ensures forall len | 2 <= len < stop :: !MaxIs(s, len, 1)
    ensures forall k :: k in winnings <==> Winning(s, k) && |k| <= stop
  {
    winnings := {};
    var len := 2;
    while true
      invariant 2 <= len <= |s|
      invariant forall l | 2 <= l < len :: !MaxIs(s, l, 1)
      invariant forall k :: k in winnings <==> Winning(s, k) && |k| < len
      decreases |s| - len
    {
      var maxCount, wins := ScanLength(len, s);
      winnings := winnings + wins;
      if maxCount == 1 {
        return winnings, len;
      }
      if len == |s| {
        MaxAtFullLength(s, maxCount);
      }
      len := len + 1;
    }
  }

  /**
   * A text shorter than two characters has no substring of length two or
   * more: the largest count is 0 at every length, so the scan, which only
   * stops on a largest count of 1, never stops.
   */
  lemma ShortTextScanNeverStops(s: string, len: nat)
    requires |s| < 2 && 2 <= len
    ensures !MaxIs(s, len, 1)
  {
    assert Windows(len, s) == 0;
  }

  /** Nor does such a text have a candidate substitution. */
  lemma ShortTextHasNoWinning(s: string, k: string)
    requires |s| < 2
    ensures !Winning(s, k)
  {
    if |k| >= 2 {
      assert Windows(|k|, s) == 0;
    }
  }

  /**
   * The length scan guarded by the text's length: a text shorter than
   * two characters has no candidates and gives none, any other text is
   * scanned as `CollectWinnings` does.
   */
  method GuardedWinnings(s: string) returns (winnings: set<string>, stop: nat)
    ensures |s| < 2 ==> stop == 0 && forall k :: !Winning(s, k)
    ensures |s| >= 2 ==> 2 <= stop <= |s| && MaxIs(s, stop, 1) && forall len | 2 <= len < stop :: !MaxIs(s, len, 1)
    ensures forall k :: k in winnings <==> Winning(s, k) && |k| <= stop
  {
    if |s| < 2 {
      forall k ensures !Winning(s, k) {
        ShortTextHasNoWinning(s, k);
      }
      return {}, 0;
    }
    winnings, stop := CollectWinnings(s);
  }

  /** The forward phase: the `k`-th chosen code is replaced by character `start + k`. */
  function Forward(s: string, codes: seq<string>, start: nat): string
    requires start + |codes| <= CharLimit
    requires forall i | 0 <= i < |codes| :: codes[i] != []
    decreases |codes|
  {
    if |codes| == 0 then s
    else ReplaceAll(Forward(s, codes[..|codes| - 1], start), codes[|codes| - 1], [CodeChar(start + |codes| - 1)])
  }

  /**
   * The codes are what the forward phase may pick: each code was a
   * candidate of the text at the moment it was picked, and its
   * character did not occur in that text.
   */
  ghost predicate Chosen(s: string, codes: seq<string>, start: nat)
  {
    start + |codes| <= CharLimit &&
    (forall i | 0 <= i < |codes| :: |codes[i]| >= 2) &&
    forall k | 0 <= k < |codes| ::
      Winning(Forward(s, codes[..k], start), codes[k]) &&
      CodeChar(start + k) !in Forward(s, codes[..k], start)
  }

  lemma ChosenStep(s: string, codes: seq<string>, start: nat, sub: string)
    requires Chosen(s, codes, start) && start + |codes| < CharLimit
    requires Winning(Forward(s, codes, start), sub)
    requires CodeChar(start + |codes|) !in Forward(s, codes, start)
    ensures Chosen(s, codes + [sub], start)
    ensures Forward(s, codes + [sub], start) == ReplaceAll(Forward(s, codes, start), sub, [CodeChar(start + |codes|)])
  {
    var c := codes + [sub];
    assert c[..|codes|] == codes;
    forall k | 0 <= k < |codes| ensures c[..k] == codes[..k] {
    }
  }

  /** Only a substring occurring at least twice can gain anything. */
  lemma GainNeedsTwo(count: nat, len: nat)
    ensures Gain(count, len) > 0 ==> count >= 2
  {
  }

  /** A candidate occurs twice, so what is left after substituting it still has two characters. */
  lemma WinningKeepsTwo(s: string, sub: string, c: char)
    requires Winning(s, sub)
    ensures |ReplaceAll(s, sub, [c])| >= 2
  {
    GainNeedsTwo(Count(s, sub, Windows(|sub|, s)), |sub|);
    CountTwiceShorter(s, sub);
    if s[..|sub|] == sub {
      ReplaceNotEmpty(s[|sub|..], sub, [c]);
    } else {
      ReplaceNotEmpty(s[1..], sub, [c]);
    }
  }

  lemma {:induction false} ReplaceNotEmpty(s: string, find: string, rep: string)
    requires find != [] && rep != [] && s != []
    ensures ReplaceAll(s, find, rep) != []
  {
  }

  /** The final re-encoding loop: codes in order, characters counting down to `start`. */
  method ReEncode(s: string, codes: seq<string>, start: nat) returns (enc: string)
    requires start + |codes| <= CharLimit
    requires forall i | 0 <= i < |codes| :: codes[i] != []
    ensures enc == Encode(s, codes, start)
  {
    enc := s;
    var i := 0;
    while i < |codes|
      invariant i <= |codes|
      invariant enc == Encode(s, codes[..i], start + |codes| - i)
    {
      assert codes[..i + 1][..i] == codes[..i];
      enc := ReplaceAllLoop(enc, codes[i], [CodeChar(start + |codes| - 1 - i)]);
      i := i + 1;
    }
    assert codes[..|codes|] == codes;
  }

  /** What one attempt returns: the text unchanged, or a decoder call. */
  datatype Candidate = Unchanged(s: string) | Call(enc: string, codes: seq<string>, start: nat)

  const DecoderName := "wgpuDecodeStrings"
  const CallOpen := "('"
  const ArgSep := "', '"
  const ArgEnd := "'"
  const StartSep := ", "
  const CallClose := ")"

  /** The text of a candidate: `wgpuDecodeStrings('enc', 'c1|c2|...'[, start])`. */
  function Render(c: Candidate): string
  {
    match c
    case Unchanged(s) => s
    case Call(enc, codes, start) =>
      DecoderName + CallOpen + enc + ArgSep + Join(codes, Bar) + ArgEnd +
      (if start != DefaultStart then StartSep + NatToString(start) else "") + CallClose
  }

  /**
   * What one attempt may return: the text unchanged, or a call that
   * re-encodes `s` with 1 to `end - start` codes chosen as the forward
   * phase may choose them.
   */
  ghost predicate Attempt(s: string, start: nat, end: nat, c: Candidate)
  {
    (c.Unchanged? ==> c.s == s) &&
    (c.Call? ==> (c.start == start && 1 <= |c.codes| <= end - start &&
      Chosen(s, c.codes, start) && c.enc == Encode(s, c.codes, start)))
  }

  /**
   * Compress `s` once: substitute candidates for fresh characters from
   * `[start, end)` while a candidate exists, the range lasts and the
   * next character is not in the text; then re-encode the original with
   * the codes numbered backwards. The substitution picked in each round
   * may be any candidate. The scan is the guarded one, so a text shorter
   * than two characters comes back unchanged.
   */
  method OptimizeOnce(s: string, start: nat, end: nat) returns (r: Candidate)
    requires start <= end <= CharLimit
    ensures Attempt(s, start, end, r)
    ensures |s| < 2 ==> r == Unchanged(s)
  {
    var cur := s;
    var next := start;
    var codes: seq<string> := [];
    while true
      invariant next == start + |codes| <= end
      invariant Chosen(s, codes, start)
      invariant cur == Forward(s, codes, start)
      invariant |s| < 2 ==> codes == []
      decreases end - next
    {
      var winnings, _ := GuardedWinnings(cur);
      if winnings == {} || next == end || CodeChar(next) in cur {
        if |codes| == 0 {
          return Unchanged(s);
        }
        var enc := ReEncode(s, codes, start);
        return Call(enc, codes, start);
      }
      var sub :| sub in winnings;
      ChosenStep(s, codes, start, sub);
      cur := ReplaceAllLoop(cur, sub, [CodeChar(next)]);
      codes := codes + [sub];
      next := next + 1;
    }
  }

  // ---------------------------------------------------------------------
  // The search (searchOptimizedStringArrayRepresentation)
  // ---------------------------------------------------------------------

  /**
   * Evaluating a decoder call: the call passes `start` only when it is
   * not 65, and the decoder falls back to 65 without it, so decoding
   * starts at `StartChar(start)` either way. Code characters at or above
   * the surrogate range give `None`.
   */
  function Eval(c: Candidate): Option<string>
    requires c.Call?
  {
    var codes := Split(Join(c.codes, Bar), Bar);
    if StartChar(c.start) + |codes| <= CharLimit then Some(Decode(c.enc, codes, StartChar(c.start)))
    else None
  }

  /**
   * The call an attempt returns evaluates back to the original text when
   * the text holds no character of the substitution range and no code
   * holds a `|`.
   */
  lemma OptimizeRoundTrip(s: string, codes: seq<string>, start: nat)
    requires 1 <= start && 1 <= |codes| && Chosen(s, codes, start)
    requires forall i | 0 <= i < |codes| :: Bar !in codes[i]
    requires forall c | c in s :: !(start <= c as int < start + |codes|)
    ensures Eval(Call(Encode(s, codes, start), codes, start)) == Some(s)
  {
    DecodeJoinedCodes(s, codes, start);
  }

  /** Occurrences counted below `m` are occurrences at some position below `m`. */
  lemma {:induction false} CountedOccurs(s: string, k: string, m: nat)
    requires Count(s, k, m) > 0
    ensures exists i | 0 <= i < m :: OccursAt(s, k, i)
  {
    if !OccursAt(s, k, m - 1) {
      CountedOccurs(s, k, m - 1);
    }
  }

  /** The forward phase adds no `|` when neither the text nor a code character is one. */
  lemma {:induction false} BarNotInForward(s: string, codes: seq<string>, start: nat)
    requires start + |codes| <= CharLimit && forall i | 0 <= i < |codes| :: codes[i] != []
    requires Bar !in s && !(start <= Bar as int < start + |codes|)
    ensures Bar !in Forward(s, codes, start)
  {
    if |codes| > 0 {
      var init := codes[..|codes| - 1];
      BarNotInForward(s, init, start);
      ReplaceChars(Forward(s, init, start), codes[|codes| - 1], [CodeChar(start + |codes| - 1)]);
    }
  }

  /**
   * Codes are substrings of the text they were picked from, so they hold
   * no `|` when neither the text nor a code character is one.
   */
  lemma CodesAvoidBar(s: string, codes: seq<string>, start: nat)
    requires Chosen(s, codes, start)
    requires Bar !in s && !(start <= Bar as int < start + |codes|)
    ensures forall i | 0 <= i < |codes| :: Bar !in codes[i]
  {
    forall i | 0 <= i < |codes| ensures Bar !in codes[i] {
      var f := Forward(s, codes[..i], start);
      BarNotInForward(s, codes[..i], start);
      GainNeedsTwo(Count(f, codes[i], Windows(|codes[i]|, f)), |codes[i]|);
      CountedOccurs(f, codes[i], Windows(|codes[i]|, f));
    }
  }

  /**
   * The text holds no `|` and no character of `[start, end)`, the range
   * holds no `|`, and decoding does not fall back to 65.
   */
  ghost predicate FreshRange(s: string, start: nat, end: nat)
  {
    1 <= start && !(start <= Bar as int < end) && Bar !in s &&
    forall c | c in s :: !(start <= c as int < end)
  }

  /** Over a fresh range every call an attempt returns evaluates to the original. */
  lemma AttemptEvaluates(s: string, start: nat, end: nat, c: Candidate)
    requires FreshRange(s, start, end) && Attempt(s, start, end, c) && c.Call?
    ensures Eval(c) == Some(s)
  {
    CodesAvoidBar(s, c.codes, start);
    OptimizeRoundTrip(s, c.codes, start);
  }

  /** Every decoder call's text contains the decoder's name. */
  lemma CallMentionsDecoder(c: Candidate)
    requires c.Call?
    ensures Contains(Render(c), DecoderName)
  {
    assert Render(c)[..|DecoderName|] == DecoderName;
    assert OccursAt(Render(c), DecoderName, 0);
    ContainsIffOccurs(Render(c), DecoderName);
  }

  /**
   * Attempt `j` sets a new best: it is a call shorter than `|s| + 100`
   * and than every call before it.
   */
  ghost predicate IsRecord(s: string, cands: seq<Candidate>, j: int)
  {
    0 <= j < |cands| && cands[j].Call? && |Render(cands[j])| < |s| + 100 &&
    forall i | 0 <= i < j && cands[i].Call? :: |Render(cands[j])| < |Render(cands[i])|
  }

  /**
   * The search's running state after the attempts `cands`: `best` is no
   * longer than any call so far, and is either `|s| + 100` with `s` kept
   * and no record, or the length of the latest record `bj`, which is kept.
   */
  ghost predicate Kept(s: string, cands: seq<Candidate>, best: nat, bestCand: Candidate, bj: int)
  {
    -1 <= bj < |cands| && best <= |s| + 100 &&
    (forall i | 0 <= i < |cands| && cands[i].Call? :: best <= |Render(cands[i])|) &&
    (bj == -1 ==> bestCand == Unchanged(s) && best == |s| + 100 && forall j | 0 <= j < |cands| :: !IsRecord(s, cands, j)) &&
    (bj >= 0 ==> IsRecord(s, cands, bj) && bestCand == cands[bj] && best == |Render(bestCand)|)
  }

  /** Appending an attempt leaves the earlier ones' record status alone. */
  lemma RecordPrefix(s: string, cands: seq<Candidate>, c: Candidate)
    ensures forall j | 0 <= j < |cands| :: IsRecord(s, cands + [c], j) == IsRecord(s, cands, j)
  {
    forall j | 0 <= j < |cands| ensures IsRecord(s, cands + [c], j) == IsRecord(s, cands, j) {
      assert (cands + [c])[j] == cands[j];
      assert forall i | 0 <= i < j :: (cands + [c])[i] == cands[i];
    }
  }

  /**
   * The script's test `newStr.length < best && newStr.includes(...)`
   * holds exactly when the new attempt is a record, and the running
   * state moves on accordingly.
   */
  lemma RecordStep(s: string, cands: seq<Candidate>, best: nat, bestCand: Candidate, bj: int, c: Candidate)
    requires Kept(s, cands, best, bestCand, bj) && !Contains(s, DecoderName) && (c.Unchanged? ==> c.s == s)
    ensures (|Render(c)| < best && Contains(Render(c), DecoderName)) <==> IsRecord(s, cands + [c], |cands|)
    ensures IsRecord(s, cands + [c], |cands|) ==> Kept(s, cands + [c], |Render(c)|, c, |cands|)
    ensures !IsRecord(s, cands + [c], |cands|) ==> Kept(s, cands + [c], best, bestCand, bj)
  {
    RecordPrefix(s, cands, c);
    var cs := cands + [c];
    if c.Call? {
      CallMentionsDecoder(c);
      if |Render(c)| < best {
        forall i | 0 <= i < |cands| && cs[i].Call? ensures |Render(c)| < |Render(cs[i])| {
          assert cs[i] == cands[i];
        }
        assert IsRecord(s, cs, |cands|);
      } else if bj >= 0 {
        assert cs[bj] == cands[bj];
      }
    }
  }

  /** Every attempt made is one `OptimizeOnce` may return. */
  ghost predicate Attempts(s: string, start: nat, end: nat, cands: seq<Candidate>)
  {
    forall i | 0 <= i < |cands| :: Attempt(s, start, end, cands[i])
  }

  /** Every record among the first `n` attempts evaluates back to `s`. */
  ghost predicate RecordsEvaluate(s: string, cands: seq<Candidate>, n: int)
  {
    forall j | 0 <= j < n && IsRecord(s, cands, j) :: Eval(cands[j]) == Some(s)
  }

  /**
   * `v` is what the search keeps after `cands`: `s` itself when no
   * attempt was a record, otherwise the first shortest call, which is
   * the last record.
   */
  ghost predicate KeepsFirstShortest(s: string, cands: seq<Candidate>, v: Candidate)
  {
    (v.Unchanged? ==> v.s == s && forall j | 0 <= j < |cands| :: !IsRecord(s, cands, j)) &&
    (v.Call? ==>
      exists j | 0 <= j < |cands| ::
        IsRecord(s, cands, j) && v == cands[j] &&
        forall i | j < i < |cands| && cands[i].Call? :: |Render(cands[j])| <= |Render(cands[i])|)
  }

  /** What the kept candidate is at the end of the search. */
  lemma KeptMeans(s: string, cands: seq<Candidate>, best: nat, bestCand: Candidate, bj: int)
    requires Kept(s, cands, best, bestCand, bj)
    ensures KeepsFirstShortest(s, cands, bestCand)
  {
    if bestCand.Call? {
      assert IsRecord(s, cands, bj) && bestCand == cands[bj];
    }
  }

  /** One more attempt: the running state moves on as the script's test decides. */
  lemma Advance(s: string, start: nat, end: nat, cands: seq<Candidate>, best: nat, bestCand: Candidate, bj: int, c: Candidate)
    requires Attempts(s, start, end, cands) && RecordsEvaluate(s, cands, |cands|) && Kept(s, cands, best, bestCand, bj)
    requires Attempt(s, start, end, c) && !Contains(s, DecoderName)
    ensures Attempts(s, start, end, cands + [c]) && RecordsEvaluate(s, cands + [c], |cands|)
    ensures (|Render(c)| < best && Contains(Render(c), DecoderName)) <==> IsRecord(s, cands + [c], |cands|)
    ensures IsRecord(s, cands + [c], |cands|) ==> Kept(s, cands + [c], |Render(c)|, c, |cands|)
    ensures IsRecord(s, cands + [c], |cands|) && Eval(c) == Some(s) ==> RecordsEvaluate(s, cands + [c], |cands| + 1)
    ensures !IsRecord(s, cands + [c], |cands|) ==>
      Kept(s, cands + [c], best, bestCand, bj) && RecordsEvaluate(s, cands + [c], |cands| + 1)
  {
    RecordStep(s, cands, best, bestCand, bj, c);
    RecordPrefix(s, cands, c);
    var cs := cands + [c];
    forall i | 0 <= i < |cs| ensures Attempt(s, start, end, cs[i]) {
      if i < |cands| {
        assert cs[i] == cands[i];
      }
    }
    forall j | 0 <= j < |cands| && IsRecord(s, cs, j) ensures Eval(cs[j]) == Some(s) {
      assert cs[j] == cands[j];
    }
  }

  /**
   * The script's check of a new best: `eval` the call and compare with
   * `s`. A call whose code characters would reach the surrogate range
   * fails.
   */
  method CheckCall(s: string, cand: Candidate) returns (ok: bool)
    requires cand.Call?
    ensures ok <==> Eval(cand) == Some(s)
  {
    var codes := Split(Join(cand.codes, Bar), Bar);
    var arg := if cand.start != DefaultStart then cand.start else 0;
    if StartChar(arg) + |codes| > CharLimit {
      return false;
    }
    var testS := DecodeStrings(cand.enc, Join(cand.codes, Bar), arg);
    ok := testS == s;
  }

  /**
   * Run `numIterations` attempts (`cands`, one per attempt made) and keep
   * the shortest decoder call that beats `|s| + 100`: each call that sets
   * a new best is evaluated on the spot, and one that does not give `s`
   * back ends the search in failure (`None`, the script's `throw`).
   * Otherwise the kept call is the first shortest call, or `s` when no
   * call was short enough. Over a fresh substitution range the search
   * never fails. The text `s` itself must not mention the decoder, so an
   * unchanged attempt is never taken for a call.
   */
  method Search(s: string, numIterations: nat, start: nat, end: nat) returns (r: Option<Candidate>, ghost cands: seq<Candidate>)
    requires start <= end <= CharLimit && !Contains(s, DecoderName)
    ensures |cands| <= numIterations && Attempts(s, start, end, cands)
    ensures r.Some? ==>
      |cands| == numIterations && RecordsEvaluate(s, cands, |cands|) && KeepsFirstShortest(s, cands, r.value)
    ensures r.None? ==>
      |cands| >= 1 && IsRecord(s, cands, |cands| - 1) && Eval(cands[|cands| - 1]) != Some(s) &&
      RecordsEvaluate(s, cands, |cands| - 1)
    ensures FreshRange(s, start, end) ==> r.Some?
  {
    var best: nat := |s| + 100;
    var bestCand := Unchanged(s);
    ghost var bj := -1;
    cands := [];
    var i := 0;
    while i < numIterations
      invariant i == |cands| <= numIterations
      invariant Attempts(s, start, end, cands) && RecordsEvaluate(s, cands, |cands|)
      invariant Kept(s, cands, best, bestCand, bj)
    {
      var cand := OptimizeOnce(s, start, end);
      var text := Render(cand);
      Advance(s, start, end, cands, best, bestCand, bj, cand);
      cands := cands + [cand];
      if |text| < best && Contains(text, DecoderName) {
        best := |text|;
        bestCand := cand;
        bj := i;
        if FreshRange(s, start, end) {
          AttemptEvaluates(s, start, end, cand);
        }
        var ok := CheckCall(s, cand);
        if !ok {
          return None, cands;
        }
      }
      i := i + 1;
    }
    KeptMeans(s, cands, best, bestCand, bj);
    return Some(bestCand), cands;
  }

  // ---------------------------------------------------------------------
  // addNums
  // ---------------------------------------------------------------------

  const LabelOpen := " ("
  const LabelClose := ")"

  /** `arr[i]` followed by ` (i)`. */
  function Numbered(x: string, i: nat): string
  {
    x + LabelOpen + NatToString(i) + LabelClose
  }

  /** Label every string with its position. */
  method AddNums(arr: seq<string>) returns (out: seq<string>)
    ensures |out| == |arr|
    ensures forall i | 0 <= i < |arr| :: out[i] == Numbered(arr[i], i)
  {
    out := [];
    var i := 0;
    while i < |arr|
      invariant i <= |arr| && |out| == i
      invariant forall j | 0 <= j < i :: out[j] == Numbered(arr[j], j)
    {
      out := out + [Numbered(arr[i], i)];
      i := i + 1;
    }
  }

  /**
   * The labels tell positions apart: a label ends in `(digits)`, so two
   * equal labels carry the same position.
   */
  lemma NumberedPosition(x: string, y: string, i: nat, j: nat)
    requires Numbered(x, i) == Numbered(y, j)
    ensures i == j
  {
    var a := x + LabelOpen + NatToString(i);
    var b := y + LabelOpen + NatToString(j);
    assert a == Numbered(x, i)[..|a|] && b == Numbered(y, j)[..|b|];
    assert a == b;
    NatToStringParses(i);
    NatToStringParses(j);
    var di := NatToString(i);
    var dj := NatToString(j);
    var n := |a|;
    assert a[n - 1 - |di|] == '(';
    assert b[n - 1 - |dj|] == '(';
    assert !IsDigit('(');
    assert |di| == |dj|;
    assert di == a[n - |di|..] && dj == b[n - |dj|..];
    NatToStringInjective(i, j);
  }

  /** No two entries of the labelled list are equal. */
  lemma AddNumsDistinct(arr: seq<string>, out: seq<string>)
    requires |out| == |arr| && forall i | 0 <= i < |arr| :: out[i] == Numbered(arr[i], i)
    ensures forall i, j | 0 <= i < j < |out| :: out[i] != out[j]
  {
    forall i, j | 0 <= i < j < |out| ensures out[i] != out[j] {
      if out[i] == out[j] {
        NumberedPosition(arr[i], arr[j], i, j);
      }
    }
  }
}
