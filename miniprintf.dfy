/**
 * MiniPrintf: the small `printf` the samples use (lib/library_miniprintf.js).
 * It walks a NUL-terminated format string in the wasm heap, collects one
 * JavaScript value per conversion from the variadic argument area, and
 * hands the format text and those values to `console.log` or
 * `console.error`, which does the actual formatting.
 *
 * The heap is given as two values: `mem`, the bytes (HEAPU8), and
 * `words`, the 32-bit words (HEAPU32). A read past the end of either
 * yields 0, as an out-of-range typed-array read yields a falsy value.
 */
module MiniPrintf {

  type Byte = b: int | 0 <= b < 256
  type Word = w: int | 0 <= w < 0x1_0000_0000

  const TwoTo32: int := 0x1_0000_0000
  const Newline: Byte := 10
  const Percent: Byte := 37
  const Nine: Byte := 57
  const LowerD: Byte := 100
  const LowerF: Byte := 102
  const LowerL: Byte := 108
  const LowerS: Byte := 115
  const LowerU: Byte := 117

  /** `console.log` for stdout and `console.error` for stderr (miniprintf.h). */
  const StdOut := 1
  const StdErr := 2

  datatype Option<T> = None | Some(value: T)

  /** One entry of the array handed to the console. */
  datatype Arg =
    | Fmt(text: seq<Byte>)   // entry 0: the rewritten format text
    | Num(n: int)            // an integer conversion
    | Str(ptr: Word)         // `%s`: the C string at `ptr`, decoded by UTF8ToString
    | F64(index: nat)        // `%f`: the double HEAPF64[index]

  function ByteAt(mem: seq<Byte>, k: int): Byte
  {
    if 0 <= k < |mem| then mem[k] else 0
  }

  function WordAt(words: seq<Word>, k: int): Word
  {
    if 0 <= k < |words| then words[k] else 0
  }

  /** `val|0`: the word read as a signed 32-bit integer. */
  function Signed(val: Word): (r: int)
    ensures -0x8000_0000 <= r < 0x8000_0000
    ensures r % TwoTo32 == val
  {
    if val < 0x8000_0000 then val else val - TwoTo32
  }

  /**
   * `(varArgs + 1) & -2`: the word cursor rounded up to an 8-byte boundary.
   */
  function RoundUpEven(c: nat): (r: nat)
    ensures r % 2 == 0
    ensures c <= r <= c + 1
  {
    if c % 2 == 0 then c else c + 1
  }

  /** Where one conversion leaves the scan: next byte, argument cursor, value pushed. */
  datatype Step = Step(next: nat, cursor: nat, arg: Option<Arg>)

  /**
   * The inner loop after a '%' (lib/library_miniprintf.js:11-28), starting
   * at byte `j` with word cursor `cur`. Bytes up to '9' (digits, flags,
   * '.') are skipped; 'f' or "ll" aligns the cursor and takes two words;
   * any other byte above '9' takes one word. On the NUL the source steps
   * past it (`stopAtNul` false); the corrected loop stops on it.
   */
  function Convert(mem: seq<Byte>, words: seq<Word>, j: nat, cur: nat, stopAtNul: bool): (s: Step)
    ensures j < s.next || (stopAtNul && s.next == j)
    ensures j <= |mem| ==> s.next <= |mem| + 1
    ensures s.arg.Some? ==> ByteAt(mem, s.next - 1) > Nine
    ensures s.arg.None? ==> ByteAt(mem, if stopAtNul then s.next else s.next - 1) == 0
    ensures s.arg.None? ==> s.cursor == cur
    ensures s.arg.Some? ==> s.cursor == cur + 1 || s.cursor == RoundUpEven(cur) + 2
    ensures cur <= s.cursor <= cur + 3
    decreases |mem| - j
  {
    var ch := ByteAt(mem, j);
    if ch == 0 then
      Step(if stopAtNul then j else j + 1, cur, None)
    else if ch == LowerF || (ch == LowerL && ByteAt(mem, j + 1) == ch) then
      var c := RoundUpEven(cur);
      var val := WordAt(words, c + 1);
      var arg :=
        if ch == LowerL then Num(WordAt(words, c) + (if ByteAt(mem, j + 2) == LowerU then val else Signed(val)) * TwoTo32)
        else F64(c / 2);
      Step(j + 1, c + 2, Some(arg))
    else if ch > Nine then
      var val := WordAt(words, cur);
      Step(j + 1, cur + 1, Some(if ch == LowerS then Str(val) else if ch == LowerU then Num(val) else Num(Signed(val))))
    else
      Convert(mem, words, j + 1, cur, stopAtNul)
  }

  /** Where the whole scan ends: the byte index, the word cursor and the values pushed. */
  datatype Scanned = Scanned(end: nat, cursor: nat, args: seq<Arg>)

  /**
   * The outer loop (lib/library_miniprintf.js:9-30) from byte `i`: every
   * '%' starts a conversion, which pushes at most one value.
   */
  function Scan(mem: seq<Byte>, words: seq<Word>, i: nat, cur: nat, stopAtNul: bool): (r: Scanned)
    ensures ByteAt(mem, r.end) == 0
    ensures i <= r.end
    ensures cur <= r.cursor
    ensures |r.args| <= r.cursor - cur
    decreases |mem| + 1 - i
  {
    if ByteAt(mem, i) == 0 then Scanned(i, cur, [])
    else if ByteAt(mem, i) == Percent then
      var s := Convert(mem, words, i + 1, cur, stopAtNul);
      var rest := Scan(mem, words, s.next, s.cursor, stopAtNul);
      rest.(args := (if s.arg.Some? then [s.arg.value] else []) + rest.args)
    else Scan(mem, words, i + 1, cur, stopAtNul)
  }

  /** `UTF8ArrayToString(HEAPU8, from, to - from)`: the bytes in [from, to) up to the first NUL. */
  function TextBytes(mem: seq<Byte>, from: nat, to: int): (t: seq<Byte>)
    ensures |t| <= if to <= from then 0 else to - from
    ensures forall k :: 0 <= k < |t| ==> t[k] == ByteAt(mem, from + k)
    ensures 0 !in t
    decreases if to <= from then 0 else to - from
  {
    if to <= from || ByteAt(mem, from) == 0 then []
    else [ByteAt(mem, from)] + TextBytes(mem, from + 1, to)
  }

  /** How many 'l' bytes start `s`. */
  function LRun(s: seq<Byte>): (n: nat)
    ensures n <= |s|
    ensures forall k :: 0 <= k < n ==> s[k] == LowerL
    ensures n < |s| ==> s[n] != LowerL
  {
    if |s| == 0 || s[0] != LowerL then 0 else 1 + LRun(s[1..])
  }

  /** The length of a match of `%l*(u|d)` at the start of `s`, or 0. */
  function MatchLen(s: seq<Byte>): (n: nat)
    ensures n == 0 || 2 <= n <= |s|
  {
    if |s| == 0 || s[0] != Percent then 0
    else
      var n := LRun(s[1..]);
      if 1 + n < |s| && (s[1 + n] == LowerU || s[1 + n] == LowerD) then n + 2 else 0
  }

  /** `.replace(/%l*(u|d)/g, '%d')`: every match, left to right, becomes "%d". */
  function Rewrite(s: seq<Byte>): (t: seq<Byte>)
    ensures |t| <= |s|
    decreases |s|
  {
    if |s| == 0 then []
    else if MatchLen(s) > 0 then [Percent, LowerD] + Rewrite(s[MatchLen(s)..])
    else [s[0]] + Rewrite(s[1..])
  }

  /** `if (HEAPU8[i-1] == 10) --i`: one trailing newline is dropped. */
  function PrintEnd(mem: seq<Byte>, i: int): (e: int)
    ensures e == i - 1 <==> ByteAt(mem, i - 1) == Newline
    ensures e == i <==> ByteAt(mem, i - 1) != Newline
  {
    if ByteAt(mem, i - 1) == Newline then i - 1 else i
  }

  /** The array handed to the console after a call with these inputs. */
  function Printed(mem: seq<Byte>, words: seq<Word>, format: nat, varArgs: nat, stopAtNul: bool): (p: seq<Arg>)
    ensures |p| >= 1 && p[0].Fmt?
  {
    var r := Scan(mem, words, format, varArgs / 4, stopAtNul);
    [Fmt(Rewrite(TextBytes(mem, format, PrintEnd(mem, r.end))))] + r.args
  }

  /** The inner loop of lib/library_miniprintf.js:11-28 as a loop. */
  method ScanConversion(mem: seq<Byte>, words: seq<Word>, j: nat, cur: nat, stopAtNul: bool) returns (s: Step)
    ensures s == Convert(mem, words, j, cur, stopAtNul)
  {
    var i := j;
    while true
      invariant j <= i
      invariant Convert(mem, words, i, cur, stopAtNul) == Convert(mem, words, j, cur, stopAtNul)
      decreases |mem| - i
    {
      var ch := ByteAt(mem, i);
      if ch == 0 {
        return Step(if stopAtNul then i else i + 1, cur, None);
      }
      i := i + 1;
      if ch == LowerF || (ch == LowerL && ByteAt(mem, i) == ch) {
        var c := RoundUpEven(cur);
        var val := WordAt(words, c + 1);
        var arg :=
          if ch == LowerL then Num(WordAt(words, c) + (if ByteAt(mem, i + 1) == LowerU then val else Signed(val)) * TwoTo32)
          else F64(c / 2);
        return Step(i, c + 2, Some(arg));
      }
      if ch > Nine {
        var val := WordAt(words, cur);
        return Step(i, cur + 1, Some(if ch == LowerS then Str(val) else if ch == LowerU then Num(val) else Num(Signed(val))));
      }
    }
  }

  /**
   * One step of the outer loop: a '%' at `i` contributes its value, if
   * any, ahead of what the rest of the scan pushes.
   */
  lemma ScanStep(mem: seq<Byte>, words: seq<Word>, i: nat, cur: nat, stopAtNul: bool, done: seq<Arg>)
    requires ByteAt(mem, i) == Percent
    ensures var s := Convert(mem, words, i + 1, cur, stopAtNul);
            var pushed := if s.arg.Some? then done + [s.arg.value] else done;
            pushed + Scan(mem, words, s.next, s.cursor, stopAtNul).args == done + Scan(mem, words, i, cur, stopAtNul).args
            && Scan(mem, words, s.next, s.cursor, stopAtNul).end == Scan(mem, words, i, cur, stopAtNul).end
  {
  }

  /**
   * The outer loop of lib/library_miniprintf.js:9-30: walks the format
   * string from `format`, converting at every `%`, and returns the values
   * pushed and the index of the terminating NUL.
   */
  method ScanLoop(mem: seq<Byte>, words: seq<Word>, format: nat, cur0: nat, stopAtNul: bool)
    returns (args: seq<Arg>, end: nat)
    ensures args == Scan(mem, words, format, cur0, stopAtNul).args
    ensures end == Scan(mem, words, format, cur0, stopAtNul).end
  {
    args := [];
    var i: nat := format;
    var cur: nat := cur0;
    while ByteAt(mem, i) != 0
      invariant format <= i
      invariant args + Scan(mem, words, i, cur, stopAtNul).args == Scan(mem, words, format, cur0, stopAtNul).args
      invariant Scan(mem, words, i, cur, stopAtNul).end == Scan(mem, words, format, cur0, stopAtNul).end
      decreases |mem| + 1 - i
    {
      var isPercent := ByteAt(mem, i) == Percent;
      i := i + 1;
      if isPercent {
        ScanStep(mem, words, i - 1, cur, stopAtNul, args);
        var s := ScanConversion(mem, words, i, cur, stopAtNul);
        if s.arg.Some? {
          args := args + [s.arg.value];
        }
        i, cur := s.next, s.cursor;
      }
    }
    ScanAtNul(mem, words, i, cur, stopAtNul, args);
    end := i;
  }

  /** At the terminator the scan has nothing left to push. */
  lemma ScanAtNul(mem: seq<Byte>, words: seq<Word>, i: nat, cur: nat, stopAtNul: bool, done: seq<Arg>)
    requires ByteAt(mem, i) == 0
    ensures done + Scan(mem, words, i, cur, stopAtNul).args == done
    ensures Scan(mem, words, i, cur, stopAtNul).end == i
  {
  }

  /**
   * The console array `emscripten_mini_stdio_fprintf_str`, shared by
   * every call: entry 0 is the format text, the rest the values.
   */
  class MiniStdio {
    var str: seq<Arg>

    ghost predicate Valid()
      reads this
    {
      |str| >= 1
    }

    /** The initial value `[0]`. */
    constructor()
      ensures Valid() && str == [Num(0)]
    {
      str := [Num(0)];
    }

    /**
     * `emscripten_mini_stdio_fprintf` (lib/library_miniprintf.js:5-49):
     * the array is cut back to its placeholder, the scan pushes one
     * value per conversion, entry 0 becomes the rewritten format text,
     * and the result says whether `console.error` (stream above 1)
     * rather than `console.log` prints it.
     */
    method Fprintf(outputStream: int, mem: seq<Byte>, format: nat, words: seq<Word>, varArgs: nat) returns (useError: bool)
      requires Valid()
      modifies this
      ensures Valid()
      ensures useError <==> outputStream > 1
      ensures str == Printed(mem, words, format, varArgs, false)
    {
      useError := Format(outputStream, mem, format, words, varArgs, false);
    }

    /** Fprintf with the inner loop stopping on the terminating NUL. */
    method FprintfCorrected(outputStream: int, mem: seq<Byte>, format: nat, words: seq<Word>, varArgs: nat) returns (useError: bool)
      requires Valid()
      modifies this
      ensures Valid()
      ensures useError <==> outputStream > 1
      ensures str == Printed(mem, words, format, varArgs, true)
      ensures str[0].text == Rewrite(TextBytes(mem, format, PrintEnd(mem, FirstNul(mem, format))))
    {
      useError := Format(outputStream, mem, format, words, varArgs, true);
      CorrectedStopsAtNul(mem, words, format, varArgs / 4);
    }

    /** `emscripten_mini_stdio_printf`: fprintf to stdout, that is `console.log`. */
    method Printf(mem: seq<Byte>, format: nat, words: seq<Word>, varArgs: nat)
      requires Valid()
      modifies this
      ensures Valid()
      ensures str == Printed(mem, words, format, varArgs, false)
    {
      var useError := Fprintf(StdOut, mem, format, words, varArgs);
      assert !useError;
    }

    /** The body shared by Fprintf and FprintfCorrected. */
    method Format(outputStream: int, mem: seq<Byte>, format: nat, words: seq<Word>, varArgs: nat, stopAtNul: bool)
      returns (useError: bool)
      requires Valid()
      modifies this
      ensures Valid()
      ensures useError <==> outputStream > 1
      ensures str == Printed(mem, words, format, varArgs, stopAtNul)
    {
      // `str.length = 1`, then the values are pushed after the placeholder.
      var args, end := ScanLoop(mem, words, format, varArgs / 4, stopAtNul);
      var e := PrintEnd(mem, end);
      str := [Fmt(Rewrite(TextBytes(mem, format, e)))] + args;
      useError := outputStream > 1;
    }
  }

  /** The index of the first NUL at or after `i`: where the C string ends. */
  function FirstNul(mem: seq<Byte>, i: nat): (k: nat)
    ensures i <= k && ByteAt(mem, k) == 0
    ensures forall m :: i <= m < k ==> ByteAt(mem, m) != 0
    decreases |mem| - i
  {
    if ByteAt(mem, i) == 0 then i else FirstNul(mem, i + 1)
  }

  /** The corrected conversion never moves past the end of its string. */
  lemma {:induction false} CorrectedConvertWithin(mem: seq<Byte>, words: seq<Word>, j: nat, cur: nat)
    ensures Convert(mem, words, j, cur, true).next <= FirstNul(mem, j)
    ensures FirstNul(mem, Convert(mem, words, j, cur, true).next) == FirstNul(mem, j)
    decreases |mem| - j
  {
    var ch := ByteAt(mem, j);
    if ch != 0 && !(ch == LowerF || (ch == LowerL && ByteAt(mem, j + 1) == ch)) && ch <= Nine {
      CorrectedConvertWithin(mem, words, j + 1, cur);
    } else if ch != 0 {
      FirstNulFrom(mem, j, j + 1);
    }
  }

  /** The first NUL from `i` is also the first NUL from any `m` before it. */
  lemma {:induction false} FirstNulFrom(mem: seq<Byte>, i: nat, m: nat)
    requires i <= m <= FirstNul(mem, i)
    ensures FirstNul(mem, m) == FirstNul(mem, i)
    decreases m - i
  {
    if i < m {
      FirstNulFrom(mem, i + 1, m);
    }
  }

  /**
   * With the corrected inner loop the scan ends exactly on the string's
   * terminating NUL: no byte past the string is read as format text.
   */
  lemma {:induction false} CorrectedStopsAtNul(mem: seq<Byte>, words: seq<Word>, i: nat, cur: nat)
    ensures Scan(mem, words, i, cur, true).end == FirstNul(mem, i)
    decreases |mem| + 1 - i
  {
    if ByteAt(mem, i) == 0 {
    } else if ByteAt(mem, i) == Percent {
      var s := Convert(mem, words, i + 1, cur, true);
      CorrectedConvertWithin(mem, words, i + 1, cur);
      CorrectedStopsAtNul(mem, words, s.next, s.cursor);
    } else {
      CorrectedStopsAtNul(mem, words, i + 1, cur);
    }
  }

  /**
   * As written, a format string ending in '%' makes the inner loop step
   * past the terminator, and the scan goes on into the following bytes:
   * for "a%" followed in memory by "%d", the '%d' beyond the string
   * takes an argument. The corrected loop stops on the terminator.
   */
  lemma TrailingPercentReadsPast(words: seq<Word>)
    ensures var mem: seq<Byte> := [97, Percent, 0, Percent, LowerD, 0];
            FirstNul(mem, 0) == 2
            && Scan(mem, words, 0, 0, false).end == 5
            && |Scan(mem, words, 0, 0, false).args| == 1
            && Scan(mem, words, 0, 0, true).end == 2
            && Scan(mem, words, 0, 0, true).args == []
  {
    var mem: seq<Byte> := [97, Percent, 0, Percent, LowerD, 0];
    assert ByteAt(mem, 0) == 97 && ByteAt(mem, 1) == Percent && ByteAt(mem, 2) == 0;
    assert ByteAt(mem, 3) == Percent && ByteAt(mem, 4) == LowerD && ByteAt(mem, 5) == 0;
    assert Convert(mem, words, 2, 0, false) == Step(3, 0, None);
    assert Convert(mem, words, 4, 0, false).next == 5;
    assert Scan(mem, words, 5, 1, false).end == 5;
    assert Scan(mem, words, 3, 0, false).end == 5 && |Scan(mem, words, 3, 0, false).args| == 1;
    assert Scan(mem, words, 1, 0, false) == Scan(mem, words, 3, 0, false);
    assert Convert(mem, words, 2, 0, true) == Step(2, 0, None);
    assert Scan(mem, words, 1, 0, true) == Scan(mem, words, 2, 0, true);
  }

  /** The cursor a conversion takes from, given the byte that ends it. */
  lemma {:induction false} ConversionCursor(mem: seq<Byte>, words: seq<Word>, j: nat, cur: nat, stopAtNul: bool)
    requires ByteAt(mem, j) > Nine
    ensures var s := Convert(mem, words, j, cur, stopAtNul);
            s.next == j + 1
            && (ByteAt(mem, j) == LowerF || (ByteAt(mem, j) == LowerL && ByteAt(mem, j + 1) == LowerL)
                <==> s.cursor == RoundUpEven(cur) + 2)
  {
  }

  /**
   * `%lld` and `%llu` read a 64-bit value from the two words at the
   * 8-byte-aligned cursor, low word first; the high word is signed for
   * `%lld` and unsigned for `%llu`.
   */
  lemma LongLongConversion(mem: seq<Byte>, words: seq<Word>, j: nat, cur: nat, stopAtNul: bool)
    requires ByteAt(mem, j) == LowerL && ByteAt(mem, j + 1) == LowerL
    ensures var c := RoundUpEven(cur);
            var lo := WordAt(words, c);
            var hi := WordAt(words, c + 1);
            var s := Convert(mem, words, j, cur, stopAtNul);
            s.arg.Some? && s.arg.value.Num?
            && s.arg.value.n % TwoTo32 == lo
            && (ByteAt(mem, j + 2) == LowerU ==> s.arg.value.n == lo + hi * TwoTo32 && 0 <= s.arg.value.n < TwoTo32 * TwoTo32)
            && (ByteAt(mem, j + 2) != LowerU ==> -TwoTo32 * TwoTo32 / 2 <= s.arg.value.n < TwoTo32 * TwoTo32 / 2)
  {
    var c := RoundUpEven(cur);
    var hi := WordAt(words, c + 1);
    var s := Convert(mem, words, j, cur, stopAtNul);
    if ByteAt(mem, j + 2) != LowerU {
      assert s.arg.value.n == WordAt(words, c) + Signed(hi) * TwoTo32;
    }
  }

  /** Text with no '%' passes through the rewrite unchanged. */
  lemma {:induction false} RewriteWithoutPercent(s: seq<Byte>)
    requires Percent !in s
    ensures Rewrite(s) == s
    decreases |s|
  {
    if |s| > 0 {
      assert Percent !in s[1..];
      RewriteWithoutPercent(s[1..]);
    }
  }

  /** `%u`, `%lu`, `%llu`, `%d`, `%ld`, `%lld` all become "%d". */
  lemma RewriteConversion(n: nat, last: Byte, t: seq<Byte>)
    requires last == LowerU || last == LowerD
    ensures Rewrite([Percent] + seq(n, _ => LowerL) + [last] + t) == [Percent, LowerD] + Rewrite(t)
  {
    var s := [Percent] + seq(n, _ => LowerL) + [last] + t;
    var run := LRun(s[1..]);
    assert s[1..][n] == last;
    assert run == n;
    assert MatchLen(s) == n + 2;
    assert s[n + 2..] == t;
  }
}
