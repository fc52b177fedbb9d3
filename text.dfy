/**
 * Text: the string operations that the code generators, the string
 * compressor and the runtime string decoder all rely on.
 *
 * `ReplaceAll` is the single definition of "replace every occurrence,
 * scanning left to right, non-overlapping": it is what Python's
 * `str.replace`, JavaScript's `String.prototype.replaceAll` and the
 * hand-written `replaceAll` loop of the compressor compute.
 */
module Text {

  datatype Option<T> = None | Some(value: T)

  /** `sub` occurs in `s` starting at index `i`. */
  predicate OccursAt(s: string, sub: string, i: nat)
  {
    i + |sub| <= |s| && s[i..i + |sub|] == sub
  }

  /** Python `sub in s`, JavaScript `s.includes(sub)`. */
  predicate Contains(s: string, sub: string)
    decreases |s|
  {
    if |s| < |sub| then false
    else s[..|sub|] == sub || Contains(s[1..], sub)
  }

  lemma {:induction false} ContainsIffOccurs(s: string, sub: string)
    ensures Contains(s, sub) <==> exists i: nat :: OccursAt(s, sub, i)
    decreases |s|
  {
    if |s| < |sub| {
      forall i: nat ensures !OccursAt(s, sub, i) { }
    } else if s[..|sub|] == sub {
      assert OccursAt(s, sub, 0);
    } else {
      ContainsIffOccurs(s[1..], sub);
      if Contains(s[1..], sub) {
        var i: nat :| OccursAt(s[1..], sub, i);
        assert s[i + 1..i + 1 + |sub|] == s[1..][i..i + |sub|];
        assert OccursAt(s, sub, i + 1);
      } else {
        forall i: nat | OccursAt(s, sub, i) ensures false {
          assert i != 0;
          assert s[1..][i - 1..i - 1 + |sub|] == s[i..i + |sub|];
          assert OccursAt(s[1..], sub, i - 1);
        }
      }
    }
  }

  /** A one-character pattern occurs exactly when the character does. */
  lemma {:induction false} ContainsChar(s: string, c: char)
    ensures Contains(s, [c]) <==> c in s
    decreases |s|
  {
    if |s| >= 1 {
      ContainsChar(s[1..], c);
      assert s == [s[0]] + s[1..];
    }
  }

  /**
   * Replace every non-overlapping occurrence of `find`, leftmost first.
   * A text in which `find` does not occur is returned unchanged.
   */
  function ReplaceAll(s: string, find: string, rep: string): string
    requires find != []
    decreases |s|
  {
    if |s| < |find| then s
    else if s[..|find|] == find then rep + ReplaceAll(s[|find|..], find, rep)
    else [s[0]] + ReplaceAll(s[1..], find, rep)
  }

  /** A text in which the pattern does not occur is returned unchanged. */
  lemma {:induction false} ReplaceAbsent(s: string, find: string, rep: string)
    requires find != [] && !Contains(s, find)
    ensures ReplaceAll(s, find, rep) == s
    decreases |s|
  {
    if |s| >= |find| {
      ReplaceAbsent(s[1..], find, rep);
      assert [s[0]] + s[1..] == s;
    }
  }

  /** Replacing a one-character pattern by anything leaves text without that character alone. */
  lemma ReplaceAbsentChar(s: string, c: char, rep: string)
    requires c !in s
    ensures ReplaceAll(s, [c], rep) == s
  {
    ContainsChar(s, c);
    ReplaceAbsent(s, [c], rep);
  }

  /**
   * Substituting a fresh character for `find` and then substituting `find`
   * back for that character restores the text: the step the string
   * compressor's decoder undoes.
   */
  lemma {:induction false} ReplaceInverse(s: string, find: string, c: char)
    requires find != []
    requires c !in s
    ensures ReplaceAll(ReplaceAll(s, find, [c]), [c], find) == s
    decreases |s|
  {
    if |s| < |find| {
      ReplaceAbsentChar(s, c, find);
    } else if s[..|find|] == find {
      var t := ReplaceAll(s[|find|..], find, [c]);
      assert c !in s[|find|..] by {
        forall k | 0 <= k < |s[|find|..]| ensures s[|find|..][k] != c {
          assert s[|find|..][k] == s[|find| + k];
        }
      }
      ReplaceInverse(s[|find|..], find, c);
      assert ([c] + t)[..1] == [c];
      assert ([c] + t)[1..] == t;
      calc {
        ReplaceAll([c] + t, [c], find);
        find + ReplaceAll(t, [c], find);
        find + s[|find|..];
        s;
      }
    } else {
      var t := ReplaceAll(s[1..], find, [c]);
      assert c !in s[1..] by {
        forall k | 0 <= k < |s[1..]| ensures s[1..][k] != c {
          assert s[1..][k] == s[k + 1];
        }
      }
      ReplaceInverse(s[1..], find, c);
      var u := [s[0]] + t;
      assert u[..1] == [s[0]] && s[0] != c;
      assert u[1..] == t;
      calc {
        ReplaceAll(u, [c], find);
        [s[0]] + ReplaceAll(t, [c], find);
        [s[0]] + s[1..];
        s;
      }
    }
  }

  /** Replacing a pattern by something no longer never makes the text longer. */
  lemma {:induction false} ReplaceNotLonger(s: string, find: string, rep: string)
    requires find != [] && |rep| <= |find|
    ensures |ReplaceAll(s, find, rep)| <= |s|
    decreases |s|
  {
    if |s| < |find| {
    } else if s[..|find|] == find {
      ReplaceNotLonger(s[|find|..], find, rep);
    } else {
      ReplaceNotLonger(s[1..], find, rep);
    }
  }

  /**
   * Replacing an occurring pattern of two or more characters by one
   * character makes the text strictly shorter: the compressor's progress.
   */
  lemma {:induction false} ReplaceShrinks(s: string, find: string, c: char)
    requires |find| >= 2 && Contains(s, find)
    ensures |ReplaceAll(s, find, [c])| < |s|
    decreases |s|
  {
    if s[..|find|] == find {
      ReplaceNotLonger(s[|find|..], find, [c]);
    } else {
      ReplaceShrinks(s[1..], find, c);
    }
  }

  /** A text that begins with `find` has the replacement at its front. */
  lemma ReplaceHit(find: string, t: string, rep: string)
    requires find != []
    ensures ReplaceAll(find + t, find, rep) == rep + ReplaceAll(t, find, rep)
  {
    assert (find + t)[..|find|] == find;
    assert (find + t)[|find|..] == t;
  }

  /** A stretch free of the pattern's first character is copied through unchanged. */
  lemma {:induction false} ReplaceSkip(a: string, t: string, find: string, rep: string)
    requires find != [] && find[0] !in a
    ensures ReplaceAll(a + t, find, rep) == a + ReplaceAll(t, find, rep)
    decreases |a|
  {
    if |a| > 0 {
      var s := a + t;
      assert s[1..] == a[1..] + t;
      assert s[0] == a[0] && a[0] != find[0];
      if |s| >= |find| {
        assert s[..|find|][0] == a[0];
        ReplaceSkip(a[1..], t, find, rep);
        assert [a[0]] + a[1..] == a;
      }
    } else {
      assert a + t == t;
    }
  }

  /** Every character of the result comes from the text or from the replacement. */
  lemma {:induction false} ReplaceChars(s: string, find: string, rep: string)
    requires find != []
    ensures forall c | c in ReplaceAll(s, find, rep) :: c in s || c in rep
    decreases |s|
  {
    if |s| >= |find| {
      if s[..|find|] == find {
        ReplaceChars(s[|find|..], find, rep);
        forall c | c in s[|find|..] ensures c in s {
          var k :| 0 <= k < |s[|find|..]| && s[|find|..][k] == c;
          assert s[|find| + k] == c;
        }
      } else {
        ReplaceChars(s[1..], find, rep);
        forall c | c in s[1..] ensures c in s {
          var k :| 0 <= k < |s[1..]| && s[1..][k] == c;
          assert s[k + 1] == c;
        }
      }
    }
  }

  /** After replacing a character by text without it, the character is gone. */
  lemma {:induction false} ReplaceRemovesChar(s: string, c: char, rep: string)
    requires c !in rep
    ensures c !in ReplaceAll(s, [c], rep)
    decreases |s|
  {
    if |s| >= 1 {
      ReplaceRemovesChar(s[1..], c, rep);
      if s[..1] == [c] {
        assert s[1..] == s[|[c]|..];
      } else {
        assert s[0] != c;
      }
    }
  }

  lemma ContainsFront(sub: string, t: string)
    ensures Contains(sub + t, sub)
  {
    assert (sub + t)[..|sub|] == sub;
  }

  lemma {:induction false} ContainsAfter(u: string, t: string, sub: string)
    requires Contains(t, sub)
    ensures Contains(u + t, sub)
    decreases |u|
  {
    if |u| > 0 {
      ContainsAfter(u[1..], t, sub);
      assert (u + t)[1..] == u[1..] + t;
    } else {
      assert u + t == t;
    }
  }

  /** A pattern whose first character is absent does not occur. */
  lemma {:induction false} NotContainsFirstChar(s: string, sub: string)
    requires sub != [] && sub[0] !in s
    ensures !Contains(s, sub)
    decreases |s|
  {
    if |s| >= |sub| {
      assert s[..|sub|][0] == s[0];
      NotContainsFirstChar(s[1..], sub);
    }
  }

  /** Index of the first occurrence of `sub` at or after `from`, or -1. */
  function IndexFrom(s: string, sub: string, from: nat): (r: int)
    ensures r == -1 || (from <= r && OccursAt(s, sub, r))
    decreases |s| - from
  {
    if from + |sub| > |s| then -1
    else if s[from..from + |sub|] == sub then from
    else IndexFrom(s, sub, from + 1)
  }

  /** The index found is the first occurrence; -1 means there is none. */
  lemma {:induction false} IndexFromFirst(s: string, sub: string, from: nat)
    ensures IndexFrom(s, sub, from) == -1 ==> forall j: nat :: from <= j ==> !OccursAt(s, sub, j)
    ensures IndexFrom(s, sub, from) >= 0 ==> forall j: nat :: from <= j < IndexFrom(s, sub, from) ==> !OccursAt(s, sub, j)
    decreases |s| - from
  {
    if from + |sub| <= |s| && s[from..from + |sub|] != sub {
      IndexFromFirst(s, sub, from + 1);
    }
  }

  /**
   * JavaScript `s.replace(find, rep)` with a string pattern: only the
   * first occurrence is replaced.
   */
  function ReplaceFirst(s: string, find: string, rep: string): string
  {
    var i := IndexFrom(s, find, 0);
    if i < 0 then s else s[..i] + rep + s[i + |find|..]
  }

  /** JavaScript `s.split(sep)` for a one-character separator. */
  function Split(s: string, sep: char): (parts: seq<string>)
    ensures |parts| >= 1
    ensures forall p | p in parts :: sep !in p
    decreases |s|
  {
    if |s| == 0 then [""]
    else
      var rest := Split(s[1..], sep);
      if s[0] == sep then [""] + rest
      else [[s[0]] + rest[0]] + rest[1..]
  }

  /** JavaScript `parts.join(sep)` for a one-character separator. */
  function Join(parts: seq<string>, sep: char): string
  {
    if |parts| == 0 then ""
    else if |parts| == 1 then parts[0]
    else parts[0] + [sep] + Join(parts[1..], sep)
  }

  lemma {:induction false} SplitAfterPiece(p: string, sep: char, t: string)
    requires sep !in p
    ensures Split(p + [sep] + t, sep) == [p] + Split(t, sep)
    decreases |p|
  {
    if |p| == 0 {
      assert p + [sep] + t == [sep] + t;
      assert ([sep] + t)[1..] == t;
    } else {
      SplitAfterPiece(p[1..], sep, t);
      assert (p + [sep] + t)[1..] == p[1..] + [sep] + t;
      assert [p[0]] + p[1..] == p;
    }
  }

  lemma {:induction false} SplitPiece(p: string, sep: char)
    requires sep !in p
    ensures Split(p, sep) == [p]
    decreases |p|
  {
    if |p| > 0 {
      SplitPiece(p[1..], sep);
      assert [p[0]] + p[1..] == p;
    }
  }

  /** Splitting what was joined gives the pieces back when no piece holds the separator. */
  lemma {:induction false} SplitJoin(parts: seq<string>, sep: char)
    requires |parts| >= 1
    requires forall p | p in parts :: sep !in p
    ensures Split(Join(parts, sep), sep) == parts
    decreases |parts|
  {
    if |parts| == 1 {
      SplitPiece(parts[0], sep);
    } else {
      assert parts[0] in parts;
      forall p | p in parts[1..] ensures sep !in p {
        assert p in parts;
      }
      SplitJoin(parts[1..], sep);
      SplitAfterPiece(parts[0], sep, Join(parts[1..], sep));
      assert [parts[0]] + parts[1..] == parts;
    }
  }

  /** Joining what was split gives the text back. */
  lemma {:induction false} JoinSplit(s: string, sep: char)
    ensures Join(Split(s, sep), sep) == s
    decreases |s|
  {
    if |s| > 0 {
      JoinSplit(s[1..], sep);
      var rest := Split(s[1..], sep);
      if s[0] == sep {
        assert ([""] + rest)[1..] == rest;
      } else {
        var parts := [[s[0]] + rest[0]] + rest[1..];
        if |rest| == 1 {
          assert parts == [[s[0]] + rest[0]];
        } else {
          assert parts[1..] == rest[1..];
          assert Join(rest, sep) == rest[0] + [sep] + Join(rest[1..], sep);
        }
        assert s == [s[0]] + s[1..];
      }
    }
  }

  /** ASCII upper-casing of one character. */
  function UpperChar(c: char): char
  {
    if 'a' <= c <= 'z' then (c as int - 32) as char else c
  }

  /** ASCII `upper()` / `toUpperCase()`. */
  function Upper(s: string): (r: string)
    ensures |r| == |s|
    ensures forall i | 0 <= i < |s| :: r[i] == UpperChar(s[i])
  {
    if |s| == 0 then "" else [UpperChar(s[0])] + Upper(s[1..])
  }

  predicate IsDigit(c: char)
  {
    '0' as int <= c as int <= '9' as int
  }

  /** Decimal rendering of a natural number, as `%d` and template literals print it. */
  function NatToString(n: nat): string
    decreases n
  {
    if n < 10 then [('0' as int + n) as char]
    else NatToString(n / 10) + [('0' as int + n % 10) as char]
  }

  /** The number a string of decimal digits denotes. */
  function ParseDecimal(s: string): nat
    requires forall i | 0 <= i < |s| :: IsDigit(s[i])
  {
    if |s| == 0 then 0
    else
      assert IsDigit(s[|s| - 1]);
      ParseDecimal(s[..|s| - 1]) * 10 + (s[|s| - 1] as int - '0' as int)
  }

  /** The rendering is a non-empty run of digits that reads back as `n`. */
  lemma {:induction false} NatToStringParses(n: nat)
    ensures |NatToString(n)| >= 1
    ensures forall i | 0 <= i < |NatToString(n)| :: IsDigit(NatToString(n)[i])
    ensures ParseDecimal(NatToString(n)) == n
    decreases n
  {
    if n >= 10 {
      NatToStringParses(n / 10);
      var r := NatToString(n);
      assert r[..|r| - 1] == NatToString(n / 10);
    }
  }

  /** Distinct numbers print differently. */
  lemma NatToStringInjective(m: nat, n: nat)
    requires NatToString(m) == NatToString(n)
    ensures m == n
  {
    NatToStringParses(m);
    NatToStringParses(n);
  }

  /** The elements of `names` that are in `supported`, in order. */
  function Filter<T(==,!new)>(names: seq<T>, supported: set<T>): (r: seq<T>)
    ensures forall x :: x in r <==> x in names && x in supported
  {
    if |names| == 0 then []
    else
      var last := names[|names| - 1];
      assert names == names[..|names| - 1] + [last];
      Filter(names[..|names| - 1], supported) + (if last in supported then [last] else [])
  }

  /** Filtering one more element of a prefix appends it when it is kept. */
  lemma FilterPrefix<T(!new)>(names: seq<T>, k: nat, supported: set<T>)
    requires k < |names|
    ensures Filter(names[..k + 1], supported) ==
      Filter(names[..k], supported) + (if names[k] in supported then [names[k]] else [])
  {
    assert names[..k + 1][..k] == names[..k];
  }

  /** A non-empty set of integers has a member to pick. */
  lemma HasMember(s: set<int>)
    ensures s != {} ==> exists x :: x in s
  {
    if forall x :: x !in s {
      assert s == {};
    }
  }
}
