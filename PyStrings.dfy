/**
  The handful of Python `str`/`bytes` builtins that the migration script uses,
  written as functions over sequences: `startswith`, `in`, `replace`, `strip`,
  `split(sep)[-1]`, `lower()`, `str(n)`, and character-class filtering (what
  `re.sub(r'[^...]', '', s)` does).
 */
module PyStrings {

  /** `s.startswith(p)` */
  predicate StartsWith<T(==)>(s: seq<T>, p: seq<T>) {
    |p| <= |s| && s[..|p|] == p
  }

  /** `s.endswith(p)` */
  predicate EndsWith<T(==)>(s: seq<T>, p: seq<T>) {
    |p| <= |s| && s[|s| - |p|..] == p
  }

  /** `p in s` for strings and bytes: `p` occurs as a contiguous block of `s`. */
  predicate Contains<T(==)>(s: seq<T>, p: seq<T>)
    decreases |s|
  {
    StartsWith(s, p) || (|s| > 0 && Contains(s[1..], p))
  }

  /**
    `s.replace(pat, rep)` for a non-empty pattern: scan left to right, replace
    the leftmost occurrence, and go on scanning after it (occurrences never
    overlap).
   */
  function Replace<T(==)>(s: seq<T>, pat: seq<T>, rep: seq<T>): seq<T>
    requires |pat| > 0
    decreases |s|
  {
    if StartsWith(s, pat) then rep + Replace(s[|pat|..], pat, rep)
    else if s == [] then []
    else [s[0]] + Replace(s[1..], pat, rep)
  }

  /** The elements of `s` that satisfy `keep`, in order. */
  function Filter<T>(s: seq<T>, keep: T -> bool): (r: seq<T>)
    ensures |r| <= |s|
    ensures forall i :: 0 <= i < |r| ==> keep(r[i])
    ensures forall i :: 0 <= i < |s| && keep(s[i]) ==> s[i] in r
    ensures forall x :: x in r ==> x in s
    decreases |s|
  {
    if s == [] then []
    else (if keep(s[0]) then [s[0]] else []) + Filter(s[1..], keep)
  }

  /** The sequences `f` gives for the elements of `s`, one after the other. */
  function Concat<T, U>(s: seq<T>, f: T -> seq<U>): seq<U>
    decreases |s|
  {
    if s == [] then [] else Concat(s[..|s| - 1], f) + f(s[|s| - 1])
  }

  /** `[f(x, i) for i, x in enumerate(s, 1)]`: each element with its position counted from 1. */
  function Numbered<T, U>(s: seq<T>, f: (T, nat) -> U): (r: seq<U>)
    ensures |r| == |s|
    decreases |s|
  {
    if s == [] then [] else Numbered(s[..|s| - 1], f) + [f(s[|s| - 1], |s|)]
  }

  /** `s.lstrip(c)` for a single character */
  function LStrip<T(==)>(s: seq<T>, c: T): (r: seq<T>)
    ensures |r| <= |s| && r == s[|s| - |r|..]
    ensures forall i :: 0 <= i < |s| - |r| ==> s[i] == c
    ensures |r| > 0 ==> r[0] != c
    decreases |s|
  {
    if |s| > 0 && s[0] == c then LStrip(s[1..], c) else s
  }

  /** `s.rstrip(c)` for a single character */
  function RStrip<T(==)>(s: seq<T>, c: T): (r: seq<T>)
    ensures |r| <= |s| && r == s[..|r|]
    ensures forall i :: |r| <= i < |s| ==> s[i] == c
    ensures |r| > 0 ==> r[|r| - 1] != c
    decreases |s|
  {
    if |s| > 0 && s[|s| - 1] == c then RStrip(s[..|s| - 1], c) else s
  }

  /** `s.strip(c)`: both ends. */
  function Strip<T(==)>(s: seq<T>, c: T): seq<T> {
    RStrip(LStrip(s, c), c)
  }

  /** `s.split(sep)[-1]`: what follows the last `sep`, or all of `s` if none. */
  function LastField<T(==)>(s: seq<T>, sep: T): (r: seq<T>)
    ensures sep !in r
    ensures |r| <= |s| && r == s[|s| - |r|..]
    ensures |r| < |s| ==> s[|s| - |r| - 1] == sep
    decreases |s|
  {
    if s == [] then []
    else if s[|s| - 1] == sep then []
    else LastField(s[..|s| - 1], sep) + [s[|s| - 1]]
  }

  /*
    `str.lower()` on one character. Only the cased letters this program meets
    in practice are mapped: ASCII A-Z, Cyrillic U+0410..U+042F (А..Я) and
    U+0400..U+040F (Ѐ..Џ, which includes Ё). Every other character is kept.
   */
  function LowerChar(c: char): char {
    if 'A' <= c <= 'Z' then (c as int + 32) as char
    else if '\U{0410}' <= c <= '\U{042F}' then (c as int + 32) as char
    else if '\U{0400}' <= c <= '\U{040F}' then (c as int + 80) as char
    else c
  }

  /** `s.lower()` */
  function Lower(s: string): (r: string)
    ensures |r| == |s|
    ensures forall i :: 0 <= i < |s| ==> r[i] == LowerChar(s[i])
  {
    seq(|s|, i requires 0 <= i < |s| => LowerChar(s[i]))
  }

  predicate IsDigit(c: char) {
    '0' <= c <= '9'
  }

  function DigitChar(d: nat): (c: char)
    requires d < 10
    ensures IsDigit(c)
  {
    (d + '0' as int) as char
  }

  /** `str(n)` for a non-negative integer */
  function DecimalString(n: nat): (r: string)
    ensures |r| > 0
    ensures forall i :: 0 <= i < |r| ==> IsDigit(r[i])
  {
    if n < 10 then [DigitChar(n)] else DecimalString(n / 10) + [DigitChar(n % 10)]
  }

  /** `int(s)` for a string of decimal digits: the partner of `DecimalString`. */
  function DecimalValue(s: string): nat
    requires forall i :: 0 <= i < |s| ==> IsDigit(s[i])
  {
    if s == [] then 0
    else
      assert IsDigit(s[|s| - 1]);
      DecimalValue(s[..|s| - 1]) * 10 + (s[|s| - 1] as int - '0' as int)
  }

  // ---------------------------------------------------------------------
  // Lemmas about the builtins
  // ---------------------------------------------------------------------

  /** `int(str(n)) == n`, so `str` on the card index is injective. */
  lemma {:induction false} DecimalRoundTrip(n: nat)
    ensures DecimalValue(DecimalString(n)) == n
  {
    var r := DecimalString(n);
    if n >= 10 {
      DecimalRoundTrip(n / 10);
      assert r[..|r| - 1] == DecimalString(n / 10);
    }
  }

  /** A pattern whose first element does not occur in `s` finds nothing in `s`. */
  lemma {:induction false} ReplaceSkipsPrefix<T>(s: seq<T>, t: seq<T>, pat: seq<T>, rep: seq<T>)
    requires |pat| > 0 && pat[0] !in s
    ensures Replace(s + t, pat, rep) == s + Replace(t, pat, rep)
    decreases |s|
  {
    if s != [] {
      assert !StartsWith(s + t, pat) by { assert (s + t)[0] == s[0]; }
      assert (s + t)[1..] == s[1..] + t;
      ReplaceSkipsPrefix(s[1..], t, pat, rep);
    } else {
      assert s + t == t;
    }
  }

  lemma ReplaceAbsent<T>(s: seq<T>, pat: seq<T>, rep: seq<T>)
    requires |pat| > 0 && pat[0] !in s
    ensures Replace(s, pat, rep) == s
  {
    ReplaceSkipsPrefix(s, [], pat, rep);
    assert s + [] == s;
  }

  /** Replacing one element distributes over concatenation. */
  lemma {:induction false} ReplaceOneConcat<T>(s: seq<T>, t: seq<T>, x: T, rep: seq<T>)
    ensures Replace(s + t, [x], rep) == Replace(s, [x], rep) + Replace(t, [x], rep)
    decreases |s|
  {
    if s == [] {
      assert s + t == t;
    } else {
      assert (s + t)[1..] == s[1..] + t;
      assert StartsWith(s + t, [x]) <==> StartsWith(s, [x]);
      ReplaceOneConcat(s[1..], t, x, rep);
    }
  }

  /** Replacing a pattern by something shorter shortens, strictly when it occurs. */
  lemma {:induction false} ReplaceShrinks<T>(s: seq<T>, pat: seq<T>, rep: seq<T>)
    requires |rep| < |pat|
    ensures |Replace(s, pat, rep)| <= |s|
    ensures Contains(s, pat) ==> |Replace(s, pat, rep)| < |s|
    decreases |s|
  {
    if StartsWith(s, pat) {
      ReplaceShrinks(s[|pat|..], pat, rep);
    } else if s != [] {
      ReplaceShrinks(s[1..], pat, rep);
    }
  }

  /** `s.replace(x, y)` for single elements maps every `x` to `y`. */
  lemma {:induction false} ReplaceOneByOne<T>(s: seq<T>, x: T, y: T)
    ensures |Replace(s, [x], [y])| == |s|
    ensures forall i :: 0 <= i < |s| ==>
      Replace(s, [x], [y])[i] == if s[i] == x then y else s[i]
    decreases |s|
  {
    if s != [] {
      ReplaceOneByOne(s[1..], x, y);
      assert StartsWith(s, [x]) <==> s[0] == x;
    }
  }

  /** `s.replace(x, '')` keeps exactly the elements different from `x`, in order. */
  lemma {:induction false} ReplaceOneByNothing<T>(s: seq<T>, x: T, keep: T -> bool)
    requires forall y :: keep(y) <==> y != x
    ensures Replace(s, [x], []) == Filter(s, keep)
    decreases |s|
  {
    if s != [] {
      ReplaceOneByNothing(s[1..], x, keep);
      assert StartsWith(s, [x]) <==> s[0] == x;
    }
  }

  lemma {:induction false} ConcatAppend<T, U>(a: seq<T>, b: seq<T>, f: T -> seq<U>)
    ensures Concat(a + b, f) == Concat(a, f) + Concat(b, f)
    decreases |b|
  {
    if b == [] {
      assert a + b == a;
    } else {
      assert (a + b)[..|a + b| - 1] == a + b[..|b| - 1];
      assert (a + b)[|a + b| - 1] == b[|b| - 1];
      ConcatAppend(a, b[..|b| - 1], f);
    }
  }

  /** One more element adds one entry, numbered after the others. */
  lemma NumberedStep<T, U>(s: seq<T>, i: nat, f: (T, nat) -> U)
    requires i < |s|
    ensures Numbered(s[..i + 1], f) == Numbered(s[..i], f) + [f(s[i], i + 1)]
  {
    assert s[..i + 1][..i] == s[..i];
  }

  /** The same step with an accumulator in front, as in a loop that appends. */
  lemma NumberedAppend<T, U>(acc: seq<U>, sofar: seq<U>, s: seq<T>, i: nat, f: (T, nat) -> U, x: U)
    requires i < |s|
    requires sofar == acc + Numbered(s[..i], f)
    requires x == f(s[i], i + 1)
    ensures sofar + [x] == acc + Numbered(s[..i + 1], f)
  {
    NumberedStep(s, i, f);
  }

  /** Entry `k` (from 0) is the `k`-th element with the number `k + 1`. */
  lemma {:induction false} NumberedIndex<T, U>(s: seq<T>, f: (T, nat) -> U, k: nat)
    requires k < |s|
    ensures Numbered(s, f)[k] == f(s[k], k + 1)
    decreases |s|
  {
    var front := s[..|s| - 1];
    if k < |front| {
      NumberedIndex(front, f, k);
      assert front[k] == s[k];
    }
  }

  lemma {:induction false} FilterConcat<T>(s: seq<T>, t: seq<T>, keep: T -> bool)
    ensures Filter(s + t, keep) == Filter(s, keep) + Filter(t, keep)
    decreases |s|
  {
    if s == [] {
      assert s + t == t;
    } else {
      assert (s + t)[1..] == s[1..] + t;
      FilterConcat(s[1..], t, keep);
    }
  }

  lemma {:induction false} FilterKeepsAll<T>(s: seq<T>, keep: T -> bool)
    requires forall i :: 0 <= i < |s| ==> keep(s[i])
    ensures Filter(s, keep) == s
    decreases |s|
  {
    if s != [] {
      FilterKeepsAll(s[1..], keep);
    }
  }

  /** `Filter` drops exactly the elements that fail `keep`, so it keeps their count. */
  lemma {:induction false} FilterMultiset<T>(s: seq<T>, keep: T -> bool)
    ensures forall x :: keep(x) ==> multiset(Filter(s, keep))[x] == multiset(s)[x]
    ensures forall x :: !keep(x) ==> multiset(Filter(s, keep))[x] == 0
    decreases |s|
  {
    if s != [] {
      FilterMultiset(s[1..], keep);
      assert s == [s[0]] + s[1..];
    }
  }

  lemma {:induction false} LowerConcat(s: string, t: string)
    ensures Lower(s + t) == Lower(s) + Lower(t)
  {
  }

  /** Lower-casing maps letters to letters and leaves everything else alone. */
  lemma LowerCharKeepsNonLetters(c: char)
    ensures LowerChar(c) != c ==>
      ('A' <= c <= 'Z' && 'a' <= LowerChar(c) <= 'z') ||
      ('\U{0400}' <= c <= '\U{042F}' && '\U{0430}' <= LowerChar(c) <= '\U{045F}')
  {
  }
}
