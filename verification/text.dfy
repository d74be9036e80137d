/**
  Helpers the source takes from Python: the `str` operations `in` (substring test),
  `strip`, `lower`, `endswith`, `' '.join` and `title`; slicing with integer bounds; and
  `os.path.basename` / `os.path.join` on POSIX paths. Only the ASCII behaviour of `strip`,
  `lower` and `title` is modelled.
 */
module Text {

  /** Python's `str.isspace` restricted to ASCII: space, \t, \n, \v, \f, \r and the four
      information separators. */
  predicate IsSpace(c: char) {
    c == ' ' || c == '\t' || c == '\n' || c == '\r' || c == '\U{0B}' || c == '\U{0C}'
    || c == '\U{1C}' || c == '\U{1D}' || c == '\U{1E}' || c == '\U{1F}'
  }

  predicate AllSpace(s: string) {
    forall k :: 0 <= k < |s| ==> IsSpace(s[k])
  }

  /** Leading whitespace removed: what is removed is whitespace and what is left starts
      with a non-space character taken from `s`. */
  function TrimLeft(s: string): (r: string)
    ensures |r| <= |s|
    ensures forall k :: 0 <= k < |s| - |r| ==> IsSpace(s[k])
    ensures r != [] ==> !IsSpace(r[0]) && r[0] == s[|s| - |r|]
    decreases |s|
  {
    if s != [] && IsSpace(s[0]) then TrimLeft(s[1..]) else s
  }

  /** Trailing whitespace removed: what is removed is whitespace and what is left keeps the
      first character of `s` and ends with a non-space character taken from `s`. */
  function TrimRight(s: string): (r: string)
    ensures |r| <= |s|
    ensures forall k :: |r| <= k < |s| ==> IsSpace(s[k])
    ensures r != [] ==> !IsSpace(r[|r| - 1]) && r[0] == s[0] && r[|r| - 1] == s[|r| - 1]
    decreases |s|
  {
    if s != [] && IsSpace(s[|s| - 1]) then TrimRight(s[..|s| - 1]) else s
  }

  /** What `TrimLeft` keeps is a suffix of its input. */
  lemma {:induction false} TrimLeftIsSuffix(s: string)
    ensures TrimLeft(s) == s[|s| - |TrimLeft(s)|..]
    decreases |s|
  {
    if s != [] && IsSpace(s[0]) {
      TrimLeftIsSuffix(s[1..]);
    }
  }

  /** What `TrimRight` keeps is a prefix of its input. */
  lemma {:induction false} TrimRightIsPrefix(s: string)
    ensures TrimRight(s) == s[..|TrimRight(s)|]
    decreases |s|
  {
    if s != [] && IsSpace(s[|s| - 1]) {
      TrimRightIsPrefix(s[..|s| - 1]);
    }
  }

  /** Python's `s.strip()`: the result is empty exactly when `s` is all whitespace, and
      otherwise it neither starts nor ends with whitespace. */
  function Strip(s: string): (r: string)
    ensures |r| <= |s|
    ensures r == [] <==> AllSpace(s)
    ensures r != [] ==> !IsSpace(r[0]) && !IsSpace(r[|r| - 1])
  {
    var l := TrimLeft(s);
    var r := TrimRight(l);
    assert r == [] ==> l == [] by {
      if l != [] { assert !IsSpace(l[0]); }
    }
    r
  }

  /** `strip` removes whitespace only, and only at the two ends: its result occurs in `s`
      between a run of whitespace before it and a run of whitespace after it. */
  lemma StripKeepsMiddle(s: string)
    ensures var r := Strip(s);
      exists i :: OccursAt(s, r, i) && AllSpace(s[..i]) && AllSpace(s[i + |r|..])
  {
    var l := TrimLeft(s);
    var r := TrimRight(l);
    TrimLeftIsSuffix(s);
    TrimRightIsPrefix(l);
    var i := |s| - |l|;
    assert s[i..i + |r|] == r;
    assert AllSpace(s[..i]);
    assert forall k :: i + |r| <= k < |s| ==> s[k] == l[k - i];
    assert AllSpace(s[i + |r|..]);
    assert OccursAt(s, r, i);
  }

  /** `p` occurs in `s` starting at position `i`. */
  predicate OccursAt<T(==)>(s: seq<T>, p: seq<T>, i: int) {
    0 <= i && i + |p| <= |s| && s[i..i + |p|] == p
  }

  function ContainsFrom<T(==)>(s: seq<T>, p: seq<T>, from: nat): (b: bool)
    ensures b <==> exists i :: from <= i && OccursAt(s, p, i)
    decreases |s| - from
  {
    if from + |p| > |s| then false
    else if s[from..from + |p|] == p then assert OccursAt(s, p, from); true
    else ContainsFrom(s, p, from + 1)
  }

  /** Python's `p in s` for strings. */
  function Contains<T(==)>(s: seq<T>, p: seq<T>): (b: bool)
    ensures b <==> exists i :: OccursAt(s, p, i)
  {
    ContainsFrom(s, p, 0)
  }

  /** Python's `s.endswith(suffix)`. */
  predicate EndsWith(s: string, suffix: string) {
    |suffix| <= |s| && s[|s| - |suffix|..] == suffix
  }

  /** Python's `sep.join(parts)`. */
  function Join(sep: string, parts: seq<string>): string
    decreases |parts|
  {
    if |parts| == 0 then ""
    else if |parts| == 1 then parts[0]
    else parts[0] + sep + Join(sep, parts[1..])
  }

  /** The concatenation of `f(x)` over `xs`, in order: Python's
      `[y for x in xs for y in f(x)]`. */
  function ConcatMap<T, U>(f: T -> seq<U>, xs: seq<T>): seq<U> {
    if xs == [] then [] else f(xs[0]) + ConcatMap(f, xs[1..])
  }

  /** Concatenating over a split sequence concatenates the two parts' results. */
  lemma {:induction false} ConcatMapAppend<T, U>(f: T -> seq<U>, a: seq<T>, b: seq<T>)
    ensures ConcatMap(f, a + b) == ConcatMap(f, a) + ConcatMap(f, b)
  {
    if a == [] {
      assert a + b == b;
    } else {
      assert (a + b)[0] == a[0] && (a + b)[1..] == a[1..] + b;
      ConcatMapAppend(f, a[1..], b);
    }
  }

  /** Over a single element, the concatenation is that element's part. */
  lemma ConcatMapSingle<T, U>(f: T -> seq<U>, x: T)
    ensures ConcatMap(f, [x]) == f(x)
  {
    assert [x][1..] == [];
  }

  /** What holds of every element of every part holds of every element of the whole. */
  lemma {:induction false} ConcatMapAll<T, U>(f: T -> seq<U>, xs: seq<T>, P: U -> bool)
    requires forall x, k :: x in xs && 0 <= k < |f(x)| ==> P(f(x)[k])
    ensures forall k :: 0 <= k < |ConcatMap(f, xs)| ==> P(ConcatMap(f, xs)[k])
  {
    if xs != [] {
      assert forall x :: x in xs[1..] ==> x in xs;
      ConcatMapAll(f, xs[1..], P);
      var head, tail := f(xs[0]), ConcatMap(f, xs[1..]);
      assert ConcatMap(f, xs) == head + tail;
      forall k | 0 <= k < |head + tail|
        ensures P((head + tail)[k])
      {
        if k < |head| {
          assert (head + tail)[k] == head[k];
        } else {
          assert (head + tail)[k] == tail[k - |head|];
        }
      }
    }
  }

  /** When every part has at most one element, the whole is no longer than `xs`. */
  lemma {:induction false} ConcatMapShort<T, U>(f: T -> seq<U>, xs: seq<T>)
    requires forall x :: x in xs ==> |f(x)| <= 1
    ensures |ConcatMap(f, xs)| <= |xs|
  {
    if xs != [] {
      assert forall x :: x in xs[1..] ==> x in xs;
      ConcatMapShort(f, xs[1..]);
    }
  }

  predicate IsLower(c: char) { 'a' <= c <= 'z' }
  predicate IsUpper(c: char) { 'A' <= c <= 'Z' }

  function TitleFrom(s: string, afterCased: bool): string
    decreases |s|
  {
    if s == [] then []
    else
      var c := s[0];
      var c' := if IsLower(c) && !afterCased then (c as int - 32) as char
                else if IsUpper(c) && afterCased then (c as int + 32) as char
                else c;
      [c'] + TitleFrom(s[1..], IsLower(c) || IsUpper(c))
  }

  /** Python's `s.title()` on ASCII: a letter is upper-cased after a non-letter and
      lower-cased after a letter. */
  function Title(s: string): string {
    TitleFrom(s, false)
  }

  function LowerChar(c: char): char {
    if IsUpper(c) then (c as int + 32) as char else c
  }

  /** Python's `s.lower()` on ASCII: every upper-case letter replaced by its lower-case
      partner, nothing else changed. */
  function Lower(s: string): (r: string)
    ensures |r| == |s|
    ensures forall k :: 0 <= k < |r| ==> !IsUpper(r[k])
    ensures forall k :: 0 <= k < |s| && !IsUpper(s[k]) ==> r[k] == s[k]
    ensures forall k :: 0 <= k < |s| && IsUpper(s[k]) ==> r[k] as int == s[k] as int + 32
  {
    seq(|s|, k requires 0 <= k < |s| => LowerChar(s[k]))
  }

  /** Lower-casing twice is lower-casing once. */
  lemma LowerIdempotent(s: string)
    ensures Lower(Lower(s)) == Lower(s)
  {
  }

  /** Where a Python slice bound `k` lands in a sequence of length `n`: counted from the
      end when negative, then clamped to `[0, n]`. */
  function SliceIndex(k: int, n: nat): (i: nat)
    ensures i <= n
    ensures 0 <= k <= n ==> i == k
    ensures k < 0 && -k <= n ==> i == n + k
    ensures k > n ==> i == n
    ensures k + n < 0 ==> i == 0
  {
    if k < 0 then (if k + n < 0 then 0 else k + n)
    else if k > n then n
    else k
  }

  /** Python's `s[start:end]`: empty when the normalised bounds cross. */
  function PySlice<T>(s: seq<T>, start: int, end: int): (r: seq<T>)
    ensures var a, b := SliceIndex(start, |s|), SliceIndex(end, |s|);
      |r| == (if a <= b then b - a else 0)
    ensures forall k :: 0 <= k < |r| ==>
      SliceIndex(start, |s|) + k < |s| && r[k] == s[SliceIndex(start, |s|) + k]
  {
    var a := SliceIndex(start, |s|);
    var b := SliceIndex(end, |s|);
    if a < b then s[a..b] else []
  }

  /** `os.path.join(dir, name)` for a non-empty directory without a trailing slash. */
  function JoinPath(dir: string, name: string): string {
    dir + "/" + name
  }

  /** `os.path.basename(p)`: everything after the last `/`. */
  function Basename(p: string): string
    decreases |p|
  {
    if |p| == 0 then ""
    else if p[|p| - 1] == '/' then ""
    else Basename(p[..|p| - 1]) + [p[|p| - 1]]
  }

  /** The base name of a joined path is the name joined on, when the name holds no `/`
      (as every entry `os.listdir` returns). */
  lemma {:induction false} BasenameOfJoin(dir: string, name: string)
    requires '/' !in name
    ensures Basename(JoinPath(dir, name)) == name
    decreases |name|
  {
    var p := JoinPath(dir, name);
    if |name| == 0 {
      assert p[|p| - 1] == '/';
    } else {
      var last := name[|name| - 1];
      assert p[..|p| - 1] == JoinPath(dir, name[..|name| - 1]);
      assert last in name;
      BasenameOfJoin(dir, name[..|name| - 1]);
      assert name == name[..|name| - 1] + [last];
    }
  }
}
