/** The Python `str` operations that `discover` relies on: `find`, `split(sep)`,
    `split()` on whitespace and the ordering `<=` that `list.sort` uses. Strings are
    sequences of Unicode code points, as in Python 3. */
module PyStrings {

  // ---------------------------------------------------------------------------
  // str.find
  // ---------------------------------------------------------------------------

  /** `pat` occurs in `s` starting at index `i`. */
  predicate OccursAt(s: string, pat: string, i: int) {
    0 <= i && i + |pat| <= |s| && s[i..i + |pat|] == pat
  }

  /** Python's `s.find(pat)`: the lowest index at which `pat` occurs, or -1. */
  function Find(s: string, pat: string): (r: int)
    ensures r == -1 || (0 <= r && r + |pat| <= |s|)
    ensures r == -1 <==> forall i :: 0 <= i ==> !OccursAt(s, pat, i)
    ensures r >= 0 ==> OccursAt(s, pat, r) && forall i :: 0 <= i < r ==> !OccursAt(s, pat, i)
  {
    FindFrom(s, pat, 0)
  }

  /** `s.find(pat) > 0`: the pattern occurs somewhere past the start, and not at the
      start. */
  lemma FindPositive(s: string, pat: string)
    ensures Find(s, pat) > 0 <==> !OccursAt(s, pat, 0) && exists i :: 0 < i && OccursAt(s, pat, i)
  {
    var r := Find(s, pat);
    if r <= 0 && !OccursAt(s, pat, 0) {
      assert r == -1;
    }
  }

  /** The search behind `Find`, scanning from index `k` on. */
  function FindFrom(s: string, pat: string, k: nat): (r: int)
    requires k <= |s|
    ensures r == -1 || (k <= r && r + |pat| <= |s|)
    ensures r == -1 <==> forall i :: k <= i ==> !OccursAt(s, pat, i)
    ensures r >= 0 ==> OccursAt(s, pat, r) && forall i :: k <= i < r ==> !OccursAt(s, pat, i)
    decreases |s| - k
  {
    if OccursAt(s, pat, k) then k
    else if k == |s| then -1
    else FindFrom(s, pat, k + 1)
  }

  // ---------------------------------------------------------------------------
  // str.split(sep) and sep.join
  // ---------------------------------------------------------------------------

  /** Index of the first `c` in `s`, or `|s|` when there is none. */
  function IndexOf(s: string, c: char): (i: nat)
    ensures i <= |s|
    ensures c !in s[..i]
    ensures i < |s| ==> s[i] == c
  {
    if s == [] || s[0] == c then 0 else 1 + IndexOf(s[1..], c)
  }

  /** Python's `s.split(c)` for a one-character separator: the pieces between the
      occurrences of `c`, always at least one. */
  function SplitOn(s: string, c: char): (parts: seq<string>)
    ensures |parts| >= 1
    ensures |parts| >= 2 <==> c in s
    ensures forall p :: p in parts ==> c !in p
    ensures |parts[0]| <= |s| && parts[0] == s[..|parts[0]|]
    ensures |parts[0]| == |s| || s[|parts[0]|] == c
    decreases |s|
  {
    var i := IndexOf(s, c);
    if i == |s| then [s] else [s[..i]] + SplitOn(s[i + 1..], c)
  }

  /** Python's `c.join(parts)`. */
  function Join(parts: seq<string>, c: char): string
  {
    if parts == [] then ""
    else if |parts| == 1 then parts[0]
    else parts[0] + [c] + Join(parts[1..], c)
  }

  /** Splitting and joining again gives back the original string. */
  lemma {:induction false} JoinSplitOn(s: string, c: char)
    ensures Join(SplitOn(s, c), c) == s
    decreases |s|
  {
    var i := IndexOf(s, c);
    if i < |s| {
      var parts := SplitOn(s, c);
      var tail := SplitOn(s[i + 1..], c);
      assert parts == [s[..i]] + tail;
      assert parts[1..] == tail;
      JoinSplitOn(s[i + 1..], c);
      assert Join(parts, c) == s[..i] + [c] + Join(tail, c);
      assert s == s[..i] + [c] + s[i + 1..];
    }
  }

  /** Joining separator-free pieces and splitting again gives back the pieces. */
  lemma {:induction false} SplitOnJoin(parts: seq<string>, c: char)
    requires |parts| >= 1
    requires forall p :: p in parts ==> c !in p
    ensures SplitOn(Join(parts, c), c) == parts
  {
    if |parts| > 1 {
      assert parts[0] in parts;
      assert forall p :: p in parts[1..] ==> p in parts;
      SplitOnCons(parts[0], c, Join(parts[1..], c));
      SplitOnJoin(parts[1..], c);
      assert parts == [parts[0]] + parts[1..];
    }
  }

  /** A separator-free piece, the separator and a rest split into that piece followed
      by the pieces of the rest. */
  lemma SplitOnCons(a: string, c: char, rest: string)
    requires c !in a
    ensures SplitOn(a + [c] + rest, c) == [a] + SplitOn(rest, c)
  {
    var s := a + [c] + rest;
    IndexOfAfter(a, c, rest);
    assert s[..|a|] == a;
    assert s[|a| + 1..] == rest;
  }

  /** The first two pieces of a string with a separator: the text before the first
      separator, and the first piece of the text after it. */
  lemma SplitOnSecond(s: string, c: char)
    requires c in s
    ensures IndexOf(s, c) < |s|
    ensures SplitOn(s, c)[0] == s[..IndexOf(s, c)]
    ensures SplitOn(s, c)[1] == SplitOn(s[IndexOf(s, c) + 1..], c)[0]
  {
    var d := IndexOf(s, c);
    assert SplitOn(s, c) == [s[..d]] + SplitOn(s[d + 1..], c);
  }

  /** The first `c` in `a + [c] + b` is the one after `a` when `a` has none. */
  lemma {:induction false} IndexOfAfter(a: string, c: char, b: string)
    requires c !in a
    ensures IndexOf(a + [c] + b, c) == |a|
  {
    if a != [] {
      assert (a + [c] + b)[1..] == a[1..] + [c] + b;
      IndexOfAfter(a[1..], c, b);
    }
  }

  // ---------------------------------------------------------------------------
  // str.split() with no argument
  // ---------------------------------------------------------------------------

  /** The characters for which Python's `str.isspace` holds, and on which `str.split()`
      with no argument breaks a string. */
  predicate IsSpace(ch: char) {
    ('\t' <= ch <= '\r') || ('\U{1C}' <= ch <= '\U{1F}') || ch == ' '
    || ch == '\U{85}' || ch == '\U{A0}' || ch == '\U{1680}'
    || ('\U{2000}' <= ch <= '\U{200A}') || ch == '\U{2028}' || ch == '\U{2029}'
    || ch == '\U{202F}' || ch == '\U{205F}' || ch == '\U{3000}'
  }

  predicate NoSpace(s: string) {
    forall k :: 0 <= k < |s| ==> !IsSpace(s[k])
  }

  predicate AllSpace(s: string) {
    forall k :: 0 <= k < |s| ==> IsSpace(s[k])
  }

  /** `s` with its leading whitespace removed. */
  function DropSpace(s: string): (t: string)
    ensures |t| <= |s| && t == s[|s| - |t|..]
    ensures AllSpace(s[..|s| - |t|])
    ensures t == [] || !IsSpace(t[0])
  {
    if s == [] || !IsSpace(s[0]) then s else DropSpace(s[1..])
  }

  /** Length of the run of non-whitespace characters that starts `s`. */
  function WordLen(s: string): (n: nat)
    ensures n <= |s|
    ensures NoSpace(s[..n])
    ensures n == |s| || IsSpace(s[n])
  {
    if s == [] || IsSpace(s[0]) then 0 else 1 + WordLen(s[1..])
  }

  /** Python's `s.split()`: the maximal runs of non-whitespace characters, in order. */
  function SplitWhitespace(s: string): seq<string>
    decreases |s|
  {
    var t := DropSpace(s);
    if t == [] then []
    else
      var n := WordLen(t);
      [t[..n]] + SplitWhitespace(t[n..])
  }

  /** Every field is non-empty and free of whitespace. */
  lemma {:induction false} SplitWhitespaceFields(s: string)
    ensures forall f :: f in SplitWhitespace(s) ==> IsField(f)
    decreases |s|
  {
    var t := DropSpace(s);
    if t != [] {
      var n := WordLen(t);
      SplitWhitespaceFields(t[n..]);
      assert SplitWhitespace(s) == [t[..n]] + SplitWhitespace(t[n..]);
    }
  }

  /** A string splits into no fields exactly when it is all whitespace. */
  lemma {:induction false} SplitWhitespaceEmpty(s: string)
    ensures SplitWhitespace(s) == [] <==> AllSpace(s)
  {
    var t := DropSpace(s);
    if t == [] {
      assert s[..|s|] == s;
    } else {
      assert SplitWhitespace(s) != [];
      assert !IsSpace(s[|s| - |t|]);
    }
  }

  /** Whitespace in front does not change the fields. */
  lemma {:induction false} SplitWhitespaceSkipsSpace(ch: char, s: string)
    requires IsSpace(ch)
    ensures SplitWhitespace([ch] + s) == SplitWhitespace(s)
  {
    assert ([ch] + s)[1..] == s;
    assert DropSpace([ch] + s) == DropSpace(s);
  }

  /** A whitespace-free word followed by whitespace (or nothing) is the first field. */
  lemma SplitWhitespaceWord(f: string, rest: string)
    requires IsField(f)
    requires rest == [] || IsSpace(rest[0])
    ensures SplitWhitespace(f + rest) == [f] + SplitWhitespace(rest)
  {
    var s := f + rest;
    assert s[0] == f[0];
    assert DropSpace(s) == s;
    assert s[..|f|] == f && s[|f|..] == rest;
    assert WordLen(s) == |f|;
  }

  /** A field of `str.split()`: non-empty and free of whitespace. */
  predicate IsField(f: string) {
    f != [] && NoSpace(f)
  }

  /** The first of several joined fields splits off as the first field. */
  lemma SplitWhitespaceJoinCons(fields: seq<string>)
    requires |fields| >= 2 && IsField(fields[0])
    ensures SplitWhitespace(Join(fields, ' ')) == [fields[0]] + SplitWhitespace(Join(fields[1..], ' '))
  {
    var rest := Join(fields[1..], ' ');
    assert Join(fields, ' ') == fields[0] + ([' '] + rest);
    SplitWhitespaceWord(fields[0], [' '] + rest);
    SplitWhitespaceSkipsSpace(' ', rest);
  }

  /** Joining non-empty, whitespace-free fields with a blank and splitting the result
      on whitespace gives back the fields. */
  lemma {:induction false} SplitWhitespaceJoin(fields: seq<string>)
    requires forall f :: f in fields ==> IsField(f)
    ensures SplitWhitespace(Join(fields, ' ')) == fields
  {
    if fields == [] {
      assert DropSpace("") == "";
    } else if |fields| == 1 {
      assert fields[0] in fields;
      SplitWhitespaceWord(fields[0], "");
      assert fields[0] + "" == fields[0];
      assert DropSpace("") == "";
    } else {
      var tail := fields[1..];
      assert fields == [fields[0]] + tail;
      assert fields[0] in fields;
      assert forall g :: g in tail ==> g in fields;
      SplitWhitespaceJoinCons(fields);
      SplitWhitespaceJoin(tail);
    }
  }

  // ---------------------------------------------------------------------------
  // The ordering of str
  // ---------------------------------------------------------------------------

  /** Python's `a <= b` on `str`: lexicographic by code point, a proper prefix first. */
  predicate LexLe(a: string, b: string)
    decreases |a|
  {
    a == [] || (b != [] && (a[0] < b[0] || (a[0] == b[0] && LexLe(a[1..], b[1..]))))
  }

  lemma {:induction false} LexLeRefl(a: string)
    ensures LexLe(a, a)
  {
    if a != [] { LexLeRefl(a[1..]); }
  }

  lemma {:induction false} LexLeTotal(a: string, b: string)
    ensures LexLe(a, b) || LexLe(b, a)
  {
    if a != [] && b != [] && a[0] == b[0] { LexLeTotal(a[1..], b[1..]); }
  }

  lemma {:induction false} LexLeAntisym(a: string, b: string)
    requires LexLe(a, b) && LexLe(b, a)
    ensures a == b
  {
    if a != [] {
      LexLeAntisym(a[1..], b[1..]);
      assert a == [a[0]] + a[1..] && b == [b[0]] + b[1..];
    }
  }

  lemma {:induction false} LexLeTrans(a: string, b: string, c: string)
    requires LexLe(a, b) && LexLe(b, c)
    ensures LexLe(a, c)
  {
    if a != [] && a[0] == b[0] && b[0] == c[0] {
      LexLeTrans(a[1..], b[1..], c[1..]);
    }
  }
}
