/**
 * String primitives with the meaning the PHP built-ins used by the parser
 * give them: ASCII case maps (strtolower, strtoupper, strcasecmp), search
 * (strpos, stristr), replacement (str_replace), trimming (trim), splitting
 * and joining (explode, implode), repetition (str_repeat) and ucwords.
 * Strings are sequences of code points; no byte encoding is modelled.
 */
module Text {

  datatype Option<T> = None | Some(value: T)

  /** PHP's `$x ?? ''`, and the coercion of `false` to `''` by `trim`. */
  function OrEmpty(o: Option<string>): string
  {
    if o.Some? then o.value else ""
  }

  /** The characters `trim` strips when it is given no character list. */
  const Whitespace: set<char> := {' ', '\t', '\n', '\r', '\U{0}', '\U{B}'}

  /** The word delimiters `ucwords` uses when it is given none. */
  const WordDelimiters: set<char> := {' ', '\t', '\r', '\n', '\U{C}', '\U{B}'}

  // ---------------------------------------------------------------------
  // Case maps

  function LowerChar(c: char): char
  {
    if 'A' <= c <= 'Z' then (c as int + 32) as char else c
  }

  function UpperChar(c: char): char
  {
    if 'a' <= c <= 'z' then (c as int - 32) as char else c
  }

  /** `strtolower`: maps the ASCII upper-case letters only. */
  function Lower(s: string): string
  {
    seq(|s|, i requires 0 <= i < |s| => LowerChar(s[i]))
  }

  /** `strtoupper`: maps the ASCII lower-case letters only. */
  function Upper(s: string): string
  {
    seq(|s|, i requires 0 <= i < |s| => UpperChar(s[i]))
  }

  /** `strcasecmp(a, b) == 0`. */
  predicate EqualsIgnoreCase(a: string, b: string)
  {
    Lower(a) == Lower(b)
  }

  lemma CharFoldsAgree(x: char, y: char)
    ensures LowerChar(x) == LowerChar(y) <==> UpperChar(x) == UpperChar(y)
  {
  }

  /** Two strings agree ignoring case exactly when their upper-case forms agree. */
  lemma FoldsAgree(a: string, b: string)
    ensures EqualsIgnoreCase(a, b) <==> Upper(a) == Upper(b)
  {
    if |a| == |b| {
      forall i | 0 <= i < |a|
        ensures Lower(a)[i] == Lower(b)[i] <==> Upper(a)[i] == Upper(b)[i]
      {
        CharFoldsAgree(a[i], b[i]);
      }
      if Lower(a) == Lower(b) {
        assert forall i | 0 <= i < |a| :: Lower(a)[i] == Lower(b)[i];
      } else {
        var i :| 0 <= i < |a| && Lower(a)[i] != Lower(b)[i];
        assert Upper(a)[i] != Upper(b)[i];
      }
    }
  }

  // ---------------------------------------------------------------------
  // Search

  /** `pat` occurs in `s` at index `i`. */
  predicate OccursAt(s: string, pat: string, i: int)
  {
    0 <= i && i + |pat| <= |s| && s[i..i + |pat|] == pat
  }

  /** The first occurrence of `pat` in `s` at or after `from`, or -1. */
  function IndexFrom(s: string, pat: string, from: nat): (r: int)
    ensures r == -1 || (from <= r && OccursAt(s, pat, r))
    ensures forall j :: from <= j && (r == -1 || j < r) ==> !OccursAt(s, pat, j)
    decreases |s| - from
  {
    if from + |pat| > |s| then -1
    else if s[from..from + |pat|] == pat then from
    else IndexFrom(s, pat, from + 1)
  }

  /** `strpos($s, $pat)`, with -1 standing for `false`. */
  function IndexOf(s: string, pat: string): int
  {
    IndexFrom(s, pat, 0)
  }

  /** `strpos($s, $pat) !== false`. */
  predicate Contains(s: string, pat: string)
  {
    IndexOf(s, pat) >= 0
  }

  /** Searching for a one-character needle is membership. */
  lemma ContainsChar(s: string, c: char)
    ensures Contains(s, [c]) <==> c in s
  {
    if c in s {
      var i :| 0 <= i < |s| && s[i] == c;
      assert s[i..i + 1] == [c];
      assert OccursAt(s, [c], i);
    }
    if Contains(s, [c]) {
      var k := IndexOf(s, [c]);
      assert s[k..k + 1] == [c];
      assert s[k] == c;
    }
  }

  /** An occurrence seen in a suffix is an occurrence in the whole string. */
  lemma OccursInSuffix(s: string, pat: string, k: nat, i: int)
    requires k <= |s|
    ensures OccursAt(s[k..], pat, i) <==> (0 <= i && OccursAt(s, pat, k + i))
  {
    if 0 <= i && k + i + |pat| <= |s| {
      assert s[k..][i..i + |pat|] == s[k + i..k + i + |pat|];
    }
  }

  /** An occurrence seen in a prefix is an occurrence in the whole string. */
  lemma OccursInPrefix(s: string, pat: string, n: nat, i: int)
    requires n <= |s|
    ensures OccursAt(s[..n], pat, i) <==> (OccursAt(s, pat, i) && i + |pat| <= n)
  {
    if 0 <= i && i + |pat| <= n {
      assert s[..n][i..i + |pat|] == s[i..i + |pat|];
    }
  }

  /** `stristr($h, $n)`: the tail of `h` from the first case-insensitive occurrence of `n`, or `false`. */
  function StrIStr(h: string, n: string): Option<string>
  {
    var k := IndexOf(Lower(h), Lower(n));
    if k < 0 then None else Some(h[k..])
  }

  /** `stristr($h, $n, true)`: the part of `h` before the first case-insensitive occurrence of `n`, or `false`. */
  function StrIStrBefore(h: string, n: string): Option<string>
  {
    var k := IndexOf(Lower(h), Lower(n));
    if k < 0 then None else Some(h[..k])
  }

  /** The first index of `c` in `s`, or -1. */
  function IndexOfChar(s: string, c: char): (r: int)
    ensures -1 <= r < |s|
    ensures r >= 0 ==> s[r] == c
    ensures forall j :: 0 <= j < |s| && (r == -1 || j < r) ==> s[j] != c
  {
    if s == [] then -1
    else if s[0] == c then 0
    else var r := IndexOfChar(s[1..], c); if r < 0 then -1 else r + 1
  }

  /** The last index of `c` in `s`, or -1. */
  function LastIndexOf(s: string, c: char): (r: int)
    ensures -1 <= r < |s|
    ensures r >= 0 ==> s[r] == c
    ensures forall j :: r < j < |s| ==> s[j] != c
  {
    if s == [] then -1
    else if s[|s| - 1] == c then |s| - 1
    else LastIndexOf(s[..|s| - 1], c)
  }

  /** The last `c` of a suffix is the last `c` of the whole text, when that lies in the suffix. */
  lemma LastIndexOfSuffix(s: string, c: char, a: int)
    requires 0 <= a <= |s|
    ensures var r := LastIndexOf(s, c);
            LastIndexOf(s[a..], c) == if r >= a then r - a else -1
  {
    var r := LastIndexOf(s, c);
    var t := s[a..];
    var r2 := LastIndexOf(t, c);
    if r2 >= 0 {
      assert s[a + r2] == t[r2];
    }
    if r >= a {
      assert t[r - a] == s[r];
    }
  }

  /** The index of the first newline at or after `from`, or `|s|`: where a PCRE `.*` started at `from` must stop. */
  function LineEnd(s: string, from: nat): (e: nat)
    requires from <= |s|
    ensures from <= e <= |s|
    ensures e < |s| ==> s[e] == '\n'
    ensures forall k :: from <= k < e ==> s[k] != '\n'
    decreases |s| - from
  {
    if from == |s| || s[from] == '\n' then from else LineEnd(s, from + 1)
  }

  lemma LineEndNoNewline(s: string, from: nat)
    requires from <= |s| && '\n' !in s
    ensures LineEnd(s, from) == |s|
  {
  }

  // ---------------------------------------------------------------------
  // Replacement

  /** `str_replace($pat, $rep, $s)`: every occurrence, scanning left to right without overlap. */
  function ReplaceAll(s: string, pat: string, rep: string): string
    decreases |s|
  {
    if pat == [] || |s| < |pat| then s
    else if s[..|pat|] == pat then rep + ReplaceAll(s[|pat|..], pat, rep)
    else [s[0]] + ReplaceAll(s[1..], pat, rep)
  }

  /** Replacing by a shorter text never lengthens, and shortens whenever there is an occurrence. */
  lemma {:induction false} ReplaceAllShorter(s: string, pat: string, rep: string)
    requires pat != [] && |rep| < |pat|
    ensures |ReplaceAll(s, pat, rep)| <= |s|
    ensures Contains(s, pat) ==> |ReplaceAll(s, pat, rep)| < |s|
    decreases |s|
  {
    if |s| < |pat| {
    } else if s[..|pat|] == pat {
      ReplaceAllShorter(s[|pat|..], pat, rep);
    } else {
      ReplaceAllShorter(s[1..], pat, rep);
      if Contains(s, pat) {
        var i := IndexOf(s, pat);
        assert i != 0 by { assert s[0..|pat|] == s[..|pat|]; }
        OccursInSuffix(s, pat, 1, i - 1);
        assert OccursAt(s[1..], pat, i - 1);
      }
    }
  }

  /** A string without the pattern is left as it is. */
  lemma {:induction false} ReplaceAllAbsent(s: string, pat: string, rep: string)
    requires !Contains(s, pat)
    ensures ReplaceAll(s, pat, rep) == s
    decreases |s|
  {
    if pat == [] || |s| < |pat| {
    } else {
      assert !OccursAt(s, pat, 0);
      assert s[..|pat|] == s[0..|pat|];
      forall i ensures !OccursAt(s[1..], pat, i) {
        OccursInSuffix(s, pat, 1, i);
      }
      ReplaceAllAbsent(s[1..], pat, rep);
      assert s == [s[0]] + s[1..];
    }
  }

  /** `str_replace($c, '', $s)` for a one-character needle. */
  function RemoveChar(s: string, c: char): (r: string)
    ensures c !in r
    ensures forall x :: x != c ==> (x in r <==> x in s)
    ensures |r| <= |s|
  {
    if s == [] then []
    else (if s[0] == c then [] else [s[0]]) + RemoveChar(s[1..], c)
  }

  /** `str_replace($a, $b, $s)` for one-character needle and replacement. */
  function ReplaceChar(s: string, a: char, b: char): string
  {
    seq(|s|, i requires 0 <= i < |s| => if s[i] == a then b else s[i])
  }

  // ---------------------------------------------------------------------
  // Trimming

  /** `ltrim($s, $cs)`: drops the longest prefix made of characters of `cs`. */
  function TrimLeft(s: string, cs: set<char>): (r: string)
    ensures |r| <= |s| && r == s[|s| - |r|..]
    ensures forall i :: 0 <= i < |s| - |r| ==> s[i] in cs
    ensures r != [] ==> r[0] !in cs
  {
    if s != [] && s[0] in cs then TrimLeft(s[1..], cs) else s
  }

  /** `rtrim($s, $cs)`: drops the longest suffix made of characters of `cs`. */
  function TrimRight(s: string, cs: set<char>): (r: string)
    ensures |r| <= |s| && r == s[..|r|]
    ensures forall i :: |r| <= i < |s| ==> s[i] in cs
    ensures r != [] ==> r[|r| - 1] !in cs
  {
    if s != [] && s[|s| - 1] in cs then TrimRight(s[..|s| - 1], cs) else s
  }

  /** `trim($s, $cs)`. */
  function Trim(s: string, cs: set<char>): string
  {
    TrimRight(TrimLeft(s, cs), cs)
  }

  /**
   * `core` is what is left of `s` once `a` characters, all from `cs`, are cut
   * from its front and a run of `cs` characters from its back, and `core`
   * itself neither starts nor ends with a `cs` character.
   */
  ghost predicate TrimmedAt(core: string, s: string, cs: set<char>, a: int)
  {
    0 <= a <= |s| - |core| && s[a..a + |core|] == core
    && (forall i :: 0 <= i < a ==> s[i] in cs)
    && (forall i :: a + |core| <= i < |s| ==> s[i] in cs)
    && (core != [] ==> core[0] !in cs && core[|core| - 1] !in cs)
  }

  /** `core` is `s` with every leading and trailing `cs` character cut, and nothing else. */
  ghost predicate IsTrimOf(core: string, s: string, cs: set<char>)
  {
    exists a :: TrimmedAt(core, s, cs, a)
  }

  /** `Trim` cuts exactly the runs of `cs` characters at both ends. */
  lemma TrimShape(s: string, cs: set<char>)
    ensures IsTrimOf(Trim(s, cs), s, cs)
  {
    var l := TrimLeft(s, cs);
    TrimmedFromParts(s, l, TrimRight(l, cs), cs);
  }

  /** A left cut `l` of `s` and a right cut `r` of `l` make a trim of `s`. */
  lemma TrimmedFromParts(s: string, l: string, r: string, cs: set<char>)
    requires |l| <= |s| && l == s[|s| - |l|..]
    requires forall i :: 0 <= i < |s| - |l| ==> s[i] in cs
    requires l != [] ==> l[0] !in cs
    requires |r| <= |l| && r == l[..|r|]
    requires forall i :: |r| <= i < |l| ==> l[i] in cs
    requires r != [] ==> r[|r| - 1] !in cs
    ensures TrimmedAt(r, s, cs, |s| - |l|)
  {
    var a := |s| - |l|;
    forall i | 0 <= i < |r| ensures s[a..a + |r|][i] == r[i] {
      assert r[i] == l[i] == s[a + i];
    }
    forall i | a + |r| <= i < |s| ensures s[i] in cs {
      assert s[i] == l[i - a];
    }
    if r != [] {
      assert r[0] == l[0];
    }
  }

  /** A trimmed core holds only characters of `s`, and every character of `s` outside `cs`. */
  lemma TrimmedKeeps(core: string, s: string, cs: set<char>, a: int)
    requires TrimmedAt(core, s, cs, a)
    ensures forall x :: x in core ==> x in s
    ensures forall x :: x in s && x !in cs ==> x in core
  {
    forall x | x in core ensures x in s {
      var i :| 0 <= i < |core| && core[i] == x;
      assert s[a + i] == x;
    }
    forall x | x in s && x !in cs ensures x in core {
      var i :| 0 <= i < |s| && s[i] == x;
      assert core[i - a] == x;
    }
  }

  lemma TrimKeeps(s: string, cs: set<char>)
    ensures forall x :: x in Trim(s, cs) ==> x in s
    ensures forall x :: x in s && x !in cs ==> x in Trim(s, cs)
  {
    TrimShape(s, cs);
    var a :| TrimmedAt(Trim(s, cs), s, cs, a);
    TrimmedKeeps(Trim(s, cs), s, cs, a);
  }

  /** A string that neither starts nor ends with a `cs` character is its own trim. */
  lemma TrimFixed(s: string, cs: set<char>)
    requires s != [] ==> s[0] !in cs && s[|s| - 1] !in cs
    ensures Trim(s, cs) == s
  {
  }

  /** Any occurrence makes `strpos` succeed. */
  lemma OccursContains(s: string, pat: string, i: int)
    requires OccursAt(s, pat, i)
    ensures Contains(s, pat)
  {
  }

  /** An occurrence starts with the needle's first character and ends with its last. */
  lemma OccursEnds(s: string, pat: string, i: int)
    requires OccursAt(s, pat, i) && pat != []
    ensures s[i] == pat[0] && s[i + |pat| - 1] == pat[|pat| - 1]
  {
    assert s[i..i + |pat|][0] == s[i];
    assert s[i..i + |pat|][|pat| - 1] == s[i + |pat| - 1];
  }

  /** Dropping a prefix of `cs` characters keeps the occurrences of a needle that starts outside `cs`. */
  lemma ContainsAfterPrefix(s: string, pat: string, cs: set<char>, a: int)
    requires 0 <= a <= |s| && pat != [] && pat[0] !in cs
    requires forall j :: 0 <= j < a ==> s[j] in cs
    ensures Contains(s[a..], pat) <==> Contains(s, pat)
  {
    if Contains(s[a..], pat) {
      var p := IndexOf(s[a..], pat);
      OccursInSuffix(s, pat, a, p);
      OccursContains(s, pat, a + p);
    }
    if Contains(s, pat) {
      var i := IndexOf(s, pat);
      OccursEnds(s, pat, i);
      OccursInSuffix(s, pat, a, i - a);
      OccursContains(s[a..], pat, i - a);
    }
  }

  /** Dropping a suffix of `cs` characters keeps the occurrences of a needle that ends outside `cs`. */
  lemma ContainsBeforeSuffix(s: string, pat: string, cs: set<char>, n: int)
    requires 0 <= n <= |s| && pat != [] && pat[|pat| - 1] !in cs
    requires forall j :: n <= j < |s| ==> s[j] in cs
    ensures Contains(s[..n], pat) <==> Contains(s, pat)
  {
    if Contains(s[..n], pat) {
      var p := IndexOf(s[..n], pat);
      OccursInPrefix(s, pat, n, p);
      OccursContains(s, pat, p);
    }
    if Contains(s, pat) {
      var i := IndexOf(s, pat);
      OccursEnds(s, pat, i);
      OccursInPrefix(s, pat, n, i);
      OccursContains(s[..n], pat, i);
    }
  }

  lemma ContainsTrimLeft(s: string, pat: string, cs: set<char>)
    requires pat != [] && pat[0] !in cs
    ensures Contains(TrimLeft(s, cs), pat) <==> Contains(s, pat)
  {
    var l := TrimLeft(s, cs);
    ContainsAfterPrefix(s, pat, cs, |s| - |l|);
  }

  lemma ContainsTrimRight(s: string, pat: string, cs: set<char>)
    requires pat != [] && pat[|pat| - 1] !in cs
    ensures Contains(TrimRight(s, cs), pat) <==> Contains(s, pat)
  {
    var r := TrimRight(s, cs);
    ContainsBeforeSuffix(s, pat, cs, |r|);
  }

  /** Trimming keeps the occurrences of a needle that starts and ends outside `cs`. */
  lemma ContainsTrim(s: string, pat: string, cs: set<char>)
    requires pat != [] && pat[0] !in cs && pat[|pat| - 1] !in cs
    ensures Contains(Trim(s, cs), pat) <==> Contains(s, pat)
  {
    ContainsTrimLeft(s, pat, cs);
    ContainsTrimRight(TrimLeft(s, cs), pat, cs);
  }

  // ---------------------------------------------------------------------
  // Splitting, joining, repeating, capitalising

  /** `implode(' ', $parts)`. */
  function Implode(parts: seq<string>): string
  {
    if parts == [] then ""
    else if |parts| == 1 then parts[0]
    else parts[0] + " " + Implode(parts[1..])
  }

  /** `explode(' ', $s)`: the pieces between single spaces; never empty. */
  function Explode(s: string): (parts: seq<string>)
    ensures |parts| >= 1
    ensures forall k :: 0 <= k < |parts| ==> ' ' !in parts[k]
    ensures Implode(parts) == s
    decreases |s|
  {
    var i := IndexOfChar(s, ' ');
    if i < 0 then [s]
    else
      var rest := Explode(s[i + 1..]);
      assert ' ' !in s[..i];
      assert s == s[..i] + " " + s[i + 1..];
      [s[..i]] + rest
  }

  /** Splitting a join of space-free pieces gives the pieces back. */
  lemma {:induction false} ExplodeImplode(parts: seq<string>)
    requires |parts| >= 1
    requires forall k :: 0 <= k < |parts| ==> ' ' !in parts[k]
    ensures Explode(Implode(parts)) == parts
    decreases |parts|
  {
    if |parts| > 1 {
      var s := Implode(parts);
      var p := parts[0];
      assert s == p + " " + Implode(parts[1..]);
      assert s[|p|] == ' ';
      assert forall j :: 0 <= j < |p| ==> s[j] == p[j];
      assert IndexOfChar(s, ' ') == |p|;
      assert s[..|p|] == p;
      assert s[|p| + 1..] == Implode(parts[1..]);
      ExplodeImplode(parts[1..]);
      assert parts == [p] + parts[1..];
    } else {
      assert IndexOfChar(parts[0], ' ') == -1;
    }
  }

  /** `str_repeat($p, $n)`. */
  function Repeat(p: string, n: nat): (r: string)
    ensures |r| == |p| * n
  {
    if n == 0 then "" else p + Repeat(p, n - 1)
  }

  /** A nonzero multiple of a positive `l` is at least `l` away from zero. */
  lemma MulSign(d: int, l: int)
    requires l > 0
    ensures d >= 1 ==> d * l >= l
    ensures d <= -1 ==> d * l <= -l
  {
    if d >= 1 {
      assert d * l == (d - 1) * l + l;
      assert (d - 1) * l >= 0;
    } else if d <= -1 {
      assert d * l == (d + 1) * l - l;
      assert (d + 1) * l <= 0;
    }
  }

  lemma ModUnique(x: int, l: int, q: int, r: int)
    requires l > 0 && 0 <= r < l && x == q * l + r
    ensures x % l == r
  {
    var q2, r2 := x / l, x % l;
    var d := q - q2;
    assert d * l == r2 - r by {
      assert x == q2 * l + r2;
      assert q * l - q2 * l == (q - q2) * l;
    }
    MulSign(d, l);
  }

  lemma ModShift(i: int, l: int)
    requires l > 0
    ensures (i - l) % l == i % l
  {
    var q, r := i / l, i % l;
    assert i == q * l + r;
    assert i - l == (q - 1) * l + r;
    ModUnique(i - l, l, q - 1, r);
  }

  /** The repetition of `p` reads `p` cyclically. */
  lemma {:induction false} RepeatAt(p: string, n: nat, i: nat)
    requires i < |p| * n
    ensures |p| > 0 && Repeat(p, n)[i] == p[i % |p|]
    decreases n
  {
    assert n != 0;
    assert |p| * n == |p| * (n - 1) + |p|;
    var rest := Repeat(p, n - 1);
    assert Repeat(p, n) == p + rest;
    if i < |p| {
      ModUnique(i, |p|, 0, i);
    } else {
      RepeatAt(p, n - 1, i - |p|);
      ModShift(i, |p|);
      assert Repeat(p, n)[i] == rest[i - |p|];
    }
  }

  /** `ucwords($s)`: upper-cases the first character and every character after a delimiter. */
  function UcWords(s: string): string
  {
    seq(|s|, i requires 0 <= i < |s| => if i == 0 || s[i - 1] in WordDelimiters then UpperChar(s[i]) else s[i])
  }
}
