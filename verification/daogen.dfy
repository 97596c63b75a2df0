/**
 * The three string helpers of the generator script (src/DaoGen.php:34-79):
 * multibyte padding and the two namespace formatters. Strings are sequences
 * of code points, so `mb_strlen` is the sequence length.
 */
module DaoGen {
  import opened Text

  // ---------------------------------------------------------------------
  // Namespaces

  /** PHP's `empty()` on a string: true for '' and for '0'. */
  predicate IsPhpEmpty(s: string)
  {
    s == "" || s == "0"
  }

  /** The character list `'\\/'` given to `trim`. */
  const NamespaceSeparators: set<char> := {'\\', '/'}

  /** formatNamespace (lines 72-79). */
  function FormatNamespace(ns: string): (r: string)
    ensures IsPhpEmpty(ns) ==> r == ns
    ensures !IsPhpEmpty(ns) ==> r != [] && r[0] == '/' && IsTrimOf(r[1..], ns, NamespaceSeparators)
  {
    if IsPhpEmpty(ns) then ns
    else
      TrimShape(ns, NamespaceSeparators);
      "/" + Trim(ns, NamespaceSeparators)
  }

  /**
   * namespaceFilename (lines 59-65), with the platform's DIRECTORY_SEPARATOR
   * as the parameter `dirSep`: the formatted namespace behind that separator.
   */
  function NamespaceFilename(ns: string, dirSep: string): (r: string)
    ensures IsPhpEmpty(ns) ==> r == ns
    ensures !IsPhpEmpty(ns) ==> r == dirSep + FormatNamespace(ns)
  {
    if IsPhpEmpty(ns) then ns
    else
      var t := Trim(ns, NamespaceSeparators);
      assert dirSep + "/" + t == dirSep + ("/" + t);
      dirSep + "/" + t
  }

  lemma TrimLeftSkips(c: char, t: string, cs: set<char>)
    requires c in cs && (t != [] ==> t[0] !in cs)
    ensures TrimLeft([c] + t, cs) == t
  {
    assert ([c] + t)[1..] == t;
  }

  /** A formatted namespace is formatted again to itself. */
  lemma FormatNamespaceIdempotent(ns: string)
    ensures FormatNamespace(FormatNamespace(ns)) == FormatNamespace(ns)
  {
    if !IsPhpEmpty(ns) {
      var r := FormatNamespace(ns);
      var t := Trim(ns, NamespaceSeparators);
      assert r == "/" + t;
      var a :| TrimmedAt(t, ns, NamespaceSeparators, a);
      TrimLeftSkips('/', t, NamespaceSeparators);
      TrimFixed(t, NamespaceSeparators);
      assert Trim(r, NamespaceSeparators) == t;
    }
  }

  // ---------------------------------------------------------------------
  // mb_str_pad (lines 34-48)

  const StrPadLeft := 0
  const StrPadRight := 1
  const StrPadBoth := 2

  /** The outcome of mb_str_pad: the padded text, or the DivisionByZeroError of line 42. */
  datatype PadResult = Padded(text: string) | DivisionByZero

  function Max(a: int, b: int): int
  {
    if a < b then b else a
  }

  /** `ceil(a / b)` for a positive `b`. */
  function CeilDiv(a: int, b: int): int
    requires b > 0
  {
    (a + b - 1) / b
  }

  /** `mb_substr($s, 0, $n)`: the first `n` characters, or all but the last `-n` when `n` is negative. */
  function Substr(s: string, n: int): string
  {
    if n >= 0 then (if n <= |s| then s[..n] else s)
    else if -n <= |s| then s[..|s| + n]
    else ""
  }

  /**
   * mb_str_pad($str, $padLen, $padStr, $dir). `$targetLen` is the shortfall
   * divided by `halves`; `floor` and `ceil` of it, and of its quotient by the
   * pad length, are integer divisions.
   */
  function MbStrPad(str: string, padLen: int, padStr: string, dir: int): (r: PadResult)
    ensures r.DivisionByZero? <==> padStr == []
  {
    var padBefore := dir == StrPadBoth || dir == StrPadLeft;
    var padAfter := dir == StrPadBoth || dir == StrPadRight;
    var shortfall := padLen - |str|;
    var halves := if padBefore && padAfter then 2 else 1;
    if |padStr| == 0 then DivisionByZero
    else
      var repeatTimes := CeilDiv(shortfall, halves * |padStr|);
      var repeated := Repeat(padStr, Max(0, repeatTimes));
      var before := if padBefore then Substr(repeated, shortfall / halves) else "";
      var after := if padAfter then Substr(repeated, CeilDiv(shortfall, halves)) else "";
      Padded(before + str + after)
  }

  /** The first `n` characters of `padStr` read cyclically: the reference meaning of a pad. */
  function Cycle(padStr: string, n: nat): (r: string)
    requires padStr != []
    ensures |r| == n
  {
    seq(n, i requires 0 <= i < n => padStr[i % |padStr|])
  }

  /** What mb_str_pad is meant to return, for a non-empty pad string. */
  function PadSpec(str: string, padLen: int, padStr: string, dir: int): string
    requires padStr != []
  {
    var d := Max(0, padLen - |str|);
    if dir == StrPadLeft then Cycle(padStr, d) + str
    else if dir == StrPadRight then str + Cycle(padStr, d)
    else if dir == StrPadBoth then Cycle(padStr, d / 2) + str + Cycle(padStr, (d + 1) / 2)
    else str
  }

  lemma CeilDivCovers(a: int, b: int)
    requires b > 0
    ensures a <= b * CeilDiv(a, b) < a + b
  {
    var q := (a + b - 1) / b;
    var r := (a + b - 1) % b;
    assert a + b - 1 == b * q + r;
  }

  /** A prefix of the repeated pad string is the cycle of the pad string. */
  lemma RepeatPrefix(padStr: string, m: nat, k: nat)
    requires padStr != [] && k <= |padStr| * m
    ensures Repeat(padStr, m)[..k] == Cycle(padStr, k)
  {
    forall i | 0 <= i < k ensures Repeat(padStr, m)[..k][i] == Cycle(padStr, k)[i] {
      RepeatAt(padStr, m, i);
    }
  }

  /** One pad: `mb_substr` of the repeated string takes `k` cyclic characters when it is long enough. */
  lemma PadPiece(padStr: string, m: nat, k: int)
    requires padStr != [] && k <= |padStr| * m && (k < 0 ==> m == 0)
    ensures Substr(Repeat(padStr, m), k) == Cycle(padStr, Max(0, k))
  {
    if k >= 0 {
      RepeatPrefix(padStr, m, k);
    }
  }

  /** For a positive shortfall `d`, the repeated string covers `ceil(d / halves)` characters. */
  lemma {:induction false} RepeatCovers(d: int, halves: int, l: int)
    requires halves == 1 || halves == 2
    requires l > 0
    ensures var m := CeilDiv(d, halves * l);
            l * Max(0, m) >= CeilDiv(d, halves) && (d <= 0 ==> m <= 0)
  {
    var m := CeilDiv(d, halves * l);
    CeilDivCovers(d, halves * l);
    assert halves * l * m == halves * (l * m);
  }

  /** The counts mb_str_pad computes: enough repetitions for both pads, and pad widths that split the shortfall. */
  lemma PadCounts(shortfall: int, halves: int, l: int)
    requires (halves == 1 || halves == 2) && l > 0
    ensures var m := Max(0, CeilDiv(shortfall, halves * l));
            var d := Max(0, shortfall);
            var k1 := shortfall / halves;
            var k2 := CeilDiv(shortfall, halves);
            k1 <= l * m && (k1 < 0 ==> m == 0) && k2 <= l * m && (k2 < 0 ==> m == 0)
            && Max(0, k1) == d / halves && Max(0, k2) == (d + halves - 1) / halves
  {
    var m := Max(0, CeilDiv(shortfall, halves * l));
    RepeatCovers(shortfall, halves, l);
    if shortfall <= 0 {
      assert m == 0;
    }
  }

  lemma EmptyConcat(s: string)
    ensures "" + s == s && s + "" == s
  {
  }

  /** mb_str_pad builds its result from two cyclic pads that split the missing width. */
  lemma MbStrPadPieces(str: string, padLen: int, padStr: string, dir: int)
    requires padStr != []
    ensures var padBefore := dir == StrPadBoth || dir == StrPadLeft;
            var padAfter := dir == StrPadBoth || dir == StrPadRight;
            var halves := if padBefore && padAfter then 2 else 1;
            var d := Max(0, padLen - |str|);
            MbStrPad(str, padLen, padStr, dir)
            == Padded((if padBefore then Cycle(padStr, d / halves) else "")
                      + str + (if padAfter then Cycle(padStr, (d + halves - 1) / halves) else ""))
  {
    var padBefore := dir == StrPadBoth || dir == StrPadLeft;
    var padAfter := dir == StrPadBoth || dir == StrPadRight;
    var shortfall := padLen - |str|;
    var halves := if padBefore && padAfter then 2 else 1;
    var m := Max(0, CeilDiv(shortfall, halves * |padStr|));
    var d := Max(0, shortfall);
    PadCounts(shortfall, halves, |padStr|);
    var repeated := Repeat(padStr, m);
    var before := if padBefore then Substr(repeated, shortfall / halves) else "";
    var after := if padAfter then Substr(repeated, CeilDiv(shortfall, halves)) else "";
    assert MbStrPad(str, padLen, padStr, dir) == Padded(before + str + after);
    PadPiece(padStr, m, shortfall / halves);
    PadPiece(padStr, m, CeilDiv(shortfall, halves));
    assert before == if padBefore then Cycle(padStr, d / halves) else "";
    assert after == if padAfter then Cycle(padStr, (d + halves - 1) / halves) else "";
  }

  /** mb_str_pad meets its reference meaning, for every input with a non-empty pad string. */
  lemma MbStrPadMeetsSpec(str: string, padLen: int, padStr: string, dir: int)
    requires padStr != []
    ensures MbStrPad(str, padLen, padStr, dir) == Padded(PadSpec(str, padLen, padStr, dir))
  {
    MbStrPadPieces(str, padLen, padStr, dir);
    var d := Max(0, padLen - |str|);
    if dir == StrPadBoth {
      assert (d + 2 - 1) / 2 == (d + 1) / 2;
    } else if dir == StrPadLeft || dir == StrPadRight {
      assert d / 1 == d && (d + 1 - 1) / 1 == d;
      EmptyConcat(Cycle(padStr, d) + str);
      EmptyConcat(str + Cycle(padStr, d));
      EmptyConcat(str);
    } else {
      EmptyConcat(str);
    }
  }

  /** With a non-empty pad string and a known direction, the result is as long as the larger of `padLen` and `str`. */
  lemma MbStrPadLength(str: string, padLen: int, padStr: string, dir: int)
    requires padStr != [] && StrPadLeft <= dir <= StrPadBoth
    ensures |MbStrPad(str, padLen, padStr, dir).text| == Max(padLen, |str|)
  {
    MbStrPadMeetsSpec(str, padLen, padStr, dir);
  }

  /** Where `str` sits in the result, for each direction; an unknown direction returns `str` unchanged. */
  lemma MbStrPadPlacement(str: string, padLen: int, padStr: string, dir: int)
    requires padStr != []
    ensures var r := MbStrPad(str, padLen, padStr, dir).text;
            var d := Max(0, padLen - |str|);
            (dir == StrPadRight ==> r[..|str|] == str && r[|str|..] == Cycle(padStr, d))
            && (dir == StrPadLeft ==> r[|r| - |str|..] == str && r[..|r| - |str|] == Cycle(padStr, d))
            && (dir == StrPadBoth ==>
                  r[..d / 2] == Cycle(padStr, d / 2)
                  && r[d / 2..d / 2 + |str|] == str
                  && r[d / 2 + |str|..] == Cycle(padStr, (d + 1) / 2))
            && (!(StrPadLeft <= dir <= StrPadBoth) ==> r == str)
  {
    MbStrPadMeetsSpec(str, padLen, padStr, dir);
    var d := Max(0, padLen - |str|);
    if dir == StrPadBoth {
      var r := Cycle(padStr, d / 2) + str + Cycle(padStr, (d + 1) / 2);
      assert r[..d / 2] == Cycle(padStr, d / 2);
      assert r[d / 2..d / 2 + |str|] == str;
      assert r[d / 2 + |str|..] == Cycle(padStr, (d + 1) / 2);
    }
  }

  /** A pad length no larger than `str` leaves `str` unchanged, whatever the direction. */
  lemma MbStrPadNoShortfall(str: string, padLen: int, padStr: string, dir: int)
    requires padStr != [] && padLen <= |str|
    ensures MbStrPad(str, padLen, padStr, dir) == Padded(str)
  {
    MbStrPadMeetsSpec(str, padLen, padStr, dir);
    assert Cycle(padStr, 0) == [];
  }
}
