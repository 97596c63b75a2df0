/**
 * The clean-up that opens the Field constructor: the two loops that rewrite
 * the definition line until no double space and no "( " is left. Each loop
 * is given a direct definition of what it computes, as a function over the
 * line: Squeeze collapses every run of spaces to a single space, and
 * CloseParens deletes every space that follows an opening parenthesis.
 */
module Normalize {
  import opened Text

  /** No `a` is immediately followed by a `b`. */
  predicate NoPair(s: string, a: char, b: char)
  {
    forall i :: 0 <= i < |s| - 1 ==> !(s[i] == a && s[i + 1] == b)
  }

  /** `strpos($s, "ab") === false` says the same as NoPair. */
  lemma NoPairIff(s: string, a: char, b: char)
    ensures !Contains(s, [a, b]) <==> NoPair(s, a, b)
  {
    if Contains(s, [a, b]) {
      var k := IndexOf(s, [a, b]);
      assert s[k..k + 2] == [a, b];
      assert s[k] == a && s[k + 1] == b;
    }
    if !NoPair(s, a, b) {
      var i :| 0 <= i < |s| - 1 && s[i] == a && s[i + 1] == b;
      assert s[i..i + 2] == [a, b];
      assert OccursAt(s, [a, b], i);
    }
  }

  /** Every run of spaces collapsed to a single space. */
  function Squeeze(s: string): (r: string)
    ensures |r| <= |s|
    ensures s != [] ==> r != [] && r[0] == s[0]
    ensures NoPair(r, ' ', ' ')
    decreases |s|
  {
    if |s| < 2 then s
    else if s[0] == ' ' && s[1] == ' ' then Squeeze(s[1..])
    else [s[0]] + Squeeze(s[1..])
  }

  /** Every space that follows an opening parenthesis deleted. */
  function CloseParens(s: string): (r: string)
    ensures |r| <= |s|
    ensures s != [] ==> r != [] && r[0] == s[0]
    ensures NoPair(r, '(', ' ')
    decreases |s|
  {
    if |s| < 2 then s
    else if s[0] == '(' && s[1] == ' ' then CloseParens([s[0]] + s[2..])
    else [s[0]] + CloseParens(s[1..])
  }

  /** Squeeze only deletes spaces: the other characters stay, in order. */
  lemma {:induction false} SqueezeKeepsText(s: string)
    ensures RemoveChar(Squeeze(s), ' ') == RemoveChar(s, ' ')
    decreases |s|
  {
    if |s| >= 2 {
      SqueezeKeepsText(s[1..]);
      if s[0] == ' ' && s[1] == ' ' {
        assert RemoveChar(s, ' ') == RemoveChar(s[1..], ' ');
      } else {
        assert ([s[0]] + Squeeze(s[1..]))[1..] == Squeeze(s[1..]);
      }
    }
  }

  /** CloseParens only deletes spaces: the other characters stay, in order. */
  lemma {:induction false} CloseParensKeepsText(s: string)
    ensures RemoveChar(CloseParens(s), ' ') == RemoveChar(s, ' ')
    decreases |s|
  {
    if |s| >= 2 {
      if s[0] == '(' && s[1] == ' ' {
        var t := [s[0]] + s[2..];
        CloseParensKeepsText(t);
        assert t[1..] == s[2..];
        assert s[1..][1..] == s[2..];
        assert RemoveChar(s, ' ') == "(" + RemoveChar(s[2..], ' ');
      } else {
        CloseParensKeepsText(s[1..]);
        assert ([s[0]] + CloseParens(s[1..]))[1..] == CloseParens(s[1..]);
      }
    }
  }

  /** A line without double spaces is left alone by Squeeze. */
  lemma {:induction false} SqueezeFixed(s: string)
    requires NoPair(s, ' ', ' ')
    ensures Squeeze(s) == s
    decreases |s|
  {
    if |s| >= 2 {
      assert NoPair(s[1..], ' ', ' ') by {
        forall i | 0 <= i < |s[1..]| - 1 ensures !(s[1..][i] == ' ' && s[1..][i + 1] == ' ') {
          assert s[1..][i] == s[i + 1] && s[1..][i + 1] == s[i + 2];
        }
      }
      SqueezeFixed(s[1..]);
      assert s == [s[0]] + s[1..];
    }
  }

  /** A line without "( " is left alone by CloseParens. */
  lemma {:induction false} CloseParensFixed(s: string)
    requires NoPair(s, '(', ' ')
    ensures CloseParens(s) == s
    decreases |s|
  {
    if |s| >= 2 {
      assert NoPair(s[1..], '(', ' ') by {
        forall i | 0 <= i < |s[1..]| - 1 ensures !(s[1..][i] == '(' && s[1..][i + 1] == ' ') {
          assert s[1..][i] == s[i + 1] && s[1..][i + 1] == s[i + 2];
        }
      }
      CloseParensFixed(s[1..]);
      assert s == [s[0]] + s[1..];
    }
  }

  /** Squeeze of a text with one more character in front. */
  lemma SqueezeCons(c: char, x: string)
    ensures Squeeze([c] + x) == if x != [] && c == ' ' && x[0] == ' ' then Squeeze(x) else [c] + Squeeze(x)
  {
    assert ([c] + x)[1..] == x;
  }

  function CountSpaces(s: string): nat
  {
    if s == [] then 0 else (if s[0] == ' ' then 1 else 0) + CountSpaces(s[1..])
  }

  /** The number of runs of spaces: spaces not followed by another space. */
  function SpaceRuns(s: string): nat
  {
    if s == [] then 0
    else (if s[0] == ' ' && (|s| == 1 || s[1] != ' ') then 1 else 0) + SpaceRuns(s[1..])
  }

  /** Squeeze keeps exactly one space for each run of spaces: it collapses runs, it does not delete them. */
  lemma {:induction false} SqueezeOneSpacePerRun(s: string)
    ensures CountSpaces(Squeeze(s)) == SpaceRuns(s)
    decreases |s|
  {
    if s != [] {
      var c := s[0];
      var x := s[1..];
      assert s == [c] + x;
      SqueezeCons(c, x);
      SqueezeOneSpacePerRun(x);
      assert ([c] + Squeeze(x))[1..] == Squeeze(x);
    }
  }

  /**
   * One `str_replace('  ', ' ', ...)` pass leaves the collapsed form
   * unchanged and keeps the first character: the invariant of the first loop.
   */
  lemma {:induction false} SqueezeStep(s: string)
    ensures Squeeze(ReplaceAll(s, "  ", " ")) == Squeeze(s)
    ensures s != [] ==> ReplaceAll(s, "  ", " ") != [] && ReplaceAll(s, "  ", " ")[0] == s[0]
    decreases |s|
  {
    var pat := "  ";
    if |s| < 2 {
    } else if s[..2] == pat {
      var t := s[2..];
      SqueezeStep(t);
      var t' := ReplaceAll(t, pat, " ");
      assert ReplaceAll(s, pat, " ") == " " + t';
      assert s == " " + (" " + t);
      SqueezeCons(' ', " " + t);
      SqueezeCons(' ', t);
      SqueezeCons(' ', t');
    } else {
      var t := s[1..];
      SqueezeStep(t);
      var t' := ReplaceAll(t, pat, " ");
      assert ReplaceAll(s, pat, " ") == [s[0]] + t';
      assert s == [s[0]] + t;
      assert !(s[0] == ' ' && s[1] == ' ') by { assert s[..2] == [s[0], s[1]]; }
      SqueezeCons(s[0], t);
      SqueezeCons(s[0], t');
    }
  }

  /** CloseParens never creates a double space. */
  lemma {:induction false} CloseParensKeepsSingleSpaces(s: string)
    requires NoPair(s, ' ', ' ')
    ensures NoPair(CloseParens(s), ' ', ' ')
    decreases |s|
  {
    if |s| >= 2 {
      if s[0] == '(' && s[1] == ' ' {
        var t := [s[0]] + s[2..];
        assert NoPair(t, ' ', ' ') by {
          forall i | 0 <= i < |t| - 1 ensures !(t[i] == ' ' && t[i + 1] == ' ') {
            if i > 0 { assert t[i] == s[i + 1] && t[i + 1] == s[i + 2]; }
          }
        }
        CloseParensKeepsSingleSpaces(t);
      } else {
        assert NoPair(s[1..], ' ', ' ') by {
          forall i | 0 <= i < |s[1..]| - 1 ensures !(s[1..][i] == ' ' && s[1..][i + 1] == ' ') {
            assert s[1..][i] == s[i + 1] && s[1..][i + 1] == s[i + 2];
          }
        }
        CloseParensKeepsSingleSpaces(s[1..]);
      }
    }
  }

  /** Without double spaces, one `str_replace('( ', '(', ...)` pass already gives CloseParens. */
  lemma {:induction false} CloseParensOnePass(s: string)
    requires NoPair(s, ' ', ' ')
    ensures ReplaceAll(s, "( ", "(") == CloseParens(s)
    decreases |s|
  {
    var pat := "( ";
    if |s| >= 2 {
      assert s[..2] == [s[0], s[1]];
      assert NoPair(s[1..], ' ', ' ') by {
        forall i | 0 <= i < |s[1..]| - 1 ensures !(s[1..][i] == ' ' && s[1..][i + 1] == ' ') {
          assert s[1..][i] == s[i + 1] && s[1..][i + 1] == s[i + 2];
        }
      }
      if s[..2] == pat {
        var t := s[2..];
        assert NoPair(t, ' ', ' ') by {
          forall i | 0 <= i < |t| - 1 ensures !(t[i] == ' ' && t[i + 1] == ' ') {
            assert t[i] == s[i + 2] && t[i + 1] == s[i + 3];
          }
        }
        CloseParensOnePass(t);
        var u := [s[0]] + t;
        if t != [] {
          assert t[0] == s[2] != ' ';
          assert u[1..] == t;
        }
      } else {
        CloseParensOnePass(s[1..]);
      }
    }
  }

  /**
   * The two loops of the constructor (src/class.field.php:37-44), run on the
   * raw line: each rewrites the line in place until its pattern is gone.
   */
  method CollapseSpacing(fieldDef: string) returns (def: string)
    ensures def == CloseParens(Squeeze(fieldDef))
  {
    def := fieldDef;
    while Contains(def, "  ")
      invariant Squeeze(def) == Squeeze(fieldDef)
      decreases |def|
    {
      ReplaceAllShorter(def, "  ", " ");
      SqueezeStep(def);
      def := ReplaceAll(def, "  ", " ");
    }
    NoPairIff(def, ' ', ' ');
    SqueezeFixed(def);
    ghost var squeezed := def;
    while Contains(def, "( ")
      invariant NoPair(def, ' ', ' ')
      invariant CloseParens(def) == CloseParens(squeezed)
      decreases |def|
    {
      ReplaceAllShorter(def, "( ", "(");
      CloseParensOnePass(def);
      CloseParensKeepsSingleSpaces(def);
      CloseParensFixed(CloseParens(def));
      def := ReplaceAll(def, "( ", "(");
    }
    NoPairIff(def, '(', ' ');
    CloseParensFixed(def);
  }
}
