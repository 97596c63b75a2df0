/**
 * The three regular expressions of the Field constructor, written as index
 * searches. In PCRE without the `s` flag `.` matches every character except
 * a newline, so each `.*` below stops at the first newline after the point
 * where it starts; the lemmas give the plain reading for a one-line text.
 */
module Patterns {
  import opened Text

  /**
   * Group 1 of `preg_match('/\((.*)\)/', $t)`, trying start positions from
   * `from` on: the leftmost '(' whose line still holds a ')' after it, and
   * the text from there to that line's last ')'.
   */
  function ParenGroupFrom(t: string, from: nat): Option<string>
    decreases |t| - from
  {
    if from >= |t| then None
    else if t[from] == '(' then
      var j := LastIndexOf(t[from + 1..LineEnd(t, from + 1)], ')');
      if j >= 0 then Some(t[from + 1..from + 1 + j]) else ParenGroupFrom(t, from + 1)
    else ParenGroupFrom(t, from + 1)
  }

  function ParenGroup(t: string): Option<string>
  {
    ParenGroupFrom(t, 0)
  }

  /**
   * Group 1 of `preg_match('/(.*)\(/', $t)`, trying start positions from
   * `from` on: from the first start whose line holds a '(', everything up to
   * that line's last '('.
   */
  function BeforeParenFrom(t: string, from: nat): Option<string>
    decreases |t| - from
  {
    if from >= |t| then None
    else
      var j := LastIndexOf(t[from..LineEnd(t, from)], '(');
      if j >= 0 then Some(t[from..from + j]) else BeforeParenFrom(t, from + 1)
  }

  function BeforeParen(t: string): Option<string>
  {
    BeforeParenFrom(t, 0)
  }

  /** Group 1 of `preg_match('/ DEFAULT (.*)/', $u)`: the rest of the line after the first " DEFAULT ". */
  function DefaultCapture(u: string): Option<string>
  {
    var k := IndexOf(u, " DEFAULT ");
    if k < 0 then None else Some(u[k + 9..LineEnd(u, k + 9)])
  }

  /** No start position at or after `from` matches when no ')' follows the first '(' considered. */
  lemma {:induction false} ParenGroupNoClose(t: string, from: nat)
    requires forall k :: from <= k < |t| ==> t[k] != ')'
    ensures ParenGroupFrom(t, from) == None
    decreases |t| - from
  {
    if from < |t| {
      ParenGroupNoClose(t, from + 1);
    }
  }

  /** Positions before the first '(' are skipped. */
  lemma {:induction false} ParenGroupSkips(t: string, from: nat, f: nat)
    requires from <= f < |t|
    requires forall k :: from <= k < f ==> t[k] != '('
    ensures ParenGroupFrom(t, from) == ParenGroupFrom(t, f)
    decreases f - from
  {
    if from < f {
      ParenGroupSkips(t, from + 1, f);
    }
  }

  /**
   * On a one-line text holding a '(', `/\((.*)\)/` captures the text between
   * the first '(' and the last ')', and fails when no ')' follows the first '('.
   */
  lemma ParenGroupOneLine(t: string)
    requires '\n' !in t && '(' in t
    ensures var f := IndexOfChar(t, '(');
            var c := LastIndexOf(t, ')');
            ParenGroup(t) == if c > f then Some(t[f + 1..c]) else None
  {
    var f := IndexOfChar(t, '(');
    var c := LastIndexOf(t, ')');
    if c > f {
      assert ParenGroup(t) == Some(t[f + 1..c]) by {
        ParenGroupSkips(t, 0, f);
        ParenGroupClosed(t, f);
      }
    } else {
      assert ParenGroup(t) == None by {
        ParenGroupSkips(t, 0, f);
        ParenGroupUnclosed(t, f);
      }
    }
  }

  /** At a '(' of a one-line text followed by a ')', the group runs to the last ')'. */
  lemma ParenGroupClosed(t: string, f: nat)
    requires '\n' !in t && f < |t| && t[f] == '(' && LastIndexOf(t, ')') > f
    ensures ParenGroupFrom(t, f) == Some(t[f + 1..LastIndexOf(t, ')')])
  {
    var c := LastIndexOf(t, ')');
    var j := LastIndexOf(t[f + 1..], ')');
    assert j >= 0 && f + 1 + j == c by {
      LastIndexOfSuffix(t, ')', f + 1);
    }
    ParenGroupFound(t, f);
  }

  /** At a '(' of a text with no ')' after it, no group is found. */
  lemma ParenGroupUnclosed(t: string, f: nat)
    requires '\n' !in t && f < |t| && t[f] == '(' && LastIndexOf(t, ')') <= f
    ensures ParenGroupFrom(t, f) == None
  {
    assert LastIndexOf(t[f + 1..], ')') < 0 by {
      LastIndexOfSuffix(t, ')', f + 1);
    }
    ParenGroupPasses(t, f);
    ParenGroupNoClose(t, f + 1);
  }

  /** At a '(' of a one-line text with a ')' after it, the search stops there. */
  lemma ParenGroupFound(t: string, f: nat)
    requires '\n' !in t && f < |t| && t[f] == '(' && LastIndexOf(t[f + 1..], ')') >= 0
    ensures ParenGroupFrom(t, f) == Some(t[f + 1..f + 1 + LastIndexOf(t[f + 1..], ')')])
  {
    LineEndNoNewline(t, f + 1);
    assert t[f + 1..LineEnd(t, f + 1)] == t[f + 1..];
  }

  /** At a '(' of a one-line text with no ')' after it, the search moves on. */
  lemma ParenGroupPasses(t: string, f: nat)
    requires '\n' !in t && f < |t| && t[f] == '(' && LastIndexOf(t[f + 1..], ')') < 0
    ensures ParenGroupFrom(t, f) == ParenGroupFrom(t, f + 1)
  {
    LineEndNoNewline(t, f + 1);
    assert t[f + 1..LineEnd(t, f + 1)] == t[f + 1..];
  }

  /** On a one-line text, `/(.*)\(/` captures everything before the last '(' and fails without one. */
  lemma BeforeParenOneLine(t: string)
    requires '\n' !in t
    ensures BeforeParen(t) == if '(' in t then Some(t[..LastIndexOf(t, '(')]) else None
  {
    if t != [] {
      LineEndNoNewline(t, 0);
      assert t[0..|t|] == t;
      if '(' !in t {
        BeforeParenNone(t, 1);
      }
    }
  }

  lemma {:induction false} BeforeParenNone(t: string, from: nat)
    requires '(' !in t
    ensures BeforeParenFrom(t, from) == None
    decreases |t| - from
  {
    if from < |t| {
      BeforeParenNone(t, from + 1);
    }
  }
}
