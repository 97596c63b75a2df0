/**
 * What the Field constructor (src/class.field.php:34-88) computes from one
 * column-definition line, written as functions of that line, and the
 * properties of those functions.
 *
 * The constructor works on `$fieldDef` after the two clean-up loops
 * (Collapsed below); only the stored `fieldDef` is trimmed (Definition).
 * The tokens, the default and the NOT NULL flag all come from the
 * untrimmed collapsed line.
 */
module ColumnDef {
  import opened Text
  import opened Normalize
  import opened Patterns

  // ---------------------------------------------------------------------
  // The fields, as functions of the line

  /** `$fieldDef` once both loops are done (lines 37-44). */
  function Collapsed(line: string): string
  {
    CloseParens(Squeeze(line))
  }

  /** The stored `fieldDef` (line 46). */
  function Definition(line: string): string
  {
    Trim(Collapsed(line), Whitespace)
  }

  /** `explode(' ', $fieldDef)` of the untrimmed line (line 49). */
  function Tokens(line: string): seq<string>
  {
    Explode(Collapsed(line))
  }

  /** The stored `name` for a given first token (lines 52-54). */
  function NameOfToken(token: string): string
  {
    RemoveChar(RemoveChar(Lower(token), '"'), '`')
  }

  function NameOf(line: string): string
  {
    NameOfToken(Tokens(line)[0])
  }

  /** `$parts[1] ?? ''` (line 57). */
  function SecondToken(parts: seq<string>): string
  {
    if |parts| > 1 then parts[1] else ""
  }

  function TypeToken(line: string): string
  {
    SecondToken(Tokens(line))
  }

  /** The stored `type` for a given type token (lines 57-65). */
  function TypeOfToken(token: string): string
  {
    if Contains(token, "(") then OrEmpty(BeforeParen(Trim(token, Whitespace))) else token
  }

  /** The stored `length` for a given type token (lines 60-62); None is PHP's unset null. */
  function LengthOfToken(token: string): Option<string>
  {
    if Contains(token, "(") then Some(OrEmpty(ParenGroup(Trim(token, Whitespace)))) else None
  }

  function TypeOf(line: string): string
  {
    TypeOfToken(TypeToken(line))
  }

  function LengthOf(line: string): Option<string>
  {
    LengthOfToken(TypeToken(line))
  }

  /**
   * `$s` before the capture (lines 69-71): the line from its first
   * case-insensitive "DEFAULT", cut before its first case-insensitive "ON "
   * when the line holds "ON " (case-sensitive); `false` becomes ''.
   */
  function DefaultSource(def: string): string
  {
    var s := OrEmpty(StrIStr(def, "DEFAULT"));
    if Contains(def, "ON ") then OrEmpty(StrIStrBefore(s, "ON ")) else s
  }

  /** `$match[1] ?? ''` after the capture at line 72. */
  function RawDefault(def: string): string
  {
    OrEmpty(DefaultCapture(Trim(DefaultSource(def), Whitespace)))
  }

  /** `str_replace(['(', ')'], '', ...)` (line 75). */
  function StripParens(x: string): string
  {
    RemoveChar(RemoveChar(x, '('), ')')
  }

  /** The stored `default` (lines 68-81) of the collapsed line `def`; None when it is never assigned. */
  function DefaultOfText(def: string): Option<string>
  {
    if !Contains(def, "DEFAULT") then None
    else
      var d := StripParens(RawDefault(def));
      Some(if Contains(d, "CONVERT") then "null" else d)
  }

  function DefaultOf(line: string): Option<string>
  {
    DefaultOfText(Collapsed(line))
  }

  /** The stored `notNull` (lines 26, 84-86). */
  predicate NotNullOf(line: string)
  {
    Contains(Collapsed(line), "NOT NULL")
  }

  // ---------------------------------------------------------------------
  // Normalisation

  lemma NoPairSlice(s: string, a: char, b: char, i: int, j: int)
    requires NoPair(s, a, b) && 0 <= i <= j <= |s|
    ensures NoPair(s[i..j], a, b)
  {
    forall k | 0 <= k < |s[i..j]| - 1 ensures !(s[i..j][k] == a && s[i..j][k + 1] == b) {
      assert s[i..j][k] == s[i + k] && s[i..j][k + 1] == s[i + k + 1];
    }
  }

  lemma CollapsedShape(line: string)
    ensures NoPair(Collapsed(line), ' ', ' ') && NoPair(Collapsed(line), '(', ' ')
  {
    CloseParensKeepsSingleSpaces(Squeeze(line));
  }

  /**
   * The stored definition holds no double space, no "( ", and starts and
   * ends with a character `trim` keeps.
   */
  lemma DefinitionShape(line: string)
    ensures var d := Definition(line);
            !Contains(d, "  ") && !Contains(d, "( ")
            && (d != [] ==> d[0] !in Whitespace && d[|d| - 1] !in Whitespace)
  {
    var c := Collapsed(line);
    var d := Definition(line);
    CollapsedShape(line);
    TrimShape(c, Whitespace);
    var a :| TrimmedAt(d, c, Whitespace, a);
    TrimmedNoPairs(d, c, a);
  }

  /** A trim of a text without "  " and "( " has neither. */
  lemma TrimmedNoPairs(d: string, c: string, a: int)
    requires TrimmedAt(d, c, Whitespace, a)
    requires NoPair(c, ' ', ' ') && NoPair(c, '(', ' ')
    ensures !Contains(d, "  ") && !Contains(d, "( ")
  {
    assert c[a..a + |d|] == d;
    NoPairSlice(c, ' ', ' ', a, a + |d|);
    NoPairSlice(c, '(', ' ', a, a + |d|);
    NoPairIff(d, ' ', ' ');
    NoPairIff(d, '(', ' ');
  }

  /** Normalising the stored definition again changes nothing. */
  lemma DefinitionIdempotent(line: string)
    ensures Definition(Definition(line)) == Definition(line)
  {
    var d := Definition(line);
    DefinitionShape(line);
    NoPairIff(d, ' ', ' ');
    NoPairIff(d, '(', ' ');
    SqueezeFixed(d);
    CloseParensFixed(d);
    TrimFixed(d, Whitespace);
  }

  /**
   * Extra spaces, and spaces after '(', make no difference to any field:
   * the collapsed line parses to the same Field as the line itself.
   */
  lemma CollapsedParsesAlike(line: string)
    ensures var c := Collapsed(line);
            Definition(c) == Definition(line) && NameOf(c) == NameOf(line)
            && TypeOf(c) == TypeOf(line) && LengthOf(c) == LengthOf(line)
            && DefaultOf(c) == DefaultOf(line) && NotNullOf(c) == NotNullOf(line)
  {
    var c := Collapsed(line);
    CollapsedShape(line);
    SqueezeFixed(c);
    CloseParensFixed(c);
    assert Collapsed(c) == c;
  }

  // ---------------------------------------------------------------------
  // Name

  /** Lower-casing leaves no upper-case ASCII letter and creates no space. */
  lemma LowerShape(t: string)
    ensures forall x :: x in Lower(t) ==> !('A' <= x <= 'Z') && (x == ' ' ==> ' ' in t)
  {
    forall x | x in Lower(t) ensures !('A' <= x <= 'Z') && (x == ' ' ==> ' ' in t) {
      var i :| 0 <= i < |t| && Lower(t)[i] == x;
      assert LowerChar(t[i]) == x;
    }
  }

  lemma NameOfTokenShape(token: string)
    requires ' ' !in token
    ensures var n := NameOfToken(token);
            '"' !in n && '`' !in n && ' ' !in n
            && (forall x :: x in n ==> !('A' <= x <= 'Z'))
            && Trim(n, {'`'}) == n
  {
    LowerShape(token);
    var n := NameOfToken(token);
    TrimFixed(n, {'`'});
  }

  /** The name: no quote or backtick, no space, no upper-case ASCII letter; getName's trim leaves it alone. */
  lemma NameShape(line: string)
    ensures var n := NameOf(line);
            '"' !in n && '`' !in n && ' ' !in n
            && (forall x :: x in n ==> !('A' <= x <= 'Z'))
            && Trim(n, {'`'}) == n
  {
    var parts := Tokens(line);
    assert ' ' !in parts[0];
    NameOfTokenShape(parts[0]);
  }

  lemma NameUnquoted(line: string)
    ensures '`' !in NameOf(line) && ' ' !in NameOf(line)
  {
    NameShape(line);
  }

  /**
   * The name is built from the first space-separated piece of the collapsed,
   * untrimmed line: everything before its first space.
   */
  lemma NameFromFirstToken(line: string)
    ensures var c := Collapsed(line);
            var first := if ' ' in c then c[..IndexOfChar(c, ' ')] else c;
            NameOf(line) == RemoveChar(RemoveChar(Lower(first), '"'), '`')
  {
    var c := Collapsed(line);
    if ' ' !in c {
      assert IndexOfChar(c, ' ') == -1;
    }
  }

  /** A line that starts with a space yields an empty name (the split is not of the trimmed line). */
  lemma LeadingSpaceEmptyName(line: string)
    requires line != [] && line[0] == ' '
    ensures NameOf(line) == ""
  {
    var c := Collapsed(line);
    assert c[0] == ' ';
    assert IndexOfChar(c, ' ') == 0;
    assert Tokens(line)[0] == [];
  }

  // ---------------------------------------------------------------------
  // Type and length

  /**
   * For a one-line type token: without '(' the token is the type and the
   * length stays unset; with '(' (after trimming the token) the length is
   * the text between the first '(' and the last ')' ('' when no ')' follows
   * that '(') and the type is the text before the last '('.
   */
  lemma TypeAndLength(token: string)
    requires '\n' !in token
    ensures '(' !in token ==> TypeOfToken(token) == token && LengthOfToken(token) == None
    ensures '(' in token ==>
              var u := Trim(token, Whitespace);
              var f := IndexOfChar(u, '(');
              var c := LastIndexOf(u, ')');
              LengthOfToken(token) == Some(if c > f then u[f + 1..c] else "")
              && LastIndexOf(u, '(') >= 0 && TypeOfToken(token) == u[..LastIndexOf(u, '(')]
  {
    ContainsChar(token, '(');
    if '(' in token {
      var u := Trim(token, Whitespace);
      TrimKeeps(token, Whitespace);
      assert '(' in u && '\n' !in u;
      BeforeParenOneLine(u);
      ParenGroupOneLine(u);
    }
  }

  /** A one-line definition gives one-line tokens. */
  lemma TokensOneLine(line: string)
    requires '\n' !in line
    ensures '\n' !in TypeToken(line)
  {
    SqueezeKeepsText(line);
    CloseParensKeepsText(Squeeze(line));
    var c := Collapsed(line);
    assert '\n' !in c by {
      assert '\n' in c <==> '\n' in RemoveChar(c, ' ');
      assert '\n' in line <==> '\n' in RemoveChar(line, ' ');
    }
    var parts := Tokens(line);
    if |parts| > 1 {
      ImplodeKeeps(parts, 1);
    }
  }

  lemma {:induction false} ImplodeKeeps(parts: seq<string>, k: nat)
    requires k < |parts|
    ensures forall x :: x in parts[k] ==> x in Implode(parts)
    decreases k
  {
    if |parts| > 1 {
      assert Implode(parts) == parts[0] + " " + Implode(parts[1..]);
      if k > 0 {
        ImplodeKeeps(parts[1..], k - 1);
      }
    }
  }

  // ---------------------------------------------------------------------
  // Default

  lemma LowerSlice(s: string, i: int, j: int)
    requires 0 <= i <= j <= |s|
    ensures Lower(s[i..j]) == Lower(s)[i..j]
  {
  }

  /** A case-sensitive occurrence is also a case-insensitive one. */
  lemma OccursLower(s: string, pat: string, i: int)
    requires OccursAt(s, pat, i)
    ensures OccursAt(Lower(s), Lower(pat), i)
  {
    LowerSlice(s, i, i + |pat|);
  }

  /** The default is assigned exactly when the stored definition holds "DEFAULT" (case-sensitive). */
  lemma DefaultPresence(line: string)
    ensures DefaultOf(line).Some? <==> Contains(Definition(line), "DEFAULT")
  {
    ContainsTrim(Collapsed(line), "DEFAULT", Whitespace);
  }

  lemma NullLacksConvert()
    ensures !Contains("null", "CONVERT")
  {
  }

  /** Removing two characters keeps every other character, and only those. */
  lemma StripParensKeeps(raw: string)
    ensures var d := StripParens(raw);
            '(' !in d && ')' !in d && forall x :: x != '(' && x != ')' ==> (x in d <==> x in raw)
  {
    var d0 := RemoveChar(raw, '(');
    assert forall x :: x != '(' ==> (x in d0 <==> x in raw);
  }

  lemma DefaultTextClean(def: string)
    requires Contains(def, "DEFAULT")
    ensures var v := DefaultOfText(def).value;
            '(' !in v && ')' !in v && !Contains(v, "CONVERT")
            && (v == "null" || forall x :: x != '(' && x != ')' ==> (x in v <==> x in RawDefault(def)))
            && (Contains(StripParens(RawDefault(def)), "CONVERT") ==> v == "null")
            && (!Contains(StripParens(RawDefault(def)), "CONVERT") ==> v == StripParens(RawDefault(def)))
  {
    var d := StripParens(RawDefault(def));
    StripParensKeeps(RawDefault(def));
    if Contains(d, "CONVERT") {
      NullLacksConvert();
    }
  }

  /**
   * An assigned default never holds '(' or ')' nor "CONVERT". A capture
   * that holds "CONVERT" once its parentheses are removed becomes 'null';
   * any other is kept with its parentheses removed.
   */
  lemma DefaultClean(line: string)
    requires DefaultOf(line).Some?
    ensures var v := DefaultOf(line).value;
            '(' !in v && ')' !in v && !Contains(v, "CONVERT")
            && (v == "null" || forall x :: x != '(' && x != ')' ==> (x in v <==> x in RawDefault(Collapsed(line))))
            && (Contains(StripParens(RawDefault(Collapsed(line))), "CONVERT") ==> v == "null")
            && (!Contains(StripParens(RawDefault(Collapsed(line))), "CONVERT") ==> v == StripParens(RawDefault(Collapsed(line))))
  {
    DefaultTextClean(Collapsed(line));
  }

  lemma LowerKeywords()
    ensures Lower("DEFAULT") == "default" && Lower("ON ") == "on "
  {
  }

  /** The first case-insensitive "default" of a line that holds "DEFAULT", and what `stristr` returns for it. */
  lemma KeywordFound(def: string) returns (k: int)
    requires Contains(def, "DEFAULT")
    ensures k == IndexOf(Lower(def), "default") && 0 <= k && k + 7 <= |def|
    ensures LowerChar(def[k]) == 'd'
    ensures StrIStr(def, "DEFAULT") == Some(def[k..])
  {
    LowerKeywords();
    OccursLower(def, "DEFAULT", IndexOf(def, "DEFAULT"));
    k := IndexOf(Lower(def), "default");
    assert Lower(def)[k..k + 7] == "default";
    assert LowerChar(def[k]) == Lower(def)[k..k + 7][0];
  }

  /** The part `stristr(..., true)` keeps is a prefix. */
  lemma CutIsPrefix(t: string, n: string)
    ensures var c := OrEmpty(StrIStrBefore(t, n)); |c| <= |t| && c == t[..|c|]
  {
  }

  lemma PrefixOfTail(def: string, k: int, s: string)
    requires 0 <= k < |def| && |s| <= |def| - k && s == def[k..][..|s|]
    ensures s == def[k..k + |s|] && (s != [] ==> s[0] == def[k])
  {
  }

  /** `$s` is a piece of `def` that starts at its first case-insensitive "default". */
  lemma DefaultSourceShape(def: string) returns (k: int)
    requires Contains(def, "DEFAULT")
    ensures k == IndexOf(Lower(def), "default") && 0 <= k < |def|
    ensures var s := DefaultSource(def);
            |s| <= |def| - k && s == def[k..k + |s|] && (s != [] ==> s[0] !in Whitespace)
  {
    k := KeywordFound(def);
    var tail := def[k..];
    CutIsPrefix(tail, "ON ");
    var s := DefaultSource(def);
    assert s == tail[..|s|];
    PrefixOfTail(def, k, s);
    assert def[k] == 'd' || def[k] == 'D';
  }

  /** A capture that finds nothing leaves the default ''. */
  lemma EmptyCapture(def: string)
    requires Contains(def, "DEFAULT") && RawDefault(def) == ""
    ensures DefaultOfText(def) == Some("")
  {
    assert StripParens("") == "";
    assert !Contains("", "CONVERT");
  }

  /** A trim of a text that does not start with whitespace is a prefix of it. */
  lemma TrimPrefix(s: string)
    requires s != [] ==> s[0] !in Whitespace
    ensures Trim(s, Whitespace) == s[..|Trim(s, Whitespace)|]
  {
    assert TrimLeft(s, Whitespace) == s;
  }

  lemma SpacedKeyword(s: string, p: int)
    requires OccursAt(s, " DEFAULT ", p)
    ensures OccursAt(s, "DEFAULT", p + 1)
  {
    forall j | 0 <= j < 7 ensures s[p + 1..p + 8][j] == "DEFAULT"[j] {
      assert s[p + 1 + j] == s[p..p + 9][j + 1];
    }
  }

  /** An occurrence in a piece of `def` is an occurrence in `def`. */
  lemma OccursInPiece(def: string, k: int, s: string, pat: string, p: int)
    requires 0 <= k && k + |s| <= |def| && s == def[k..k + |s|] && OccursAt(s, pat, p)
    ensures OccursAt(def, pat, k + p)
  {
    forall j | 0 <= j < |pat| ensures def[k + p..k + p + |pat|][j] == pat[j] {
      assert pat[j] == s[p..p + |pat|][j] == s[p + j] == def[k + p + j];
    }
  }

  /** An occurrence of " DEFAULT " in the trimmed `$s` puts a "DEFAULT" of `def` after its first "default". */
  lemma SecondKeywordAt(def: string) returns (q: int)
    requires Contains(def, "DEFAULT")
    requires Contains(Trim(DefaultSource(def), Whitespace), " DEFAULT ")
    ensures IndexOf(Lower(def), "default") <= q && OccursAt(def, "DEFAULT", q + 1)
  {
    var k := DefaultSourceShape(def);
    var s := DefaultSource(def);
    var u := Trim(s, Whitespace);
    TrimPrefix(s);
    var pat := " DEFAULT ";
    var p := IndexOf(u, pat);
    OccursInPrefix(s, pat, |u|, p);
    OccursInPiece(def, k, s, pat, p);
    q := k + p;
    SpacedKeyword(def, q);
  }

  /** An occurrence of " DEFAULT " in the trimmed `$s` is a second "default" keyword of `def`. */
  lemma CaptureNeedsSecondKeyword(def: string)
    requires Contains(def, "DEFAULT")
    requires Contains(Trim(DefaultSource(def), Whitespace), " DEFAULT ")
    ensures var l := Lower(def); IndexFrom(l, "default", IndexOf(l, "default") + 1) >= 0
  {
    var q := SecondKeywordAt(def);
    OccursLower(def, "DEFAULT", q + 1);
    LowerKeywords();
  }

  /**
   * With a single "default" keyword (in any case) the capture of line 72,
   * which wants a space before "DEFAULT", cannot match: the default is ''.
   */
  lemma DefaultSingleKeyword(line: string)
    requires Contains(Collapsed(line), "DEFAULT")
    requires var l := Lower(Collapsed(line)); IndexFrom(l, "default", IndexOf(l, "default") + 1) == -1
    ensures DefaultOf(line) == Some("")
  {
    SingleKeywordText(Collapsed(line));
  }

  lemma SingleKeywordText(def: string)
    requires Contains(def, "DEFAULT")
    requires var l := Lower(def); IndexFrom(l, "default", IndexOf(l, "default") + 1) == -1
    ensures DefaultOfText(def) == Some("")
  {
    var u := Trim(DefaultSource(def), Whitespace);
    if Contains(u, " DEFAULT ") {
      CaptureNeedsSecondKeyword(def);
      assert false;
    }
    assert DefaultCapture(u) == None;
    EmptyCapture(def);
  }

  /** When the cut of line 71 finds no "on " in `$s`, `stristr` gives `false` and the default is ''. */
  lemma NoOnAfterKeyword(def: string)
    requires Contains(def, "DEFAULT") && Contains(def, "ON ")
    requires var l := Lower(def); var k := IndexOf(l, "default"); k >= 0 && !Contains(l[k..], "on ")
    ensures DefaultOfText(def) == Some("")
  {
    var k := DefaultSourceShape(def);
    LowerKeywords();
    LowerSlice(def, k, |def|);
    var l := Lower(def);
    assert !Contains(l[k..], "on ");
    assert IndexOf(l[k..], "on ") < 0;
    var lon := Lower("ON ");
    var ltail := Lower(def[k..]);
    assert lon == "on " && ltail == l[k..];
    assert IndexOf(ltail, lon) < 0;
    assert StrIStrBefore(def[k..], "ON ") == None;
    assert DefaultSource(def) == "";
    assert DefaultCapture("") == None;
    EmptyCapture(def);
  }

  /**
   * When the line holds "ON " (case-sensitive) but no "on " in any case
   * follows its first "default", the cut of line 71 yields `false` and the
   * default is ''.
   */
  lemma DefaultOnBeforeKeyword(line: string)
    requires Contains(Collapsed(line), "DEFAULT") && Contains(Collapsed(line), "ON ")
    requires var l := Lower(Collapsed(line)); var k := IndexOf(l, "default"); k >= 0 && !Contains(l[k..], "on ")
    ensures DefaultOf(line) == Some("")
  {
    NoOnAfterKeyword(Collapsed(line));
  }

  // ---------------------------------------------------------------------
  // Nullability

  /** notNull is true exactly when the stored definition holds "NOT NULL" (case-sensitive). */
  lemma NotNullIff(line: string)
    ensures NotNullOf(line) <==> Contains(Definition(line), "NOT NULL")
  {
    ContainsTrim(Collapsed(line), "NOT NULL", Whitespace);
  }
}
