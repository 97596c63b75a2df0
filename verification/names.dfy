/**
 * The name transforms of a Field (src/class.field.php:105-129): getName
 * trims backticks from the stored name, getUcName capitalises its words, and
 * GetUcwName turns a snake_case name into CamelCase by turning underscores
 * into word breaks, capitalising the words and dropping the spaces.
 */
module Names {
  import opened Text

  const Backtick: set<char> := {'`'}

  /** getName (lines 105-108). */
  function PlainName(name: string): string
  {
    Trim(name, Backtick)
  }

  /** getUcName (lines 115-118). */
  function UcName(name: string): string
  {
    UcWords(PlainName(name))
  }

  /** GetUcwName (lines 125-129). */
  function UcwName(name: string): string
  {
    var s := Trim(PlainName(name), Backtick);
    RemoveChar(UcWords(ReplaceChar(s, '_', ' ')), ' ')
  }

  /**
   * `r` is `s` with the first character and each character after a word
   * delimiter upper-cased, and every other character unchanged.
   */
  predicate WordsCapitalised(r: string, s: string)
  {
    |r| == |s| && (s != [] ==> r[0] == UpperChar(s[0]))
    && (forall i :: 0 < i < |s| && s[i - 1] in WordDelimiters ==> r[i] == UpperChar(s[i]))
    && (forall i :: 0 < i < |s| && s[i - 1] !in WordDelimiters ==> r[i] == s[i])
  }

  /**
   * For a name without backticks, getUcName upper-cases the first character
   * and each character after a word delimiter, and keeps every other one.
   */
  lemma UcNameOfPlain(name: string)
    requires '`' !in name
    ensures EqualsIgnoreCase(UcName(name), name) && WordsCapitalised(UcName(name), name)
  {
    PlainNameFixed(name);
    UcNameIgnoringCase(name);
  }

  /** A name without backticks is its own getName. */
  lemma PlainNameFixed(name: string)
    requires '`' !in name
    ensures PlainName(name) == name
  {
    TrimFixed(name, Backtick);
  }

  lemma LowerUcWords(s: string)
    ensures Lower(UcWords(s)) == Lower(s)
  {
    forall i | 0 <= i < |s| ensures Lower(UcWords(s))[i] == Lower(s)[i] {
      assert UcWords(s)[i] == s[i] || UcWords(s)[i] == UpperChar(s[i]);
    }
  }

  /**
   * getUcName changes only the case of the name getName returns: it
   * upper-cases the first character and each character after a word
   * delimiter, and keeps every other character.
   */
  lemma UcNameIgnoringCase(name: string)
    ensures EqualsIgnoreCase(UcName(name), PlainName(name)) && WordsCapitalised(UcName(name), PlainName(name))
  {
    LowerUcWords(PlainName(name));
  }

  /** Deleting a character that is not a letter commutes with lower-casing. */
  lemma {:induction false} LowerRemoveChar(s: string, c: char)
    requires !('A' <= c <= 'Z') && !('a' <= c <= 'z')
    ensures Lower(RemoveChar(s, c)) == RemoveChar(Lower(s), c)
    decreases |s|
  {
    if s != [] {
      LowerRemoveChar(s[1..], c);
      assert Lower(s)[1..] == Lower(s[1..]);
      var head := if s[0] == c then [] else [s[0]];
      assert Lower(head + RemoveChar(s[1..], c)) == Lower(head) + Lower(RemoveChar(s[1..], c));
    }
  }

  /** Turning underscores into spaces and then deleting spaces deletes the underscores, when there were no spaces. */
  lemma {:induction false} RemoveReplaced(s: string)
    requires ' ' !in s
    ensures RemoveChar(ReplaceChar(s, '_', ' '), ' ') == RemoveChar(s, '_')
    decreases |s|
  {
    if s != [] {
      RemoveReplaced(s[1..]);
      assert ReplaceChar(s, '_', ' ')[1..] == ReplaceChar(s[1..], '_', ' ');
    }
  }

  lemma LowerReplaceChar(s: string)
    ensures Lower(ReplaceChar(s, '_', ' ')) == ReplaceChar(Lower(s), '_', ' ')
  {
  }

  /** The CamelCase step on a text without spaces. */
  lemma CamelCase(s: string)
    requires ' ' !in s
    ensures var r := RemoveChar(UcWords(ReplaceChar(s, '_', ' ')), ' ');
            ' ' !in r && '_' !in r && Lower(r) == Lower(RemoveChar(s, '_'))
  {
    var spaced := ReplaceChar(s, '_', ' ');
    var capital := UcWords(spaced);
    assert '_' !in capital by {
      forall i | 0 <= i < |capital| ensures capital[i] != '_' {
        assert spaced[i] != '_';
      }
    }
    var ls := Lower(s);
    assert ' ' !in ls by {
      forall i | 0 <= i < |s| ensures ls[i] != ' ' {
        assert s[i] != ' ';
      }
    }
    calc {
      Lower(RemoveChar(capital, ' '));
      { LowerRemoveChar(capital, ' '); }
      RemoveChar(Lower(capital), ' ');
      { LowerUcWords(spaced); }
      RemoveChar(Lower(spaced), ' ');
      { LowerReplaceChar(s); }
      RemoveChar(ReplaceChar(ls, '_', ' '), ' ');
      { RemoveReplaced(ls); }
      RemoveChar(ls, '_');
      { LowerRemoveChar(s, '_'); }
      Lower(RemoveChar(s, '_'));
    }
  }

  /** getName's trim keeps only characters of the name. */
  lemma PlainNameKeeps(name: string, x: char)
    requires x !in name
    ensures x !in PlainName(name)
  {
    TrimKeeps(name, Backtick);
  }

  /**
   * GetUcwName: no space and no underscore is left, ignoring case the
   * result is the name with its underscores deleted, and it is the CamelCase
   * form of the name. Holds for names without spaces, which is every name
   * the constructor stores.
   */
  lemma UcwNameShape(name: string)
    requires ' ' !in name
    ensures ' ' !in UcwName(name) && '_' !in UcwName(name)
    ensures EqualsIgnoreCase(UcwName(name), RemoveChar(PlainName(name), '_'))
    ensures UcwName(name) == Camel(PlainName(name), true)
  {
    var p := PlainName(name);
    PlainNameKeeps(name, ' ');
    TrimFixed(p, Backtick);
    var u := RemoveChar(UcWords(ReplaceChar(p, '_', ' ')), ' ');
    assert UcwName(name) == u;
    CamelCase(p);
    UcWordsCamel(p);
  }

  /**
   * CamelCase, read left to right: every '_' is dropped and makes the next
   * character upper-case; so do the start (when `up`) and the other word
   * delimiters, which are kept.
   */
  function Camel(s: string, up: bool): string
  {
    if s == [] then []
    else if s[0] == '_' then Camel(s[1..], true)
    else [if up then UpperChar(s[0]) else s[0]] + Camel(s[1..], s[0] in WordDelimiters)
  }

  /** `ucwords` where the first character counts as following a delimiter exactly when `up`. */
  function UcWordsFrom(t: string, up: bool): string
  {
    seq(|t|, i requires 0 <= i < |t| => if (i == 0 && up) || (i > 0 && t[i - 1] in WordDelimiters) then UpperChar(t[i]) else t[i])
  }

  lemma UcWordsFromCons(c: char, t: string, up: bool)
    ensures UcWordsFrom([c] + t, up) == [if up then UpperChar(c) else c] + UcWordsFrom(t, c in WordDelimiters)
  {
    var l := UcWordsFrom([c] + t, up);
    var r := [if up then UpperChar(c) else c] + UcWordsFrom(t, c in WordDelimiters);
    forall i | 1 <= i < |l| ensures l[i] == r[i] {
      assert ([c] + t)[i] == t[i - 1];
      assert ([c] + t)[i - 1] == if i == 1 then c else t[i - 2];
    }
  }

  /** The last line of GetUcwName computes Camel, on a text without spaces. */
  lemma UcWordsCamel(s: string)
    requires ' ' !in s
    ensures RemoveChar(UcWords(ReplaceChar(s, '_', ' ')), ' ') == Camel(s, true)
  {
    var spaced := ReplaceChar(s, '_', ' ');
    assert UcWords(spaced) == UcWordsFrom(spaced, true);
    CamelOfSpaced(s, true);
  }

  /** GetUcwName's three steps compute Camel, on a text without spaces. */
  lemma {:induction false} CamelOfSpaced(s: string, up: bool)
    requires ' ' !in s
    ensures RemoveChar(UcWordsFrom(ReplaceChar(s, '_', ' '), up), ' ') == Camel(s, up)
    decreases |s|
  {
    if s != [] {
      var c := s[0];
      var rest := ReplaceChar(s[1..], '_', ' ');
      assert ReplaceChar(s, '_', ' ') == [if c == '_' then ' ' else c] + rest;
      UcWordsFromCons(if c == '_' then ' ' else c, rest, up);
      CamelOfSpaced(s[1..], if c == '_' then true else c in WordDelimiters);
      var head := if c == '_' then ' ' else (if up then UpperChar(c) else c);
      var u := UcWordsFrom(rest, if c == '_' then true else c in WordDelimiters);
      assert RemoveChar([head] + u, ' ') == (if head == ' ' then [] else [head]) + RemoveChar(u, ' ') by {
        assert ([head] + u)[1..] == u;
      }
    }
  }
}
