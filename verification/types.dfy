/**
 * The type tests and type tables of a Field (src/class.field.php:146-335),
 * as functions of the stored type text. The four type tests compare the
 * upper-cased type against fixed name lists; getDefault and getPhpType look
 * only at the first eight characters of the upper-cased type.
 */
module TypeClass {
  import opened Text

  // ---------------------------------------------------------------------
  // The four type tests (lines 146-223)

  const IntTypes: set<string> := {"TINYINT", "SMALLINT", "INTEGER", "BIGINT", "INT"}

  const NumericTypes: set<string> := {"NUMERIC", "DECIMAL", "MONEY", "DEC", "FIXED", "FLOAT", "DOUBLE", "REAL"}

  const TextTypes: set<string> :=
    {"NVARCHAR", "VARCHAR", "NCHAR", "CHAR", "TINYBLOB", "BLOB", "MEDIUMBLOB", "LONGBLOB",
     "TINYTEXT", "TEXT", "MEDIUMTEXT", "LONGTEXT", "MULTILINETEXT"}

  const DateTimeTypes: set<string> := {"TIMESTAMP", "DATETIME"}

  predicate IsInt(sqlType: string)
  {
    Upper(sqlType) in IntTypes
  }

  predicate IsNumeric(sqlType: string)
  {
    Upper(sqlType) in NumericTypes
  }

  predicate IsText(sqlType: string)
  {
    Upper(sqlType) in TextTypes
  }

  predicate IsDateTime(sqlType: string)
  {
    Upper(sqlType) in DateTimeTypes
  }

  /** `t` equals, ignoring case, one of `names`: what a case-insensitive membership test means. */
  ghost predicate InIgnoringCase(t: string, names: set<string>)
  {
    exists u :: u in names && EqualsIgnoreCase(t, u)
  }

  lemma LowerOfUpper(t: string)
    ensures Lower(Upper(t)) == Lower(t)
  {
    forall i | 0 <= i < |t| ensures Lower(Upper(t))[i] == Lower(t)[i] {
      assert Upper(t)[i] == UpperChar(t[i]);
    }
  }

  /** Comparing the upper-cased text with upper-case names is comparing ignoring case. */
  lemma UpperMembership(t: string, names: set<string>)
    requires forall u :: u in names ==> Upper(u) == u
    ensures Upper(t) in names <==> InIgnoringCase(t, names)
  {
    if Upper(t) in names {
      LowerOfUpper(t);
      assert EqualsIgnoreCase(t, Upper(t));
    }
    if InIgnoringCase(t, names) {
      var u :| u in names && EqualsIgnoreCase(t, u);
      FoldsAgree(t, u);
    }
  }

  /** The name lists are written in capitals. */
  lemma NamesInCapitals()
    ensures forall u :: u in IntTypes ==> Upper(u) == u
    ensures forall u :: u in NumericTypes ==> Upper(u) == u
    ensures forall u :: u in TextTypes ==> Upper(u) == u
    ensures forall u :: u in DateTimeTypes ==> Upper(u) == u
  {
    NumberNamesInCapitals();
    TextNamesInCapitals();
  }

  lemma NumberNamesInCapitals()
    ensures forall u :: u in IntTypes ==> Upper(u) == u
    ensures forall u :: u in NumericTypes ==> Upper(u) == u
  {
  }

  lemma TextNamesInCapitals()
    ensures forall u :: u in TextTypes ==> Upper(u) == u
  {
    forall u | u in TextTypes ensures Upper(u) == u {
      CapitalsFixed(u);
    }
  }

  /** A text without lower-case letters is its own upper-case form. */
  lemma CapitalsFixed(u: string)
    requires forall i :: 0 <= i < |u| ==> !('a' <= u[i] <= 'z')
    ensures Upper(u) == u
  {
  }

  /** Each type test is a case-insensitive membership test on the type text. */
  lemma TypeTestsIgnoreCase(t: string)
    ensures IsInt(t) <==> InIgnoringCase(t, IntTypes)
    ensures IsNumeric(t) <==> InIgnoringCase(t, NumericTypes)
    ensures IsText(t) <==> InIgnoringCase(t, TextTypes)
    ensures IsDateTime(t) <==> InIgnoringCase(t, DateTimeTypes)
  {
    NamesInCapitals();
    UpperMembership(t, IntTypes);
    UpperMembership(t, NumericTypes);
    UpperMembership(t, TextTypes);
    UpperMembership(t, DateTimeTypes);
  }

  /** Two types that agree ignoring case pass the same tests. */
  lemma TypeTestsAgree(a: string, b: string)
    requires EqualsIgnoreCase(a, b)
    ensures IsInt(a) == IsInt(b) && IsNumeric(a) == IsNumeric(b)
    ensures IsText(a) == IsText(b) && IsDateTime(a) == IsDateTime(b)
  {
    FoldsAgree(a, b);
  }

  /** The four name lists share no name, so at most one test holds for any type. */
  lemma TypeTestsDisjoint(t: string)
    ensures IsInt(t) ==> !IsNumeric(t) && !IsText(t) && !IsDateTime(t)
    ensures IsNumeric(t) ==> !IsText(t) && !IsDateTime(t)
    ensures IsText(t) ==> !IsDateTime(t)
  {
  }

  // ---------------------------------------------------------------------
  // The eight-character tables of getDefault and getPhpType

  /** `mb_substr(strtoupper($type), 0, 8)`. */
  function Prefix8(sqlType: string): (p: string)
    ensures |p| == if |sqlType| < 8 then |sqlType| else 8
    ensures p == Upper(sqlType)[..|p|]
  {
    var u := Upper(sqlType);
    if |u| < 8 then u else u[..8]
  }

  /** Prefixes both tables map to text. */
  const TextPrefixes: set<string> := {"NVARCHAR", "VARCHAR", "TEXT", "MEDIUMTE", "LONGTEXT", "BLOB"}

  /** Prefixes both tables map to numbers. */
  const NumberPrefixes: set<string> := {"BIGINT", "SMALLINT", "INT", "INTEGER", "NUMERIC", "DECIMAL", "FLOAT"}

  /** Prefixes of the date and time types. */
  const TimePrefixes: set<string> := {"DATE", "TIME", "TIMESTAM", "DATETIME"}

  const EmptyJson := "\"\""
  const EpochDateJson := "\"1970-01-01\""
  const MidnightJson := "\"00:00:00\""
  const EpochJson := "\"1970-01-01T00:00:00Z\""

  /** The JSON literal getDefault gives for a type (lines 247-283). */
  function JsonDefault(sqlType: string): (r: string)
    ensures r in {EmptyJson, "0", EpochDateJson, MidnightJson, EpochJson}
    ensures r == "0" <==> Prefix8(sqlType) in NumberPrefixes
    ensures Prefix8(sqlType) !in NumberPrefixes + {"DATE", "TIME", "TIMESTAM"} ==> r == EmptyJson
  {
    var p := Prefix8(sqlType);
    if p in TextPrefixes then EmptyJson
    else if p in NumberPrefixes then "0"
    else if p == "DATE" then EpochDateJson
    else if p == "TIME" then MidnightJson
    else if p == "TIMESTAM" then EpochJson
    else EmptyJson
  }

  /** The PHP type name getPhpType gives for a type (lines 305-335). */
  function PhpType(sqlType: string): (r: string)
    ensures r in {"string", "int", "mixed"}
    ensures r == "string" <==> Prefix8(sqlType) in TextPrefixes + TimePrefixes
    ensures r == "int" <==> Prefix8(sqlType) in NumberPrefixes
  {
    var p := Prefix8(sqlType);
    if p in TextPrefixes || p in TimePrefixes then "string"
    else if p in NumberPrefixes then "int"
    else "mixed"
  }

  lemma UpperPrefix(t: string, n: nat)
    requires n <= |t|
    ensures Upper(t)[..n] == Upper(t[..n])
  {
  }

  /** Both tables see only the first eight characters of the type, ignoring case. */
  lemma TablesSeeEightCharacters(a: string, b: string)
    requires EqualsIgnoreCase(if |a| < 8 then a else a[..8], if |b| < 8 then b else b[..8])
    ensures JsonDefault(a) == JsonDefault(b) && PhpType(a) == PhpType(b)
  {
    var a8 := if |a| < 8 then a else a[..8];
    var b8 := if |b| < 8 then b else b[..8];
    UpperPrefix(a, |a8|);
    UpperPrefix(b, |b8|);
    FoldsAgree(a8, b8);
    assert Prefix8(a) == Upper(a8) == Upper(b8) == Prefix8(b);
  }

  /** The JSON table and the PHP table agree on which types are numbers. */
  lemma IntExactlyWhenZero(t: string)
    ensures PhpType(t) == "int" <==> JsonDefault(t) == "0"
  {
  }

  /** Every type the PHP table calls a string gets a quoted JSON default. */
  lemma StringTypesQuoted(t: string)
    ensures PhpType(t) == "string" ==> JsonDefault(t)[0] == '"'
  {
  }

  /** The named date and time prefixes, in any case, get their JSON literals. */
  lemma TimeDefaults(t: string)
    ensures Prefix8(t) == "DATE" ==> JsonDefault(t) == EpochDateJson
    ensures Prefix8(t) == "TIME" ==> JsonDefault(t) == MidnightJson
    ensures Prefix8(t) == "TIMESTAM" ==> JsonDefault(t) == EpochJson
    ensures Prefix8(t) == "DATETIME" ==> JsonDefault(t) == EmptyJson
  {
  }

  /** Every text type gets `""` from the JSON table. */
  lemma TextTypesJson(t: string)
    ensures IsText(t) ==> JsonDefault(t) == EmptyJson
  {
    TablesSeeUpperCase(t);
    var u := Upper(t);
    if u in TextTypes {
      TextNamesInCapitals();
      if |u| <= 8 {
        assert Prefix8(u) == u;
        ShortTextNamesJson(u);
      } else {
        LongTextNamesJson(u);
      }
    }
  }

  lemma ShortTextNamesJson(u: string)
    requires u in TextTypes && |u| <= 8
    ensures u in TextPrefixes || (u !in NumberPrefixes && u != "DATE" && u != "TIME" && u != "TIMESTAM")
  {
  }

  lemma LongTextNamesJson(u: string)
    requires u in TextTypes && |u| > 8 && Upper(u) == u
    ensures JsonDefault(u) == EmptyJson
  {
    if u == "MEDIUMBLOB" {
      assert Prefix8(u) == "MEDIUMBL";
    } else if u == "MEDIUMTEXT" {
      assert Prefix8(u) == "MEDIUMTE";
    } else {
      assert Prefix8(u) == "MULTILIN";
    }
  }

  /** TIMESTAMP gets the epoch from the JSON table, while DATETIME gets `""`. */
  lemma DateTimeTypesJson(t: string)
    ensures Upper(t) == "TIMESTAMP" ==> JsonDefault(t) == EpochJson
    ensures Upper(t) == "DATETIME" ==> JsonDefault(t) == EmptyJson
  {
    TablesSeeUpperCase(t);
    var u := Upper(t);
    if u == "TIMESTAMP" {
      assert Prefix8(u) == "TIMESTAM";
    } else if u == "DATETIME" {
      assert Prefix8(u) == "DATETIME";
    }
  }

  /** Every integer type but TINYINT gets `0` from the JSON table; TINYINT falls to the default `""`. */
  lemma IntTypesJson(t: string)
    ensures Upper(t) == "TINYINT" ==> JsonDefault(t) == EmptyJson
    ensures IsInt(t) && Upper(t) != "TINYINT" ==> JsonDefault(t) == "0"
  {
    TablesSeeUpperCase(t);
    var u := Upper(t);
    if u in IntTypes {
      assert Prefix8(u) == u;
    }
  }

  lemma UpperTwice(t: string)
    ensures Upper(Upper(t)) == Upper(t)
  {
  }

  /** Both tables give the same answer for a type and for its upper-cased form. */
  lemma TablesSeeUpperCase(t: string)
    ensures JsonDefault(Upper(t)) == JsonDefault(t) && PhpType(Upper(t)) == PhpType(t)
  {
    UpperTwice(t);
  }

  // ---------------------------------------------------------------------
  // getDefault (lines 242-298)

  /** The PHP expression getDefault returns for CURRENT_TIMESTAMP (line 290), kept as text. */
  const CurrentTimestampExpr: string := " (new \\DateTime(" + "'@'.time() ))->" + "format('Y-m-d\\TH:i:s\\Z') "

  /** The `php` branch (lines 286-295); `None` is a default that was never assigned. */
  function PhpDefault(dflt: Option<string>): (r: string)
    ensures dflt.None? || dflt.value == "" ==> r == "null"
    ensures dflt.Some? && EqualsIgnoreCase(dflt.value, "CURRENT_TIMESTAMP") ==> r == CurrentTimestampExpr
    ensures r == "null" || r == CurrentTimestampExpr || (dflt.Some? && r == dflt.value)
    ensures dflt.Some? && dflt.value != "" && !EqualsIgnoreCase(dflt.value, "CURRENT_TIMESTAMP") ==> r == dflt.value
  {
    if dflt.None? || |dflt.value| == 0 then "null"
    else if EqualsIgnoreCase(dflt.value, "CURRENT_TIMESTAMP") then CurrentTimestampExpr
    else dflt.value
  }

  /** getDefault($language): the JSON table for `json`, the PHP branch for `php`, `null` otherwise. */
  function DefaultLiteral(sqlType: string, dflt: Option<string>, language: string): string
  {
    var s := if EqualsIgnoreCase(language, "json") then JsonDefault(sqlType) else "null";
    if EqualsIgnoreCase(language, "php") then PhpDefault(dflt) else s
  }

  /** The language is compared ignoring case, and every other language gives `null`. */
  lemma DefaultByLanguage(sqlType: string, dflt: Option<string>, language: string)
    ensures Lower(language) == "json" ==> DefaultLiteral(sqlType, dflt, language) == JsonDefault(sqlType)
    ensures Lower(language) == "php" ==> DefaultLiteral(sqlType, dflt, language) == PhpDefault(dflt)
    ensures Lower(language) != "json" && Lower(language) != "php" ==> DefaultLiteral(sqlType, dflt, language) == "null"
  {
    assert Lower("json") == "json" && Lower("php") == "php";
  }

  /** A default without parentheses is returned by the `php` branch unchanged, or as `null` or the time expression. */
  lemma PhpDefaultParens(dflt: Option<string>)
    requires dflt.Some? ==> '(' !in dflt.value
    ensures '(' in PhpDefault(dflt) <==> PhpDefault(dflt) == CurrentTimestampExpr
  {
    assert CurrentTimestampExpr[1] == '(';
  }
}
