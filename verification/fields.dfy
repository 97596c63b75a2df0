/**
 * class Field (src/class.field.php:17-345): one column of a table, parsed
 * from its DDL line by the constructor and read back through getters.
 * `line` is the raw definition the object was built from; Valid() ties
 * every stored field to the functions of that line in ColumnDef, where
 * their properties are proved. The methods below the class are the
 * statement-by-statement form of those functions (NameOfToken, TypeOfToken
 * and LengthOfToken, DefaultOfText), one per block of the constructor, and
 * each is proved to compute its function.
 */
module Fields {
  import opened Text
  import opened Normalize
  import opened Patterns
  import opened ColumnDef
  import TypeClass
  import Names

  class Field {
    var fieldDef: string
    var name: string
    var sqlType: string
    /** None while unset (PHP null): the type token had no '('. */
    var length: Option<string>
    /** None while unset (PHP null): the line had no "DEFAULT". */
    var defaultValue: Option<string>
    var notNull: bool
    ghost var line: string

    ghost predicate Valid()
      reads this
    {
      fieldDef == Definition(line)
      && name == NameOf(line)
      && sqlType == TypeOf(line)
      && length == LengthOf(line)
      && defaultValue == DefaultOf(line)
      && notNull == NotNullOf(line)
    }

    /**
     * The constructor (lines 34-88): the two clean-up loops, then each field
     * in turn. The type and default blocks are the methods below the class.
     */
    constructor (rawDef: string)
      ensures Valid() && line == rawDef
    {
      var def := CollapseSpacing(rawDef);
      assert def == Collapsed(rawDef);

      var parts := Explode(def);
      assert parts == Tokens(rawDef);
      var name := NameFromToken(parts[0]);

      var sqlType, length := SplitTypeToken(SecondToken(parts));

      var defaultValue := ExtractDefault(def);

      var notNull := false;
      if Contains(def, "NOT NULL") {
        notNull := true;
      }

      this.fieldDef := Trim(def, Whitespace);
      this.name := name;
      this.sqlType := sqlType;
      this.length := length;
      this.defaultValue := defaultValue;
      this.notNull := notNull;
      line := rawDef;
    }

    /** getFieldDef: the normalised, trimmed definition. */
    function GetFieldDef(): (r: string)
      reads this
      requires Valid()
      ensures r == Definition(line)
      ensures !Contains(r, "  ") && !Contains(r, "( ")
      ensures r != [] ==> r[0] !in Whitespace && r[|r| - 1] !in Whitespace
    {
      DefinitionShape(line);
      fieldDef
    }

    /** getName: trimming backticks off the stored name changes nothing. */
    function GetName(): (r: string)
      reads this
      requires Valid()
      ensures r == name == NameOf(line)
      ensures '"' !in r && '`' !in r && ' ' !in r
      ensures forall x :: x in r ==> !('A' <= x <= 'Z')
    {
      NameShape(line);
      Names.PlainNameFixed(name);
      Names.PlainName(name)
    }

    /** getUcName: the name with the first letter of each word upper-cased, and nothing else changed. */
    function GetUcName(): (r: string)
      reads this
      requires Valid()
      ensures EqualsIgnoreCase(r, name) && Names.WordsCapitalised(r, name)
    {
      NameUnquoted(line);
      Names.UcNameOfPlain(name);
      Names.UcName(name)
    }

    /** GetUcwName: the name in CamelCase, without underscores. */
    function GetUcwName(): (r: string)
      reads this
      requires Valid()
      ensures ' ' !in r && '_' !in r
      ensures EqualsIgnoreCase(r, RemoveChar(name, '_'))
      ensures r == Names.Camel(name, true)
    {
      NameUnquoted(line);
      Names.PlainNameFixed(name);
      Names.UcwNameShape(name);
      Names.UcwName(name)
    }

    function GetType(): (r: string)
      reads this
      requires Valid()
      ensures r == TypeOf(line)
    {
      sqlType
    }

    function GetLength(): (r: Option<string>)
      reads this
      requires Valid()
      ensures r == LengthOf(line)
    {
      length
    }

    /** getNotNull: whether the definition says NOT NULL, in capitals. */
    function GetNotNull(): (r: bool)
      reads this
      requires Valid()
      ensures r <==> Contains(GetFieldDef(), "NOT NULL")
    {
      NotNullIff(line);
      notNull
    }

    predicate IsInt()
      reads this
    {
      TypeClass.IsInt(sqlType)
    }

    predicate IsNumeric()
      reads this
    {
      TypeClass.IsNumeric(sqlType)
    }

    predicate IsText()
      reads this
    {
      TypeClass.IsText(sqlType)
    }

    predicate IsDateTime()
      reads this
    {
      TypeClass.IsDateTime(sqlType)
    }

    /** At most one of the four type tests holds for a field. */
    lemma OneTypeTest()
      ensures IsInt() ==> !IsNumeric() && !IsText() && !IsDateTime()
      ensures IsNumeric() ==> !IsText() && !IsDateTime()
      ensures IsText() ==> !IsDateTime()
    {
      TypeClass.TypeTestsDisjoint(sqlType);
    }

    /** The stored default never holds a parenthesis. */
    lemma DefaultHasNoParens()
      requires Valid()
      ensures defaultValue.Some? ==> '(' !in defaultValue.value && ')' !in defaultValue.value
    {
      if defaultValue.Some? {
        DefaultClean(line);
      }
    }

    /**
     * getDefault($language). For `php` the stored default, which never holds
     * a parenthesis, comes back as 'null', as itself, or as the time
     * expression, and only the time expression holds a '('.
     */
    function GetDefault(language: string): (r: string)
      reads this
      requires Valid()
      ensures Lower(language) == "json" ==> r == TypeClass.JsonDefault(sqlType)
      ensures Lower(language) == "php" ==>
                r == TypeClass.PhpDefault(defaultValue)
                && ('(' in r <==> r == TypeClass.CurrentTimestampExpr)
      ensures Lower(language) != "json" && Lower(language) != "php" ==> r == "null"
    {
      DefaultHasNoParens();
      TypeClass.PhpDefaultParens(defaultValue);
      TypeClass.DefaultByLanguage(sqlType, defaultValue, language);
      TypeClass.DefaultLiteral(sqlType, defaultValue, language)
    }

    /** getPhpType: the PHP table's entry for the type; 'int' exactly when the JSON default is 0. */
    function GetPhpType(): (r: string)
      reads this
      ensures r in {"string", "int", "mixed"}
      ensures r == "int" <==> TypeClass.JsonDefault(sqlType) == "0"
      ensures r == TypeClass.PhpType(sqlType)
      ensures r == "string" <==> TypeClass.Prefix8(sqlType) in TypeClass.TextPrefixes + TypeClass.TimePrefixes
    {
      TypeClass.IntExactlyWhenZero(sqlType);
      TypeClass.PhpType(sqlType)
    }
  }

  /** Lines 52-54: the first token, lower-cased, with its double quotes and backticks deleted. */
  method NameFromToken(token: string) returns (name: string)
    ensures name == NameOfToken(token)
  {
    name := Lower(token);
    name := RemoveChar(name, '"');
    name := RemoveChar(name, '`');
  }

  /**
   * Lines 57-65: a type token with '(' is split by the two regular
   * expressions into the type before the last '(' and the length; without
   * '(' the token is the type and the length stays unset.
   */
  method SplitTypeToken(token: string) returns (sqlType: string, length: Option<string>)
    ensures sqlType == TypeOfToken(token) && length == LengthOfToken(token)
  {
    sqlType := token;
    length := None;
    if Contains(sqlType, "(") {
      length := Some(OrEmpty(ParenGroup(Trim(sqlType, Whitespace))));
      sqlType := OrEmpty(BeforeParen(Trim(sqlType, Whitespace)));
    }
  }

  /** Lines 68-81: the default of the collapsed line `def`, unset when `def` lacks "DEFAULT". */
  method ExtractDefault(def: string) returns (defaultValue: Option<string>)
    ensures defaultValue == DefaultOfText(def)
  {
    defaultValue := None;
    if Contains(def, "DEFAULT") {
      var s := OrEmpty(StrIStr(def, "DEFAULT"));
      if Contains(def, "ON ") {
        s := OrEmpty(StrIStrBefore(s, "ON "));
      }
      var captured := OrEmpty(DefaultCapture(Trim(s, Whitespace)));
      var d := RemoveChar(RemoveChar(captured, '('), ')');
      if Contains(d, "CONVERT") {
        d := "null";
      }
      defaultValue := Some(d);
    }
  }
}
