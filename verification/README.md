# daogen: the Field column parser, in Dafny

daogen reads `CREATE TABLE` text and generates entity and DAO classes
from it. This project models the part that turns one column-definition
line into a `Field`:

- the constructor of `Field`, which cleans up the spacing of the line, splits it on spaces and extracts the name, the type, the length, the default and the NOT NULL flag;
- the getters of `Field`;
- its four type tests;
- the two type tables behind `getDefault` and `getPhpType`;
- three string helpers of the generator script: `mb_str_pad`, `namespaceFilename` and `formatNamespace`.

Modules:

- `Text`: the PHP string built-ins the code calls, as functions on `seq<char>`. These are `strpos`, `stristr`, `str_replace`, `trim`, `explode`, `str_repeat`, `strtolower`, `strtoupper` and `ucwords`. Case mapping is ASCII only, as in PHP 8.
- `Normalize`: what the constructor's two clean-up loops compute. `Squeeze` collapses runs of spaces; `CloseParens` deletes the spaces after `(`. `CollapseSpacing` is the loops themselves.
- `Patterns`: the three regular expressions of the constructor, written as index searches. `.` does not match a newline.
- `ColumnDef`: every stored field as a function of the raw line, and the properties of those functions.
- `TypeClass`: `isInt`, `isNumeric`, `isText`, `isDateTime`, the JSON and PHP tables, and `getDefault`.
- `Names`: `getName`, `getUcName` and `GetUcwName`.
- `Fields`: the class `Field`. Its constructor runs the two loops in place and then assigns each field. `Valid()` ties every field to the functions of `ColumnDef`.
- `DaoGen`: `mb_str_pad`, `namespaceFilename` and `formatNamespace`.

## Behaviour of the code worth knowing

The model follows the code in each of these cases.

- **The default capture.** The capture at `src/class.field.php:72` looks for ` DEFAULT ` (with a space before it) in a text that already starts at the first `default`. The default is therefore `''` unless the line holds a second `default` keyword. This is proved as `ColumnDef.DefaultSingleKeyword`.
- **Case of the keywords.** `DEFAULT`, `ON ` and `NOT NULL` are detected case-sensitively. The cut itself is made case-insensitively, with `stristr`.
  - A line may hold `ON ` with no `on ` (any case) after its first `default`. Then the cut returns `false` and the default is `''` (`ColumnDef.DefaultOnBeforeKeyword`).
- **The JSON table.** `TINYINT` is an integer type, but the JSON table gives it `""` instead of `0`. `DATETIME` also gets `""`.
- **The PHP type table.** It maps `DECIMAL`, `NUMERIC` and `FLOAT` to `int`. It maps `NCHAR`, `CHAR` and the other text types missing from it to `mixed`.
- **Which line is parsed.** The tokens are split from the collapsed line before it is trimmed. A line with a leading space therefore has an empty name (`ColumnDef.LeadingSpaceEmptyName`).

## Model

| member | source | states |
|---|---|---|
| Normalize.CollapseSpacing | src/class.field.php:37-44 | The two loops end with every run of spaces collapsed to one and every space after `(` removed. The loop invariants use the step lemmas below. |
| Normalize.Squeeze | src/class.field.php:37-39 | The collapsed text is no longer than the line, keeps its first character, and holds no double space. |
| Normalize.SqueezeOneSpacePerRun | src/class.field.php:37-39 | The first loop keeps exactly one space for each run of spaces: it collapses runs and deletes none. |
| Normalize.CloseParens | src/class.field.php:42-44 | The cleaned text is no longer than the line, keeps its first character, and holds no `( `. |
| Normalize.NoPairIff | src/class.field.php:37 | The `strpos` test of a loop fails exactly when no such pair of characters is left. |
| Normalize.SqueezeStep | src/class.field.php:38 | One `str_replace('  ', ' ')` pass leaves the collapsed form of the line unchanged and keeps its first character. |
| Normalize.CloseParensOnePass | src/class.field.php:43 | On a line without double spaces, one `str_replace('( ', '(')` pass already removes every space after `(`. |
| Normalize.CloseParensKeepsSingleSpaces | src/class.field.php:42-44 | The second loop never creates a double space again. |
| Normalize.SqueezeKeepsText | src/class.field.php:37-39 | The first loop deletes only spaces. Every other character stays, in order. |
| Normalize.CloseParensKeepsText | src/class.field.php:42-44 | The second loop deletes only spaces. Every other character stays, in order. |
| Normalize.SqueezeFixed | src/class.field.php:37 | A line without double spaces is left unchanged by the first loop. |
| Normalize.CloseParensFixed | src/class.field.php:42 | A line without `( ` is left unchanged by the second loop. |
| Fields.Field.constructor | src/class.field.php:34-88 | Every stored field equals the function of the raw line that `ColumnDef` defines. |
| Fields.NameFromToken | src/class.field.php:52-54 | The stored name is the first token, lower-cased, with its `"` and backticks deleted. |
| Fields.SplitTypeToken | src/class.field.php:57-65 | The type and the length are those of the type token. The length stays unset when the token has no `(`. |
| Fields.ExtractDefault | src/class.field.php:67-81 | The default is unset when the line lacks `DEFAULT`; otherwise it is the cleaned capture. |
| Fields.Field.GetFieldDef | src/class.field.php:95-98 | The stored definition holds no double space and no `( `, and is trimmed at both ends. |
| Fields.Field.GetName | src/class.field.php:105-108 | Trimming backticks returns the stored name unchanged. It holds no quote, no backtick, no space and no upper-case letter. |
| Fields.Field.GetUcName | src/class.field.php:115-118 | The result has the name's length and equals it ignoring case. The first character and each character after a word delimiter are upper-cased; every other character is unchanged. |
| Fields.Field.GetUcwName | src/class.field.php:125-129 | The result holds no space and no underscore. Ignoring case, it is the name with its underscores deleted. It equals `Names.Camel` of the name, a one-pass reference: each `_` is dropped, and the first character and each character after a `_` or another word delimiter are upper-cased. So `user_name` gives `UserName`. |
| Fields.Field.GetNotNull | src/class.field.php:343-346 | True exactly when the stored definition holds `NOT NULL` in capitals. |
| Fields.Field.OneTypeTest | src/class.field.php:146-223 | At most one of `isInt`, `isNumeric`, `isText` and `isDateTime` holds for a field. |
| Fields.Field.DefaultHasNoParens | src/class.field.php:75 | A stored default never holds `(` or `)`. |
| Fields.Field.GetDefault | src/class.field.php:242-298 | For `json` (in any case), the result is the JSON table's literal. For `php`, it is `null`, the stored default, or the time expression, and only the time expression holds `(`. For every other language it is `null`. |
| Fields.Field.GetPhpType | src/class.field.php:305-335 | The result is the PHP table's entry for the stored type: `string` exactly for the text and time prefixes, `int` exactly when the JSON default is `0`, and `mixed` otherwise. |
| ColumnDef.CollapsedShape | src/class.field.php:37-44 | The collapsed line holds no double space and no `( `. |
| ColumnDef.DefinitionShape | src/class.field.php:46 | The stored definition holds no double space and no `( `. It does not start or end with whitespace. |
| ColumnDef.DefinitionIdempotent | src/class.field.php:36-46 | Normalising a stored definition again gives it back unchanged. |
| ColumnDef.CollapsedParsesAlike | src/class.field.php:34-88 | The collapsed line parses to the same six fields as the raw line. |
| ColumnDef.NameShape | src/class.field.php:49-54 | The name holds no quote, backtick, space or upper-case letter. `getName`'s trim leaves it unchanged. |
| ColumnDef.NameFromFirstToken | src/class.field.php:49-54 | The name comes from the text before the first space of the collapsed, untrimmed line. |
| ColumnDef.LeadingSpaceEmptyName | src/class.field.php:49-52 | A line that starts with a space gets an empty name. |
| ColumnDef.TypeAndLength | src/class.field.php:57-65 | On a one-line token with `(`, the length is the text between the first `(` and the last `)`, or `''` without such a `)`. The type is the text before the last `(`. Without `(`, the type is the token and the length stays unset. |
| ColumnDef.TokensOneLine | src/class.field.php:49-57 | A definition without newlines gives a type token without newlines. |
| ColumnDef.DefaultPresence | src/class.field.php:68 | A default is stored exactly when the stored definition holds `DEFAULT` in capitals. |
| ColumnDef.DefaultClean | src/class.field.php:72-80 | A stored default holds no parenthesis and no `CONVERT`. It becomes `null` when the capture, with its parentheses removed, holds `CONVERT`; otherwise it is that capture with its parentheses removed. |
| ColumnDef.DefaultTextClean | src/class.field.php:72-80 | The same, for the collapsed line. |
| ColumnDef.StripParensKeeps | src/class.field.php:75 | Removing `(` and `)` keeps every other character, and only those. |
| ColumnDef.DefaultSourceShape | src/class.field.php:69-71 | `$s` is a piece of the line that starts at its first `default` (any case), so it does not start with whitespace. |
| ColumnDef.CaptureNeedsSecondKeyword | src/class.field.php:69-72 | The capture can only match when the line holds a second `default` (any case) after the first. |
| ColumnDef.DefaultSingleKeyword | src/class.field.php:68-81 | With a single `default` keyword in any case, the stored default is `''`. |
| ColumnDef.SingleKeywordText | src/class.field.php:68-81 | The same, for the collapsed line. |
| ColumnDef.EmptyCapture | src/class.field.php:72-75 | A capture that finds nothing leaves the default `''`. |
| ColumnDef.NoOnAfterKeyword | src/class.field.php:70-72 | When no `on ` follows the first `default`, the case-insensitive cut returns `false` and the default is `''`. |
| ColumnDef.DefaultOnBeforeKeyword | src/class.field.php:68-81 | The same, stated for the raw line: a line that holds `ON ` but no `on ` (any case) after its first `default` gets the default `''`. |
| ColumnDef.NotNullIff | src/class.field.php:84-86 | The flag is set exactly when the stored definition holds `NOT NULL` in capitals. |
| Patterns.ParenGroupOneLine | src/class.field.php:61-62 | On a one-line text with `(`, `/\((.*)\)/` captures the text from the first `(` to the last `)`. It fails when no `)` follows the first `(`. |
| Patterns.ParenGroupClosed | src/class.field.php:61 | At a `(` followed by a `)`, the match runs to the last `)`. |
| Patterns.ParenGroupUnclosed | src/class.field.php:61 | At a `(` with no `)` after it, nothing matches. |
| Patterns.BeforeParenOneLine | src/class.field.php:63-64 | On a one-line text, `/(.*)\(/` captures everything before the last `(`, and fails without a `(`. |
| TypeClass.TypeTestsIgnoreCase | src/class.field.php:146-223 | Each type test holds exactly when the type equals one of its listed names, ignoring case. |
| TypeClass.TypeTestsAgree | src/class.field.php:146-223 | Two types that agree ignoring case pass the same tests. |
| TypeClass.TypeTestsDisjoint | src/class.field.php:146-223 | The four name lists share no name. |
| TypeClass.UpperMembership | src/class.field.php:148 | Comparing the upper-cased type with upper-case names is comparing ignoring case. |
| TypeClass.Prefix8 | src/class.field.php:247 | The key is the upper-cased type cut to at most eight characters. |
| TypeClass.JsonDefault | src/class.field.php:246-280 | The result is one of the five literals. It is `0` exactly for the number prefixes. Every prefix other than the number prefixes, `DATE`, `TIME` and `TIMESTAM` gives `""`, including the text prefixes, `DATETIME` and any unlisted type. |
| TypeClass.PhpType | src/class.field.php:305-335 | The result is `string` exactly for the text and time prefixes, and `int` exactly for the number prefixes. |
| TypeClass.TablesSeeEightCharacters | src/class.field.php:247 | Types that agree on their first eight characters, ignoring case, get the same JSON literal and PHP type. |
| TypeClass.TablesSeeUpperCase | src/class.field.php:307 | A type and its upper-cased form get the same answers from both tables. |
| TypeClass.IntExactlyWhenZero | src/class.field.php:256-263 | The PHP table says `int` exactly when the JSON table says `0`. |
| TypeClass.StringTypesQuoted | src/class.field.php:308-318 | Every type the PHP table calls `string` gets a quoted JSON literal. |
| TypeClass.TimeDefaults | src/class.field.php:265-276 | The date and time prefixes get their epoch literals, and `DATETIME` gets `""`. |
| TypeClass.TextTypesJson | src/class.field.php:187-207 | Every type `isText` accepts gets `""` from the JSON table. |
| TypeClass.DateTimeTypesJson | src/class.field.php:214-223 | `TIMESTAMP` gets the epoch instant from the JSON table, and `DATETIME` gets `""`. |
| TypeClass.IntTypesJson | src/class.field.php:146-158 | Every integer type except `TINYINT` gets `0` from the JSON table. `TINYINT` falls through to `""`. |
| TypeClass.PhpDefault | src/class.field.php:284-294 | An unset or empty default gives `null`. `CURRENT_TIMESTAMP` in any case gives the time expression. Anything else is returned unchanged. |
| TypeClass.DefaultByLanguage | src/class.field.php:244-297 | The language is compared ignoring case. `json` gives the JSON table, `php` the PHP branch, and any other language `null`. |
| TypeClass.PhpDefaultParens | src/class.field.php:284-294 | For a default without `(`, the PHP branch's result holds `(` exactly when it is the time expression. |
| Names.UcNameIgnoringCase | src/class.field.php:115-118 | `ucwords` keeps the length and equals the plain name ignoring case. It upper-cases the first character and each character after a word delimiter, and keeps every other character. |
| Names.UcNameOfPlain | src/class.field.php:115-118 | The same, for a name without backticks, stated against the stored name. |
| Names.PlainNameFixed | src/class.field.php:105-108 | A name without backticks is returned unchanged by `getName`. |
| Names.CamelCase | src/class.field.php:128 | On a text without spaces, the result holds no space and no underscore. Ignoring case, it is the text with its underscores deleted. |
| Names.UcwNameShape | src/class.field.php:125-129 | For a name without spaces, `GetUcwName` holds no space and no underscore. Ignoring case, it is the plain name with its underscores deleted, and it equals the CamelCase reference `Names.Camel`. |
| Names.CamelOfSpaced | src/class.field.php:128 | On a text without spaces, replacing `_` by spaces, applying `ucwords` and deleting the spaces computes the one-pass CamelCase reference `Names.Camel`. |
| Names.UcWordsFromCons | src/class.field.php:128 | `ucwords` of a text with one more character in front: that character is upper-cased when it starts a word, and it decides whether the next one does. |
| Names.LowerRemoveChar | src/class.field.php:52-54 | Deleting a non-letter commutes with lower-casing. |
| Names.RemoveReplaced | src/class.field.php:128 | Turning `_` into spaces and then deleting the spaces deletes the underscores, on a text without spaces. |
| Text.Explode | src/class.field.php:49 | `explode` gives at least one piece. No piece holds a space, and joining the pieces with spaces gives the line back. |
| Text.ExplodeImplode | src/class.field.php:49 | Splitting a space-joined list of space-free pieces gives the pieces back. |
| Text.TrimShape | src/class.field.php:46 | `trim` cuts exactly the runs of listed characters at both ends, and nothing else. |
| Text.TrimLeft | src/class.field.php:46 | The result is a suffix of the text. Every character cut is in the list, and the result does not start with one. |
| Text.TrimRight | src/class.field.php:46 | The result is a prefix of the text. Every character cut is in the list, and the result does not end with one. |
| Text.ContainsTrim | src/class.field.php:46 | Trimming keeps every occurrence of a needle that starts and ends outside the trimmed characters. |
| Text.IndexFrom | src/class.field.php:37 | `strpos` returns the first occurrence at or after the start, or fails when there is none. |
| Text.ReplaceAllShorter | src/class.field.php:38 | Replacing by a shorter text never lengthens the line, and shortens it whenever the pattern occurs. |
| Text.ReplaceAllAbsent | src/class.field.php:43 | A line without the pattern is left unchanged. |
| Text.RemoveChar | src/class.field.php:53-54 | The deleted character is gone; every other character is kept, and only those. |
| Text.FoldsAgree | src/class.field.php:246 | Equal ignoring case (`strcasecmp`) is equal after `strtoupper`. |
| Text.RepeatAt | src/DaoGen.php:43 | `str_repeat` reads the pad string cyclically. |
| DaoGen.FormatNamespace | src/DaoGen.php:72-79 | An empty namespace (`''` or `'0'`) is returned unchanged. Any other gets one `/` in front of its separator-trimmed text. |
| DaoGen.FormatNamespaceIdempotent | src/DaoGen.php:72-79 | Formatting a formatted namespace changes nothing. |
| DaoGen.NamespaceFilename | src/DaoGen.php:59-65 | An empty namespace is returned unchanged. Any other is the directory separator followed by the formatted namespace. |
| DaoGen.MbStrPad | src/DaoGen.php:34-48 | The call fails with a division by zero exactly when the pad string is empty. |
| DaoGen.Cycle | src/DaoGen.php:42-45 | The cyclic pad has exactly the requested width. |
| DaoGen.MbStrPadPieces | src/DaoGen.php:37-47 | The result is a left pad, the text and a right pad. Both pads read the pad string cyclically and split the missing width in half, the right pad taking the odd character. |
| DaoGen.MbStrPadMeetsSpec | src/DaoGen.php:34-48 | With a non-empty pad string, the result equals the reference padding for every length and direction. |
| DaoGen.MbStrPadLength | src/DaoGen.php:34-48 | For a known direction, the result is as long as the larger of the pad length and the text. |
| DaoGen.MbStrPadPlacement | src/DaoGen.php:34-48 | Where the text sits in the result for each direction, and what the pads hold. An unknown direction returns the text unchanged. |
| DaoGen.MbStrPadNoShortfall | src/DaoGen.php:34-48 | A pad length no larger than the text leaves the text unchanged. |
| DaoGen.PadCounts | src/DaoGen.php:40-45 | The repeated string is long enough for both pads, and it is empty when a pad width is negative. Clipped at zero, the two widths are the floor and the ceiling of the missing width over the number of sides padded. |

## Left out

- The generator script around the helpers (`src/DaoGen.php` after line 80) is not part of this model. This covers reading the DDL, splitting it into tables and lines, the templates, file output and the HTML form.
- The `$options` parameter of the constructor is never read by the code, so the model has no such parameter.
- `mb_str_pad`'s `$encoding` parameter and `mb_internal_encoding()` are left out. Strings are sequences of code points, so `mb_strlen` is the sequence length.
- DaoGen.MbStrPad: `$targetLen` is a float in PHP. The model uses exact integer `floor` and `ceil`, which agree with PHP's float arithmetic while the lengths stay below 2^53. Float rounding beyond that is not modelled.
- The source's default arguments (`$fieldDef=''` of the constructor, `$language='json'` of `getDefault`, `$pad_str=' '` and `$dir=STR_PAD_RIGHT` of `mb_str_pad`) are not modelled as defaults: every caller passes each argument explicitly. No behaviour is lost.
- `DIRECTORY_SEPARATOR` is a parameter of `DaoGen.NamespaceFilename`, not the platform's constant.
- `time()` in the `php` default for `CURRENT_TIMESTAMP`: the model returns the PHP expression text, which is what the code returns. It is never evaluated.
- General PCRE matching is not modelled. Only the three patterns the constructor uses are, as index searches.
- Patterns.ParenGroupOneLine, Patterns.BeforeParenOneLine, ColumnDef.TypeAndLength: stated for texts without a newline. On a text with newlines the functions still follow PCRE's `.` (which stops at a newline), but no closed-form lemma is given for them.
- Case mapping (`strtolower`, `strtoupper`, `ucwords`, `stristr`, `strcasecmp`) is ASCII only, as in PHP 8. Locale-dependent mapping is left out.
- Fields.Field.GetType, Fields.Field.GetLength: their contracts only say that they return the stored field. What that field holds is stated by `ColumnDef.TypeAndLength`.
- `isInt`, `isNumeric`, `isText` and `isDateTime` have no contract of their own. Their meaning is proved in `TypeClass.TypeTestsIgnoreCase`.
