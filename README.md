# A verified model of the API's statement builder, validator and route table

This project models, in Dafny, the logic at the heart of a small PHP REST API:

- **The `Database` statement builder** (`api/lib/database.php`). An object
  accumulates clause fragments through `select`, `set`, `from`, `join`,
  `where`, `limit`, `orderBy` and `groupBy`. The `mount*` helpers turn
  those fragments into sections, and `get`, `insert`, `update` and `query`
  build and run a statement and then clear the clauses. `where` translates
  the "LHS-bracket" filter language (`{"age": {"gt": "10"}}`) through
  `makeCustomWhere`. `getResult` decodes the rows MySQL returns according to
  each column's type code. `makeFilter` and `makeOrder` map request
  parameters onto allow-listed columns.
- **The request validator** (`api/lib/utils.php`). `handleDataReceived`
  checks a payload against a resource's field schema. It coerces the values
  it accepts and collects every field's errors before failing with
  `InvalidParameters`. `FixValueToFloat` normalises a decimal text, and
  `extractValues` keeps the values that were set.
- **The route table** (`api/core/apiconfig.php`). `startRouters` turns every
  public path into an anchored regular expression.

The class is a Dafny `class Database` whose fields are the clause lists.
Its methods carry loops with invariants, and each one is proved against a
specification function of module `SqlText` or `ResultDecoder`. The
validator's loop is a method proved equal to the function `Utils.Handled`,
and the route rewrite is a set of pure functions. PHP's own behaviour is
modelled where the source depends on it:

- numeric strings and loose `==`, the `(int)` and `(float)` casts (`PhpNumbers`);
- `strlen` as a UTF-8 byte count, `trim`, `empty` and `(bool)` (`PhpStrings`);
- ordered arrays with unique keys (`PhpArrays`).

## Model

| member | source | states |
|---|---|---|
| Database.Database.Select | api/lib/database.php:111-119 | the selected items are appended in order, one item or each item of a list |
| Database.Database.Set | api/lib/database.php:125-145 | one assignment per entry is appended, in entry order |
| Database.Database.Assignment | api/lib/database.php:128-143 | a keyword string is written verbatim, other strings escaped in quotes, booleans as true/false, null as NULL, numbers bare |
| SqlText.SetAssignment | api/lib/database.php:128-143 | every assignment is `key = ` followed by the rendered value |
| SqlText.SetAssignmentsSnoc | api/lib/database.php:125-145 | one more entry appends exactly its own assignment |
| Database.Database.From | api/lib/database.php:151-153 | the table is replaced |
| Database.Database.Join | api/lib/database.php:161-167 | an `INNER JOIN` or, when asked, a `LEFT JOIN` clause with its ON condition is appended |
| SqlText.MakeCustomWhere | api/lib/database.php:176-205 | only the first operator key is read; it fails with 400 InvalidBracketLHS exactly when there is no key or the key is not one of the nine operators; otherwise it gives `key op 'pattern'` with `%` wildcards for the like operators |
| SqlText.ParseBracketKey | api/lib/database.php:179-204 | each of the nine operators is recognised by its own key, and a key is rejected exactly when no operator has it |
| SqlText.ScalarPredicate | api/lib/database.php:218-225 | a keyword value is compared unquoted, a key ending in `!=` supplies its own operator, any other value is an escaped, quoted equality |
| Database.Database.EntryClause | api/lib/database.php:216-226 | the predicate of one entry equals the specification's, including the bracket error |
| Database.Database.Where | api/lib/database.php:212-232 | the where list grows by exactly what the specification appends; the call fails exactly when an entry fails, with that entry's error, and the predicates before it are kept |
| SqlText.EntriesPredicatesSpec | api/lib/database.php:217-231 | an entry list succeeds exactly when every entry translates, and then it adds one predicate per entry, in order |
| SqlText.EntriesStopAtFailure | api/lib/database.php:217-231 | after the first failing entry, the remaining entries change nothing |
| SqlText.CollectSpec | api/lib/database.php:217-231 | a translation that stops at the first error succeeds exactly when every item translates, and then yields each item's result in order |
| SqlText.GreaterThanExample | api/lib/database.php:176-205 | `{"age": {"gt": "10"}}` gives `age > '10'` (escaped); an unknown operator key gives InvalidBracketLHS |
| Database.Database.Limit | api/lib/database.php:239-243 | the limit text is `offset,count` |
| Database.Database.OrderBy | api/lib/database.php:249-257 | a plain term is appended at the next free position; a map is merged key by key, a later key overwriting an earlier one; the keys stay distinct |
| SqlText.NextPosition | api/lib/database.php:255 | the position `$order[] =` uses lies above every position already present |
| PhpArrays.PutAllLookup | api/lib/database.php:251-253 | after the merge every key holds the last value assigned to it, other keys keep theirs, and keys stay distinct |
| Database.Database.GroupBy | api/lib/database.php:263-271 | the grouped items are appended in order |
| Database.Database.ClearSql | api/lib/database.php:276-286 | every clause is unset and the last result is kept |
| Database.Database.Get | api/lib/database.php:292-320 | the SELECT statement of the clauses is run; a failure is QueryError("get", statement, errno, message); the reply is kept and the clauses are cleared on both paths |
| SqlText.SelectWithoutClauses | api/lib/database.php:292-307 | with only a table declared, get() runs `select * from T` followed by four spaces |
| SqlText.SelectLimitSuffix | api/lib/database.php:299-307 | the statement ends with ` LIMIT offset,count` exactly when limit() was called |
| Database.Database.Insert | api/lib/database.php:327-345 | the INSERT statement is run; it returns the generated id (0 when none) or QueryError("insert", …); the clauses are cleared |
| Database.Database.Update | api/lib/database.php:351-368 | the UPDATE statement with its where section is run; a failure is QueryError("update", …); the clauses are cleared |
| Database.Database.Query | api/lib/database.php:376-388 | a raw statement is run and its reply kept; a failure is QueryError("query", …); the clauses are cleared |
| Database.Database.GetResult | api/lib/database.php:418-478 | every fetched row is decoded column by column as the specification decodes it |
| ResultDecoder.DecodeResult | api/lib/database.php:418-478 | one decoded row per fetched row |
| ResultDecoder.DecodeRowSpec | api/lib/database.php:435-474 | with distinct column names a decoded row has one entry per column, in column order, holding that column's decoded cell |
| ResultDecoder.TinyIntValue | api/lib/database.php:442-448 | a TINYINT holding n decodes to the boolean n != 0 for every n up to 9, and to the integer n from 10 up |
| ResultDecoder.IntegerColumnValue | api/lib/database.php:450-456 | an integer column reads back the integer MySQL sent |
| ResultDecoder.FloatColumnValue | api/lib/database.php:457-463 | substituting 0.000 for a zero value changes nothing: a float column is `(float)` of its text |
| Database.Database.MakeFilter | api/lib/database.php:494-506 | equals the specification of makeFilter |
| SqlText.FilteredSpec | api/lib/database.php:494-506 | every filter entry is an allow-listed request entry renamed to its column, with that entry's value; every allow-listed key's column is present; columns are distinct |
| SqlText.MakeOrder | api/lib/database.php:514-534 | at most one entry, on an allow-listed column; `asc` wins over `desc`; a bare field sorts ascending; an unknown field or no order gives nothing |
| Database.Database.MountFields | api/lib/database.php:540-554 | equals the fields section of the selection |
| SqlText.FieldsSectionSpec | api/lib/database.php:540-554 | an empty selection gives `*`; otherwise cutting the text at `,` gives the selected items back when none holds a comma |
| SqlText.SplitJoin | api/lib/database.php:540-554 | joining with a one-character separator that no item holds is undone by splitting at it |
| Database.Database.MountJoin | api/lib/database.php:560-570 | equals the join section |
| SqlText.JoinSectionSpec | api/lib/database.php:560-570 | the join section is every join clause followed by one space |
| SqlText.TerminatedIsJoinPlusSep | api/lib/database.php:560-570 | writing a separator after every item equals joining the items and adding one separator |
| Database.Database.MountWhere | api/lib/database.php:576-594 | equals the where section |
| Database.Database.MountOrderBy | api/lib/database.php:600-622 | equals the order-by section |
| Database.Database.OrderTermText | api/lib/database.php:610-614 | an entry with a numeric key is written as its bare value, any other as `key direction` |
| SqlText.OrderTerms | api/lib/database.php:606-614 | one term per entry, in entry order |
| Database.Database.MountGroupBy | api/lib/database.php:628-646 | equals the group-by section |
| SqlText.SectionShapes | api/lib/database.php:576-646 | the where, group-by and order-by sections are empty exactly when their lists are, and otherwise are the keyword followed by the items joined with ` and ` or `, ` |
| Database.Database.MountSet | api/lib/database.php:652-662 | equals the set section |
| SqlText.SetSectionSpec | api/lib/database.php:652-662 | cutting the set section at `,` gives the assignments back when none holds a comma |
| Utils.HandleDataReceived | api/lib/utils.php:20-161 | the loop computes exactly the specification `Handled` |
| Utils.ValidateField | api/lib/utils.php:24-148 | one field equals `CheckField`: skipped, absent (error, default or null) or type-checked, then checked against the allowed values; the branches are stated by SkippedFieldUntouched, MissingRequiredFails, AbsentTakesDefault, AbsentOptionalIsNull, NotAllowedFails and AllowedValuePasses |
| Utils.CheckType | api/lib/utils.php:43-138 | the per-type check of a present field equals `Typed`, whose rules SizeRules, FloatLengthCheck, BoolWords and BoolNumbers state |
| Utils.HandledSpec | api/lib/utils.php:20-161 | validation fails exactly when some field has errors, with status 400 and an entry for every such field; when it succeeds, the schema keeps its names, order and descriptions and only `value` changes |
| Utils.FieldErrorsSpec | api/lib/utils.php:24-149 | the errors hold an entry for exactly the looked-at fields with errors, each with that field's messages; validation does not stop at the first bad field |
| Utils.SkippedFieldUntouched | api/lib/utils.php:25-27 | a field whose methods do not include the request method is neither checked nor changed |
| Utils.MissingRequiredFails | api/lib/utils.php:29-34 | an absent required field without a default fails a non-PUT request with "Campo nulo ou vazio" |
| Utils.AbsentTakesDefault | api/lib/utils.php:35-36 | an absent field with a default takes the default without error |
| Utils.AbsentOptionalIsNull | api/lib/utils.php:29-38 | an absent field that has no default and is optional (or absent from a PUT) becomes null without error |
| Utils.SizeRules | api/lib/utils.php:44-75 | a present string or integer field keeps its text; it gets the "menor que" or "maior que" message exactly when its byte length breaks the declared minLength or length, an integer gets the numeric-type message exactly when it is not numeric, and with no allowed values it passes exactly when none of these applies |
| Utils.SizeErrorsSpec | api/lib/utils.php:46-54 | each size message appears exactly when its bound is declared (non-empty) and broken |
| Utils.NotAllowedFails | api/lib/utils.php:140-145 | a looked-at, present field whose coerced value loosely equals no allowed value makes validation fail, and that field's errors hold the message listing the allowed values joined by ", " |
| Utils.AllowedValuePasses | api/lib/utils.php:140-145 | a field without allowed values, or whose coerced value is loosely equal to one, gets only its type check's outcome |
| Utils.TextAllowedIff | api/lib/utils.php:140-141 | a non-numeric text is loosely in the allowed values exactly when it is one of them |
| Utils.UnexpectedTextRejected | api/lib/utils.php:140-145 | "teste" for a string field allowing "a" and "b" gets the unexpected-value message after its size errors |
| Utils.BoolWords | api/lib/utils.php:117-129 | a word token is true when it is true/s/y and false when it is false/n, in any letter case; any other word is reported |
| Utils.BoolNumbers | api/lib/utils.php:117-129 | a numeric token is true when it equals 1 (such as "1.0"), false when it equals 0 (such as "00"), and reported otherwise |
| Utils.WordInTokens | api/lib/utils.php:118-121 | `in_array` on a word is plain membership |
| Utils.NumberInTokens | api/lib/utils.php:118-121 | `in_array` on a number against words and one digit string is a comparison of values |
| Utils.FloatLengthCheck | api/lib/utils.php:76-92 | `w,ff` is stored as `w.ff` formatted to the scale, and is too long exactly when its length exceeds precision + scale + 1 |
| Utils.ExtractValues | api/lib/utils.php:262-270 | the loop computes exactly the specification `Extracted` |
| Utils.ExtractedSpec | api/lib/utils.php:262-270 | the result holds exactly the fields whose value is set, with that value, under distinct names |
| Utils.ValidatedStringIsExtracted | api/lib/utils.php:20-161 | after a successful validation a present string field is extracted with the text received |
| DecimalText.HasTwoPlaces | api/lib/utils.php:213-246 | the result always has a point with at least two characters after the first point |
| DecimalText.PaddingAppends | api/lib/utils.php:229-243 | padding only appends "", "0", "00" or ".00" |
| DecimalText.PaddedOnePlace | api/lib/utils.php:229-233 | exactly one place after a point that is not first gets a "0" appended |
| DecimalText.PaddedNoPlaces | api/lib/utils.php:235-239 | a point that is not first with nothing after it gets "00" appended |
| DecimalText.PaddedNoPoint | api/lib/utils.php:241-243 | a text without a point gets ".00" |
| DecimalText.PaddedLeadingPoint | api/lib/utils.php:241-243 | a text whose first point is at index 0 also gets ".00" |
| DecimalText.PaddedTwoPlaces | api/lib/utils.php:229-243 | a text with two places after its point is left alone |
| DecimalText.ShortInputKept | api/lib/utils.php:224-226 | an input of at most three bytes is not changed by the currency replacement |
| DecimalText.DigitsNormalised | api/lib/utils.php:214-223 | a text of digits is normalised to itself |
| DecimalText.WholeNumberGetsCents | api/lib/utils.php:213-246 | a whole number `d` becomes `d.00` |
| DecimalText.CentsAfterSeparator | api/lib/utils.php:213-246 | `w,ff` or `w.ff` becomes the digits of `w`, a point and `ff`, or `.ff.00` when `w` has no digit |
| DecimalText.LongNegativeLosesSign | api/lib/utils.php:214-223 | a negative whole number of three or more digits loses its sign |
| DecimalText.ShortExamples | api/lib/utils.php:213-246 | ".5" gives ".5.00", "0.5" gives "0.50", "-5" gives "-5.00" |
| ApiConfig.StartRoutersSpec | api/core/apiconfig.php:20-37 | the table keeps its length, order and methods, and each path becomes its pattern |
| ApiConfig.PatternShape | api/core/apiconfig.php:25-31 | every pattern is wrapped in `~^` and `$~` and holds no parameter any more |
| ApiConfig.NoParameterLeft | api/core/apiconfig.php:28 | after the rewrite no colon is followed by a word character |
| ApiConfig.NoColonKept | api/core/apiconfig.php:28 | a path without a colon is not changed by the rewrite |
| ApiConfig.ParameterReplaced | api/core/apiconfig.php:28 | a colon, a maximal word and what follows become the group `(\w+)` and what follows |
| ApiConfig.OneParameterPath | api/core/apiconfig.php:25-31 | a path `a:name/b` becomes `~^a(\w+)/b$~` |
| ApiConfig.RTrimSlash | api/core/apiconfig.php:25 | the trimmed path is a prefix of the path, does not end in `/`, and only slashes were removed |
| ApiConfig.RTrimSlashIdempotent | api/core/apiconfig.php:25 | trimming twice trims nothing more |
| ApiConfig.PlainPath | api/core/apiconfig.php:25-31 | a path without parameters becomes itself without trailing slashes, anchored |
| ApiConfig.SlashEndedPath | api/core/apiconfig.php:25-31 | one trailing slash is dropped |
| ApiConfig.LoginRoute | api/config/routes.php:10 | the `/login/` route becomes `~^/login$~` |

## Where the code and its description differ

The model follows the code in each case.

- A TINYINT column takes the boolean branch when its text is one byte
  long *or* below 2. So every value from 0 to 9, and every negative value,
  decodes to a boolean: "5" becomes `true`, not the integer 5
  (`ResultDecoder.TinyIntValue`). Only values from 10 up stay integers.
- `FixValueToFloat` does not always give `-?\d+\.\d{2}`. Three cases show it:
  - ".5" becomes ".5.00", because `strpos` finds the point at index 0,
    which `== 0` treats like no point;
  - "x,50" becomes ".50.00" when no digit precedes the separator;
  - a negative number longer than three bytes loses its sign, because
    `preg_replace('/[^0-9.,]/', …)` removes the `-`.
  What does hold is that a point is always present with at least two
  characters after it (`DecimalText.HasTwoPlaces`).
- `get()` joins its sections with single spaces even when they are empty. A
  statement with only a table is therefore `select * from T` followed by
  four spaces (`SqlText.SelectWithoutClauses`).

## Left out

- The MySQL connection is a parameter. This covers connecting,
  `mysqli_escape_string` (the class's `escape` function), running a
  statement (the `exec` parameter of Get, Insert, Update and Query) and the
  row count. The reply says whether the statement failed, with its errno
  and message.
- Transactions (`start_transaction`, `commit`, `rollback`), the destructor
  and `getLastError`, `getRowCount`, `getAffectedRows` and `lastInsertId`
  only forward to mysqli, so they are not modelled.
- Reporting an error is modelled as returning an `ApiError`. In the source, `ApiResponse::handleErrorsResponse` builds the message array and throws an `ApiException` with the HTTP status (api/core/apiresponse.php:62-79). The `catch` in api/index.php:56-58 then writes the JSON answer. ApiResponse, the exception and the redaction of messages outside debug mode are not part of this model.
- ResultDecoder.DecodeCell: a date-time column is kept as `DDateTime(text)`, standing for `date('Y-m-d\TH:i:s', strtotime(text))`; strtotime and date are not modelled.
- PhpNumbers.IntCast: `(int)` is modelled on unbounded integers. PHP saturates an out-of-range numeric text at PHP_INT_MAX or PHP_INT_MIN, so ResultDecoder.IntegerColumnValue's promise that an integer column decodes to the integer its text spells holds only within the 64-bit signed range. A BIGINT UNSIGNED value above 2^63-1 does not decode unchanged in the source.
- Utils.Payload holds texts or null. The source's payload is `json_decode($body, true)` (api/core/apihandle.php:207), so it can also hold JSON numbers, booleans and arrays. Those are not modelled: a JSON `false` trims to "" and counts as absent, and a JSON number is stored as a number, not as its text.
- Floating point is modelled as exact reals. `(float)` of a numeric text is its exact value, and the `0.000` substitution is a real zero.
- Utils.Typed: `CheckDateTime`, `CheckDate` and `CheckTime`, `filter_var(…, FILTER_VALIDATE_EMAIL)` and `number_format` are functions of the `Library` parameter. They are not modelled; the date checks return None where the source gets `false`.
- Utils.WellFormed: the model handles schemas where a float field's `length` is "precision,scale" and other fields' lengths are byte counts. The source reads such schemas from resource definitions, which are not part of this model.
- Utils.Typed: the "Campo maior que" message of a float field prints the `length` entry as `precision,scale` with canonical numbers. The source prints the entry's original text.
- Schema entries are `(name, FieldSpec)` with a typed `FieldType`. Type names the validator does not know fall under `TOther` and are not checked, as in the `default` branch.
- Values in `allowedValues` and in the bool token lists are texts. Allowed values of other PHP types are not modelled.
- Case conversion is ASCII only (`strtolower` in PHP 8.2 and later). The `\w` of the route rewrite is ASCII only (PCRE without the `u` flag).
- PHP turns an array key such as "5" into the integer 5. OrderBy does not do this: it keeps a decimal column key as `Column("5")`. OrderTermText still writes such a key bare, as `is_numeric` does, but `$order[] =` does not count it as a position.
- `select` and `groupBy` are given one item or a list. `orderBy` is given a term or a list of keyed entries, and `set` a list of typed values. PHP's dynamic typing of these arguments is not modelled beyond that.
- The rest of the API (controllers, models, authentication, `ApiConfig::setEnvironment` and `ApiHandle`'s use of the route table) is not part of this model.
