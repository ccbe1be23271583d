# POData primitive-literal handlers in Dafny

This project models two of the OData primitive types of the POData PHP
library: `Edm.Double` (class `Double`) and `Edm.DateTime` (class `DateTime`).
Both implement the `IType` contract. Each handler:

- recognises a literal written in a request URI (`validate`);
- normalises it into the by-reference out-value;
- answers type-compatibility queries over type codes;
- renders a value back into URI form (`convertToOData`).

`DateTime` also compares two date-times by Unix timestamp (`dateTimeCmp`).

Each recogniser is modelled twice:

- as a grammar: a datatype `Literal` holding the pieces of a literal, a
  `Valid()` predicate and a `Render()` function that writes the literal out;
- as a left-to-right recogniser `Parse`, which is proved sound (whatever it
  returns is a valid literal that renders to its input) and complete (every
  valid literal is recognised and taken apart into its own pieces).

`validate` is then specified against the grammar. Both patterns are anchored
by `^…$`, and PCRE's `$` also matches just before one final line feed. This
is modelled exactly: `PhpStrings.Subject` is the input without a final line
feed, and the line-feed forms get their own lemmas.

Modules:

- `Wrappers`: Option, Result.
- `PhpStrings`: the PCRE classes `\d` and `\s`, and PHP's `ltrim`/`rtrim`/`trim`
  with a character list and string-offset reads.
- `MetadataType`: the `TypeCode` members that are used, and `Validation`,
  which holds the boolean `validate` returns and the out-value after the call.
- `DoubleType`: Double.php.
- `DateTimeType`: DateTime.php.
- `PrimitiveTypes`: `IType`. Dafny traits are not used, so it is a sum type
  whose members dispatch to the two handlers.

PHP strings are byte strings; each `char` stands for one byte. The PHP
library calls are parameters of the functions that make them, because the
model does not specify them:

- `new \DateTime($value, new DateTimeZone('UTC'))`: a predicate that says
  whether the call returns or throws;
- `strtotime`: a function of its argument alone that returns None for `false`
  (no clock, a fixed default time zone);
- `urlencode`: a function.

A `\DateTime` argument of `dateTimeCmp` is represented by the timestamp that
`getTimestamp` returns.

## Model

| member | source | states |
|---|---|---|
| `PhpStrings.RTrim` | src/POData/Providers/Metadata/Type/Double.php:65 | `rtrim` with a character list: the result is the longest prefix of the input that does not end in a listed character, and every character removed is listed |
| `PhpStrings.LTrim` | src/POData/Providers/Metadata/Type/DateTime.php:276 | `ltrim` (the first half of `trim`): the result is the longest suffix that does not start with a listed character, and every character removed is listed |
| `PhpStrings.Trim` | src/POData/Providers/Metadata/Type/DateTime.php:276 | `trim` with a character list: the result is the stretch of the input that starts after its leading run of listed characters and is followed only by listed characters; it neither starts nor ends with a listed character |
| `PhpStrings.CharAt` | src/POData/Providers/Metadata/Type/DateTime.php:278 | `$value[$i]`: defined exactly when `-len <= i < len`; a non-negative offset counts from the front, a negative one from the end |
| `DoubleType.Matches` | src/POData/Providers/Metadata/Type/Double.php:61 | the anchored `preg_match` succeeds exactly when the recogniser accepts the input without one final line feed |
| `DoubleType.Parse` | src/POData/Providers/Metadata/Type/Double.php:61 | soundness of the recogniser for the pattern body: a result is a valid literal (optional `-`, digits, optional `.` digits, optional `E`/`e` with an optional sign and digits, optional `d`/`D`) that renders to exactly the input |
| `DoubleType.ParseComplete` | src/POData/Providers/Metadata/Type/Double.php:61 | completeness: every valid literal is recognised, and is taken apart into its own pieces |
| `DoubleType.ParseIsLiteral` | src/POData/Providers/Metadata/Type/Double.php:61 | the recogniser accepts exactly the strings of the grammar |
| `DoubleType.MatchesSubject` | src/POData/Providers/Metadata/Type/Double.php:61 | the anchored match holds exactly when the input, without one final line feed, is a literal |
| `DoubleType.Validate` | src/POData/Providers/Metadata/Type/Double.php:57-68 | on failure, `false` with the out-value as passed in; on success the input is non-empty and the out-value is the input or the input minus its last character |
| `DoubleType.ValidateAccepts` | src/POData/Providers/Metadata/Type/Double.php:61-67 | `validate` returns true exactly when the input, without one final line feed, is a literal of the grammar |
| `DoubleType.TrimSuffix` | src/POData/Providers/Metadata/Type/Double.php:65 | on a literal, `rtrim($value, 'dD')` removes exactly its one suffix, if it has one |
| `DoubleType.ValidateLiteral` | src/POData/Providers/Metadata/Type/Double.php:61-67 | a literal is accepted, and its out-value is the same literal without its suffix |
| `DoubleType.ValidateLiteralLineFeed` | src/POData/Providers/Metadata/Type/Double.php:61-67 | a literal followed by one line feed is accepted, and its out-value is the whole input, line feed included (`rtrim` stops at it) |
| `DoubleType.Rejections` | src/POData/Providers/Metadata/Type/Double.php:61-63 | the input is rejected with the out-value untouched when its subject is empty, starts with `+` or `.`, ends with `.`, or ends with two suffix characters |
| `DoubleType.ValidateIdempotent` | src/POData/Providers/Metadata/Type/Double.php:61-67 | the out-value of an accepted input is accepted again, with itself as out-value |
| `DoubleType.ConvertToOData` | src/POData/Providers/Metadata/Type/Double.php:91-94 | the result is the value followed by exactly one `D` |
| `DoubleType.ConvertToODataRoundTrip` | src/POData/Providers/Metadata/Type/Double.php:91-94 | an accepted unsuffixed literal `s` (no final line feed), after the `D` suffix is appended, validates to out-value `s` |
| `DoubleType.GetTypeCode` | src/POData/Providers/Metadata/Type/Double.php:18-21 | the type code is DOUBLE |
| `DoubleType.IsCompatibleWith` | src/POData/Providers/Metadata/Type/Double.php:31-45 | true exactly for the codes BYTE, SBYTE, INT16, INT32, INT64, SINGLE and DOUBLE |
| `DoubleType.SelfCompatible` | src/POData/Providers/Metadata/Type/Double.php:18-45 | the type code is DOUBLE, so a double is compatible with itself but not with DATETIME |
| `DoubleType.FullTypeName` | src/POData/Providers/Metadata/Type/Double.php:113-116 | the full name is `Edm.Double` |
| `DoubleType.Name` | src/POData/Providers/Metadata/Type/Double.php:102-105 | the name is the full name |
| `DoubleType.Names` | src/POData/Providers/Metadata/Type/Double.php:102-116 | `getName` equals `getFullTypeName`, which is `Edm.Double` |
| `DateTimeType.Matches` | src/POData/Providers/Metadata/Type/DateTime.php:267-273 | the anchored `preg_match` succeeds exactly when the recogniser accepts the input without one final line feed |
| `DateTimeType.Parse` | src/POData/Providers/Metadata/Type/DateTime.php:76-77 | soundness of the recogniser: a result is a valid literal. In order that is: `datetime'`, `yyyy-mm-dd`, and optionally a time part followed by the closing `'`. The time part is a `\s`/`T` separator, an hour 00-24, `:`, a minute 00-59, and optionally `:` and a second 00-59 with an optional `Z` or `[+\|-]hh:mm` zone. The result renders to exactly the input |
| `DateTimeType.ParseComplete` | src/POData/Providers/Metadata/Type/DateTime.php:76-77 | completeness: every valid literal is recognised, into its own pieces |
| `DateTimeType.ParseIsLiteral` | src/POData/Providers/Metadata/Type/DateTime.php:76-77 | the recogniser accepts exactly the strings of the grammar |
| `DateTimeType.MatchesSubject` | src/POData/Providers/Metadata/Type/DateTime.php:74-77 | the anchored match holds exactly when the input, without one final line feed, is a literal |
| `DateTimeType.HourTwentyFourAccepted` | src/POData/Providers/Metadata/Type/DateTime.php:36-45 | hour `24` is matched |
| `DateTimeType.MinuteSixtyRejected` | src/POData/Providers/Metadata/Type/DateTime.php:47-51 | minute `60` is not matched |
| `DateTimeType.ZoneWithoutSecondsRejected` | src/POData/Providers/Metadata/Type/DateTime.php:52-72 | a `Z` zone directly after the minutes, without seconds, is not matched |
| `DateTimeType.ZoneAfterSecondsAccepted` | src/POData/Providers/Metadata/Type/DateTime.php:52-72 | a `Z` zone after the seconds is matched |
| `DateTimeType.PipeOffsetAccepted` | src/POData/Providers/Metadata/Type/DateTime.php:64-72 | the sign class `[\+\|-]` admits a `\|hh:mm` offset |
| `DateTimeType.TrimLiteral` | src/POData/Providers/Metadata/Type/DateTime.php:276 | on a literal, `trim($value, 'datetime\'')` drops exactly the 9-character prefix and the closing quote |
| `DateTimeType.TrimLiteralLineFeed` | src/POData/Providers/Metadata/Type/DateTime.php:276 | on a literal followed by a line feed, the trim drops only the prefix: the closing quote and the line feed stay |
| `DateTimeType.StripOffset` | src/POData/Providers/Metadata/Type/DateTime.php:277-281 | the last six characters are cut exactly when the string is longer than 24 characters and the sixth character from the end is `-` or `+`; otherwise the string is kept whole |
| `DateTimeType.BodyLength` | src/POData/Providers/Metadata/Type/DateTime.php:277-278 | a literal's body is 25 characters long with the offset sign at index 19 when it ends with an `hh:mm` offset, and at most 20 characters otherwise, so the length test of the offset strip tells the two apart |
| `DateTimeType.StripOffsetOf` | src/POData/Providers/Metadata/Type/DateTime.php:277-281 | on a literal's body, a trailing `+hh:mm` or `-hh:mm` offset (6 characters) is removed; a `Z`, a `\|hh:mm` offset or no zone leaves the body intact |
| `DateTimeType.StripOffsetLineFeed` | src/POData/Providers/Metadata/Type/DateTime.php:277-281 | with the quote and line feed still attached, no offset is removed |
| `DateTimeType.Validate` | src/POData/Providers/Metadata/Type/DateTime.php:263-293 | on either failure (pattern or library check) `false` with the out-value as passed in; on success the pattern matched and the out-value is a single-quoted string whose inside the library accepted |
| `DateTimeType.ValidateLiteral` | src/POData/Providers/Metadata/Type/DateTime.php:263-293 | on a literal, the library is asked about the body without a signed offset, and the out-value is that body in quotes exactly when the library accepts it |
| `DateTimeType.ValidateLiteralLineFeed` | src/POData/Providers/Metadata/Type/DateTime.php:263-293 | on a literal followed by a line feed, the library is asked about the body followed by `'` and the line feed, and the out-value is that string in quotes when it accepts |
| `DateTimeType.ValidateRejects` | src/POData/Providers/Metadata/Type/DateTime.php:267-273 | an input whose subject is not a literal is rejected with the out-value untouched |
| `DateTimeType.Convert` | src/POData/Providers/Metadata/Type/DateTime.php:303-306 | `convert` returns its argument unchanged |
| `DateTimeType.ConvertToOData` | src/POData/Providers/Metadata/Type/DateTime.php:317-320 | the result starts with `datetime'`, ends with `'`, and has `urlencode(v)` in between |
| `DateTimeType.ConvertToODataRoundTrip` | src/POData/Providers/Metadata/Type/DateTime.php:317-320 | when `urlencode` leaves a literal's body unchanged, validating the rendered body is the same as validating that literal |
| `DateTimeType.GetTypeCode` | src/POData/Providers/Metadata/Type/DateTime.php:235-238 | the type code is DATETIME |
| `DateTimeType.IsCompatibleWith` | src/POData/Providers/Metadata/Type/DateTime.php:248-251 | true exactly for the code DATETIME |
| `DateTimeType.SelfCompatible` | src/POData/Providers/Metadata/Type/DateTime.php:235-251 | the type code is DATETIME, and a date-time is compatible with exactly its own code |
| `DateTimeType.FullTypeName` | src/POData/Providers/Metadata/Type/DateTime.php:339-342 | the full name is `Edm.DateTime` |
| `DateTimeType.Name` | src/POData/Providers/Metadata/Type/DateTime.php:328-331 | the name is the full name |
| `DateTimeType.Names` | src/POData/Providers/Metadata/Type/DateTime.php:328-342 | `getName` equals `getFullTypeName`, which is `Edm.DateTime` |
| `DateTimeType.CheckInput` | src/POData/Providers/Metadata/Type/DateTime.php:211-222 | throws, with the given message, exactly when the argument is neither a `\DateTime` nor a string; a `\DateTime` yields its timestamp, a string what `strtotime` makes of it (an int, or `false`) |
| `DateTimeType.Compare` | src/POData/Providers/Metadata/Type/DateTime.php:194-203 | the first argument's error is raised first; on success the answer is -1, 0 or 1 |
| `DateTimeType.CompareTimestamps` | src/POData/Providers/Metadata/Type/DateTime.php:194-203 | with two integer timestamps the answer is 0 if they are equal, -1 if the first is smaller, 1 otherwise |
| `DateTimeType.CompareAntisymmetric` | src/POData/Providers/Metadata/Type/DateTime.php:194-203 | swapping two valid arguments negates the answer |
| `DateTimeType.CompareReflexive` | src/POData/Providers/Metadata/Type/DateTime.php:194-203 | a valid argument compares equal to itself |
| `DateTimeType.UnreadableStamp` | src/POData/Providers/Metadata/Type/DateTime.php:194-219 | a string `strtotime` cannot read (PHP 8 loose comparison with `false`) compares equal to timestamp 0, and below every other timestamp, from either argument position |
| `DateTimeType.UnreadableBreaksTransitivity` | src/POData/Providers/Metadata/Type/DateTime.php:199-218 | a concrete cycle: timestamp -1 is below 0, 0 equals an unreadable string, and that string is below -1, so the order is not transitive |
| `PrimitiveTypes.PrimitiveType.GetTypeCode` | src/POData/Providers/Metadata/Type/IType.php:10-17 | the type code tells the two types apart: DOUBLE for the double, DATETIME for the date-time |
| `PrimitiveTypes.PrimitiveType.IsCompatibleWith` | src/POData/Providers/Metadata/Type/IType.php:19-26 | each type is compatible with its own code; the double with the seven numeric codes, the date-time with DATETIME alone |
| `PrimitiveTypes.PrimitiveType.Validate` | src/POData/Providers/Metadata/Type/IType.php:28-39 | the `validate` contract common to both types: `false` leaves the out-value as passed in, `true` has assigned one |
| `PrimitiveTypes.PrimitiveType.ConvertToOData` | src/POData/Providers/Metadata/Type/IType.php:58-65 | the URI form ends with the type's marker: the value then `D` for the double, `datetime'`, the URL-encoded value and `'` for the date-time |
| `PrimitiveTypes.PrimitiveType.GetFullTypeName` | src/POData/Providers/Metadata/Type/IType.php:41-47 | `Edm.Double` or `Edm.DateTime` |
| `PrimitiveTypes.PrimitiveType.GetName` | src/POData/Providers/Metadata/Type/IType.php:67-73 | the name is the full name |
| `PrimitiveTypes.Identity` | src/POData/Providers/Metadata/Type/IType.php:10-74 | each type's name is its full EDM name, and of the two types each is compatible with exactly itself |

## Left out

- `Double::convert` (`floatval`): floating-point conversion is not modelled.
- `DoubleType.ConvertToOData`: takes the string PHP would produce. How PHP turns a float into a string (`$value . 'D'` on a float) is not modelled.
- The accessors `year`, `month`, `day`, `hour`, `minute` and `second` are left out. Each one only formats a PHP `\DateTime`, which is library behaviour.
- The calendar check `new \DateTime(...)`, `strtotime`, `getTimestamp` and `urlencode` are parameters and are not specified.
- `DateTimeType.CompareReflexive`: holds for a string argument only because `strtotime` is modelled as a function of its argument alone. PHP resolves relative strings such as `now` or `+1 second` against the clock on each call, so `dateTimeCmp('now', 'now')` can return -1 across a second boundary; the law is exact for `\DateTime` values and absolute date strings.
- `DateTimeType.CompareAntisymmetric`: the same abstraction of `strtotime`; for relative strings the two calls of a swapped pair read the clock separately, so the law is exact only for `\DateTime` values and absolute date strings.
- `now` and `setTimeProvider` are left out. They are a process-wide mutable clock hook, and the clock is outside the model.
- `TypeCode` declares only the eight members the two handlers name. Neither handler's answers depend on the others.
- `IType::convert` has no member of `PrimitiveType`: the two implementations return different kinds of value, and the `Double` one is left out.
- `preg_match` returning `false` (a PCRE error) is not modelled. It cannot happen for these patterns on a byte string without the `u` flag.
- The request expansion engine, `ServiceHost`, `SimpleDataService` and `InvalidOperationException` are outside the scope of this model, which covers the two primitive-type handlers and their contract.
