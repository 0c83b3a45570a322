# Code-rule request shaping and value renderers, in Dafny

This project models two pieces of the hzero front end.

**Organization-scoped request shaping (`codeRuleOrgService.js`).** The code-rule
service builds each request in three steps:

- `changeUrl` fills the `organizationId` placeholder of a path template with the
  tenant id. When the id is undefined, it cuts the first `/organizationId` out instead.
- `deleteOrgId` and `deleteOrgIdArr` delete the id from the parameter object.
  `deleteOrgIdArr` also extracts the `selectedRows` of a batch deletion.
- The endpoint wrappers combine the two. They always compute the URL before
  the deletion runs.

**Value renderers (`renderer.js`).**

- `numberRender` has four stages: a validity gate, removal of thousands
  separators, grouping of the integer part with the regex
  `\B(?=(\d{3})+(?!\d))`, and stripping of trailing zeros with
  `(0|\.0)*$`.
- `TagRender` and `valueMapMeaning` are lookups with fallbacks.
- `priorityRender` sorts a number into three bands.
- `readFlagRender`, `addressTypeRender`, `enableFlag` and `statusRender` map
  codes to labels.
- The time-zone table `timeZone2MomentUTC` feeds the offset choice of
  `timeRenderWithUTC`.

The JavaScript semantics these depend on are modelled explicitly:

- truthiness and `||`;
- `===`;
- property reads;
- `String(v)`, including arrays;
- `split`, `join` and `indexOf`;
- `String.prototype.replace` with a global or single literal pattern, including
  the `$$`, `$&`, `` $` `` and `$'` patterns of the replacement string (the
  GetSubstitution step of ECMA-262).

Modules, one per file:

- `Options` — the optional-value type;
- `Text` — occurrences, `indexOf`, `split`, `join`, character removal;
- `JsValues` — values, truthiness, `||`, `===`, number and value to string;
- `RegexReplace` — literal-pattern `replace`, global and first-only;
- `CodeRuleOrgService` — `changeUrl`, `deleteOrgId`, `deleteOrgIdArr`, the
  endpoint wrappers;
- `Thousands` — the grouping regex and a reference grouping;
- `NumberRender` — the `numberRender` pipeline, as written and as intended;
- `Renderer` — `find`, `TagRender`, `valueMapMeaning`, `priorityRender`, the
  code maps, `statusRender`;
- `TimeZone` — the offset table and the offset choice.

Two source paths are used below:

- `S` = `hzero-front-0.8.0.RELEASE/src/services/hpfm/codeRuleOrgService.js`
- `R` = `hzero-front-0.8.0.RELEASE/src/utils/renderer.js`

The table spells them out in full.

**How the code treats the id.**

- Shaping deletes a truthy `organizationId` from the caller's own object, in
  place. Every shaping result therefore carries `callerAfter`: the object the
  deletion acted on, as it is after the call.
- An undefined id cuts only the first `/organizationId` segment out of the
  URL. Any later placeholder stays.
- The id goes into the URL and also stays in what is sent in two cases:
  - A falsy id such as `0` fills the URL, and `deleteOrgId` keeps it in the
    body.
  - `queryDist` never deletes, so an id in its parsed parameters fills the URL
    and stays in the query.
- `queryCodeList` resolves the URL from the raw `params`, but deletes the id
  only from the parsed parameters that become the query.

## Model

| member | source | states |
|---|---|---|
| `CodeRuleOrgService.ChangeUrl` | hzero-front-0.8.0.RELEASE/src/services/hpfm/codeRuleOrgService.js:19-23 | An id that is not undefined and whose string form has no `$` replaces every `organizationId` token: the URL split at the token and joined with the id. An undefined id leaves a URL without `/organizationId` unchanged. Otherwise it cuts out exactly the first `/organizationId` and keeps everything else. |
| `CodeRuleOrgService.NumericIdFillsEveryToken` | hzero-front-0.8.0.RELEASE/src/services/hpfm/codeRuleOrgService.js:20-21 | A numeric id replaces every token with its decimal form, and no token is left in the URL. |
| `CodeRuleOrgService.NumericIdBetween` | hzero-front-0.8.0.RELEASE/src/services/hpfm/codeRuleOrgService.js:20-21 | Take a template whose text around the token holds no `z`, so it cannot form another token. A numeric id turns `a + "organizationId" + b` into `a + id + b`. |
| `CodeRuleOrgService.NullIdWritesNull` | hzero-front-0.8.0.RELEASE/src/services/hpfm/codeRuleOrgService.js:20-21 | A null id counts as present, because only undefined is tested. Every token becomes the text `null`. |
| `CodeRuleOrgService.MatchPatternIdKeepsUrl` | hzero-front-0.8.0.RELEASE/src/services/hpfm/codeRuleOrgService.js:21 | An id whose string is `$&` is expanded as a replacement pattern: every match is put back and the URL is unchanged. |
| `RegexReplace.ReplaceAllIsSplitJoin` | hzero-front-0.8.0.RELEASE/src/services/hpfm/codeRuleOrgService.js:21 | The global literal replace with a `$`-free replacement equals splitting at the pattern and joining with the replacement. |
| `RegexReplace.ReplaceAllWithMatchIsIdentity` | hzero-front-0.8.0.RELEASE/src/services/hpfm/codeRuleOrgService.js:21 | The global replace with `$&` gives back the scanned text unchanged. |
| `JsValues.IntToString` | hzero-front-0.8.0.RELEASE/src/services/hpfm/codeRuleOrgService.js:21 | The string form of an integer id is an integer literal that parses back to the same integer. It has no leading zero (a lone `0` aside), so it is the single form `Number::toString` gives. |
| `CodeRuleOrgService.UndefinedIdCutsFirstSegment` | hzero-front-0.8.0.RELEASE/src/services/hpfm/codeRuleOrgService.js:22 | When the id is undefined, `a + "/organizationId" + b` becomes `a + b` if `a` holds no `/organizationId`. Any `/organizationId` inside `b` stays. |
| `CodeRuleOrgService.UndefinedIdWithoutZ` | hzero-front-0.8.0.RELEASE/src/services/hpfm/codeRuleOrgService.js:22 | The same cut whenever `a` holds no `z`. |
| `CodeRuleOrgService.DeleteOrgId` | hzero-front-0.8.0.RELEASE/src/services/hpfm/codeRuleOrgService.js:31-37 | The result keeps `organizationId` exactly when the caller had it with a falsy value. Every kept key has the caller's value, and every other key of the caller is kept. The caller's object afterwards equals the returned copy. |
| `CodeRuleOrgService.DeleteOrgIdIdempotent` | hzero-front-0.8.0.RELEASE/src/services/hpfm/codeRuleOrgService.js:31-37 | Shaping an already shaped object changes nothing. |
| `CodeRuleOrgService.DeleteOrgIdKeepsFalsy` | hzero-front-0.8.0.RELEASE/src/services/hpfm/codeRuleOrgService.js:33 | A falsy or absent id leaves the parameters exactly as they were. |
| `CodeRuleOrgService.DeleteOrgIdArr` | hzero-front-0.8.0.RELEASE/src/services/hpfm/codeRuleOrgService.js:44-50 | The value sent is exactly `params.selectedRows`: the same sequence, or undefined when absent. The caller's object loses a truthy id just as under `deleteOrgId`. |
| `CodeRuleOrgService.ZeroIdIsSentTwice` | hzero-front-0.8.0.RELEASE/src/services/hpfm/codeRuleOrgService.js:19-37 | With id `0`, `addCodeValue` writes `0` into every token of the URL and still sends `organizationId: 0` in the body. |
| `CodeRuleOrgService.OrderOfShapingMatters` | hzero-front-0.8.0.RELEASE/src/services/hpfm/codeRuleOrgService.js:99-104 | If the id were deleted before the URL was resolved, a truthy id would be cut out of the URL. The wrappers resolve the URL first. |
| `CodeRuleOrgService.QueryCodeList` | hzero-front-0.8.0.RELEASE/src/services/hpfm/codeRuleOrgService.js:63-69 | A GET whose URL is resolved from `params`. The query is exactly the parsed parameters without a truthy id: a falsy id is kept with its value, every other parsed key keeps its value, and no key is added. |
| `CodeRuleOrgService.QueryCodeListWithoutId` | hzero-front-0.8.0.RELEASE/src/services/hpfm/codeRuleOrgService.js:63-69 | Without an id the URL is `<platform>/v1/code-rule`. With a falsy parsed id, the query is the parsed parameters unchanged. |
| `CodeRuleOrgService.DeleteCodeRule` | hzero-front-0.8.0.RELEASE/src/services/hpfm/codeRuleOrgService.js:80-85 | A DELETE on the resolved code-rule URL, with `selectedRows` alone as the body. Afterwards the caller's object is exactly its former self without a truthy id: nothing is added and no other value changes. |
| `CodeRuleOrgService.DeleteCodeRuleWithId` | hzero-front-0.8.0.RELEASE/src/services/hpfm/codeRuleOrgService.js:80-85 | With a non-zero numeric id, the URL is `<platform>/v1/<id>/code-rule` and the body is `selectedRows`. The caller's object is left without the id. |
| `CodeRuleOrgService.AddCodeValue` | hzero-front-0.8.0.RELEASE/src/services/hpfm/codeRuleOrgService.js:99-104 | A POST whose URL comes from the caller's parameters before the deletion. The body is exactly those parameters without a truthy id: a falsy id is sent with its value, and no key is added or changed. |
| `CodeRuleOrgService.AddCodeValueWithId` | hzero-front-0.8.0.RELEASE/src/services/hpfm/codeRuleOrgService.js:99-104 | With a non-zero numeric id, the URL carries the id and the body is the parameters without it. |
| `CodeRuleOrgService.QueryDist` | hzero-front-0.8.0.RELEASE/src/services/hpfm/codeRuleOrgService.js:117-126 | A GET whose URL is resolved from the parsed parameters on `code-rule/<ruleId>`. The query is the parsed parameters, with nothing deleted. |
| `CodeRuleOrgService.QueryDistSendsIdTwice` | hzero-front-0.8.0.RELEASE/src/services/hpfm/codeRuleOrgService.js:117-126 | A numeric id in the parsed parameters fills every token of the URL, and the query still carries it. |
| `CodeRuleOrgService.DeleteDist` | hzero-front-0.8.0.RELEASE/src/services/hpfm/codeRuleOrgService.js:138-143 | A batch DELETE on `code-rule-dist` with the same exact shape as `DeleteCodeRule`: `selectedRows` as the body, and the caller's object exactly without a truthy id. |
| `CodeRuleOrgService.QueryDetail` | hzero-front-0.8.0.RELEASE/src/services/hpfm/codeRuleOrgService.js:155-162 | A GET on `code-rule-detail/<ruleDistId>`, with no query and nothing deleted. |
| `CodeRuleOrgService.AddDistValue` | hzero-front-0.8.0.RELEASE/src/services/hpfm/codeRuleOrgService.js:176-181 | A scoped POST on `code-rule-dist`. The body is exactly the parameters without a truthy id. |
| `CodeRuleOrgService.AddCodeDetail` | hzero-front-0.8.0.RELEASE/src/services/hpfm/codeRuleOrgService.js:198-203 | A scoped POST on `code-rule-detail`. The body is exactly the parameters without a truthy id. |
| `CodeRuleOrgService.DeleteCodeDetail` | hzero-front-0.8.0.RELEASE/src/services/hpfm/codeRuleOrgService.js:215-220 | A scoped batch DELETE on `code-rule-detail`: `selectedRows` as the body, and the caller's object exactly without a truthy id. |
| `CodeRuleOrgService.QueryCode` | hzero-front-0.8.0.RELEASE/src/services/hpfm/codeRuleOrgService.js:231-236 | A GET on the fixed `<platform>/v1/lovs/value`. The query is the parameters as given, and the caller's object is untouched. |
| `Text.RemoveAll` | hzero-front-0.8.0.RELEASE/src/utils/renderer.js:393 | Removing commas leaves no comma and leaves a comma-free text unchanged. The result is a subsequence of the input that keeps every other character as often as the input holds it, so exactly the non-comma characters remain, in order. |
| `Text.SplitOn` | hzero-front-0.8.0.RELEASE/src/utils/renderer.js:396 | `split` gives at least one piece. Joining the pieces with the separator restores the text, and no piece contains the separator. There is exactly one piece when the text lacks the separator. |
| `Text.IndexOf` | hzero-front-0.8.0.RELEASE/src/utils/renderer.js:405 | `indexOf` finds nothing exactly when the pattern does not occur. Otherwise it returns an occurrence with none before it. |
| `Thousands.GroupLookaheadIsRun` | hzero-front-0.8.0.RELEASE/src/utils/renderer.js:397 | The lookahead `(?=(\d{3})+(?!\d))` holds at a position exactly when the run of digits starting there is a positive multiple of three. |
| `Thousands.CommaAtIsRegexMatch` | hzero-front-0.8.0.RELEASE/src/utils/renderer.js:397 | A comma goes in exactly where the whole pattern `\B(?=(\d{3})+(?!\d))` matches. |
| `Thousands.GroupDigitsShape` | hzero-front-0.8.0.RELEASE/src/utils/renderer.js:397 | The reference grouping splits at commas into a first group of one to three digits, followed by groups of exactly three. |
| `Thousands.GroupIntegerPartDigits` | hzero-front-0.8.0.RELEASE/src/utils/renderer.js:397 | On a digit string, the regex replacement equals the reference grouping: a comma every three digits from the right and none in front. |
| `Thousands.GroupIntegerPartSigned` | hzero-front-0.8.0.RELEASE/src/utils/renderer.js:397 | Behind a minus sign the digits are grouped the same way, with no comma after the sign. |
| `Thousands.UngroupIntegerPart` | hzero-front-0.8.0.RELEASE/src/utils/renderer.js:397 | Deleting the inserted commas gives back the comma-free input. |
| `NumberRender.NumberRender` | hzero-front-0.8.0.RELEASE/src/utils/renderer.js:378-409 | Null, undefined, `''`, an infinity or NaN renders as `''`. |
| `NumberRender.AddThousandthFixed` | hzero-front-0.8.0.RELEASE/src/utils/renderer.js:395-404 | On a fixed-point string, the grouping stage groups the integer digits and keeps the sign and the fraction unchanged. |
| `NumberRender.UngroupFixed` | hzero-front-0.8.0.RELEASE/src/utils/renderer.js:395-404 | Deleting the commas of the grouped string gives back the fixed-point string. |
| `NumberRender.NumberRenderFixed` | hzero-front-0.8.0.RELEASE/src/utils/renderer.js:378-409 | With trailing zeros allowed, an accepted value renders as its fixed-point string, grouped when asked. Deleting the commas always gives back the fixed-point string. |
| `NumberRender.FirstZeroTail` | hzero-front-0.8.0.RELEASE/src/utils/renderer.js:406 | The single match of `(0\|\.0)*$` starts at the leftmost index whose tail consists entirely of `0` and `.0` pieces. |
| `NumberRender.StripEndZerosShape` | hzero-front-0.8.0.RELEASE/src/utils/renderer.js:406 | The stage keeps a prefix and cuts a tail of `0`/`.0` pieces. The result never ends in `0`. It does not end in `.` when the input has no `..` and does not end in `.`. |
| `NumberRender.StripEndZerosCut` | hzero-front-0.8.0.RELEASE/src/utils/renderer.js:406 | A tail of `0`/`.0` pieces behind a character that is neither `0` nor `.` is cut off exactly. |
| `NumberRender.NumberRenderStripsIntegerZeros` | hzero-front-0.8.0.RELEASE/src/utils/renderer.js:405-407 | As written, with trailing zeros disallowed and no grouping, a number whose fraction is all zeros also loses the trailing zeros of its integer part. `100` and `100.00` render as `1`, and `0` renders as `''`. |
| `NumberRender.NumberRenderDanglingComma` | hzero-front-0.8.0.RELEASE/src/utils/renderer.js:395-407 | As written, with grouping on and trailing zeros disallowed, an integer part ending in `000` with an all-zero fraction keeps a dangling comma. `1000` and `1000.00` render as `1,`. |
| `NumberRender.NumberRenderEndsClean` | hzero-front-0.8.0.RELEASE/src/utils/renderer.js:395-407 | As written, with trailing zeros disallowed, a rendered fixed-point number never ends in `0` or `.`, grouped or not. |
| `NumberRender.NumberRenderIntended` | hzero-front-0.8.0.RELEASE/src/utils/renderer.js:378-409 | The corrected pipeline still renders empty, null, undefined and non-finite values as `''`. |
| `NumberRender.NumberRenderIntendedTrimsFraction` | hzero-front-0.8.0.RELEASE/src/utils/renderer.js:405-407 | Corrected: with trailing zeros disallowed, the sign and integer digits (grouped when asked) are kept. Only the fraction loses its trailing zeros, together with its dot when nothing is left. |
| `NumberRender.TrimKeepsIntegers` | hzero-front-0.8.0.RELEASE/src/utils/renderer.js:405 | Corrected: a text without a dot is never trimmed. |
| `NumberRender.CommaStrippingIsDead` | hzero-front-0.8.0.RELEASE/src/utils/renderer.js:379-393 | When `+value` of a text with a comma is NaN, such a value renders as `''`. For every accepted value, removing separators changes nothing. |
| `NumberRender.GroupedInputRejected` | hzero-front-0.8.0.RELEASE/src/utils/renderer.js:379-393 | As written, the grouped form of any number with more than three integer digits holds a comma, so it renders as `''`. |
| `NumberRender.GroupedRendersAsPlain` | hzero-front-0.8.0.RELEASE/src/utils/renderer.js:392-393 | Corrected: a grouped string and its ungrouped form render identically. |
| `Renderer.FindIndex` | hzero-front-0.8.0.RELEASE/src/utils/renderer.js:146 | `find` returns the first item satisfying the predicate. It finds nothing exactly when no item satisfies it. |
| `Renderer.FindFirst` | hzero-front-0.8.0.RELEASE/src/utils/renderer.js:146 | An item that satisfies the predicate, with none before it doing so, is the one `find` returns. |
| `Renderer.FindNone` | hzero-front-0.8.0.RELEASE/src/utils/renderer.js:147 | `find` yields undefined exactly when no item satisfies the predicate. |
| `Renderer.TagRender` | hzero-front-0.8.0.RELEASE/src/utils/renderer.js:426-433 | There is no tag exactly when the status is `''`, null or undefined. |
| `Renderer.TagRenderMatch` | hzero-front-0.8.0.RELEASE/src/utils/renderer.js:427-432 | The first entry whose status is `===` the given one supplies the colour (or `''`). It supplies the content unless `text` is truthy. |
| `Renderer.TagRenderDefault` | hzero-front-0.8.0.RELEASE/src/utils/renderer.js:427-432 | Without a matching entry, the first `'default'` entry is used in the same way. |
| `Renderer.TagRenderFallback` | hzero-front-0.8.0.RELEASE/src/utils/renderer.js:427-432 | With neither, the colour is `''` and the content is `text \|\| undefined`. |
| `Renderer.TagRenderTextWins` | hzero-front-0.8.0.RELEASE/src/utils/renderer.js:432 | A truthy `text` is always the content, and the colour is either truthy or `''`. |
| `Renderer.ValueMapMeaning` | hzero-front-0.8.0.RELEASE/src/utils/renderer.js:145-148 | When no item carries the code, the code itself is returned. |
| `Renderer.ValueMapMeaningFirst` | hzero-front-0.8.0.RELEASE/src/utils/renderer.js:146-147 | The first item whose `value` or `code` is `===` the code gives its `meaning`, or its `name` when the meaning is falsy. |
| `Renderer.ValueMapMeaningMissing` | hzero-front-0.8.0.RELEASE/src/utils/renderer.js:147 | The code comes back unchanged when no item carries it under either key. |
| `Renderer.PriorityBands` | hzero-front-0.8.0.RELEASE/src/utils/renderer.js:124-138 | The bands, as if-and-only-if statements. Low means below 35 or omitted, since the default is 0. High means above 65. Medium means 35 to 65 inclusive, or NaN. |
| `Renderer.PriorityMonotonic` | hzero-front-0.8.0.RELEASE/src/utils/renderer.js:124-138 | A larger number never gets a lower band. |
| `Renderer.ReadFlagRenderIsTable` | hzero-front-0.8.0.RELEASE/src/utils/renderer.js:175-181 | Exactly `'Y'` and `1` read as read, and exactly `'N'` and `0` as unread. Anything else, `'1'` and `true` included, gets no label. |
| `Renderer.AddressTypeRenderIsTable` | hzero-front-0.8.0.RELEASE/src/utils/renderer.js:306-312 | Exactly `0` is automatic registration and exactly `1` is entered by hand. Anything else gets no label. |
| `Renderer.EnableFlagIsTable` | hzero-front-0.8.0.RELEASE/src/utils/renderer.js:57-71 | Exactly `1` is normal (green) and exactly `-1` is abnormal (red). Anything else is not monitored (brown). |
| `Renderer.StatusRender` | hzero-front-0.8.0.RELEASE/src/utils/renderer.js:115-117 | The badge text is the description when it is truthy, and the code otherwise. |
| `Renderer.StatusRenderCodes` | hzero-front-0.8.0.RELEASE/src/utils/renderer.js:12-26 | A code gets a badge status exactly when it belongs to that status's group. Success is S, COMPLETE and SUCCESS. Error is F, ERROR and FAILED. Default is P, PENDING, NEW and UNEXECUTE. Processing is RUNING, RUNNING and PART. No code gets `warning`. |
| `Renderer.StatusRenderNumber` | hzero-front-0.8.0.RELEASE/src/utils/renderer.js:12-26 | A number code never gets a badge status. |
| `TimeZone.TableInvertsGmtName` | hzero-front-0.8.0.RELEASE/src/utils/renderer.js:213-239 | For every n from -12 to 12, the table maps the name `GMT`, `GMT+n` or `GMT-n` to n. |
| `TimeZone.TableRange` | hzero-front-0.8.0.RELEASE/src/utils/renderer.js:213-239 | Every offset in the table lies between -12 and 12. |
| `TimeZone.ZoneLookup` | hzero-front-0.8.0.RELEASE/src/utils/renderer.js:271 | The lookup is undefined exactly for a name outside the table. Otherwise it is the table's offset for that name, a number between -12 and 12. |
| `TimeZone.UtcOffset` | hzero-front-0.8.0.RELEASE/src/utils/renderer.js:271 | The chosen offset lies between -12 and 12. An unknown zone gets 8. |
| `TimeZone.UtcOffsetAsWritten` | hzero-front-0.8.0.RELEASE/src/utils/renderer.js:271 | As written, every named zone except `GMT` gets its own offset. `GMT` gets 8. |
| `TimeZone.UtcOffsetIntended` | hzero-front-0.8.0.RELEASE/src/utils/renderer.js:271 | Corrected: the offset lies between -12 and 12, and an unknown zone gets 8. |
| `TimeZone.UtcOffsetIntendedInverts` | hzero-front-0.8.0.RELEASE/src/utils/renderer.js:271 | Corrected: every named zone, `GMT` included, gets its own offset. |
| `TimeZone.TimeRenderWithUtc` | hzero-front-0.8.0.RELEASE/src/utils/renderer.js:266-279 | Something is rendered exactly when the time is neither null nor undefined and it parses. |
| `TimeZone.TimeRenderWithUtcZones` | hzero-front-0.8.0.RELEASE/src/utils/renderer.js:266-279 | A time in zone `GMT±n` is formatted at offset n, except in `GMT`, where it is formatted at +8. |
| `TimeZone.TimeRenderWithUtcUnknownZone` | hzero-front-0.8.0.RELEASE/src/utils/renderer.js:266-279 | A time in a zone the table does not name is formatted at +8. |

## Left out

- **`request`, `parseParameters` and `HZERO_PLATFORM`.** These live in files
  that are not part of this model.
  - An endpoint returns the request descriptor it would hand to `request`.
  - The result of `parseParameters` is a parameter, `parsed`.
  - The platform prefix is a parameter, `platform`.
  - Pagination encoding is not modelled.
- **Big.js.** `toFixed` is a parameter: a function from the separator-free text
  and the precision to the fixed-point string. Its rounding is not modelled.
  Neither is the exception `new Big` throws on text it cannot parse (a
  whitespace-only string passes the gate, because `+' '` is 0).
- **The unary plus `+value`.** Its class (finite, an infinity, NaN) is a
  parameter. `CoercionRejectsCommas` states the one coercion rule the findings
  use: text with a comma converts to NaN.
- **moment.** Parsing and formatting are parameters: whether the time parses,
  and the formatting at a given offset. The validity check after `utcOffset` is
  taken to agree with the parse check.
- **`intl.get` and JSX.** A message becomes its key with its default text.
  `Badge`, `Tag` and `span` become the data they are built from.
- **JavaScript numbers.** They are integers in `Value`. That is enough for
  ids, codes and flags. `priorityRender` takes a real or NaN.
- **Fractional amounts.** A fractional amount such as `1234.5` reaches
  `NumberRender` only as `Str` of its JavaScript string form. `String(value)`
  gives that same text, so the rendering is the same.
- `Renderer.PriorityBands`: a real cannot hold an infinity. JavaScript puts
  `Infinity` in the high band and `-Infinity` in the low band, and the model
  has neither.
- `JsValues.IntToString`: it writes every integer in plain digits. JavaScript
  switches to exponent form from 1e21 in magnitude, far beyond any id.
- **Default parameters.** Every argument is explicit. The renderer defaults
  are precision 0, `allowThousandth` true and `allowEndZero` true. The other
  defaults need nothing:
  - `statusList = []` is the caller passing the empty sequence;
  - `text = ''` behaves like undefined under `||`;
  - `queryCodeList`'s `params = {}` is the empty object.
- **Prototype-chain keys.** Lookups such as `statusCodeMap['constructor']`
  reach functions on the prototype. The tables here hold only their own keys.
- **`===` on arrays and objects.** It compares references, which a value model
  cannot express. Such values are treated as never equal to anything.
- **Non-object entries.** Entries of `statusList` and `dataList` that are not
  objects (null entries make `item.status` throw) are left out. The lists are
  sequences of objects.
- **Objects with a custom `toString`.** Every object converts to
  `[object Object]`.
- **Other `renderer.js` renderers.** `enableRender`, `yesOrNoRender`,
  `dateRender` and the rest are not part of this model.
- `CodeRuleOrgService.ChangeUrl`: the split-and-join form is stated only for
  ids whose string form holds no `$`. For other ids the function follows the
  replacement-pattern expansion, and only the `$&` case is stated as a lemma
  (`MatchPatternIdKeepsUrl`).
- `NumberRender.NumberRender`: the contract states the gate only. The rendered
  text of accepted values is stated by `NumberRenderFixed`,
  `NumberRenderStripsIntegerZeros` and `NumberRenderDanglingComma`, for
  `toFixed` results of the shape a fixed-point string has.

## Findings

| source | as written | input that shows it | evidently intended | confidence | as-written member | corrected member |
|---|---|---|---|---|---|---|
| hzero-front-0.8.0.RELEASE/src/utils/renderer.js:405-407 | Two faults combine. The guard `ret.indexOf('.')` is truthy when there is no dot (-1). The pattern `(0\|\.0)*$` strips the integer's own zeros whenever the fraction is all zeros, or absent. Fixing only the guard leaves `100.00` and `0.00` broken. | `numberRender(100, 0, false, false)` and `numberRender(100, 2, false, false)` give `"1"`, and `numberRender(0, 0, false, false)` gives `''` | `"100"` and `"0"`: only zeros after the decimal point are dropped | not executed | `NumberRender.NumberRenderStripsIntegerZeros` | `NumberRender.NumberRenderIntendedTrimsFraction` |
| hzero-front-0.8.0.RELEASE/src/utils/renderer.js:395-407 | After grouping, a final `,000` loses its zeros but keeps the comma, with or without an all-zero fraction. | `numberRender(1000, 0, true, false)` and `numberRender(1000, 2, true, false)` give `"1,"` | `"1,000"` | not executed | `NumberRender.NumberRenderDanglingComma` | `NumberRender.NumberRenderIntendedTrimsFraction` |
| hzero-front-0.8.0.RELEASE/src/utils/renderer.js:379-393 | The gate tests `+value` before separators are removed, and `+'1,000'` is NaN. The separator removal is therefore dead code. | `numberRender('1,000')` gives `''` | renders like `numberRender('1000')`, as the comment on the separator removal says | not executed | `NumberRender.GroupedInputRejected` | `NumberRender.GroupedRendersAsPlain` |
| hzero-front-0.8.0.RELEASE/src/utils/renderer.js:271 | `timeZone2MomentUTC[timeZone] \|\| 8` treats the `GMT` offset 0 as missing. | time zone `GMT` gets offset +8 | offset 0 for `GMT`, 8 only for unknown zones | not executed | `TimeZone.UtcOffsetAsWritten` | `TimeZone.UtcOffsetIntendedInverts` |

`NumberRender.NumberRenderIntended` is the corrected pipeline. It gates on the
separator-free text and trims only the fraction. Its theorems are
`NumberRenderIntendedTrimsFraction` and `GroupedRendersAsPlain`. For `1000`
with grouping, it yields `1,000`.
