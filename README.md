# Gravity Forms webhook → SharePoint list, modelled in Dafny

This project models the webhook in `src/functions/gravityFormsWebhook.js`. It is an
Azure Function. It receives a Gravity Forms submission, either URL-encoded or JSON, and
turns it into a contact record keyed by a registration type (parent, player or club).
It then writes the record as an item in a SharePoint list, through Microsoft Graph.
JavaScript's truthiness rules, `parseInt`, `trim`, `split`/`join` and `replace` are
written out explicitly in the model, because the webhook's behaviour depends on them.

Modules, leaf first:

- `Wrappers` (`wrappers.dfy`): `Option` and `Result`.
- `JsText` (`js_text.dfy`): `trim`, ASCII case mapping, `indexOf`/`includes`,
  first-occurrence `replace`, and `split`/`join` on one separator.
- `JsNumber` (`js_number.dfy`): `parseInt` without a radix, and the `|| 0` fallback.
- `FormFields` (`form_fields.dfy`): the frozen `FORM_FIELDS` table.
- `FormData` (`form_data.dfy`): `parseFormData`, as a loop over the decoded pairs.
- `Contact` (`contact.dfy`): `extractContactData`, as a method that builds the record
  and then sets its type-specific part in an if/else chain.
- `SharePoint` (`sharepoint.dfy`): the logic of `addToSharePointList`. It covers the
  site URL split, the list lookup with its not-found message, the item's column
  mapping, and the sequence of directory calls.
- `Webhook` (`webhook.dfy`): the HTTP handler and its status codes.

Remote services are inputs. A `Directory` value holds the token outcome. It also holds
three functions that answer the site lookup, the lists request and the item creation.
`AddToSharePointList` and `HandleRequest` return the list of `GraphCall`s they issued, so
the contracts can say which calls happen and with what. `Contact.Extracted` states what
extraction returns and `SharePoint.WriteOutcome` states what the write does. The
handler's contract says that an accepted submission gets exactly the write of its
extracted contact, and that the response reports that write's outcome.

Behaviour of the code that a reader might not expect:

- An email is not guaranteed to be non-empty. The email check runs on the raw value,
  before trimming, so an email of white space only is accepted and stored as `""`
  (`Contact.WhitespaceEmailStoredEmpty`). The title column can then be empty too.
- The sub-fields depend on the raw registration type compared with lower-case
  `"parent"`, `"player"` and `"club"`. So `"PARENT"` becomes `registrationType = "Parent"`
  without a school name or child count, and the item gets `""` and `0` for them.
- Splitting the site URL rebuilds the stripped URL only when that URL contains a `/`.
  Without one, the path is `"/"`. The `"https://"` is removed at its first occurrence
  anywhere in the URL, not only as a prefix.
- `parseInt` accepts more than an optional sign followed by decimal digits. Following
  ECMAScript, it skips leading white space and reads hexadecimal after `0x`/`0X`.
- Failures to find the site or the list are not separate error kinds. Every failure of
  the write reaches the caller as one detail string: `error.response?.data || error.message`.
- The submission date is converted to Adelaide time inside the same `try` as the field
  checks. When that conversion throws, extraction returns `null` and the handler answers
  400 with the missing-fields message, even for a complete submission. The model keeps
  this: the conversion's outcome is an `Option` parameter, and `None` means it threw.

## Model

| member | source | states |
|---|---|---|
| `FormFields.Id` | src/functions/gravityFormsWebhook.js:4-25 | the frozen field table: each semantic field has its Gravity Forms input identifier (`"17"` for the type, `"6.3"`/`"6.6"` for first and last name, `"3"` for the email and so on) |
| `FormFields.IdInjective` | src/functions/gravityFormsWebhook.js:4-25 | the field table gives every semantic field its own Gravity Forms identifier, so no two fields share one |
| `FormData.LastWins` | src/functions/gravityFormsWebhook.js:155-162 | the reference definition of the decoded form: a map from the keys of the first n pairs, each key bound to the value of its last occurrence among them |
| `FormData.ParseFormData` | src/functions/gravityFormsWebhook.js:155-162 | the loop that stores each decoded pair under its key computes the last-occurrence map `LastWins` of the whole input |
| `FormData.LastWinsStep` | src/functions/gravityFormsWebhook.js:158-160 | reading one more pair overwrites, or adds, exactly that pair's key and leaves every other key alone |
| `FormData.LastWinsSpec` | src/functions/gravityFormsWebhook.js:155-162 | the decoded map's keys are exactly the input's keys, and each key is bound to the value of its last occurrence |
| `FormData.DecodeEncoded` | src/functions/gravityFormsWebhook.js:155-162 | round trip: a map written out as pairs, each entry once in any order, decodes back to the same map |
| `JsText.TrimStart` | src/functions/gravityFormsWebhook.js:186 | the left half of `trim`: the result is a suffix of the input that is empty or starts with a non-white character, and everything dropped is white space |
| `JsText.TrimEnd` | src/functions/gravityFormsWebhook.js:186 | the right half of `trim`: the result is a prefix of the input that is empty or ends with a non-white character, and everything dropped is white space |
| `JsText.Trim` | src/functions/gravityFormsWebhook.js:186 | `trim` is `TrimEnd` after `TrimStart`; `TrimSpec` states what that means |
| `JsText.TrimSpec` | src/functions/gravityFormsWebhook.js:186 | `trim` leaves the part of the string between a white-space prefix and a white-space suffix, and that part has no white space at either end |
| `JsText.TrimIdempotent` | src/functions/gravityFormsWebhook.js:197 | trimming an already-trimmed string changes nothing |
| `JsText.ToLower` | src/functions/gravityFormsWebhook.js:197 | `toLowerCase` keeps the length and maps every character through the (ASCII) lower-case map |
| `JsText.UpperChar` | src/functions/gravityFormsWebhook.js:190 | `toUpperCase` on one character: an ASCII lower-case letter becomes an upper-case letter that lower-cases back to it, and any other character is unchanged (see Left out) |
| `JsText.IndexOf` | src/functions/gravityFormsWebhook.js:71 | `indexOf` gives -1 exactly when the pattern occurs nowhere, and otherwise the least index where it occurs |
| `JsText.Includes` | src/functions/gravityFormsWebhook.js:71 | `includes` holds exactly when the pattern occurs somewhere in the string |
| `JsText.ReplaceFirst` | src/functions/gravityFormsWebhook.js:260 | `replace` with a string pattern changes nothing when the pattern is absent, and otherwise replaces only its first occurrence |
| `JsText.Split` | src/functions/gravityFormsWebhook.js:260-261 | `split` on a one-character separator gives at least one piece, and no piece contains the separator |
| `JsText.SplitJoin` | src/functions/gravityFormsWebhook.js:260-262 | joining the pieces of a split with the same separator rebuilds the original string |
| `JsText.SplitSingle` | src/functions/gravityFormsWebhook.js:260-262 | a split gives a single piece exactly when the separator does not occur |
| `JsText.Join` | src/functions/gravityFormsWebhook.js:262 | `join` of no pieces is the empty string, and otherwise the result starts with the first piece; `JoinContains` adds that every piece occurs in it |
| `JsText.JoinContains` | src/functions/gravityFormsWebhook.js:300-302 | every piece occurs in the joined string |
| `JsNumber.ParseInt` | src/functions/gravityFormsWebhook.js:207 | `parseInt` without a radix: skip leading white space, read an optional sign, read hexadecimal after `0x`/`0X` and decimal otherwise, keep the longest digit run, NaN when there is none. The lemmas below state its behaviour, branch by branch: leading white space, signs, no digits, decimal, hexadecimal and `0x` without hexadecimal digits |
| `JsNumber.ParseIntLeadingHex` | src/functions/gravityFormsWebhook.js:207 | after a `0x` or `0X` prefix, the longest run of hexadecimal digits is read in base 16 (`"0x1A"` gives 26) |
| `JsNumber.ParseIntHexNoDigits` | src/functions/gravityFormsWebhook.js:207 | a `0x` or `0X` prefix followed by no hexadecimal digit (`"0x"`, `"0xg"`) parses to NaN, not to the 0 before the `x` |
| `JsNumber.DigitPrefix` | src/functions/gravityFormsWebhook.js:207 | `parseInt` reads the longest run of digits at the start: all of it is digits, and it is followed by a non-digit or by nothing |
| `JsNumber.ParseIntLeadingDecimal` | src/functions/gravityFormsWebhook.js:207 | a string that starts with decimal digits and has no `0x` prefix parses to the value of exactly those digits |
| `JsNumber.ParseIntSkipsWhitespace` | src/functions/gravityFormsWebhook.js:207 | any white-space prefix leaves the parse unchanged |
| `JsNumber.ParseIntSigns` | src/functions/gravityFormsWebhook.js:207 | for an `s` that is empty or starts with neither white space nor a sign, `"+" + s` parses like `s` and `"-" + s` to its negation, with NaN staying NaN. The condition matters: `"+ 5"` and `"++5"` are NaN |
| `JsNumber.ParseIntNoDigits` | src/functions/gravityFormsWebhook.js:207 | a value that starts with neither white space, a sign nor a digit parses to NaN, so its count is 0 |
| `JsNumber.CountOrZero` | src/functions/gravityFormsWebhook.js:207-213 | `parseInt(x)` with the `0` fallback, for a value that may be missing: a missing value and NaN give 0, any other parse gives its value |
| `JsNumber.CountOrZeroDecimal` | src/functions/gravityFormsWebhook.js:207 | the count coercion (parse, with 0 for NaN) never fails: the decimal numeral of any n gives n, and a missing value gives 0 |
| `JsNumber.CountOrZeroTrailingText` | src/functions/gravityFormsWebhook.js:213 | text after the digits is ignored, so `"12 children"` gives 12. The exception is a numeral `0` followed by `x` or `X`, which `parseInt` reads as hexadecimal |
| `JsNumber.CountOrZeroOfNonNumeric` | src/functions/gravityFormsWebhook.js:207 | `""` and `"abc"` give 0 |
| `Contact.Capitalize` | src/functions/gravityFormsWebhook.js:190 | the type normalisation keeps the length; `CapitalizeAt` gives it character by character |
| `Contact.CapitalizeAt` | src/functions/gravityFormsWebhook.js:190 | the first character is upper-cased and every later one lower-cased |
| `Contact.CapitalizeIdempotent` | src/functions/gravityFormsWebhook.js:190 | normalising the registration type twice gives the same result as normalising it once (for the ASCII case map; see Left out) |
| `Contact.CapitalizeCaseInsensitive` | src/functions/gravityFormsWebhook.js:190 | two registration types normalise alike exactly when they agree ignoring case (for the ASCII case map; see Left out) |
| `Contact.CapitalizeParent` | src/functions/gravityFormsWebhook.js:190 | a type normalises to `"Parent"` exactly when it is some spelling of "parent" |
| `Contact.CapitalizeParentSpellings` | src/functions/gravityFormsWebhook.js:190 | `"parent"`, `"PARENT"` and `"Parent"` all give `"Parent"` |
| `Contact.Lookup` | src/functions/gravityFormsWebhook.js:170 | `formData[id]`: a value exactly when the submission has the field's identifier, and then the submitted string |
| `Contact.TextOr` | src/functions/gravityFormsWebhook.js:167-172 | `formData[id]` with the `""` default: the submitted string when the field is present, the empty string when it is missing |
| `Contact.Truthy` | src/functions/gravityFormsWebhook.js:176-184 | the `!email` and `!regType` tests: a field is truthy exactly when it is present with a non-empty value, that is, exactly when its reading with the `""` default is non-empty |
| `Contact.ExtractContactData` | src/functions/gravityFormsWebhook.js:164-223 | computes `Extracted`: rejects exactly when the date conversion threw or the email or the registration type is missing or empty. Otherwise: email lower-cased then trimmed, contact name the trimmed `first + " " + last`, type capitalised, status `"New"`, other fields copied with `""` defaults. Sub-fields appear exactly for raw `"parent"`, `"player"` or `"club"`, each with only its own fields; counts are parsed, with 0 for NaN |
| `Contact.WhitespaceEmailStoredEmpty` | src/functions/gravityFormsWebhook.js:176-197 | for every extraction result: a submission whose email is white space only, with a type and a date, is accepted and its email is stored as the empty string |
| `SharePoint.StripSchemePrefix` | src/functions/gravityFormsWebhook.js:260 | a URL that starts with `https://` loses exactly that prefix |
| `SharePoint.StripScheme` | src/functions/gravityFormsWebhook.js:260-261 | `replace("https://", "")`: a URL without `https://` is unchanged; otherwise exactly the first occurrence is removed, wherever it is |
| `SharePoint.SiteDomain` | src/functions/gravityFormsWebhook.js:260 | the site domain: the first `/`-separated piece of the URL with `https://` removed |
| `SharePoint.SitePath` | src/functions/gravityFormsWebhook.js:261-262 | the site path: `/` followed by the remaining pieces joined with `/` |
| `SharePoint.SiteUrlSplit` | src/functions/gravityFormsWebhook.js:260-262 | the site domain has no `/`. Domain plus path rebuilds the URL with `https://` removed when that URL has a `/`; otherwise the domain is the whole URL and the path is `"/"` |
| `SharePoint.SiteApiUrl` | src/functions/gravityFormsWebhook.js:269 | the site lookup URL is `sites/` followed by the stripped URL up to its first `/`, a `:`, and the rest from that `/` on; a stripped URL without `/` gives `sites/{url}:/` |
| `SharePoint.ListsUrl` | src/functions/gravityFormsWebhook.js:285 | the lists request is `sites/{siteId}/lists`, and the site id can be read back from it |
| `SharePoint.ItemsUrl` | src/functions/gravityFormsWebhook.js:347 | the item creation request is the site's lists request followed by `/{listId}/items`, and the list id can be read back from it |
| `SharePoint.FindList` | src/functions/gravityFormsWebhook.js:294-296 | the lookup finds nothing exactly when no list's display name or internal name equals the list name. Otherwise it returns the first list that matches |
| `SharePoint.NotFoundMessage` | src/functions/gravityFormsWebhook.js:298-304 | the not-found error text: the list name in quotes, then the display names of all lists joined with `, ` |
| `SharePoint.NotFoundMessageNamesAll` | src/functions/gravityFormsWebhook.js:298-304 | the not-found message contains the requested list name and the display name of every list the site returned |
| `SharePoint.ErrorDetail` | src/functions/gravityFormsWebhook.js:377 | the failure detail: the response body when it is truthy, else the error message |
| `SharePoint.ErrorDetailFallback` | src/functions/gravityFormsWebhook.js:377 | a non-empty response body is the detail; a missing or empty one falls back to the message, so the detail is empty only when both are |
| `SharePoint.BuildListItem` | src/functions/gravityFormsWebhook.js:314-339 | the item has the common columns: title = contact name, or email when the name is empty, and the other fields copied. `Parent` adds school name and child count (defaults `""` and 0). `Player` adds the club name and a count of exactly 1. `Club` adds those two and the sport type. Any other type adds nothing |
| `SharePoint.AddToSharePointList` | src/functions/gravityFormsWebhook.js:237-380 | computes `WriteOutcome`: each step runs only after the previous one succeeded: token, site lookup at `sites/{domain}:{path}`, the site's lists, the first matching list, then one POST of the mapped item to that list. Each failure stops the chain with its detail. A missing list gives the not-found message and no POST. The result is the created item's id |
| `SharePoint.WrittenIffPosted` | src/functions/gravityFormsWebhook.js:345-364 | for every write outcome: success exactly when the item was posted and the POST succeeded, with the created id; the calls before the POST are GETs |
| `Webhook.IsJson` | src/functions/gravityFormsWebhook.js:68-71 | the body is read as JSON exactly when the content type (empty when absent) contains `application/json` |
| `Webhook.Decoded` | src/functions/gravityFormsWebhook.js:71-84 | the field map: the JSON parse (None when it threw) for a JSON content type, otherwise the last-wins decoding of the form pairs |
| `Webhook.HandleRequest` | src/functions/gravityFormsWebhook.js:31-151 | GET gives 200 with the health body. An unreadable body gives 500 with its message. An empty body, invalid JSON (with a JSON content type) or a rejected extraction gives 400 with no directory call. For an accepted submission there is a contact `c` and a write outcome `w` such that `c` is what extraction returns, `calls` and `w` are the write of `c`, and the response is 200 with `w`'s item id and `c`'s name and type when `w` succeeded, and 500 with `w`'s detail otherwise |

## Left out

- `toAdelaideTime` and the current clock (lines 173 and 225-235) depend on date parsing,
  time-zone formatting and the system clock. Their outcome is the `date` parameter of
  `Contact.ExtractContactData` and `Webhook.HandleRequest`: the converted string, or
  `None` when the conversion throws. An example is the `RangeError` of `toISOString()`
  when the `en-US` locale string does not parse back into a `Date`. Extraction then
  rejects the submission, and the handler answers 400. Which clocks and locales make the
  conversion throw is not modelled.
- `DefaultAzureCredential.getToken` and the `axios` calls (lines 241-251, 272-292,
  346-355) are network calls. Their answers are the fields of `SharePoint.Directory`.
  HTTP headers other than the bearer token are not modelled.
- `JSON.parse` and the percent-decoding of `URLSearchParams` (lines 73 and 156) are
  library parsers. They are given as `Webhook.BodyParse`: the JSON result, or None when
  parsing throws, and the decoded pairs, in order.
- JSON values that are not strings are not modelled. Every field value is a string.
  This covers numbers, nested objects, and a body that parses to `null` or a primitive;
  such a body is represented by the map of its string-valued properties. The `catch`
  in `extractContactData` (lines 219-222) is reached in three ways:
  - A body that parses to `null` throws at line 167, when the first field is read. It
    is represented by the empty map, which is rejected, so the outcome (null, then 400)
    is the same.
  - A throwing date conversion is modelled, as above.
  - A non-string field value, such as a numeric email with no `toLowerCase`, is not
    modelled.

  Nested field groups are not modelled either.
- `SharePoint.ErrorDetail`: a Graph error's `response.data` is taken to be a string or
  absent. A JSON error object there is truthy and is passed on as an object; the model
  does not represent that.
- Environment lookups and their defaults for the site URL and the list name (lines
  254-257) are configuration; both are parameters of `AddToSharePointList`.
- Logging, the `app.http` registration and route, and the GET timestamp (lines 27-50)
  are hosting, logging and clock concerns.
- `JsText.ToLower`: only ASCII letters change case. JavaScript's full Unicode case
  mapping is not modelled, including characters whose lower case is longer: `"İ"`
  (U+0130) lower-cases to the two code points `"i̇"`, so the length is not kept.
- `JsText.UpperChar`: only ASCII letters change case, as for `JsText.ToLower`.
- `Contact.Capitalize`: built from `JsText.UpperChar` and `JsText.ToLower`, so it capitalises
  ASCII letters only. `"ß"` stays `"ß"`, where JavaScript gives `"SS"`.
- `Contact.CapitalizeIdempotent` holds only because of that ASCII restriction. With
  JavaScript's case mapping, `"ß"` capitalises to `"SS"` and `"SS"` to `"Ss"`, so
  normalising twice differs from normalising once.
- `Contact.CapitalizeCaseInsensitive` holds only because of that ASCII restriction. With
  JavaScript's case mapping, `"ẞ"` and `"ß"` lower-case alike but capitalise to `"ẞ"` and
  `"SS"`; the Kelvin sign and `"k"` behave the same way. `Contact.CapitalizeParent` is not
  affected: no non-ASCII character upper-cases to `P` or lower-cases into `arent`.
- `JsNumber.ParseInt`: results are exact integers. The rounding of doubles above 2^53 is
  not modelled, and `-0` is folded into 0, which `|| 0` treats the same way.
- `FormData.ParseFormData`: keys are stored as plain map keys. The special behaviour of
  a `__proto__` key on a JavaScript object is not modelled.
- `test-webhook.js` is a client script with no assertions. Its field keys do not match
  `FORM_FIELDS`, so it is not modelled.
- Other webhook functions of the repository, such as a school-partnership form without
  a type field, are not part of `gravityFormsWebhook.js` and are not part of this model.
