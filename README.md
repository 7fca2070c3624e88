# Property listing catalog: a Dafny model

This project models the logic of a small property-listing application:

- a React front end that lists properties, filters them, shows summary statistics, a card per property, a details modal and an "Add Property" form;
- an Express back end that keeps the listings in one JSON file.

It models the rules that sit inside those components and handlers:

- **Catalog page** (`Home`):
  - the search and type filter over the loaded list;
  - the "All"-prefixed list of distinct types;
  - the rounded average price;
  - the number of distinct locations.
- **Property card** (`PropertyCard`): the 80-character description excerpt with its conditional ellipsis.
- **Add Property form** (`PropertyForm`):
  - the declared field rules;
  - the payload built by `handleFinish`, with the price coerced by `Number` and a placeholder image derived from the type;
  - the single `onSubmit` call and the toast that follows it.
- **Details modal** (`PropertyModal`):
  - the missing-property guard;
  - the `hasCoordinates` test;
  - the Google Maps embed URL;
  - the placeholder image.
- **Catalog store** (`Server`):
  - the GET and POST handlers, as a `CatalogServer` object whose `file` field is the data file;
  - POST is read-modify-write: parse the array (an empty file counts as `[]`), stamp `id` from the clock, push the record, write the array back.
  - Read and write failures answer 500.

The JavaScript these rules rely on is modelled in three support modules:

- `JsValues`: values and their conversions. These are truthiness, `===`, `typeof`, `Number`, `isNaN` and template-literal string conversion.
- `JsStrings`: `trim` with the ECMAScript whitespace set, ASCII `toLowerCase`, `includes`, and decimal digit strings.
- `JsSet`: the iteration order of a `Set`.

Records are maps from property names to values, and a missing property reads as `undefined`. Calling a string method on a truthy non-string throws a TypeError. That error is an explicit `ThrowTypeError` outcome.

Three behaviours of the code are worth stating outright:

- **Order of the type list.** The code spreads a JavaScript `Set`, which iterates in first-insertion order, so the options follow the order in which types first appear (`Home.TypesListsEachTypeOnce`).
- **Unparsable data file.** `JSON.parse` throws inside the `fs.readFile` callback and nothing catches it, so the process ends without a response. The model writes this outcome as `Crash`.
- **Ids.** An id is `Date.now()`, so two POSTs in the same millisecond share an id (`Server.PostedIdsAreDistinctIffClocksAre`).

## Model

| member | source | states |
|---|---|---|
| Home.Keep | Property-listing/src/pages/Home.jsx:79-86 | definition of the filter callback; see Home.KeepMeansSelected |
| Home.FilterBy | Property-listing/src/pages/Home.jsx:79-86 | definition of `properties.filter` with that callback; see Home.FilterIsSelectedOnly and Home.FilterIsSubsequence |
| Home.Filter | Property-listing/src/pages/Home.jsx:77-87 | definition of `filtered` from the raw search text; see Home.FilterAllBlankIsIdentity and Home.SearchIgnoresCaseAndPadding |
| Home.Types | Property-listing/src/pages/Home.jsx:70-73 | definition of the type options; see Home.TypesListsEachTypeOnce |
| Home.Mean | Property-listing/src/pages/Home.jsx:117-120 | definition of `Math.round(sum / n)` on a number value; see Home.AvgPrice and Home.RoundedMean |
| Home.LocationsCovered | Property-listing/src/pages/Home.jsx:181 | definition of `new Set(locations).size`; see Home.LocationsCoveredCountsDistinct |
| Home.SearchableText | Property-listing/src/pages/Home.jsx:83-84 | `(v \|\| "").toLowerCase()` throws exactly for a truthy non-string; for a string it is the lower-cased string |
| Home.KeepMeansSelected | Property-listing/src/pages/Home.jsx:79-86 | when the filter callback does not throw, it keeps a record exactly when the type matches (or "All" is selected) and, for non-blank text, the lower-cased name or location contains the text |
| Home.FilterIsSubsequence | Property-listing/src/pages/Home.jsx:79-86 | the filtered list is a subsequence of the input: strictly increasing input positions, the same records |
| Home.FilterIsSelectedOnly | Property-listing/src/pages/Home.jsx:79-86 | when it does not throw, the filter lists exactly the selected records of the input, every occurrence, in input order (equal to the reference `SelectedOnly`) |
| Home.FilterKeepsExactlySelected | Property-listing/src/pages/Home.jsx:79-86 | a record is listed if and only if it is in the input and meets the type and text conditions, both directions |
| Home.FilterMatchesSelectedType | Property-listing/src/pages/Home.jsx:80 | with a type other than "All" selected, every listed record has that type (`===`) |
| Home.FilterAllBlankIsIdentity | Property-listing/src/pages/Home.jsx:78-81 | "All" with an empty or whitespace-only search lists the input unchanged |
| Home.SearchIgnoresCaseAndPadding | Property-listing/src/pages/Home.jsx:78 | text `t` and `"  " + upper(t) + " "` give the same result |
| Home.FilterOfSearchableNeverThrows | Property-listing/src/pages/Home.jsx:83-84 | when every name and location is a string or falsy (missing counts as `""`), the filter does not throw |
| Home.BlankSearchNeverThrows | Property-listing/src/pages/Home.jsx:81 | a blank search returns before reading names, so it never throws |
| Home.NonTextNameThrows | Property-listing/src/pages/Home.jsx:83 | a non-blank search over a type-matching record whose name is truthy but not a string throws a TypeError |
| Home.TypesListsEachTypeOnce | Property-listing/src/pages/Home.jsx:70-73 | the options start with "All", then every record type exactly once, with nothing else, in first-occurrence order |
| Home.TypesRepeatAllOnlyForAllTyped | Property-listing/src/pages/Home.jsx:70-73 | the option list is duplicate-free exactly when no record's type is "All" |
| Home.EveryTypeOptionListsSomething | Property-listing/src/pages/Home.jsx:70-86 | selecting any listed type (other than NaN) with a blank search lists at least one record |
| Home.NaNTypeListsNothing | Property-listing/src/pages/Home.jsx:80 | a NaN type never equals itself under `!==`, so selecting it lists nothing |
| Home.PriceOf | Property-listing/src/pages/Home.jsx:118 | `Number(p.price \|\| 0)` is a number value; a falsy price counts as 0 |
| Home.PriceSum | Property-listing/src/pages/Home.jsx:118 | the reduced sum is a number value |
| Home.RoundedMean | Property-listing/src/pages/Home.jsx:117-120 | `Math.round(s / n)`: the integer r with `r - 1/2 <= s/n < r + 1/2`, halves rounded upward |
| Home.RoundedMeanUnique | Property-listing/src/pages/Home.jsx:117-120 | that rounding condition determines the result: any integer satisfying it is the rounded mean |
| Home.AvgPrice | Property-listing/src/pages/Home.jsx:115-121 | the average is a number value, 0 for an empty list; for a non-empty list with a number sum it is `Math.round(sum / length)`, the integer r with `n*(2r-1) <= 2*sum < n*(2r+1)`; a NaN sum gives NaN |
| Home.PriceSumNaN | Property-listing/src/pages/Home.jsx:118 | the sum is NaN exactly when some price converts to NaN |
| Home.AvgPriceNaN | Property-listing/src/pages/Home.jsx:115-121 | the average is NaN exactly when some price converts to NaN |
| Home.PriceSumBounds | Property-listing/src/pages/Home.jsx:118 | n prices in `[lo, hi]` sum to a value in `[n*lo, n*hi]` |
| Home.RoundedMeanWithin | Property-listing/src/pages/Home.jsx:117-120 | the rounded quotient of a sum of n values in `[lo, hi]` is in `[lo, hi]` |
| Home.AvgPriceWithinBounds | Property-listing/src/pages/Home.jsx:115-121 | the average lies between the lowest and the highest price |
| Home.LocationsCoveredCountsDistinct | Property-listing/src/pages/Home.jsx:181 | "Locations Covered" is the number of distinct location values: at most the record count, and at least 1 when there are records |
| JsStrings.TrimStartSpec | Property-listing/src/pages/Home.jsx:78 | the start-trimmed text is a suffix, everything dropped is whitespace, and it does not start with whitespace |
| JsStrings.TrimEndSpec | Property-listing/src/pages/Home.jsx:78 | the end-trimmed text is a prefix, everything dropped is whitespace, and it does not end with whitespace |
| JsStrings.Trim | Property-listing/src/pages/Home.jsx:78 | `trim()` gives a slice flanked only by whitespace that neither starts nor ends with whitespace, and is empty exactly for blank input |
| JsStrings.TrimIgnoresPadding | Property-listing/src/pages/Home.jsx:78 | whitespace added on either side does not change the trimmed text |
| JsStrings.CaseAndPaddingInsensitive | Property-listing/src/pages/Home.jsx:78 | trimming and lower-casing an upper-cased, padded text gives the same as for the original |
| JsStrings.Includes | Property-listing/src/pages/Home.jsx:83-84 | `s.includes(t)` holds exactly when `t` occurs in `s` at some index |
| JsStrings.DecimalDigits | Property-listing/src/components/PropertyModal.jsx:16 | the decimal text of a natural number is a non-empty digit string whose value is that number |
| JsValues.StringToNumber | Property-listing/src/components/PropertyForm.jsx:14 | `Number(text)` is always a number value, and 0 for blank text |
| JsValues.ToNumber | Property-listing/src/components/PropertyForm.jsx:14 | `Number(v)` is a number value, leaves numbers unchanged, and gives NaN for `undefined` |
| JsValues.NumberToString | Property-listing/src/components/PropertyModal.jsx:16 | the text interpolated for an integer is non-empty, unpadded, and `Number` reads it back as the same integer |
| JsValues.Truthy | Property-listing/src/pages/Home.jsx:81-84 | definition of ToBoolean behind `\|\|` and `!`; used by Home.SearchableText and Home.PriceOf |
| JsValues.StrictEquals | Property-listing/src/pages/Home.jsx:80 | definition of `===`: NaN is unequal to itself; see Home.NaNTypeListsNothing |
| JsValues.ToString | Property-listing/src/components/PropertyForm.jsx:18 | definition of template-literal conversion; see PropertyForm.DefaultImageTopic |
| JsSet.Distinct | Property-listing/src/pages/Home.jsx:71-72 | `Array.from(new Set(xs))` holds exactly the values of `xs`, without duplicates |
| JsSet.DistinctInFirstOccurrenceOrder | Property-listing/src/pages/Home.jsx:71-72 | the Set lists its values in order of first occurrence |
| JsSet.DistinctSize | Property-listing/src/pages/Home.jsx:181 | `new Set(xs).size` is the number of distinct values of `xs` |
| PropertyCard.Excerpt | Property-listing/src/components/PropertyCard.jsx:73-74 | a missing description shows as empty text; a non-string throws; up to 80 characters are shown unchanged; a longer one shows its first 80 characters plus "..."; never more than 83 characters |
| PropertyCard.ExcerptUnchanged | Property-listing/src/components/PropertyCard.jsx:73-74 | the card shows a description unchanged exactly when it has at most 80 characters, or exactly 83 ending in "..." |
| PropertyForm.FailingFields | Property-listing/src/components/PropertyForm.jsx:39-91 | the fields whose rules reject the values: a required field that is missing, null or `""`, or a price that is not a number `>= 0`; empty exactly when all rules pass |
| PropertyForm.PayloadImage | Property-listing/src/components/PropertyForm.jsx:15-18 | a non-blank string image is kept as is; a falsy or blank one becomes the 400x300 placeholder for the type; a truthy non-string throws |
| PropertyForm.DefaultImageTopic | Property-listing/src/components/PropertyForm.jsx:18 | `${values.type \|\| "house"}` is "house" for a falsy type and the type itself for a non-empty string |
| PropertyForm.Payload | Property-listing/src/components/PropertyForm.jsx:12-19 | the payload has the values' keys plus `price` and `image`; price is `Number(values.price)`; every other field is copied unchanged |
| PropertyForm.HandleFinish | Property-listing/src/components/PropertyForm.jsx:10-30 | `onSubmit` is called at most once, exactly when the payload can be built, and with that payload; the success toast appears exactly when it is called and does not reject, the error toast otherwise |
| PropertyForm.Submit | Property-listing/src/components/PropertyForm.jsx:33-38 | the form is rejected exactly when some rule fails, naming the failing fields; otherwise `handleFinish` runs |
| PropertyForm.SubmitCallsOnSubmitExactlyWhenValid | Property-listing/src/components/PropertyForm.jsx:10-30 | `onSubmit` is reached if and only if all five required fields are provided, the price is a number `>= 0`, and a truthy image is a string |
| PropertyForm.ImageIsOptional | Property-listing/src/components/PropertyForm.jsx:81-83 | whatever the image field holds, validation rejects the same fields |
| PropertyForm.SubmittedPayloadIsNormalised | Property-listing/src/components/PropertyForm.jsx:12-19 | a submitted payload carries the entered non-negative number as price and gains no `id` |
| PropertyModal.HasCoordinates | Property-listing/src/components/PropertyModal.jsx:9-13 | definition of `hasCoordinates`; see PropertyModal.HasCoordinatesExactlyForNumbers |
| PropertyModal.HasCoordinatesExactlyForNumbers | Property-listing/src/components/PropertyModal.jsx:9-13 | `hasCoordinates` holds if and only if both latitude and longitude are numbers other than NaN |
| PropertyModal.MapSrc | Property-listing/src/components/PropertyModal.jsx:15-17 | there is a map URL exactly when both coordinates are numbers |
| PropertyModal.MapSrcShowsCoordinates | Property-listing/src/components/PropertyModal.jsx:15-17 | the map URL starts with the Google Maps embed prefix and contains `latitude,longitude` |
| PropertyModal.MapSrcRecoversCoordinates | Property-listing/src/components/PropertyModal.jsx:16 | the URL is prefix, two comma-free parts separated by a comma, and suffix; `Number` of the two parts gives back latitude and longitude |
| PropertyModal.ImageSrc | Property-listing/src/components/PropertyModal.jsx:32 | a non-blank string image is used as given; a falsy or whitespace-only one becomes the 600x400 placeholder; a truthy non-string throws |
| PropertyModal.Render | Property-listing/src/components/PropertyModal.jsx:4-72 | a missing property renders nothing; otherwise the modal shows the name as title and the chosen image, and has a map section exactly when `hasCoordinates` holds, with `mapSrc` as source |
| Server.JsonRecord | Express/src/server.js:33-35 | a record through JSON has no `undefined` or NaN property, no new keys, keeps its numbers, and is unchanged when it was already JSON |
| Server.JsonRecordIdempotent | Express/src/server.js:33 | a second pass through JSON changes nothing |
| Server.Stored | Express/src/server.js:18 | a file holding records `rs` yields exactly `rs`; an empty one yields `[]`; an unreadable or unparsable one yields nothing |
| Server.GetReply | Express/src/server.js:15-20 | GET answers 500 "Error reading file" exactly on a read error, crashes exactly on unparsable content, and otherwise answers 200 with the stored array |
| Server.CatalogServer.Get | Express/src/server.js:15-20 | the GET handler, computed step by step from the file, answers as GetReply says |
| Server.CatalogServer.Post | Express/src/server.js:23-38 | the POST handler: the reply and the new file are those of PostStep from the old file, and the file stays well-formed JSON |
| Server.Stamped | Express/src/server.js:30 | the stored record is the body with `id` set to the clock, and its `id` is the clock value |
| Server.PostStep | Express/src/server.js:23-38 | definition of the POST handler on the file; see Server.CatalogServer.Post, Server.FailedPostLeavesFileUnchanged and Server.PostAppendsStampedRecord |
| Server.PostAll | Express/src/server.js:23-38 | definition of successive successful POSTs; see Server.PostAllAppendsInOrder |
| Server.FailedPostLeavesFileUnchanged | Express/src/server.js:26-36 | POST succeeds (201) exactly when the file is readable and parsable and the write succeeds; otherwise: 500 "Error reading file", 500 "Error writing file", or a crash, and the file is unchanged |
| Server.PostAppendsStampedRecord | Express/src/server.js:29-35 | a successful POST answers 201 with the stamped record and stores the old array followed by exactly that record |
| Server.GetAfterPost | Express/src/server.js:15-35 | after a successful POST, GET answers 200 with the old list plus the new record |
| Server.PostAllAppendsInOrder | Express/src/server.js:29-33 | after successive successful POSTs the array is the old one followed by one stamped record per request, in request order |
| Server.PostedIdsAreDistinctIffClocksAre | Express/src/server.js:30 | two appended records have the same `id` exactly when the clock read the same value for both requests |

## Left out

- React rendering, hooks, styling, the resize listener, `fetchProperties` and `handleAdd` in `Home.jsx` are left out. They are presentation or asynchronous UI sequencing over network calls, and they hold no rule to state.
- The axios wrapper `services/api.jsx`, `App.jsx`, the `json-server` back end `backend/server.js` and `vite.config.js` are left out. They are wiring or configuration; `backend/server.js` delegates to a library whose code is not part of this model.
- Numbers are unbounded integers, while JavaScript numbers are doubles. Fractional values, `Infinity`, `-0`, exponent and hexadecimal literals, and floating-point rounding of `sum / length` are not modelled. The average is stated for the exact quotient.
- Integers beyond 2^53 in magnitude lose precision in JavaScript. This affects the price sum of `reduce` and any `Date.now()` value used as an id. The model computes such values exactly, so its results differ from the program's in that range.
- NumberToString: `String(n)` switches to exponent form (`1e+21`) from 10^21 on. The model always writes plain decimal digits, so the map URL text differs from the program's for coordinates that large.
- `Number(...)` of a string accepts only an optional sign followed by decimal digits; other numeric literal forms give NaN here.
- `toLocaleString` price formatting on the card and in the modal is left out. It depends on the locale.
- `toLowerCase` folds only ASCII letters; full Unicode case mapping is not modelled. String lengths count Unicode scalar values, not UTF-16 code units.
- Objects, arrays and symbols are not values of the model, so a record field is never one of them. Objects with a `trim`, `slice` or `toLowerCase` method of their own are left out for the same reason.
- The order of keys in a record is not modelled: records are maps.
- Antd validation is modelled as a condition evaluated on submission. It yields the failing fields; messages and asynchronous validation are left out.
- PropertyForm.PriceInRange: the `InputNumber` `min={0}` is modelled as a submit-time rule requiring a number `>= 0`. The component's own clamping of typed values is left out.
- The toasts are values of the outcome; `console.error` and the `resetFields` callback passed to `onSubmit` are left out.
- Server: requests are handled one at a time here. Concurrent requests and the lost-update race of the read-modify-write are not modelled.
- Server: a failed write leaves the file unchanged; a partial write that corrupts the file is not modelled.
- Server: `JSON.parse` and `JSON.stringify` are modelled by their effect on records: dropping `undefined`, turning NaN into `null`. A data file holding valid JSON that is not an array, and request bodies that are not objects, are left out.
- Server: `Date.now()` and the write outcome are parameters of `Post`. HTTP routing, CORS, body parsing and `app.listen` are left out.
