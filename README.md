# URL shortener core in Dafny

This project models the in-browser URL shortener's alias registry (`urlService`), the
form that submits batches of up to five requests to it, and the expiry arithmetic of the
statistics view. It proves properties of that model.

- `types.dfy`, module `Types`: the records (`ShortenedUrl`, `UrlInput`, `UrlValidationError`)
  and the `Option`/`Result` wrappers.
- `text.dfy`, module `Text` covers string helpers:
  - the whitespace test behind `trim()`;
  - `includes`;
  - decimal rendering of numbers;
  - the `${field}_${index}` error keys and their injectivity.
- `url_rules.dfy`, module `UrlRules` holds the pure rules of the registry:
  - the short-code format;
  - the candidate codes built from random draws;
  - per-request validation and batch validation;
  - what a created record looks like;
  - the expiry filter;
  - lookup by code;
  - the newest-first listing order.
- `url_service.dfy`, module `Service`: class `UrlService` holds `shortenedUrls` (a `seq`)
  and `usedShortCodes` (a `set`). Its methods update those fields as the source does and
  are proved against the rules above.
- `url_statistics.dfy`, module `UrlStatistics`: `getTimeRemaining`, `isExpired` and the
  valid/expired partition of the statistics view.
- `url_input_form.dfy`, module `UrlInputForm`: class `UrlInputForm` holds the row list
  (`seq`), the error map (`map`) and the banner text. Its methods are
  add/remove/update/validate/submit, proved against the error-map function `ErrorMapOf`.

## Modelling choices

These are the environment and where the model follows the code.

- **Parameters for the environment:**
  - the clock is a parameter `now` in milliseconds. One call reads one instant, so the
    records of one batch share it;
  - `Math.random()` is a sequence of draws in `[0, 1)`;
  - the record id is a parameter, as is `window.location.origin`;
  - `new URL()` is the registry's fixed predicate `parsesUrl`.
- **Finite draw supply:** the model reads six draws per candidate code. When the supply is
  spent, generation yields `None` and the batch yields `NoFreeCode`; the source would
  simply keep drawing.
- **Purge keeps codes:** purging expired records never removes their codes from
  `usedShortCodes` (src/services/urlService.ts:160 and :167 reassign only the record
  list), so an expired alias is never handed out again.
- **No revalidation on create:** `shortenUrl` does not revalidate its input
  (src/services/urlService.ts:69-79 goes straight to building the record). Only
  `shortenMultipleUrls` validates, and every row is checked against the code set as it
  was before the batch. Two rows with the same free custom code therefore both pass and
  share a code (`UrlRules.TwinCustomCodesAccepted`). A generated code, in contrast, is
  drawn against the code set as it stands, so it differs from the codes of the batch's
  earlier rows (`UrlRules.BatchCodesUnique`).
- **Validation failure carries no detail:** the batch fails with `ValidationFailed`, as
  the source throws `Error('Validation failed')`; the retagged row errors only reach the
  log, and the form recomputes them on its own.
- **Mid-batch failure keeps earlier records:** when generation fails partway through a
  batch, the rows already committed stay committed, as in the source, which rethrows
  without rolling back.
- **Live until the expiry instant:** a record is live while `now <= expiryTime`. The
  statistics view calls it expired only when `now > expiryTime`, so at the expiry instant
  its chip reads "Expired left" (`UrlStatistics.ExpiryInstantLabel`).

## Model

| member | source | states |
|---|---|---|
| `Text.IsBlank` | src/services/urlService.ts:41 | `!url.trim()`: every character is whitespace; `UrlRules.OriginalUrlErrors` states its effect on validation |
| `Text.Contains` | src/components/UrlInputForm.tsx:40 | `key.includes(sub)`: `sub` occurs at some position; `Text.IndexedKeyContainsIndex` states what it selects |
| `Text.IndexedKey` | src/services/urlService.ts:115 | the key is the field, an underscore, then the index's decimal digits; `Text.IndexedKeyInjective` states that it determines both |
| `Text.NatToString` | src/services/urlService.ts:115 | the decimal rendering of an index is non-empty, all digits, and one digit long exactly for numbers below ten |
| `Text.NatToStringValue` | src/services/urlService.ts:115 | reading the rendered digits back as a decimal number gives the rendered number |
| `Text.NatToStringInjective` | src/services/urlService.ts:115 | distinct indices render as distinct strings |
| `Text.IndexedKeyInjective` | src/services/urlService.ts:115 | a key `${field}_${index}` determines its field and its index when field names have no underscore |
| `Text.IndexedKeyContainsIndex` | src/components/UrlInputForm.tsx:39-43 | for single-digit indices, a key contains `_${index}` exactly when it is a key of that index |
| `UrlRules.ValidateShortCode` | src/services/urlService.ts:31-35 | a code is accepted iff it has 3 to 20 characters, each a letter, digit or hyphen |
| `UrlRules.CharFor` | src/services/urlService.ts:15 | a draw selects a character of the 62-symbol alphabet |
| `UrlRules.Candidate` | src/services/urlService.ts:12-16 | each attempt builds a six-character code from the alphabet |
| `UrlRules.AlphabetIsCodeChars` | src/services/urlService.ts:9 | every symbol of the 62-symbol alphabet is a letter or a digit |
| `UrlRules.GeneratedCodeIsWellFormed` | src/services/urlService.ts:8-20 | a generated code, six alphabet symbols, would itself pass the custom-code format check |
| `UrlRules.InputErrors` | src/services/urlService.ts:37-67 | the three field checks of `validateUrlInput` in order; the lemmas below state what the list holds |
| `UrlRules.InputFieldErrors` | src/services/urlService.ts:37-67 | the errors of a request are, field by field, the URL, validity and custom-code errors, in that order |
| `UrlRules.InputErrorsEmptyIff` | src/services/urlService.ts:37-67 | a request has no error iff its URL is non-blank and parses, its validity is absent or positive, and a set custom code is well formed and unused |
| `UrlRules.InputErrorsShape` | src/services/urlService.ts:37-67 | at most three errors, each on one of the three fields, no field twice |
| `UrlRules.OriginalUrlErrors` | src/services/urlService.ts:40-45 | a blank URL gives exactly "required" and is never parsed; otherwise "malformed" appears iff the URL does not parse |
| `UrlRules.ValidityFieldErrors` | src/services/urlService.ts:47-52 | the validity error appears iff a validity is given and is not positive |
| `UrlRules.CustomCodeFieldErrors` | src/services/urlService.ts:54-64 | an unset or empty code gives no error and the code set is not consulted; a malformed code gets only the format error; a well-formed code gets the in-use error iff it is in the set |
| `UrlRules.Tag` | src/services/urlService.ts:115 | the spread-and-override retagging: the message is kept and the field becomes the key `${field}_${index}` |
| `UrlRules.BatchErrors` | src/services/urlService.ts:111-117 | the first pass of `shortenMultipleUrls`: every row's errors against the code set as it stands, in row order, each retagged with its index; `BatchErrorsEmptyIff` and `BatchErrorsExactly` state what it holds |
| `UrlRules.BatchErrorsEmptyIff` | src/services/urlService.ts:111-122 | a batch reports no error iff every row passes on its own |
| `UrlRules.BatchErrorsExactly` | src/services/urlService.ts:111-117 | the batch errors are exactly the rows' errors, each with its field retagged `${field}_${index}` |
| `UrlRules.TwinCustomCodesAccepted` | src/services/urlService.ts:111-133 | two rows with the same free custom code both pass, and their records share the code |
| `UrlRules.EffectiveValidity` | src/services/urlService.ts:72 | the fallback of `validityMinutes` to 30: an absent or zero validity becomes 30, any other value is kept |
| `UrlRules.Realises` | src/services/urlService.ts:72-92 | the record `shortenUrl` builds: the request's URL, the effective validity, `createdAt == now`, `expiryTime == now + minutes*60000`, the short URL `origin/code`, and the custom code when one is set; `Service.UrlService.ShortenUrl` ensures it |
| `UrlRules.IsLive` | src/services/urlService.ts:157 | a record is live up to and including its expiry instant; `UrlRules.Lookup` and `UrlRules.Live` are stated with it |
| `UrlRules.Live` | src/services/urlService.ts:157 | the filter keeps exactly the records with `now <= expiryTime` |
| `UrlRules.LiveAppend` | src/services/urlService.ts:167 | the filter works record by record and keeps the order |
| `UrlRules.LiveIdempotent` | src/services/urlService.ts:165-167 | purging twice at the same instant equals purging once |
| `UrlRules.LiveLater` | src/services/urlService.ts:155-167 | purging at `now` and then at a later instant equals purging at the later instant |
| `UrlRules.AppendFreshCodes` | src/services/urlService.ts:125-133 | appending records with codes new to the store keeps codes unique iff the appended ones are unique among themselves |
| `UrlRules.CodesUniqueIffFreshPrefix` | src/services/urlService.ts:17 | a record list has unique codes iff each record's code is carried by no record before it |
| `UrlRules.BatchCodesUnique` | src/services/urlService.ts:124-133 | when every generated code was free at its commit, the batch's codes are unique iff no custom code repeats an earlier row's code; a batch with no custom code always has unique codes |
| `UrlRules.CommittedBatch` | src/services/urlService.ts:124-133 | for a batch whose every row was committed as `shortenUrl` does it (record built from the row, code not in the old set, a generated code also new to the earlier rows): no code was in use before, and the store keeps unique codes iff it had them and the batch has them |
| `UrlRules.CommittedCodesWellFormed` | src/services/urlService.ts:124-133 | in a batch whose rows all passed validation and were committed, every code, custom or generated, has the accepted format |
| `UrlRules.FindByCode` | src/services/urlService.ts:140 | `find` returns the first position carrying the code, or nothing iff no record carries it |
| `UrlRules.Lookup` | src/services/urlService.ts:139-153 | a lookup returns the first record with the code if it is live, and nothing otherwise |
| `UrlRules.LookupFreshRecord` | src/services/urlService.ts:139-153 | a record stored under a new code resolves to itself exactly while it is live |
| `UrlRules.LookupAfterAppend` | src/services/urlService.ts:140 | appending records never changes what an existing code resolves to |
| `UrlRules.LookupStaysExpired` | src/services/urlService.ts:143-146 | once a lookup fails it keeps failing as time advances |
| `UrlRules.LookupAfterPurge` | src/services/urlService.ts:160 | with unique codes, purging does not change any lookup at the same instant |
| `UrlRules.PurgeCanExposeDuplicate` | src/services/urlService.ts:160 | with a duplicated code, an expired first record hides a live one until a purge removes it |
| `UrlRules.InsertNewestFirst` | src/services/urlService.ts:162 | inserting adds exactly that record to the multiset |
| `UrlRules.InsertKeepsNewestFirst` | src/services/urlService.ts:162 | inserting into a newest-first list keeps it newest first |
| `UrlRules.SortNewestFirst` | src/services/urlService.ts:162 | the listing is ordered by `createdAt` descending and is a permutation of the records |
| `Service.UrlService.constructor` | src/services/urlService.ts:4-6 | the registry starts with no records and no used codes |
| `Service.UrlService.GenerateShortCode` | src/services/urlService.ts:8-20 | returns the first candidate not in use, which is six alphabet characters long; returns nothing iff every candidate is in use |
| `Service.UrlService.ValidateUrlInput` | src/services/urlService.ts:37-67 | returns exactly the request's errors against the current code set and changes nothing |
| `Service.UrlService.ShortenUrl` | src/services/urlService.ts:69-103 | appends one record built from the request (default validity 30, expiry `now + minutes*60000`, custom code if set) and adds its code; a generated code was unused; nothing is revalidated |
| `Service.UrlService.ShortenMultipleUrls` | src/services/urlService.ts:105-137 | any row error fails the batch with `ValidationFailed` and changes nothing; otherwise all rows are committed in order, each code new to the set from before the batch, each generated code six alphabet symbols and also new to the earlier rows' codes, and every code passing `ValidateShortCode`, so the batch's codes are unique iff no custom code repeats an earlier row's; or generation runs out partway, and the rows before the failing one stay committed, with the code set grown by exactly their codes, each of the accepted format; the code set never shrinks |
| `Service.UrlService.CollectBatchErrors` | src/services/urlService.ts:111-117 | the first pass produces exactly the batch errors |
| `Service.UrlService.CommitInputs` | src/services/urlService.ts:124-133 | the second pass commits rows in order; the store grows by exactly the committed records and the code set by exactly their codes; each generated code is six alphabet symbols, free of the old set and of every earlier row's code |
| `Service.UrlService.GetShortenedUrl` | src/services/urlService.ts:139-153 | the result is the lookup of the code at `now` |
| `Service.UrlService.GetAllShortenedUrls` | src/services/urlService.ts:155-163 | stores only the live records, keeps the code set, and returns the live records newest first |
| `Service.UrlService.ClearExpiredUrls` | src/services/urlService.ts:165-176 | stores only the live records, keeps the code set, returns nothing |
| `UrlStatistics.GetTimeRemaining` | src/components/UrlStatistics.tsx:67-86 | the remaining-time text; its meaning is stated by `TimeRemainingExpiredIff`, `TimeRemainingUnits` and `UnderOneMinute` |
| `UrlStatistics.IsExpired` | src/components/UrlStatistics.tsx:88-90 | strictly after the expiry instant; `IsExpiredMatchesRegistry` relates it to the registry |
| `UrlStatistics.GetValidUrls` | src/components/UrlStatistics.tsx:92-94 | the records not expired, in order; `ValidUrlsAreLive` equates it with the registry's filter |
| `UrlStatistics.GetExpiredUrls` | src/components/UrlStatistics.tsx:96-98 | the expired records, in order; `ValidExpiredPartition` relates it to the valid list |
| `UrlStatistics.StatusLabel` | src/components/UrlStatistics.tsx:192-204 | "Expired" for an expired record, otherwise the remaining time followed by " left"; `ExpiryInstantLabel` states the expiry-instant case |
| `UrlStatistics.IsExpiredMatchesRegistry` | src/components/UrlStatistics.tsx:88-90 | the view's "expired" is the negation of the registry's "live" |
| `UrlStatistics.NestedFloors` | src/components/UrlStatistics.tsx:75-77 | flooring by minutes, then 60, then 24 equals flooring by hours and by days |
| `UrlStatistics.TimeRemainingExpiredIff` | src/components/UrlStatistics.tsx:67-73 | the text is "Expired" iff no time is left, zero included |
| `UrlStatistics.TimeRemainingUnits` | src/components/UrlStatistics.tsx:75-85 | the largest fitting unit of day, hour and minute is used, with the whole count and an "s" iff the count exceeds one |
| `UrlStatistics.UnderOneMinute` | src/components/UrlStatistics.tsx:83-85 | under one minute left the text is "0 minute" |
| `UrlStatistics.ExpiryInstantLabel` | src/components/UrlStatistics.tsx:192-200 | at the expiry instant the record is not expired and its chip reads "Expired left" |
| `UrlStatistics.ValidUrlsAreLive` | src/components/UrlStatistics.tsx:92-94 | the valid list is the registry's live filter |
| `UrlStatistics.ValidExpiredPartition` | src/components/UrlStatistics.tsx:92-98 | every record lands in exactly one of the two lists; lengths and multisets add up |
| `UrlStatistics.FiltersAppend` | src/components/UrlStatistics.tsx:92-98 | both lists keep the records' relative order |
| `UrlInputForm.Updated` | src/components/UrlInputForm.tsx:50 | an update writes one field of a row and keeps the other two |
| `UrlInputForm.ValidityFieldValue` | src/components/UrlInputForm.tsx:130 | the field stores the registry's own fallback, `EffectiveValidity`: a failed or zero parse stores 30, any other parse is stored as given; the two lemmas below state its effect |
| `UrlInputForm.ValidityFieldShowsStored` | src/components/UrlInputForm.tsx:129-130 | the stored validity is never 0, the field shows what is stored, and a non-zero parse is stored as given |
| `UrlInputForm.ValidityFieldErrorIff` | src/components/UrlInputForm.tsx:130 | what the field stores is rejected iff the typed number is negative; blank, NaN and 0 become 30 |
| `UrlInputForm.RowsWithout` | src/components/UrlInputForm.tsx:36 | the filter removes one row iff the index is in range |
| `UrlInputForm.RowsWithoutAt` | src/components/UrlInputForm.tsx:36 | rows before the index stay in place and later rows move up by one |
| `UrlInputForm.KeysWithout` | src/components/UrlInputForm.tsx:38-43 | the error map without every key that contains the pattern; `RemoveKeepsOtherIndices` states which keys that is |
| `UrlInputForm.RemoveKeepsOtherIndices` | src/components/UrlInputForm.tsx:34-46 | the removed row's keys go, all other keys keep their old index and message, while later rows move up, so their messages now sit one row below |
| `UrlInputForm.UpdateClearsOneKey` | src/components/UrlInputForm.tsx:52-54 | an update deletes only the key of the written field in the written row |
| `UrlInputForm.ErrorMapOf` | src/components/UrlInputForm.tsx:58-67 | the map the validation loops build, row by row and error by error; the lemmas below state its contents |
| `UrlInputForm.ErrorMapEntry` | src/components/UrlInputForm.tsx:61-67 | every error of every row has its key in the map, holding its message |
| `UrlInputForm.ErrorMapSource` | src/components/UrlInputForm.tsx:61-67 | every key in the map is the key of some row's error |
| `UrlInputForm.ErrorMapEmptyIff` | src/components/UrlInputForm.tsx:57-71 | the map is empty iff no row has an error |
| `UrlInputForm.ErrorMapMatchesBatch` | src/components/UrlInputForm.tsx:61-67 | the map holds exactly the registry's retagged batch errors, key to message |
| `UrlInputForm.ErrorMapKeyCount` | src/components/UrlInputForm.tsx:61-67 | the map has exactly one key per reported error |
| `UrlInputForm.FormCheckMatchesBatch` | src/components/UrlInputForm.tsx:79-84 | the form's check passes iff the registry's batch check finds no error |
| `UrlInputForm.UrlInputForm.constructor` | src/components/UrlInputForm.tsx:21-26 | the form starts with one blank row of validity 30, no errors and no banner |
| `UrlInputForm.UrlInputForm.AddUrlInput` | src/components/UrlInputForm.tsx:28-32 | appends a blank row iff there are fewer than five; the count stays within 1..5 |
| `UrlInputForm.UrlInputForm.RemoveUrlInput` | src/components/UrlInputForm.tsx:34-46 | with one row nothing changes; otherwise the row at the index and every key containing `_${index}` are removed, the rest kept; the count stays within 1..5 |
| `UrlInputForm.UrlInputForm.UpdateUrlInput` | src/components/UrlInputForm.tsx:48-55 | writes one field of one row and deletes exactly that field's key for that row |
| `UrlInputForm.UrlInputForm.ValidateInputs` | src/components/UrlInputForm.tsx:57-71 | replaces the error map by the one built from every row's errors; returns true iff no row has an error, iff the map is empty |
| `UrlInputForm.UrlInputForm.CollectErrors` | src/components/UrlInputForm.tsx:58-67 | the validation loop builds exactly that map and validity flag |
| `UrlInputForm.UrlInputForm.HandleSubmit` | src/components/UrlInputForm.tsx:73-93 | clears the banner, and the registry's code set never shrinks. If a row fails, only the error map changes and nothing is registered. On success the rows' records are appended and the code set grows by exactly their codes, each code new to the set from before the submit, each generated code also new to the earlier rows' codes, and every code of the accepted format; the form resets to one blank row. If registration fails, the banner shows the failure text, the rows before the failing one stay registered, and the code set grows by exactly their codes |

## Left out

- URL parsing (`new URL`) is the opaque predicate `parsesUrl`, fixed when the registry is built; its grammar is not modelled.
- `Math.random`, the clock and `window.location.origin` are parameters. The record id's format (`Date.now()` followed by a base-36 random suffix) is a parameter too, so id uniqueness is not modelled.
- `Service.UrlService.GenerateShortCode`: reads a finite supply of draws. Where the source would retry forever, the model returns `None`, and the batch then reports `NoFreeCode`; the retry loop itself has no cap in either.
- Every method reads the clock once per call, whereas the source calls `new Date()` for each record inside the filters.
- JavaScript number semantics: `validityMinutes` is an optional integer, so NaN, non-integers and `Number.isInteger` are out of scope, and `parseInt` is taken as a given parse result.
- JavaScript `Date` values: times are unbounded integers, whereas a `Date` clips its time value to ±8.64·10^15 ms. A validity above about 1.44·10^11 minutes passes validation, but `new Date(...)` at src/services/urlService.ts:82 then yields an Invalid Date. The source would keep serving such a record from `getShortenedUrl`, because `new Date() > Invalid Date` is false (:143), and both purges would delete it at once, because `<=` is false too (:157, :167). The model keeps the record live on every path, so `UrlRules.LookupAfterPurge`, `UrlRules.Lookup`, `UrlRules.Live` and `UrlStatistics.ValidUrlsAreLive` describe the source only for expiry times inside the `Date` range. The statistics view never holds such a record, because it loads only what `clearExpiredUrls` and `getAllShortenedUrls` keep (src/components/UrlStatistics.tsx:32-36). The results view, which shows the batch just created, would render it as not expired, reading "NaN minute remaining" (src/components/UrlResults.tsx:114, :122). Below that range every quantity is an integer under 2^53, so floating-point rounding does not arise either.
- `UrlRules.LookupAfterPurge`: holds of the source only while every expiry time lies inside the `Date` range; for a record beyond it the source's lookup and purge disagree, as the line above describes.
- `trim()` strips a fixed set of whitespace characters, not the full Unicode list.
- The logger (src/services/logger.ts) has no effect on state and is left out.
- React rendering, `useEffect`, the 60-second refresh timer, `loadUrls`' try/catch, clipboard, `window.open` and `toLocaleString` are left out.
- `isSubmitting` is left out, because `handleSubmit` sets it and always resets it.
- `App.tsx` is not modelled. `UrlResults.tsx` repeats the statistics helpers already modelled.
- `UrlRules.SortNewestFirst`: sortedness and permutation are proved, and the insertion places a record before its equals, but stability is not stated as a lemma.
- `UrlInputForm.UrlInputForm.HandleSubmit`: the callback `onUrlsShortened` is the returned value.
- `UrlInputForm.RemoveKeepsOtherIndices`: the `_${index}` key test is proved only for indices below ten, which covers the five-row limit; for larger indices `_1` would also match `_10`.
