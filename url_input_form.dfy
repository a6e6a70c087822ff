/** The batch entry form (src/components/UrlInputForm.tsx): a list of one to five input
    rows, the error messages keyed `${field}_${index}`, and the banner message shown when
    a submission fails. React's state setters become field assignments. */
module UrlInputForm {
  import opened Types
  import opened Text
  import opened UrlRules
  import opened Service

  const MaxRows: nat := 5
  const SubmitFailed: string := "Failed to shorten URLs. Please try again."

  /** The row a fresh form starts with and "add" appends. */
  const BlankInput: UrlInput := UrlInput("", Some(DefaultValidityMinutes), None)

  /** One onChange of a row: the field it writes and the value written. */
  datatype FieldUpdate =
    | SetOriginalUrl(url: string)
    | SetValidity(minutes: int)
    | SetCustomCode(code: string)

  function FieldName(update: FieldUpdate): string {
    match update
    case SetOriginalUrl(_) => OriginalUrlField
    case SetValidity(_) => ValidityField
    case SetCustomCode(_) => CustomCodeField
  }

  /** `{ ...input, [field]: value }`: the one field replaced, the others kept. */
  function Updated(input: UrlInput, update: FieldUpdate): (r: UrlInput)
    ensures update.SetOriginalUrl? ==> r.originalUrl == update.url
    ensures update.SetValidity? ==> r.validityMinutes == Some(update.minutes)
    ensures update.SetCustomCode? ==> r.customShortCode == Some(update.code)
    ensures !update.SetOriginalUrl? ==> r.originalUrl == input.originalUrl
    ensures !update.SetValidity? ==> r.validityMinutes == input.validityMinutes
    ensures !update.SetCustomCode? ==> r.customShortCode == input.customShortCode
  {
    match update
    case SetOriginalUrl(url) => input.(originalUrl := url)
    case SetValidity(minutes) => input.(validityMinutes := Some(minutes))
    case SetCustomCode(code) => input.(customShortCode := Some(code))
  }

  /** The value the validity field's onChange stores, `parseInt(text) || 30`, given the
      parse result (None for NaN): the same fallback the registry applies. */
  function ValidityFieldValue(parsed: Option<int>): int {
    EffectiveValidity(parsed)
  }

  /** The stored value is never a falsy number, so the field shows what is stored
      (`input.validityMinutes || 30`) and the registry uses the same value. */
  lemma ValidityFieldShowsStored(parsed: Option<int>)
    ensures ValidityFieldValue(parsed) != 0
    ensures EffectiveValidity(Some(ValidityFieldValue(parsed))) == ValidityFieldValue(parsed)
    ensures parsed.Some? && parsed.value != 0 ==> ValidityFieldValue(parsed) == parsed.value
  {
  }

  /** What the validity field stores is rejected exactly when the typed number is
      negative: an empty, unparsable or zero entry silently becomes 30 minutes. */
  lemma ValidityFieldErrorIff(parsed: Option<int>)
    ensures ValidityErrors(Some(ValidityFieldValue(parsed))) != [] <==> parsed.Some? && parsed.value < 0
  {
  }

  /** `inputs.filter((_, i) => i !== index)`. */
  function RowsWithout(rows: seq<UrlInput>, index: nat): (r: seq<UrlInput>)
    ensures |r| == if index < |rows| then |rows| - 1 else |rows|
  {
    if rows == [] then []
    else
      var last := |rows| - 1;
      RowsWithout(rows[..last], index) + (if last != index then [rows[last]] else [])
  }

  /** The filter keeps the rows before `index` in place and moves the later ones up one. */
  lemma {:induction false} RowsWithoutAt(rows: seq<UrlInput>, index: nat, i: nat)
    requires i < |RowsWithout(rows, index)|
    ensures RowsWithout(rows, index)[i] == if i < index then rows[i] else rows[i + 1]
    decreases |rows|
  {
    var last := |rows| - 1;
    var kept := RowsWithout(rows[..last], index);
    if i < |kept| {
      RowsWithoutAt(rows[..last], index, i);
      if i < index {
        assert rows[..last][i] == rows[i];
      } else {
        assert rows[..last][i + 1] == rows[i + 1];
      }
    }
  }

  /** The error map after removing every key that contains `pattern`. */
  function KeysWithout(m: map<string, string>, pattern: string): map<string, string> {
    map k | k in m && !Contains(k, pattern) :: m[k]
  }

  /** The three error fields carry no underscore, so a key splits into field and index. */
  lemma FieldNamesPlain()
    ensures NoUnderscore(OriginalUrlField) && NoUnderscore(ValidityField) && NoUnderscore(CustomCodeField)
  {
  }

  /** Removing row `index` drops the errors of that row and keeps every other row's
      errors under their old index. Rows after it move up one place while their errors
      stay where they were, so each such message is shown one row below its own row. */
  lemma RemoveKeepsOtherIndices(rows: seq<UrlInput>, m: map<string, string>, field: string, index: nat, i: nat)
    requires NoUnderscore(field) && i < 10 && index < 10
    ensures var key, after := IndexedKey(field, i), KeysWithout(m, "_" + NatToString(index));
      && (key in after <==> key in m && i != index)
      && (key in after ==> after[key] == m[key])
    ensures index < i < |rows| ==> RowsWithout(rows, index)[i - 1] == rows[i]
  {
    IndexedKeyContainsIndex(field, i, index);
    if index < i < |rows| {
      RowsWithoutAt(rows, index, i - 1);
    }
  }

  /** updateUrlInput deletes only the key of the field it writes, in the row it writes. */
  lemma UpdateClearsOneKey(m: map<string, string>, update: FieldUpdate, index: nat, field: string, i: nat)
    requires NoUnderscore(field)
    ensures var key := IndexedKey(field, i);
      key in m - {IndexedKey(FieldName(update), index)} <==> key in m && (field != FieldName(update) || i != index)
  {
    FieldNamesPlain();
    if IndexedKey(field, i) == IndexedKey(FieldName(update), index) {
      IndexedKeyInjective(field, i, FieldName(update), index);
    }
  }

  /** `newErrors[`${error.field}_${index}`] = error.message` for each error of one row, in order. */
  function AddErrors(m: map<string, string>, errs: seq<UrlValidationError>, index: nat): map<string, string>
    decreases |errs|
  {
    if errs == [] then m
    else
      var e := errs[|errs| - 1];
      AddErrors(m, errs[..|errs| - 1], index)[IndexedKey(e.field, index) := e.message]
  }

  /** The error map validateInputs builds from the rows, row by row. */
  function ErrorMapOf(rows: seq<UrlInput>, used: set<string>, parsesUrl: string -> bool): map<string, string>
    decreases |rows|
  {
    if rows == [] then map[]
    else
      var last := |rows| - 1;
      AddErrors(ErrorMapOf(rows[..last], used, parsesUrl), InputErrors(rows[last], used, parsesUrl), last)
  }

  lemma AddErrorsSnoc(m: map<string, string>, errs: seq<UrlValidationError>, index: nat, j: nat)
    requires j < |errs|
    ensures AddErrors(m, errs[..j + 1], index)
         == AddErrors(m, errs[..j], index)[IndexedKey(errs[j].field, index) := errs[j].message]
  {
    assert errs[..j + 1][..j] == errs[..j];
  }

  lemma ErrorMapSnoc(rows: seq<UrlInput>, used: set<string>, parsesUrl: string -> bool, index: nat)
    requires index < |rows|
    ensures ErrorMapOf(rows[..index + 1], used, parsesUrl)
         == AddErrors(ErrorMapOf(rows[..index], used, parsesUrl), InputErrors(rows[index], used, parsesUrl), index)
  {
    assert rows[..index + 1][..index] == rows[..index];
  }

  /** No row reports an error. */
  predicate RowsAcceptable(rows: seq<UrlInput>, used: set<string>, parsesUrl: string -> bool) {
    forall i :: 0 <= i < |rows| ==> InputErrors(rows[i], used, parsesUrl) == []
  }

  lemma RowsAcceptableSnoc(rows: seq<UrlInput>, used: set<string>, parsesUrl: string -> bool, index: nat)
    requires index < |rows|
    ensures RowsAcceptable(rows[..index + 1], used, parsesUrl)
        <==> RowsAcceptable(rows[..index], used, parsesUrl) && InputErrors(rows[index], used, parsesUrl) == []
  {
    assert rows[..index + 1][index] == rows[index];
    assert forall i :: 0 <= i < index ==> rows[..index + 1][i] == rows[..index][i];
  }

  predicate PlainFields(errs: seq<UrlValidationError>) {
    forall j :: 0 <= j < |errs| ==> NoUnderscore(errs[j].field)
  }

  predicate DistinctFields(errs: seq<UrlValidationError>) {
    forall j, k :: 0 <= j < k < |errs| ==> errs[j].field != errs[k].field
  }

  lemma RowErrorsPlain(input: UrlInput, used: set<string>, parsesUrl: string -> bool)
    ensures PlainFields(InputErrors(input, used, parsesUrl))
    ensures DistinctFields(InputErrors(input, used, parsesUrl))
  {
    InputErrorsShape(input, used, parsesUrl);
    FieldNamesPlain();
  }

  /** A key none of the errors writes keeps its presence and its message. */
  lemma {:induction false} AddErrorsKeep(m: map<string, string>, errs: seq<UrlValidationError>, index: nat, k: string)
    requires forall j :: 0 <= j < |errs| ==> k != IndexedKey(errs[j].field, index)
    ensures k in AddErrors(m, errs, index) <==> k in m
    ensures k in m ==> AddErrors(m, errs, index)[k] == m[k]
    decreases |errs|
  {
    if errs != [] {
      AddErrorsKeep(m, errs[..|errs| - 1], index, k);
    }
  }

  /** With distinct fields, each error's key holds that error's message. */
  lemma {:induction false} AddErrorsEntry(m: map<string, string>, errs: seq<UrlValidationError>, index: nat, j: nat)
    requires j < |errs| && PlainFields(errs) && DistinctFields(errs)
    ensures var key := IndexedKey(errs[j].field, index);
      key in AddErrors(m, errs, index) && AddErrors(m, errs, index)[key] == errs[j].message
    decreases |errs|
  {
    var n := |errs| - 1;
    if j < n {
      AddErrorsEntry(m, errs[..n], index, j);
      if IndexedKey(errs[j].field, index) == IndexedKey(errs[n].field, index) {
        IndexedKeyInjective(errs[j].field, index, errs[n].field, index);
      }
    }
  }

  /** A key that was not there before is the key of one of the errors. */
  lemma {:induction false} AddErrorsSource(m: map<string, string>, errs: seq<UrlValidationError>, index: nat, k: string)
    returns (j: nat)
    requires k in AddErrors(m, errs, index) && k !in m
    ensures j < |errs| && k == IndexedKey(errs[j].field, index)
    decreases |errs|
  {
    var n := |errs| - 1;
    if k == IndexedKey(errs[n].field, index) {
      j := n;
    } else {
      j := AddErrorsSource(m, errs[..n], index, k);
    }
  }

  /** Every reported error has its key in the map, holding its message. */
  lemma {:induction false} ErrorMapEntry(rows: seq<UrlInput>, used: set<string>, parsesUrl: string -> bool, i: nat, j: nat)
    requires i < |rows| && j < |InputErrors(rows[i], used, parsesUrl)|
    ensures var e := InputErrors(rows[i], used, parsesUrl)[j];
      var m := ErrorMapOf(rows, used, parsesUrl);
      IndexedKey(e.field, i) in m && m[IndexedKey(e.field, i)] == e.message
    decreases |rows|
  {
    var last := |rows| - 1;
    var errs := InputErrors(rows[last], used, parsesUrl);
    var prefix := ErrorMapOf(rows[..last], used, parsesUrl);
    RowErrorsPlain(rows[last], used, parsesUrl);
    if i == last {
      AddErrorsEntry(prefix, errs, last, j);
    } else {
      assert rows[..last][i] == rows[i];
      ErrorMapEntry(rows[..last], used, parsesUrl, i, j);
      var e := InputErrors(rows[i], used, parsesUrl)[j];
      RowErrorsPlain(rows[i], used, parsesUrl);
      forall q | 0 <= q < |errs| ensures IndexedKey(e.field, i) != IndexedKey(errs[q].field, last) {
        if IndexedKey(e.field, i) == IndexedKey(errs[q].field, last) {
          IndexedKeyInjective(e.field, i, errs[q].field, last);
        }
      }
      AddErrorsKeep(prefix, errs, last, IndexedKey(e.field, i));
    }
  }

  /** Every key in the map is the key of a reported error. */
  lemma {:induction false} ErrorMapSource(rows: seq<UrlInput>, used: set<string>, parsesUrl: string -> bool, k: string)
    returns (i: nat, j: nat)
    requires k in ErrorMapOf(rows, used, parsesUrl)
    ensures i < |rows| && j < |InputErrors(rows[i], used, parsesUrl)|
    ensures k == IndexedKey(InputErrors(rows[i], used, parsesUrl)[j].field, i)
    decreases |rows|
  {
    var last := |rows| - 1;
    var prefix := ErrorMapOf(rows[..last], used, parsesUrl);
    if k in prefix {
      i, j := ErrorMapSource(rows[..last], used, parsesUrl, k);
      assert rows[..last][i] == rows[i];
    } else {
      i := last;
      j := AddErrorsSource(prefix, InputErrors(rows[last], used, parsesUrl), last, k);
    }
  }

  /** The map is empty exactly when no row reports an error. */
  lemma ErrorMapEmptyIff(rows: seq<UrlInput>, used: set<string>, parsesUrl: string -> bool)
    ensures ErrorMapOf(rows, used, parsesUrl) == map[] <==> RowsAcceptable(rows, used, parsesUrl)
  {
    var m := ErrorMapOf(rows, used, parsesUrl);
    if m != map[] {
      var k :| k in m;
      var i, j := ErrorMapSource(rows, used, parsesUrl, k);
    }
    if exists i :: 0 <= i < |rows| && InputErrors(rows[i], used, parsesUrl) != [] {
      var i :| 0 <= i < |rows| && InputErrors(rows[i], used, parsesUrl) != [];
      ErrorMapEntry(rows, used, parsesUrl, i, 0);
    }
  }

  /** The form's map holds, key for key, the errors the registry's batch check reports
      for the same rows: each retagged field names a key holding that message, and
      every key is such a field. */
  lemma ErrorMapMatchesBatch(rows: seq<UrlInput>, used: set<string>, parsesUrl: string -> bool, e: UrlValidationError)
    ensures var m := ErrorMapOf(rows, used, parsesUrl);
      e in BatchErrors(rows, used, parsesUrl) ==> e.field in m && m[e.field] == e.message
    ensures var m := ErrorMapOf(rows, used, parsesUrl);
      e.field in m && m[e.field] == e.message ==> e in BatchErrors(rows, used, parsesUrl)
  {
    var m := ErrorMapOf(rows, used, parsesUrl);
    BatchErrorsExactly(rows, used, parsesUrl, e);
    if e in BatchErrors(rows, used, parsesUrl) {
      var i: nat, err: UrlValidationError :| i < |rows| && err in InputErrors(rows[i], used, parsesUrl) && e == Tag(err, i);
      var errs := InputErrors(rows[i], used, parsesUrl);
      var j :| 0 <= j < |errs| && errs[j] == err;
      ErrorMapEntry(rows, used, parsesUrl, i, j);
    }
    if e.field in m && m[e.field] == e.message {
      var i, j := ErrorMapSource(rows, used, parsesUrl, e.field);
      var err := InputErrors(rows[i], used, parsesUrl)[j];
      ErrorMapEntry(rows, used, parsesUrl, i, j);
      assert e == Tag(err, i);
    }
  }

  /** Fresh keys from distinct fields add one key per error. */
  lemma {:induction false} AddErrorsCount(m: map<string, string>, errs: seq<UrlValidationError>, index: nat)
    requires DistinctFields(errs)
    requires forall j :: 0 <= j < |errs| ==> IndexedKey(errs[j].field, index) !in m
    ensures |AddErrors(m, errs, index).Keys| == |m.Keys| + |errs|
    decreases |errs|
  {
    if errs != [] {
      var n := |errs| - 1;
      var prev := errs[..n];
      AddErrorsCount(m, prev, index);
      var key := IndexedKey(errs[n].field, index);
      AddErrorsKeep(m, prev, index, key);
      assert AddErrors(m, errs, index).Keys == AddErrors(m, prev, index).Keys + {key};
    }
  }

  /** The map has exactly one key per error the batch check reports: no two errors of
      the rows share a key, so none overwrites another. */
  lemma {:induction false} ErrorMapKeyCount(rows: seq<UrlInput>, used: set<string>, parsesUrl: string -> bool)
    ensures |ErrorMapOf(rows, used, parsesUrl).Keys| == |BatchErrors(rows, used, parsesUrl)|
    decreases |rows|
  {
    if rows != [] {
      var last := |rows| - 1;
      var errs := InputErrors(rows[last], used, parsesUrl);
      var prefix := ErrorMapOf(rows[..last], used, parsesUrl);
      ErrorMapKeyCount(rows[..last], used, parsesUrl);
      var re := RowErrors(rows, used, parsesUrl);
      assert re[..last] == RowErrors(rows[..last], used, parsesUrl);
      assert BatchErrors(rows, used, parsesUrl) == BatchErrors(rows[..last], used, parsesUrl) + Retagged(errs, last);
      RowErrorsPlain(rows[last], used, parsesUrl);
      forall q | 0 <= q < |errs| ensures IndexedKey(errs[q].field, last) !in prefix {
        var key := IndexedKey(errs[q].field, last);
        if key in prefix {
          var i, j := ErrorMapSource(rows[..last], used, parsesUrl, key);
          RowErrorsPlain(rows[..last][i], used, parsesUrl);
          IndexedKeyInjective(errs[q].field, last, InputErrors(rows[..last][i], used, parsesUrl)[j].field, i);
        }
      }
      AddErrorsCount(prefix, errs, last);
    }
  }

  /** The form's check and the registry's batch check agree: after a passing
      validateInputs, shortenMultipleUrls finds no error either. */
  lemma FormCheckMatchesBatch(rows: seq<UrlInput>, used: set<string>, parsesUrl: string -> bool)
    ensures RowsAcceptable(rows, used, parsesUrl) <==> BatchErrors(rows, used, parsesUrl) == []
  {
    BatchErrorsEmptyIff(rows, used, parsesUrl);
  }

  class UrlInputForm {
    /** The module-level urlService singleton the form talks to. */
    const service: UrlService
    var urlInputs: seq<UrlInput>
    var errors: map<string, string>
    var generalError: string

    /** The form always shows between one and five rows. */
    ghost predicate Valid()
      reads this, service
    {
      1 <= |urlInputs| <= MaxRows && service.Valid()
    }

    constructor (service: UrlService)
      requires service.Valid()
      ensures Valid() && this.service == service
      ensures urlInputs == [BlankInput] && errors == map[] && generalError == ""
    {
      this.service := service;
      urlInputs := [BlankInput];
      errors := map[];
      generalError := "";
    }

    /** addUrlInput: one more blank row, unless five are shown. */
    method AddUrlInput()
      requires Valid()
      modifies this
      ensures Valid()
      ensures old(|urlInputs|) < MaxRows ==> urlInputs == old(urlInputs) + [BlankInput]
      ensures old(|urlInputs|) >= MaxRows ==> urlInputs == old(urlInputs)
      ensures errors == old(errors) && generalError == old(generalError)
    {
      if |urlInputs| < MaxRows {
        urlInputs := urlInputs + [BlankInput];
      }
    }

    /** removeUrlInput: unless only one row is left, drop the row at `index` and every
        error key that contains `_${index}`. */
    method RemoveUrlInput(index: nat)
      requires Valid()
      modifies this
      ensures Valid()
      ensures old(|urlInputs|) == 1 ==> urlInputs == old(urlInputs) && errors == old(errors)
      ensures old(|urlInputs|) > 1 ==>
        && urlInputs == RowsWithout(old(urlInputs), index)
        && errors == KeysWithout(old(errors), "_" + NatToString(index))
      ensures generalError == old(generalError)
    {
      if |urlInputs| > 1 {
        urlInputs := RowsWithout(urlInputs, index);
        var pattern := "_" + NatToString(index);
        var newErrors := errors;
        var keys := errors.Keys;
        while keys != {}
          invariant keys <= errors.Keys
          invariant forall k :: k in newErrors <==> k in errors && (k in keys || !Contains(k, pattern))
          invariant forall k :: k in newErrors ==> newErrors[k] == errors[k]
          decreases |keys|
        {
          var k :| k in keys;
          if Contains(k, pattern) {
            newErrors := newErrors - {k};
          }
          keys := keys - {k};
        }
        assert newErrors == KeysWithout(errors, pattern);
        errors := newErrors;
      }
    }

    /** updateUrlInput: write one field of one row and clear that field's error there. */
    method UpdateUrlInput(index: nat, update: FieldUpdate)
      requires Valid() && index < |urlInputs|
      modifies this
      ensures Valid()
      ensures urlInputs == old(urlInputs)[index := Updated(old(urlInputs)[index], update)]
      ensures errors == old(errors) - {IndexedKey(FieldName(update), index)}
      ensures generalError == old(generalError)
    {
      urlInputs := urlInputs[index := Updated(urlInputs[index], update)];
      errors := errors - {IndexedKey(FieldName(update), index)};
    }

    /** validateInputs: ask the registry about every row and rebuild the error map. */
    method ValidateInputs() returns (isValid: bool)
      requires Valid()
      modifies this
      ensures Valid()
      ensures urlInputs == old(urlInputs) && generalError == old(generalError)
      ensures errors == ErrorMapOf(urlInputs, service.usedShortCodes, service.parsesUrl)
      ensures isValid == RowsAcceptable(urlInputs, service.usedShortCodes, service.parsesUrl)
      ensures isValid <==> errors == map[]
    {
      var newErrors;
      newErrors, isValid := CollectErrors();
      errors := newErrors;
    }

    /** The loop of validateInputs, before the map is stored. */
    method CollectErrors() returns (newErrors: map<string, string>, isValid: bool)
      ensures newErrors == ErrorMapOf(urlInputs, service.usedShortCodes, service.parsesUrl)
      ensures isValid == RowsAcceptable(urlInputs, service.usedShortCodes, service.parsesUrl)
      ensures isValid <==> newErrors == map[]
    {
      var rows, used, parsesUrl := urlInputs, service.usedShortCodes, service.parsesUrl;
      newErrors := map[];
      isValid := true;
      for index := 0 to |rows|
        invariant newErrors == ErrorMapOf(rows[..index], used, parsesUrl)
        invariant isValid == RowsAcceptable(rows[..index], used, parsesUrl)
      {
        var validationErrors := service.ValidateUrlInput(rows[index]);
        ghost var before := isValid;
        ghost var prefix := newErrors;
        for j := 0 to |validationErrors|
          invariant newErrors == AddErrors(prefix, validationErrors[..j], index)
          invariant isValid == (before && j == 0)
        {
          AddErrorsSnoc(prefix, validationErrors, index, j);
          newErrors := newErrors[IndexedKey(validationErrors[j].field, index) := validationErrors[j].message];
          isValid := false;
        }
        assert validationErrors[..|validationErrors|] == validationErrors;
        ErrorMapSnoc(rows, used, parsesUrl, index);
        RowsAcceptableSnoc(rows, used, parsesUrl, index);
      }
      assert rows[..|rows|] == rows;
      ErrorMapEmptyIff(rows, used, parsesUrl);
    }

    /** handleSubmit: clear the banner, validate, and only when every row passes hand the
        rows to the registry; on success reset to one blank row, on failure show the banner. */
    method HandleSubmit(now: int, ids: seq<string>, origin: string, draws: seq<seq<real>>)
      returns (shortened: Option<seq<ShortenedUrl>>)
      requires Valid()
      requires |ids| == |urlInputs| && |draws| == |urlInputs|
      requires forall i :: 0 <= i < |draws| ==> AreRandomDraws(draws[i])
      modifies this, service
      ensures Valid() && old(service.usedShortCodes) <= service.usedShortCodes
      ensures var rows, used := old(urlInputs), old(service.usedShortCodes);
        !RowsAcceptable(rows, used, service.parsesUrl) ==>
          && shortened.None? && generalError == ""
          && urlInputs == rows && errors == ErrorMapOf(rows, used, service.parsesUrl)
          && service.shortenedUrls == old(service.shortenedUrls) && service.usedShortCodes == used
      ensures var rows, used := old(urlInputs), old(service.usedShortCodes);
        shortened.Some? ==>
          && RowsAcceptable(rows, used, service.parsesUrl)
          && urlInputs == [BlankInput] && errors == map[] && generalError == ""
          && |shortened.value| == |rows|
          && service.shortenedUrls == old(service.shortenedUrls) + shortened.value
          && service.usedShortCodes == used + CodesOf(shortened.value)
          && (forall i :: 0 <= i < |rows| ==> ValidateShortCode(shortened.value[i].shortCode))
          && forall i :: 0 <= i < |rows| ==> CommittedRow(rows, shortened.value, used, ids, now, origin, i)
      ensures var rows, used := old(urlInputs), old(service.usedShortCodes);
        shortened.None? && RowsAcceptable(rows, used, service.parsesUrl) ==>
          && generalError == SubmitFailed && urlInputs == rows && errors == map[]
          && old(service.shortenedUrls) <= service.shortenedUrls
          && var committed := service.shortenedUrls[|old(service.shortenedUrls)|..];
             && |committed| < |rows| && !IsSet(rows[|committed|].customShortCode)
             && service.usedShortCodes == used + CodesOf(committed)
             && forall i :: 0 <= i < |committed| ==> CommittedRow(rows, committed, used, ids, now, origin, i)
    {
      generalError := "";
      var isValid := ValidateInputs();
      if !isValid {
        return None;
      }
      FormCheckMatchesBatch(urlInputs, service.usedShortCodes, service.parsesUrl);
      var r := service.ShortenMultipleUrls(urlInputs, now, ids, origin, draws);
      if r.Success? {
        urlInputs := [BlankInput];
        errors := map[];
        return Some(r.value);
      }
      generalError := SubmitFailed;
      return None;
    }
  }
}
