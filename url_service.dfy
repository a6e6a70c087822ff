/** The alias registry (src/services/urlService.ts): a class holding the records and
    the set of codes ever handed out. The clock, Math.random and the page origin are
    parameters; the URL parser is fixed when the registry is built. */
module Service {
  import opened Types
  import opened Text
  import opened UrlRules

  /** Why a batch was refused: some row failed validation (nothing is committed; like the
      source's `Error('Validation failed')` it carries no detail, the row errors only go to
      the log), or the draw supply of a row ran out before it produced a free code. */
  datatype BatchError = ValidationFailed | NoFreeCode

  class UrlService {
    var shortenedUrls: seq<ShortenedUrl>
    var usedShortCodes: set<string>
    /** `new URL(url)` succeeds. */
    const parsesUrl: string -> bool

    /** Every stored record's code is recorded as used. */
    ghost predicate Valid()
      reads this
    {
      CodesOf(shortenedUrls) <= usedShortCodes
    }

    constructor (parsesUrl: string -> bool)
      ensures Valid()
      ensures shortenedUrls == [] && usedShortCodes == {} && this.parsesUrl == parsesUrl
    {
      shortenedUrls := [];
      usedShortCodes := {};
      this.parsesUrl := parsesUrl;
    }

    /** The do-while of generateShortCode: build six characters, retry while taken.
        Each pass reads six draws; when the supply is spent the result is None. */
    method GenerateShortCode(draws: seq<real>) returns (code: Option<string>)
      requires AreRandomDraws(draws)
      ensures code.Some? ==> IsGeneratedCode(code.value) && code.value !in usedShortCodes
      ensures code.Some? ==>
        exists k :: 0 <= k < Attempts(draws) && code.value == Candidate(draws, k)
          && forall j :: 0 <= j < k ==> Candidate(draws, j) in usedShortCodes
      ensures code.None? <==> forall k :: 0 <= k < Attempts(draws) ==> Candidate(draws, k) in usedShortCodes
    {
      var attempt := 0;
      while attempt < Attempts(draws)
        invariant 0 <= attempt <= Attempts(draws)
        invariant forall j :: 0 <= j < attempt ==> Candidate(draws, j) in usedShortCodes
      {
        var shortCode := "";
        var base := CodeLength * attempt;
        AttemptInSupply(|draws|, attempt);
        ghost var candidate := Candidate(draws, attempt);
        for i := 0 to CodeLength
          invariant shortCode == candidate[..i]
        {
          assert candidate[i] == CharFor(draws[base + i]);
          shortCode := shortCode + [CharFor(draws[base + i])];
        }
        assert shortCode == candidate;
        if shortCode !in usedShortCodes {
          return Some(shortCode);
        }
        attempt := attempt + 1;
      }
      return None;
    }

    /** validateUrlInput: collects every error of one request and changes nothing. */
    method ValidateUrlInput(input: UrlInput) returns (errors: seq<UrlValidationError>)
      ensures errors == InputErrors(input, usedShortCodes, parsesUrl)
    {
      errors := [];
      if IsBlank(input.originalUrl) {
        errors := errors + [UrlValidationError(OriginalUrlField, UrlRequired)];
      } else if !parsesUrl(input.originalUrl) {
        errors := errors + [UrlValidationError(OriginalUrlField, UrlMalformed)];
      }
      if input.validityMinutes.Some? {
        if input.validityMinutes.value <= 0 {
          errors := errors + [UrlValidationError(ValidityField, ValidityInvalid)];
        }
      }
      if IsSet(input.customShortCode) {
        if !ValidateShortCode(input.customShortCode.value) {
          errors := errors + [UrlValidationError(CustomCodeField, CodeMalformed)];
        } else if input.customShortCode.value in usedShortCodes {
          errors := errors + [UrlValidationError(CustomCodeField, CodeInUse)];
        }
      }
    }

    /** shortenUrl: no revalidation; appends one record and records its code. */
    method ShortenUrl(input: UrlInput, now: int, id: string, origin: string, draws: seq<real>)
      returns (r: Option<ShortenedUrl>)
      requires Valid() && AreRandomDraws(draws)
      modifies this
      ensures Valid()
      ensures IsSet(input.customShortCode) ==> r.Some?
      ensures r.None? ==>
        && shortenedUrls == old(shortenedUrls) && usedShortCodes == old(usedShortCodes)
        && forall k :: 0 <= k < Attempts(draws) ==> Candidate(draws, k) in usedShortCodes
      ensures r.Some? ==>
        && shortenedUrls == old(shortenedUrls) + [r.value]
        && usedShortCodes == old(usedShortCodes) + {r.value.shortCode}
        && Realises(input, r.value, id, now, origin)
      ensures r.Some? && !IsSet(input.customShortCode) ==>
        IsGeneratedCode(r.value.shortCode) && r.value.shortCode !in old(usedShortCodes)
    {
      var validityMinutes := EffectiveValidity(input.validityMinutes);
      var shortCode: string;
      if IsSet(input.customShortCode) {
        shortCode := input.customShortCode.value;
      } else {
        var generated := GenerateShortCode(draws);
        if generated.None? {
          return None;
        }
        shortCode := generated.value;
      }
      usedShortCodes := usedShortCodes + {shortCode};
      var expiryTime := now + validityMinutes * MillisPerMinute;
      var shortenedUrl := ShortenedUrl(id, input.originalUrl, shortCode, origin + "/" + shortCode,
        validityMinutes, expiryTime, now);
      shortenedUrls := shortenedUrls + [shortenedUrl];
      return Some(shortenedUrl);
    }

    /** shortenMultipleUrls: validate every row against the code set as it stands, then
        commit the rows in order. */
    method ShortenMultipleUrls(inputs: seq<UrlInput>, now: int, ids: seq<string>, origin: string,
                               draws: seq<seq<real>>)
      returns (r: Result<seq<ShortenedUrl>, BatchError>)
      requires Valid()
      requires |ids| == |inputs| && |draws| == |inputs|
      requires forall i :: 0 <= i < |draws| ==> AreRandomDraws(draws[i])
      modifies this
      ensures Valid() && old(usedShortCodes) <= usedShortCodes
      ensures var errors := BatchErrors(inputs, old(usedShortCodes), parsesUrl);
        errors != [] ==>
          && r == Failure(ValidationFailed)
          && shortenedUrls == old(shortenedUrls) && usedShortCodes == old(usedShortCodes)
      ensures BatchErrors(inputs, old(usedShortCodes), parsesUrl) == [] ==> r.Success? || r == Failure(NoFreeCode)
      ensures r.Success? ==>
        && |r.value| == |inputs|
        && shortenedUrls == old(shortenedUrls) + r.value
        && usedShortCodes == old(usedShortCodes) + CodesOf(r.value)
        && (forall i :: 0 <= i < |inputs| ==> CommittedRow(inputs, r.value, old(usedShortCodes), ids, now, origin, i))
        && forall i :: 0 <= i < |inputs| ==> ValidateShortCode(r.value[i].shortCode)
      ensures r.Success? ==> (CodesUnique(shortenedUrls) <==> old(CodesUnique(shortenedUrls)) && CodesUnique(r.value))
      ensures r.Success? ==>
        (CodesUnique(r.value) <==>
           forall i :: 0 <= i < |inputs| && IsSet(inputs[i].customShortCode) ==> FreshWhenAdded(r.value, {}, i))
      ensures r == Failure(NoFreeCode) ==>
        && old(shortenedUrls) <= shortenedUrls
        && var committed := shortenedUrls[|old(shortenedUrls)|..];
           && |committed| < |inputs| && !IsSet(inputs[|committed|].customShortCode)
           && usedShortCodes == old(usedShortCodes) + CodesOf(committed)
           && (forall i :: 0 <= i < |committed| ==> CommittedRow(inputs, committed, old(usedShortCodes), ids, now, origin, i))
           && forall i :: 0 <= i < |committed| ==> ValidateShortCode(committed[i].shortCode)
    {
      var errors := CollectBatchErrors(inputs);
      if errors != [] {
        return Failure(ValidationFailed);
      }
      BatchErrorsEmptyIff(inputs, usedShortCodes, parsesUrl);
      forall i | 0 <= i < |inputs| ensures Acceptable(inputs[i], usedShortCodes, parsesUrl) {
        InputErrorsEmptyIff(inputs[i], usedShortCodes, parsesUrl);
      }
      var results, complete := CommitInputs(inputs, now, ids, origin, draws);
      CommittedCodesWellFormed(inputs, results, old(usedShortCodes), parsesUrl, ids, now, origin);
      if !complete {
        assert shortenedUrls[|old(shortenedUrls)|..] == results;
        return Failure(NoFreeCode);
      }
      CommittedBatch(old(shortenedUrls), inputs, results, old(usedShortCodes), ids, now, origin);
      return Success(results);
    }

    /** The second pass of shortenMultipleUrls: shortenUrl on every row in order. A row
        whose draws yield no free code stops the pass; the rows before it stay committed. */
    method CommitInputs(inputs: seq<UrlInput>, now: int, ids: seq<string>, origin: string,
                        draws: seq<seq<real>>)
      returns (results: seq<ShortenedUrl>, complete: bool)
      requires Valid()
      requires |ids| == |inputs| && |draws| == |inputs|
      requires forall i :: 0 <= i < |draws| ==> AreRandomDraws(draws[i])
      requires forall i :: 0 <= i < |inputs| ==> Acceptable(inputs[i], usedShortCodes, parsesUrl)
      modifies this
      ensures Valid() && old(usedShortCodes) <= usedShortCodes
      ensures complete ==> |results| == |inputs|
      ensures !complete ==> |results| < |inputs| && !IsSet(inputs[|results|].customShortCode)
      ensures shortenedUrls == old(shortenedUrls) + results
      ensures usedShortCodes == old(usedShortCodes) + CodesOf(results)
      ensures forall i :: 0 <= i < |results| ==>
        CommittedRow(inputs, results, old(usedShortCodes), ids, now, origin, i)
    {
      results := [];
      for index := 0 to |inputs|
        invariant Valid() && old(usedShortCodes) <= usedShortCodes
        invariant |results| == index
        invariant shortenedUrls == old(shortenedUrls) + results
        invariant usedShortCodes == old(usedShortCodes) + CodesOf(results)
        invariant forall i :: 0 <= i < index ==>
          CommittedRow(inputs, results, old(usedShortCodes), ids, now, origin, i)
      {
        var result := ShortenUrl(inputs[index], now, ids[index], origin, draws[index]);
        if result.None? {
          return results, false;
        }
        CommittedRowSnoc(inputs, results, result.value, old(usedShortCodes), ids, now, origin);
        results := results + [result.value];
      }
      return results, true;
    }

    /** The first pass of shortenMultipleUrls: every row's errors, tagged with its index. */
    method CollectBatchErrors(inputs: seq<UrlInput>) returns (errors: seq<UrlValidationError>)
      ensures errors == BatchErrors(inputs, usedShortCodes, parsesUrl)
    {
      ghost var rows := RowErrors(inputs, usedShortCodes, parsesUrl);
      errors := [];
      for index := 0 to |inputs|
        invariant errors == CollectTagged(rows[..index])
      {
        var inputErrors := ValidateUrlInput(inputs[index]);
        for j := 0 to |inputErrors|
          invariant errors == CollectTagged(rows[..index]) + Retagged(inputErrors[..j], index)
        {
          RetaggedSnoc(inputErrors, j, index);
          errors := errors + [Tag(inputErrors[j], index)];
        }
        assert inputErrors[..|inputErrors|] == inputErrors;
        CollectTaggedSnoc(rows, index);
      }
      assert rows[..|inputs|] == rows;
    }

    /** getShortenedUrl: the first record with the code, unless it has expired. */
    method GetShortenedUrl(shortCode: string, now: int) returns (r: Option<ShortenedUrl>)
      ensures r == Lookup(shortenedUrls, shortCode, now)
    {
      var i := 0;
      while i < |shortenedUrls| && shortenedUrls[i].shortCode != shortCode
        invariant 0 <= i <= |shortenedUrls|
        invariant forall j :: 0 <= j < i ==> shortenedUrls[j].shortCode != shortCode
      {
        i := i + 1;
      }
      if i == |shortenedUrls| {
        return None;
      }
      ghost var found := FindByCode(shortenedUrls, shortCode);
      FirstWithCodeUnique(shortenedUrls, shortCode, i, found.value);
      if now > shortenedUrls[i].expiryTime {
        return None;
      }
      return Some(shortenedUrls[i]);
    }

    /** getAllShortenedUrls: drops the expired records from storage and returns the rest,
        newest first. The code set is left as it is. */
    method GetAllShortenedUrls(now: int) returns (r: seq<ShortenedUrl>)
      requires Valid()
      modifies this
      ensures Valid()
      ensures shortenedUrls == Live(old(shortenedUrls), now) && usedShortCodes == old(usedShortCodes)
      ensures r == SortNewestFirst(shortenedUrls)
    {
      var validUrls := Live(shortenedUrls, now);
      shortenedUrls := validUrls;
      r := SortNewestFirst(validUrls);
    }

    /** clearExpiredUrls: drops the expired records; returns nothing, frees no code. */
    method ClearExpiredUrls(now: int)
      requires Valid()
      modifies this
      ensures Valid()
      ensures shortenedUrls == Live(old(shortenedUrls), now) && usedShortCodes == old(usedShortCodes)
    {
      shortenedUrls := Live(shortenedUrls, now);
    }
  }
}
