/** The rules the alias registry applies (src/services/urlService.ts), stated as
    functions of the registry's state: code format and code generation, request
    validation, batch validation, the expiry filter, lookup by code and the
    newest-first listing order. The class in url_service.dfy is proved against
    these definitions. */
module UrlRules {
  import opened Types
  import opened Text

  const Chars: string := "ABCDEFGHIJKLMNOPQRSTUVWXYZabcdefghijklmnopqrstuvwxyz0123456789"
  const CodeLength: nat := 6
  const MinCodeLength: nat := 3
  const MaxCodeLength: nat := 20
  const DefaultValidityMinutes: int := 30
  const MillisPerMinute: int := 60 * 1000

  const OriginalUrlField: string := "originalUrl"
  const ValidityField: string := "validityMinutes"
  const CustomCodeField: string := "customShortCode"

  const UrlRequired: string := "Original URL is required"
  const UrlMalformed: string := "Please enter a valid URL"
  const ValidityInvalid: string := "Validity must be a positive integer"
  const CodeMalformed: string :=
    "Short code must be 3-20 characters long and contain only letters, numbers, and hyphens"
  const CodeInUse: string := "This short code is already in use"

  // ---------------------------------------------------------------------------
  // Code format: the regular expression ^[a-zA-Z0-9-]{3,20}$

  /** One character of the class `[a-zA-Z0-9-]`. */
  predicate IsCodeChar(c: char) {
    'a' <= c <= 'z' || 'A' <= c <= 'Z' || '0' <= c <= '9' || c == '-'
  }

  /** How far the character class matches from the start of `s`. */
  function ClassRun(s: string): (n: nat)
    ensures n <= |s|
    ensures forall i :: 0 <= i < n ==> IsCodeChar(s[i])
    ensures n < |s| ==> !IsCodeChar(s[n])
  {
    if s == [] || !IsCodeChar(s[0]) then 0 else 1 + ClassRun(s[1..])
  }

  /** The anchored match: the class covers the whole string, whose length is 3..20. */
  predicate ValidateShortCode(code: string)
    ensures ValidateShortCode(code) <==>
      MinCodeLength <= |code| <= MaxCodeLength && forall i :: 0 <= i < |code| ==> IsCodeChar(code[i])
  {
    var n := ClassRun(code);
    n == |code| && MinCodeLength <= n <= MaxCodeLength
  }

  // ---------------------------------------------------------------------------
  // Code generation from a supply of Math.random() values

  predicate IsRandomDraw(r: real) {
    0.0 <= r < 1.0
  }

  predicate AreRandomDraws(draws: seq<real>) {
    forall i :: 0 <= i < |draws| ==> IsRandomDraw(draws[i])
  }

  /** `chars.charAt(Math.floor(r * chars.length))`. */
  function CharFor(r: real): (c: char)
    requires IsRandomDraw(r)
    ensures c in Chars
  {
    var k := (r * |Chars| as real).Floor;
    assert 0 <= k < |Chars|;
    Chars[k]
  }

  /** The number of complete passes of the do-while loop the supply pays for. */
  function Attempts(draws: seq<real>): nat {
    |draws| / CodeLength
  }

  /** A string the generator can produce: six symbols of the 62-symbol alphabet. */
  predicate IsGeneratedCode(code: string) {
    |code| == CodeLength && forall i :: 0 <= i < |code| ==> code[i] in Chars
  }

  /** Pass `k`'s six draws lie inside the supply. */
  lemma AttemptInSupply(n: nat, k: nat)
    requires k < n / CodeLength
    ensures CodeLength * k + CodeLength <= n
  {
  }

  /** The code built by pass `k` of the do-while loop, from draws 6k .. 6k+5. */
  function Candidate(draws: seq<real>, k: nat): (code: string)
    requires AreRandomDraws(draws) && k < Attempts(draws)
    ensures IsGeneratedCode(code)
  {
    var base := CodeLength * k;
    AttemptInSupply(|draws|, k);
    var code := seq(CodeLength, i requires 0 <= i < CodeLength => CharFor(draws[base + i]));
    assert forall i :: 0 <= i < |code| ==> code[i] == CharFor(draws[base + i]);
    code
  }

  /** Every symbol of the alphabet is a letter or a digit. The literal of its first thirty
      symbols gives the solver a nearer point from which to read the early positions. */
  lemma AlphabetIsCodeChars(i: int)
    requires 0 <= i < |Chars|
    ensures IsCodeChar(Chars[i])
  {
    var front := "ABCDEFGHIJKLMNOPQRSTUVWXYZabcd";
    if i < |front| {
      assert Chars[i] == front[i];
    }
  }

  /** A generated code would itself pass the custom-code format check. */
  lemma GeneratedCodeIsWellFormed(code: string)
    requires IsGeneratedCode(code)
    ensures ValidateShortCode(code)
  {
    forall i | 0 <= i < |code| ensures IsCodeChar(code[i]) {
      var k :| 0 <= k < |Chars| && Chars[k] == code[i];
      AlphabetIsCodeChars(k);
    }
  }

  // ---------------------------------------------------------------------------
  // Validation of one request (validateUrlInput)

  /** `if (input.customShortCode)`: present and not the empty string. */
  predicate IsSet(code: Option<string>) {
    code.Some? && code.value != ""
  }

  function UrlErrors(url: string, parsesUrl: string -> bool): seq<UrlValidationError> {
    if IsBlank(url) then [UrlValidationError(OriginalUrlField, UrlRequired)]
    else if !parsesUrl(url) then [UrlValidationError(OriginalUrlField, UrlMalformed)]
    else []
  }

  function ValidityErrors(validity: Option<int>): seq<UrlValidationError> {
    if validity.Some? && validity.value <= 0 then [UrlValidationError(ValidityField, ValidityInvalid)]
    else []
  }

  function CodeErrors(code: Option<string>, used: set<string>): seq<UrlValidationError> {
    if !IsSet(code) then []
    else if !ValidateShortCode(code.value) then [UrlValidationError(CustomCodeField, CodeMalformed)]
    else if code.value in used then [UrlValidationError(CustomCodeField, CodeInUse)]
    else []
  }

  /** Every error found in one request, URL first, then validity, then custom code. */
  function InputErrors(input: UrlInput, used: set<string>, parsesUrl: string -> bool): seq<UrlValidationError> {
    UrlErrors(input.originalUrl, parsesUrl) + ValidityErrors(input.validityMinutes)
      + CodeErrors(input.customShortCode, used)
  }

  /** The errors of `errs` that concern `field`, in order. */
  function FieldErrors(errs: seq<UrlValidationError>, field: string): seq<UrlValidationError> {
    if errs == [] then []
    else (if errs[0].field == field then [errs[0]] else []) + FieldErrors(errs[1..], field)
  }

  lemma {:induction false} FieldErrorsAppend(a: seq<UrlValidationError>, b: seq<UrlValidationError>, field: string)
    ensures FieldErrors(a + b, field) == FieldErrors(a, field) + FieldErrors(b, field)
  {
    if a == [] {
      assert a + b == b;
    } else {
      assert (a + b)[0] == a[0] && (a + b)[1..] == a[1..] + b;
      FieldErrorsAppend(a[1..], b, field);
    }
  }

  predicate AllOnField(errs: seq<UrlValidationError>, field: string) {
    forall j :: 0 <= j < |errs| ==> errs[j].field == field
  }

  lemma {:induction false} FieldErrorsOwn(errs: seq<UrlValidationError>, field: string)
    requires AllOnField(errs, field)
    ensures FieldErrors(errs, field) == errs
  {
    if errs != [] {
      FieldErrorsOwn(errs[1..], field);
    }
  }

  lemma {:induction false} FieldErrorsOther(errs: seq<UrlValidationError>, field: string, other: string)
    requires AllOnField(errs, other) && other != field
    ensures FieldErrors(errs, field) == []
  {
    if errs != [] {
      FieldErrorsOther(errs[1..], field, other);
    }
  }

  /** The field-by-field view of one request's errors. */
  lemma InputFieldErrors(input: UrlInput, used: set<string>, parsesUrl: string -> bool)
    ensures var errs := InputErrors(input, used, parsesUrl);
      && FieldErrors(errs, OriginalUrlField) == UrlErrors(input.originalUrl, parsesUrl)
      && FieldErrors(errs, ValidityField) == ValidityErrors(input.validityMinutes)
      && FieldErrors(errs, CustomCodeField) == CodeErrors(input.customShortCode, used)
  {
    var u, v, c := UrlErrors(input.originalUrl, parsesUrl), ValidityErrors(input.validityMinutes),
      CodeErrors(input.customShortCode, used);
    assert AllOnField(u, OriginalUrlField) && AllOnField(v, ValidityField) && AllOnField(c, CustomCodeField);
    FieldErrorsAppend(u + v, c, OriginalUrlField);
    FieldErrorsAppend(u, v, OriginalUrlField);
    FieldErrorsOwn(u, OriginalUrlField);
    FieldErrorsOther(v, OriginalUrlField, ValidityField);
    FieldErrorsOther(c, OriginalUrlField, CustomCodeField);
    FieldErrorsAppend(u + v, c, ValidityField);
    FieldErrorsAppend(u, v, ValidityField);
    FieldErrorsOther(u, ValidityField, OriginalUrlField);
    FieldErrorsOwn(v, ValidityField);
    FieldErrorsOther(c, ValidityField, CustomCodeField);
    FieldErrorsAppend(u + v, c, CustomCodeField);
    FieldErrorsAppend(u, v, CustomCodeField);
    FieldErrorsOther(u, CustomCodeField, OriginalUrlField);
    FieldErrorsOther(v, CustomCodeField, ValidityField);
    FieldErrorsOwn(c, CustomCodeField);
  }

  /** A request passes validation exactly when each of its three fields is acceptable. */
  predicate Acceptable(input: UrlInput, used: set<string>, parsesUrl: string -> bool) {
    && !IsBlank(input.originalUrl) && parsesUrl(input.originalUrl)
    && (input.validityMinutes.None? || input.validityMinutes.value > 0)
    && (IsSet(input.customShortCode) ==>
          ValidateShortCode(input.customShortCode.value) && input.customShortCode.value !in used)
  }

  lemma InputErrorsEmptyIff(input: UrlInput, used: set<string>, parsesUrl: string -> bool)
    ensures InputErrors(input, used, parsesUrl) == [] <==> Acceptable(input, used, parsesUrl)
  {
  }

  /** At most one error per field, and only for the three fields of a request. */
  lemma InputErrorsShape(input: UrlInput, used: set<string>, parsesUrl: string -> bool)
    ensures var errs := InputErrors(input, used, parsesUrl);
      && |errs| <= 3
      && (forall j :: 0 <= j < |errs| ==>
            errs[j].field in {OriginalUrlField, ValidityField, CustomCodeField})
      && (forall j, k :: 0 <= j < k < |errs| ==> errs[j].field != errs[k].field)
  {
  }

  /** A blank URL is reported once as required and is never handed to the parser;
      any other URL is reported at most once, as malformed, exactly when it does not parse. */
  lemma OriginalUrlErrors(input: UrlInput, used: set<string>, parsesUrl: string -> bool, otherParser: string -> bool)
    ensures var errs := FieldErrors(InputErrors(input, used, parsesUrl), OriginalUrlField);
      && (IsBlank(input.originalUrl) ==>
            errs == [UrlValidationError(OriginalUrlField, UrlRequired)]
            && InputErrors(input, used, otherParser) == InputErrors(input, used, parsesUrl))
      && (!IsBlank(input.originalUrl) ==>
            errs == if parsesUrl(input.originalUrl) then [] else [UrlValidationError(OriginalUrlField, UrlMalformed)])
  {
    InputFieldErrors(input, used, parsesUrl);
  }

  /** An absent validity is fine; a supplied one is reported exactly when it is not positive. */
  lemma ValidityFieldErrors(input: UrlInput, used: set<string>, parsesUrl: string -> bool)
    ensures var errs := FieldErrors(InputErrors(input, used, parsesUrl), ValidityField);
      (errs != [] <==> input.validityMinutes.Some? && input.validityMinutes.value <= 0)
      && |errs| <= 1
  {
    InputFieldErrors(input, used, parsesUrl);
  }

  /** An absent or empty custom code is not looked at (nor is the code set); a malformed
      one is reported only for its format; a well-formed one only for being in use. */
  lemma CustomCodeFieldErrors(input: UrlInput, used: set<string>, otherUsed: set<string>, parsesUrl: string -> bool)
    ensures var errs := FieldErrors(InputErrors(input, used, parsesUrl), CustomCodeField);
      var code := input.customShortCode;
      && (!IsSet(code) ==> errs == [] && InputErrors(input, otherUsed, parsesUrl) == InputErrors(input, used, parsesUrl))
      && (IsSet(code) && !ValidateShortCode(code.value) ==>
            errs == [UrlValidationError(CustomCodeField, CodeMalformed)])
      && (IsSet(code) && ValidateShortCode(code.value) ==>
            errs == if code.value in used then [UrlValidationError(CustomCodeField, CodeInUse)] else [])
  {
    InputFieldErrors(input, used, parsesUrl);
  }

  // ---------------------------------------------------------------------------
  // Batch validation (shortenMultipleUrls, first pass)

  /** `{ ...error, field: `${error.field}_${index}` }`. */
  function Tag(err: UrlValidationError, index: nat): UrlValidationError {
    UrlValidationError(IndexedKey(err.field, index), err.message)
  }

  /** The errors of row `index`, each tagged with the index. */
  function Retagged(errs: seq<UrlValidationError>, index: nat): (r: seq<UrlValidationError>)
    ensures |r| == |errs|
  {
    seq(|errs|, j requires 0 <= j < |errs| => Tag(errs[j], index))
  }

  /** Each row's own errors, in row order. */
  function RowErrors(inputs: seq<UrlInput>, used: set<string>, parsesUrl: string -> bool): (rows: seq<seq<UrlValidationError>>)
    ensures |rows| == |inputs|
  {
    seq(|inputs|, i requires 0 <= i < |inputs| => InputErrors(inputs[i], used, parsesUrl))
  }

  /** The rows' errors one after another, each tagged with its row index. */
  function CollectTagged(rows: seq<seq<UrlValidationError>>): seq<UrlValidationError>
    decreases |rows|
  {
    if rows == [] then []
    else
      var last := |rows| - 1;
      CollectTagged(rows[..last]) + Retagged(rows[last], last)
  }

  lemma RetaggedSnoc(errs: seq<UrlValidationError>, j: nat, index: nat)
    requires j < |errs|
    ensures Retagged(errs[..j + 1], index) == Retagged(errs[..j], index) + [Tag(errs[j], index)]
  {
  }

  lemma CollectTaggedSnoc(rows: seq<seq<UrlValidationError>>, index: nat)
    requires index < |rows|
    ensures CollectTagged(rows[..index + 1]) == CollectTagged(rows[..index]) + Retagged(rows[index], index)
  {
    assert rows[..index + 1][..index] == rows[..index];
  }

  /** All errors of a batch, every row checked against the same pre-batch code set. */
  function BatchErrors(inputs: seq<UrlInput>, used: set<string>, parsesUrl: string -> bool): seq<UrlValidationError> {
    CollectTagged(RowErrors(inputs, used, parsesUrl))
  }

  lemma {:induction false} CollectTaggedEmptyIff(rows: seq<seq<UrlValidationError>>)
    ensures CollectTagged(rows) == [] <==> forall i :: 0 <= i < |rows| ==> rows[i] == []
    decreases |rows|
  {
    if rows != [] {
      var last := |rows| - 1;
      CollectTaggedEmptyIff(rows[..last]);
      assert forall i :: 0 <= i < last ==> rows[..last][i] == rows[i];
    }
  }

  /** Every collected error is some row's error, tagged with that row. */
  lemma {:induction false} CollectTaggedSource(rows: seq<seq<UrlValidationError>>, e: UrlValidationError)
      returns (i: nat, err: UrlValidationError)
    requires e in CollectTagged(rows)
    ensures i < |rows| && err in rows[i] && e == Tag(err, i)
    decreases |rows|
  {
    var last := |rows| - 1;
    var tagged := Retagged(rows[last], last);
    if e in tagged {
      var j :| 0 <= j < |tagged| && tagged[j] == e;
      i, err := last, rows[last][j];
    } else {
      i, err := CollectTaggedSource(rows[..last], e);
      assert rows[..last][i] == rows[i];
    }
  }

  /** Every error of every row is collected, tagged with its row. */
  lemma {:induction false} CollectTaggedComplete(rows: seq<seq<UrlValidationError>>, i: nat, err: UrlValidationError)
    requires i < |rows| && err in rows[i]
    ensures Tag(err, i) in CollectTagged(rows)
    decreases |rows|
  {
    var last := |rows| - 1;
    if i == last {
      var j :| 0 <= j < |rows[last]| && rows[last][j] == err;
      assert Retagged(rows[last], last)[j] == Tag(err, i);
    } else {
      assert rows[..last][i] == rows[i];
      CollectTaggedComplete(rows[..last], i, err);
    }
  }

  /** A batch has no error exactly when every row passes on its own. */
  lemma BatchErrorsEmptyIff(inputs: seq<UrlInput>, used: set<string>, parsesUrl: string -> bool)
    ensures BatchErrors(inputs, used, parsesUrl) == [] <==>
      forall i :: 0 <= i < |inputs| ==> InputErrors(inputs[i], used, parsesUrl) == []
  {
    var rows := RowErrors(inputs, used, parsesUrl);
    CollectTaggedEmptyIff(rows);
    assert forall i :: 0 <= i < |inputs| ==> rows[i] == InputErrors(inputs[i], used, parsesUrl);
  }

  /** The batch errors are exactly the rows' own errors, each tagged with its row; in
      particular every error of row k is reported under a key ending in `_k`. */
  lemma BatchErrorsExactly(inputs: seq<UrlInput>, used: set<string>, parsesUrl: string -> bool, e: UrlValidationError)
    ensures e in BatchErrors(inputs, used, parsesUrl) <==>
      exists i: nat, err :: i < |inputs| && err in InputErrors(inputs[i], used, parsesUrl) && e == Tag(err, i)
  {
    var rows := RowErrors(inputs, used, parsesUrl);
    if e in BatchErrors(inputs, used, parsesUrl) {
      var i, err := CollectTaggedSource(rows, e);
      assert rows[i] == InputErrors(inputs[i], used, parsesUrl);
    }
    if exists i: nat, err :: i < |inputs| && err in InputErrors(inputs[i], used, parsesUrl) && e == Tag(err, i) {
      var i: nat, err :| i < |inputs| && err in InputErrors(inputs[i], used, parsesUrl) && e == Tag(err, i);
      assert rows[i] == InputErrors(inputs[i], used, parsesUrl);
      CollectTaggedComplete(rows, i, err);
    }
  }

  /** Every row is checked against the code set as it was before the batch, so two rows
      asking for the same free custom code both pass, and the records built for them
      then share that code. */
  lemma TwinCustomCodesAccepted(input: UrlInput, used: set<string>, parsesUrl: string -> bool,
                                u1: ShortenedUrl, u2: ShortenedUrl, id1: string, id2: string, now: int, origin: string)
    requires Acceptable(input, used, parsesUrl) && IsSet(input.customShortCode)
    requires Realises(input, u1, id1, now, origin) && Realises(input, u2, id2, now, origin)
    ensures BatchErrors([input, input], used, parsesUrl) == []
    ensures !CodesUnique([u1, u2])
  {
    InputErrorsEmptyIff(input, used, parsesUrl);
    BatchErrorsEmptyIff([input, input], used, parsesUrl);
    assert [u1, u2][0].shortCode == [u1, u2][1].shortCode;
  }

  // ---------------------------------------------------------------------------
  // Records: creation, expiry, codes

  /** `input.validityMinutes || 30`: absent and zero fall back to the default. */
  function EffectiveValidity(validity: Option<int>): int {
    if validity.None? || validity.value == 0 then DefaultValidityMinutes else validity.value
  }

  /** What `shortenUrl` builds for `input` when reading the clock gives `now`. */
  predicate Realises(input: UrlInput, u: ShortenedUrl, id: string, now: int, origin: string) {
    && u.id == id
    && u.originalUrl == input.originalUrl
    && u.validityMinutes == EffectiveValidity(input.validityMinutes)
    && u.createdAt == now
    && u.expiryTime == now + u.validityMinutes * MillisPerMinute
    && u.shortUrl == origin + "/" + u.shortCode
    && (IsSet(input.customShortCode) ==> u.shortCode == input.customShortCode.value)
  }

  /** A record is live up to and including its expiry instant. */
  predicate IsLive(u: ShortenedUrl, now: int) {
    now <= u.expiryTime
  }

  /** `filter(url => new Date() <= url.expiryTime)`. */
  function Live(s: seq<ShortenedUrl>, now: int): (r: seq<ShortenedUrl>)
    ensures |r| <= |s|
    ensures forall u :: u in r <==> u in s && IsLive(u, now)
  {
    if s == [] then [] else (if IsLive(s[0], now) then [s[0]] else []) + Live(s[1..], now)
  }

  /** The filter works record by record, so it keeps the relative order. */
  lemma {:induction false} LiveAppend(a: seq<ShortenedUrl>, b: seq<ShortenedUrl>, now: int)
    ensures Live(a + b, now) == Live(a, now) + Live(b, now)
  {
    if a == [] {
      assert a + b == b;
    } else {
      assert (a + b)[0] == a[0] && (a + b)[1..] == a[1..] + b;
      LiveAppend(a[1..], b, now);
    }
  }

  /** A second purge at the same instant removes nothing. */
  lemma {:induction false} LiveIdempotent(s: seq<ShortenedUrl>, now: int)
    ensures Live(Live(s, now), now) == Live(s, now)
  {
    LiveLater(s, now, now);
  }

  /** Purging at `now` and then at a later instant is the same as purging at the later one. */
  lemma {:induction false} LiveLater(s: seq<ShortenedUrl>, now: int, later: int)
    requires now <= later
    ensures Live(Live(s, now), later) == Live(s, later)
  {
    if s != [] {
      LiveLater(s[1..], now, later);
      var head := if IsLive(s[0], now) then [s[0]] else [];
      LiveAppend(head, Live(s[1..], now), later);
    }
  }

  /** The codes the records carry. */
  function CodesOf(s: seq<ShortenedUrl>): set<string> {
    set u | u in s :: u.shortCode
  }

  predicate CodesUnique(s: seq<ShortenedUrl>) {
    forall i, j :: 0 <= i < j < |s| ==> s[i].shortCode != s[j].shortCode
  }

  /** Appending records whose codes the store does not carry keeps the codes unique
      exactly when the appended records are unique among themselves. */
  lemma AppendFreshCodes(a: seq<ShortenedUrl>, b: seq<ShortenedUrl>)
    requires forall j :: 0 <= j < |b| ==> b[j].shortCode !in CodesOf(a)
    ensures CodesUnique(a + b) <==> CodesUnique(a) && CodesUnique(b)
  {
    var ab := a + b;
    if CodesUnique(a) && CodesUnique(b) {
      forall i, j | 0 <= i < j < |ab| ensures ab[i].shortCode != ab[j].shortCode {
        if j >= |a| && i < |a| {
          assert ab[i] in a;
          assert ab[j] == b[j - |a|];
        } else if i >= |a| {
          assert ab[i] == b[i - |a|] && ab[j] == b[j - |a|];
        }
      }
    }
    if CodesUnique(ab) {
      forall i, j | 0 <= i < j < |a| ensures a[i].shortCode != a[j].shortCode {
        assert ab[i] == a[i] && ab[j] == a[j];
      }
      forall i, j | 0 <= i < j < |b| ensures b[i].shortCode != b[j].shortCode {
        assert ab[|a| + i] == b[i] && ab[|a| + j] == b[j];
      }
    }
  }

  /** The code of record `i` was free when it was added: neither in the code set from
      before the records were added nor carried by a record before it. */
  predicate FreshWhenAdded(s: seq<ShortenedUrl>, used: set<string>, i: int)
    requires 0 <= i < |s|
  {
    s[i].shortCode !in used + CodesOf(s[..i])
  }

  /** Adding a record leaves the earlier records' freshness as it was, and the new record
      is fresh when its code is neither in the old set nor carried by an earlier record. */
  lemma FreshWhenAddedSnoc(s: seq<ShortenedUrl>, u: ShortenedUrl, used: set<string>)
    ensures forall i :: 0 <= i < |s| ==> (FreshWhenAdded(s + [u], used, i) <==> FreshWhenAdded(s, used, i))
    ensures FreshWhenAdded(s + [u], used, |s|) <==> u.shortCode !in used + CodesOf(s)
  {
    forall i | 0 <= i < |s| ensures (s + [u])[..i] == s[..i] {
    }
    assert (s + [u])[..|s|] == s;
  }

  /** Row `i` of a batch was committed as `shortenUrl` does it at `now`: its record is
      built from the row, its code is not in the set from before the batch, and a generated
      code is also new to the records of the earlier rows. */
  predicate CommittedRow(inputs: seq<UrlInput>, s: seq<ShortenedUrl>, used: set<string>,
                         ids: seq<string>, now: int, origin: string, i: int)
    requires 0 <= i < |s| <= |inputs| && |ids| == |inputs|
  {
    && Realises(inputs[i], s[i], ids[i], now, origin)
    && s[i].shortCode !in used
    && (!IsSet(inputs[i].customShortCode) ==> IsGeneratedCode(s[i].shortCode) && FreshWhenAdded(s, used, i))
  }

  /** Committing one more row keeps every earlier row committed. */
  lemma CommittedRowSnoc(inputs: seq<UrlInput>, s: seq<ShortenedUrl>, u: ShortenedUrl, used: set<string>,
                         ids: seq<string>, now: int, origin: string)
    requires |s| < |inputs| && |ids| == |inputs|
    requires forall i :: 0 <= i < |s| ==> CommittedRow(inputs, s, used, ids, now, origin, i)
    requires Realises(inputs[|s|], u, ids[|s|], now, origin) && u.shortCode !in used
    requires !IsSet(inputs[|s|].customShortCode) ==> IsGeneratedCode(u.shortCode) && u.shortCode !in used + CodesOf(s)
    ensures forall i :: 0 <= i <= |s| ==> CommittedRow(inputs, s + [u], used, ids, now, origin, i)
  {
    FreshWhenAddedSnoc(s, u, used);
    forall i | 0 <= i <= |s| ensures CommittedRow(inputs, s + [u], used, ids, now, origin, i) {
      if i < |s| {
        assert CommittedRow(inputs, s, used, ids, now, origin, i);
        assert (s + [u])[i] == s[i];
      }
    }
  }

  /** Every committed row of a batch that passed validation carries a code of the accepted
      format: a custom code was checked, a generated one is six alphabet symbols. */
  lemma CommittedCodesWellFormed(inputs: seq<UrlInput>, s: seq<ShortenedUrl>, used: set<string>,
                                 parsesUrl: string -> bool, ids: seq<string>, now: int, origin: string)
    requires |s| <= |inputs| == |ids|
    requires forall i :: 0 <= i < |inputs| ==> Acceptable(inputs[i], used, parsesUrl)
    requires forall i :: 0 <= i < |s| ==> CommittedRow(inputs, s, used, ids, now, origin, i)
    ensures forall i :: 0 <= i < |s| ==> ValidateShortCode(s[i].shortCode)
  {
    forall i | 0 <= i < |s| ensures ValidateShortCode(s[i].shortCode) {
      assert CommittedRow(inputs, s, used, ids, now, origin, i);
      if !IsSet(inputs[i].customShortCode) {
        GeneratedCodeIsWellFormed(s[i].shortCode);
      } else {
        assert Acceptable(inputs[i], used, parsesUrl);
      }
    }
  }

  /** A fully committed batch appended to a store whose codes are all in the old set: no
      code was in that set, the store keeps unique codes exactly when it had them and the
      batch has them, and the batch has them exactly when no custom code repeats the code
      of an earlier row. */
  lemma CommittedBatch(store: seq<ShortenedUrl>, inputs: seq<UrlInput>, s: seq<ShortenedUrl>, used: set<string>,
                       ids: seq<string>, now: int, origin: string)
    requires CodesOf(store) <= used
    requires |s| == |inputs| == |ids|
    requires forall i :: 0 <= i < |s| ==> CommittedRow(inputs, s, used, ids, now, origin, i)
    ensures forall i :: 0 <= i < |s| ==> s[i].shortCode !in used
    ensures CodesUnique(store + s) <==> CodesUnique(store) && CodesUnique(s)
    ensures CodesUnique(s) <==>
      forall i :: 0 <= i < |s| && IsSet(inputs[i].customShortCode) ==> FreshWhenAdded(s, {}, i)
  {
    forall i | 0 <= i < |s|
      ensures s[i].shortCode !in used
      ensures !IsSet(inputs[i].customShortCode) ==> FreshWhenAdded(s, used, i)
    {
      assert CommittedRow(inputs, s, used, ids, now, origin, i);
    }
    AppendFreshCodes(store, s);
    BatchCodesUnique(inputs, s, used);
  }

  /** Codes are unique exactly when every record's code is new to the records before it. */
  lemma CodesUniqueIffFreshPrefix(s: seq<ShortenedUrl>)
    ensures CodesUnique(s) <==> forall j :: 0 <= j < |s| ==> FreshWhenAdded(s, {}, j)
  {
    if CodesUnique(s) {
      forall j | 0 <= j < |s| ensures FreshWhenAdded(s, {}, j) {
        forall u | u in s[..j] ensures u.shortCode != s[j].shortCode {
          var i :| 0 <= i < j && s[..j][i] == u;
          assert s[i] == u;
        }
      }
    }
    if forall j :: 0 <= j < |s| ==> FreshWhenAdded(s, {}, j) {
      forall i, j | 0 <= i < j < |s| ensures s[i].shortCode != s[j].shortCode {
        assert FreshWhenAdded(s, {}, j);
        assert s[..j][i] == s[i];
      }
    }
  }

  /** In a batch whose generated codes were each free when committed, the records carry
      unique codes exactly when no custom code repeats the code of an earlier row. With no
      custom code in the batch, the codes are therefore always unique. */
  lemma BatchCodesUnique(inputs: seq<UrlInput>, s: seq<ShortenedUrl>, used: set<string>)
    requires |s| == |inputs|
    requires forall i :: 0 <= i < |s| && !IsSet(inputs[i].customShortCode) ==> FreshWhenAdded(s, used, i)
    ensures CodesUnique(s) <==>
      forall i :: 0 <= i < |s| && IsSet(inputs[i].customShortCode) ==> FreshWhenAdded(s, {}, i)
  {
    CodesUniqueIffFreshPrefix(s);
    forall i | 0 <= i < |s| && !IsSet(inputs[i].customShortCode) ensures FreshWhenAdded(s, {}, i) {
      assert FreshWhenAdded(s, used, i);
    }
  }

  // ---------------------------------------------------------------------------
  // Lookup by code (getShortenedUrl)

  predicate IsFirstWithCode(s: seq<ShortenedUrl>, code: string, i: int) {
    0 <= i < |s| && s[i].shortCode == code && forall j :: 0 <= j < i ==> s[j].shortCode != code
  }

  /** `Array.prototype.find` on the code: the position of the first record that carries it. */
  function FindByCode(s: seq<ShortenedUrl>, code: string): (r: Option<nat>)
    ensures r.None? <==> forall i :: 0 <= i < |s| ==> s[i].shortCode != code
    ensures r.Some? ==> IsFirstWithCode(s, code, r.value)
  {
    if s == [] then None
    else if s[0].shortCode == code then Some(0)
    else match FindByCode(s[1..], code)
      case None => None
      case Some(i) => Some(i + 1)
  }

  /** The record a redirect may serve: the first one with the code, if it is still live. */
  function Lookup(s: seq<ShortenedUrl>, code: string, now: int): (r: Option<ShortenedUrl>)
    ensures r.Some? ==> exists i :: IsFirstWithCode(s, code, i) && r.value == s[i] && IsLive(s[i], now)
    ensures r.None? ==> forall i :: IsFirstWithCode(s, code, i) ==> !IsLive(s[i], now)
  {
    match FindByCode(s, code)
    case None => None
    case Some(i) => if now > s[i].expiryTime then None else Some(s[i])
  }

  lemma FirstWithCodeUnique(s: seq<ShortenedUrl>, code: string, i: int, j: int)
    requires IsFirstWithCode(s, code, i) && IsFirstWithCode(s, code, j)
    ensures i == j
  {
  }

  /** A record whose code is new to the store resolves to itself while it is live. */
  lemma LookupFreshRecord(s: seq<ShortenedUrl>, u: ShortenedUrl, now: int)
    requires u.shortCode !in CodesOf(s)
    ensures Lookup(s + [u], u.shortCode, now) == if IsLive(u, now) then Some(u) else None
  {
    var t := s + [u];
    assert forall i :: 0 <= i < |s| ==> t[i] == s[i] && s[i] in s;
    assert IsFirstWithCode(t, u.shortCode, |s|);
  }

  /** Appending records never changes what a code already in the store resolves to. */
  lemma LookupAfterAppend(s: seq<ShortenedUrl>, t: seq<ShortenedUrl>, code: string, now: int)
    requires code in CodesOf(s)
    ensures Lookup(s + t, code, now) == Lookup(s, code, now)
  {
    var u :| u in s && u.shortCode == code;
    var k := FindByCode(s, code);
    assert k.Some?;
    var st := s + t;
    assert forall j :: 0 <= j < |s| ==> st[j] == s[j];
    assert IsFirstWithCode(st, code, k.value);
    var m := FindByCode(st, code);
    FirstWithCodeUnique(st, code, k.value, m.value);
  }

  /** Once a lookup fails it keeps failing as the clock advances. */
  lemma LookupStaysExpired(s: seq<ShortenedUrl>, code: string, now: int, later: int)
    requires now <= later && Lookup(s, code, now).None?
    ensures Lookup(s, code, later).None?
  {
  }

  lemma LookupCons(x: ShortenedUrl, rest: seq<ShortenedUrl>, code: string, now: int)
    ensures Lookup([x] + rest, code, now) ==
      if x.shortCode == code then (if IsLive(x, now) then Some(x) else None) else Lookup(rest, code, now)
  {
    assert ([x] + rest)[1..] == rest;
  }

  /** With unique codes, purging at `now` does not change any lookup at `now`. */
  lemma {:induction false} LookupAfterPurge(s: seq<ShortenedUrl>, code: string, now: int)
    requires CodesUnique(s)
    ensures Lookup(Live(s, now), code, now) == Lookup(s, code, now)
  {
    if s != [] {
      var x, rest := s[0], s[1..];
      assert s == [x] + rest;
      assert forall j :: 0 <= j < |rest| ==> rest[j] == s[j + 1];
      assert CodesUnique(rest);
      LookupAfterPurge(rest, code, now);
      LookupCons(x, rest, code, now);
      if IsLive(x, now) {
        assert Live(s, now) == [x] + Live(rest, now);
        LookupCons(x, Live(rest, now), code, now);
      } else {
        assert Live(s, now) == Live(rest, now);
        if x.shortCode == code {
          assert FindByCode(rest, code).None?;
        }
      }
    }
  }

  /** Without unique codes a purge can change a lookup: an expired first record hides a
      live later one with the same code until the purge removes it. */
  lemma PurgeCanExposeDuplicate(a: ShortenedUrl, b: ShortenedUrl, now: int)
    requires a.shortCode == b.shortCode && !IsLive(a, now) && IsLive(b, now)
    ensures Lookup([a, b], a.shortCode, now).None?
    ensures Lookup(Live([a, b], now), a.shortCode, now) == Some(b)
  {
    assert Live([a, b], now) == [b] by {
      assert [a, b][1..] == [b];
      assert [b][1..] == [];
    }
    assert IsFirstWithCode([a, b], a.shortCode, 0);
  }

  // ---------------------------------------------------------------------------
  // Listing order (getAllShortenedUrls)

  predicate NewestFirst(s: seq<ShortenedUrl>) {
    forall i, j :: 0 <= i < j < |s| ==> s[i].createdAt >= s[j].createdAt
  }

  /** Places `u` before the first record that is not newer than it. */
  function InsertNewestFirst(u: ShortenedUrl, s: seq<ShortenedUrl>): (r: seq<ShortenedUrl>)
    ensures multiset(r) == multiset(s) + multiset{u}
  {
    if s == [] || s[0].createdAt <= u.createdAt then [u] + s
    else
      assert s == [s[0]] + s[1..];
      [s[0]] + InsertNewestFirst(u, s[1..])
  }

  lemma {:induction false} InsertKeepsNewestFirst(u: ShortenedUrl, s: seq<ShortenedUrl>)
    requires NewestFirst(s)
    ensures NewestFirst(InsertNewestFirst(u, s))
  {
    if s != [] && s[0].createdAt > u.createdAt {
      var t := InsertNewestFirst(u, s[1..]);
      InsertKeepsNewestFirst(u, s[1..]);
      forall j | 0 <= j < |t| ensures t[j].createdAt <= s[0].createdAt {
        assert t[j] in multiset(t);
        if t[j] != u {
          assert t[j] in multiset(s[1..]);
          assert t[j] in s[1..];
        }
      }
      var r := [s[0]] + t;
      forall i, j | 0 <= i < j < |r| ensures r[i].createdAt >= r[j].createdAt {
        if i > 0 {
          assert r[i] == t[i - 1] && r[j] == t[j - 1];
        } else {
          assert r[j] == t[j - 1];
        }
      }
    }
  }

  /** `[...s].sort((a, b) => b.createdAt - a.createdAt)`. */
  function SortNewestFirst(s: seq<ShortenedUrl>): (r: seq<ShortenedUrl>)
    ensures NewestFirst(r)
    ensures multiset(r) == multiset(s)
  {
    if s == [] then []
    else
      assert s == [s[0]] + s[1..];
      var sorted := SortNewestFirst(s[1..]);
      InsertKeepsNewestFirst(s[0], sorted);
      InsertNewestFirst(s[0], sorted)
  }
}
