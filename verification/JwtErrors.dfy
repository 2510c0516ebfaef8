/** `classifyVerifyError` of jwt/verifier.go. */
module JwtErrors {
  import opened Wrappers
  import opened Errors

  /** The switch: which package sentinel an error with the given reachable sentinels is wrapped in, if any. */
  function Class(reaches: Sentinel -> bool): Option<Sentinel> {
    if reaches(ContextCanceled) || reaches(ContextDeadlineExceeded) then None
    else if reaches(LibTokenMalformed) then Some(JwtMalformedToken)
    else if reaches(JwtInvalidHeader) then Some(JwtMalformedToken)
    else if reaches(LibTokenExpired) then Some(JwtExpiredToken)
    else if reaches(LibTokenNotValidYet) then Some(JwtNotYetValid)
    else if reaches(LibTokenUsedBeforeIssued) then Some(JwtIssuedInFuture)
    else if reaches(LibTokenSignatureInvalid) then Some(JwtInvalidSignature)
    else if reaches(LibTokenRequiredClaimMissing) then Some(JwtInvalidClaims)
    else if reaches(LibTokenInvalidAudience) || reaches(LibTokenInvalidIssuer)
         || reaches(LibTokenInvalidSubject) || reaches(LibTokenInvalidClaims) then Some(JwtInvalidClaims)
    else if reaches(JwtUnknownKey) || reaches(JwtMissingKeyID) || reaches(JwtUnexpectedAlgorithm)
         || reaches(JwtKeyUnavailable) || reaches(JwtInvalidKey) then None
    else Some(JwtVerify)
  }

  /** `errors.Is` on a given error. */
  function Reaches(e: Error): Sentinel -> bool {
    s => Is(e, s)
  }

  function ClassifyVerifyError(e: Error): Error {
    match Class(Reaches(e))
    case None => e
    case Some(sentinel) => Classified(sentinel, e)
  }

  /* ---- the classification as a table: the first row with a reached trigger decides ---- */

  datatype Row = Row(triggers: seq<Sentinel>, adds: Option<Sentinel>)

  const LAST_ROW := 8

  /** The last row has no triggers and catches what no other row knows. */
  function Table(row: nat): Row {
    match row
    case 0 => Row([ContextCanceled, ContextDeadlineExceeded], None)
    case 1 => Row([LibTokenMalformed, JwtInvalidHeader], Some(JwtMalformedToken))
    case 2 => Row([LibTokenExpired], Some(JwtExpiredToken))
    case 3 => Row([LibTokenNotValidYet], Some(JwtNotYetValid))
    case 4 => Row([LibTokenUsedBeforeIssued], Some(JwtIssuedInFuture))
    case 5 => Row([LibTokenSignatureInvalid], Some(JwtInvalidSignature))
    case 6 => Row([LibTokenRequiredClaimMissing, LibTokenInvalidAudience, LibTokenInvalidIssuer,
                   LibTokenInvalidSubject, LibTokenInvalidClaims], Some(JwtInvalidClaims))
    case 7 => Row([JwtUnknownKey, JwtMissingKeyID, JwtUnexpectedAlgorithm, JwtKeyUnavailable, JwtInvalidKey], None)
    case _ => Row([], Some(JwtVerify))
  }

  predicate AnyReached(triggers: seq<Sentinel>, reaches: Sentinel -> bool) {
    exists i :: 0 <= i < |triggers| && reaches(triggers[i])
  }

  predicate Matches(row: nat, reaches: Sentinel -> bool) {
    row == LAST_ROW || AnyReached(Table(row).triggers, reaches)
  }

  ghost predicate Decides(row: nat, reaches: Sentinel -> bool) {
    && row <= LAST_ROW && Matches(row, reaches)
    && forall earlier: nat :: earlier < row ==> !Matches(earlier, reaches)
  }

  /** The row that decides for the given reachable sentinels. */
  function FirstMatch(reaches: Sentinel -> bool, from: nat := 0): (row: nat)
    requires from <= LAST_ROW
    requires forall earlier: nat :: earlier < from ==> !Matches(earlier, reaches)
    ensures Decides(row, reaches)
    decreases LAST_ROW - from
  {
    if Matches(from, reaches) then from else FirstMatch(reaches, from + 1)
  }

  lemma AnyOfOne(a: Sentinel, reaches: Sentinel -> bool)
    ensures AnyReached([a], reaches) <==> reaches(a)
  {
    assert reaches(a) ==> reaches([a][0]);
  }

  lemma AnyOfMore(a: Sentinel, rest: seq<Sentinel>, reaches: Sentinel -> bool)
    ensures AnyReached([a] + rest, reaches) <==> reaches(a) || AnyReached(rest, reaches)
  {
    var all := [a] + rest;
    if i :| 0 <= i < |rest| && reaches(rest[i]) {
      assert all[i + 1] == rest[i];
    }
    assert reaches(a) ==> reaches(all[0]);
  }

  lemma AnyOfFive(a: Sentinel, b: Sentinel, c: Sentinel, d: Sentinel, f: Sentinel, reaches: Sentinel -> bool)
    ensures AnyReached([a, b, c, d, f], reaches)
       <==> reaches(a) || reaches(b) || reaches(c) || reaches(d) || reaches(f)
  {
    AnyOfOne(f, reaches);
    AnyOfMore(d, [f], reaches);
    AnyOfMore(c, [d, f], reaches);
    AnyOfMore(b, [c, d, f], reaches);
    AnyOfMore(a, [b, c, d, f], reaches);
    assert [d] + [f] == [d, f] && [c] + [d, f] == [c, d, f];
    assert [b] + [c, d, f] == [b, c, d, f] && [a] + [b, c, d, f] == [a, b, c, d, f];
  }

  lemma AnyOfTwo(a: Sentinel, b: Sentinel, reaches: Sentinel -> bool)
    ensures AnyReached([a, b], reaches) <==> reaches(a) || reaches(b)
  {
    AnyOfOne(b, reaches);
    AnyOfMore(a, [b], reaches);
    assert [a] + [b] == [a, b];
  }

  /** The switch follows the table. */
  lemma SwitchFollowsTable(reaches: Sentinel -> bool, row: nat)
    requires Decides(row, reaches)
    ensures Class(reaches) == Table(row).adds
  {
    AnyOfTwo(ContextCanceled, ContextDeadlineExceeded, reaches);
    AnyOfTwo(LibTokenMalformed, JwtInvalidHeader, reaches);
    AnyOfOne(LibTokenExpired, reaches);
    AnyOfOne(LibTokenNotValidYet, reaches);
    AnyOfOne(LibTokenUsedBeforeIssued, reaches);
    AnyOfOne(LibTokenSignatureInvalid, reaches);
    AnyOfFive(LibTokenRequiredClaimMissing, LibTokenInvalidAudience, LibTokenInvalidIssuer,
              LibTokenInvalidSubject, LibTokenInvalidClaims, reaches);
    AnyOfFive(JwtUnknownKey, JwtMissingKeyID, JwtUnexpectedAlgorithm, JwtKeyUnavailable, JwtInvalidKey, reaches);
    if Matches(0, reaches) {
    } else if Matches(1, reaches) {
    } else if Matches(2, reaches) {
    } else if Matches(3, reaches) {
    } else if Matches(4, reaches) {
    } else if Matches(5, reaches) {
    } else if Matches(6, reaches) {
    } else if Matches(7, reaches) {
    }
  }

  /** Classification keeps every sentinel the error reaches and adds at most one: that of the first matching row. */
  lemma ClassificationKeepsAndAdds(e: Error, s: Sentinel)
    ensures Is(ClassifyVerifyError(e), s) <==> Is(e, s) || Table(FirstMatch(Reaches(e))).adds == Some(s)
  {
    SwitchFollowsTable(Reaches(e), FirstMatch(Reaches(e)));
  }

  /** Classifying twice reaches nothing new: no sentinel the table adds triggers a row. */
  lemma ClassificationIsStable(e: Error)
    ensures SameSentinels(ClassifyVerifyError(ClassifyVerifyError(e)), ClassifyVerifyError(e))
  {
    var f := ClassifyVerifyError(e);
    var before, after := Reaches(e), Reaches(f);
    var row := FirstMatch(before);
    SwitchFollowsTable(before, row);
    forall s
      ensures after(s) <==> before(s) || Table(row).adds == Some(s)
    {
      ClassificationKeepsAndAdds(e, s);
    }
    AdditionTriggersNothing(row, before, after);
    SwitchFollowsTable(after, row);
  }

  lemma AdditionsAreNoTriggers(row: nat, other: nat, i: nat)
    requires row <= LAST_ROW && other < LAST_ROW && i < |Table(other).triggers|
    ensures Table(row).adds != Some(Table(other).triggers[i])
  {
  }

  lemma AdditionTriggersNothing(row: nat, before: Sentinel -> bool, after: Sentinel -> bool)
    requires Decides(row, before)
    requires forall s :: after(s) <==> before(s) || Table(row).adds == Some(s)
    ensures Decides(row, after)
  {
    forall r: nat | r <= LAST_ROW
      ensures Matches(r, after) <==> Matches(r, before)
    {
      if r < LAST_ROW {
        var triggers := Table(r).triggers;
        forall i: nat | i < |triggers|
          ensures after(triggers[i]) <==> before(triggers[i])
        {
          AdditionsAreNoTriggers(row, r, i);
        }
      }
    }
  }

  /** What a caller can branch on: the sentinels the table adds, and the triggers of the rows that add none. */
  ghost predicate PackageClass(s: Sentinel) {
    exists row: nat :: row <= LAST_ROW && IsClassOf(row, s)
  }

  predicate IsClassOf(row: nat, s: Sentinel) {
    Table(row).adds == Some(s) || (Table(row).adds.None? && s in Table(row).triggers)
  }

  /** Every classified error reaches one of them. */
  lemma ClassificationIsExhaustive(e: Error)
    ensures exists s :: PackageClass(s) && Is(ClassifyVerifyError(e), s)
  {
    var reaches := Reaches(e);
    var row := FirstMatch(reaches);
    var s: Sentinel;
    if Table(row).adds.Some? {
      s := Table(row).adds.value;
    } else {
      var triggers := Table(row).triggers;
      var i :| 0 <= i < |triggers| && reaches(triggers[i]);
      s := triggers[i];
    }
    assert IsClassOf(row, s);
    ClassificationKeepsAndAdds(e, s);
  }

  /** The sentinel added to an error with a single cause. */
  function AddedTo(cause: Sentinel): Option<Sentinel> {
    match cause
    case LibTokenMalformed => Some(JwtMalformedToken)
    case JwtInvalidHeader => Some(JwtMalformedToken)
    case LibTokenExpired => Some(JwtExpiredToken)
    case LibTokenNotValidYet => Some(JwtNotYetValid)
    case LibTokenUsedBeforeIssued => Some(JwtIssuedInFuture)
    case LibTokenSignatureInvalid => Some(JwtInvalidSignature)
    case LibTokenRequiredClaimMissing => Some(JwtInvalidClaims)
    case LibTokenInvalidAudience => Some(JwtInvalidClaims)
    case LibTokenInvalidIssuer => Some(JwtInvalidClaims)
    case LibTokenInvalidSubject => Some(JwtInvalidClaims)
    case LibTokenInvalidClaims => Some(JwtInvalidClaims)
    case ContextCanceled => None
    case ContextDeadlineExceeded => None
    case JwtUnknownKey => None
    case JwtMissingKeyID => None
    case JwtUnexpectedAlgorithm => None
    case JwtKeyUnavailable => None
    case JwtInvalidKey => None
    case _ => Some(JwtVerify)
  }

  /** Where a cause is looked for: cancellation before everything, a malformed token before any claim, the times before
      the signature, the signature before other claims, and all of them before a key error. */
  function Stage(cause: Sentinel): nat {
    match cause
    case ContextCanceled => 0
    case ContextDeadlineExceeded => 0
    case LibTokenMalformed => 1
    case JwtInvalidHeader => 1
    case LibTokenExpired => 2
    case LibTokenNotValidYet => 3
    case LibTokenUsedBeforeIssued => 4
    case LibTokenSignatureInvalid => 5
    case LibTokenRequiredClaimMissing => 6
    case LibTokenInvalidAudience => 6
    case LibTokenInvalidIssuer => 6
    case LibTokenInvalidSubject => 6
    case LibTokenInvalidClaims => 6
    case JwtUnknownKey => 7
    case JwtMissingKeyID => 7
    case JwtUnexpectedAlgorithm => 7
    case JwtKeyUnavailable => 7
    case JwtInvalidKey => 7
    case _ => 8
  }

  /** Of all the causes an error reaches, one of the earliest stage decides: a caller finds the causes and the class of
      that one, and nothing else. */
  lemma EarliestStageDecides(e: Error, first: Sentinel)
    requires Is(e, first) && forall s :: Is(e, s) ==> Stage(first) <= Stage(s)
    ensures forall s :: Is(ClassifyVerifyError(e), s) <==> Is(e, s) || AddedTo(first) == Some(s)
  {
    ClassOfEarliest(Reaches(e), first);
  }

  /** No cause of an earlier stage than the given one. */
  ghost predicate NoneBefore(stage: nat, reaches: Sentinel -> bool) {
    forall s :: reaches(s) ==> stage <= Stage(s)
  }

  lemma ClassOfEarliest(reaches: Sentinel -> bool, first: Sentinel)
    requires reaches(first) && NoneBefore(Stage(first), reaches)
    ensures Class(reaches) == AddedTo(first)
  {
    var stage := Stage(first);
    if stage <= 3 {
      ClassOfEarly(reaches, first);
    } else {
      NoEarlyCauses(reaches, stage);
      ClassOfLate(reaches, first);
    }
  }

  lemma ClassOfEarly(reaches: Sentinel -> bool, first: Sentinel)
    requires reaches(first) && Stage(first) <= 3 && NoneBefore(Stage(first), reaches)
    ensures Class(reaches) == AddedTo(first)
  {
    assert Stage(first) > 0 ==> !reaches(ContextCanceled) && !reaches(ContextDeadlineExceeded);
    assert Stage(first) > 1 ==> !reaches(LibTokenMalformed) && !reaches(JwtInvalidHeader);
    assert Stage(first) > 2 ==> !reaches(LibTokenExpired);
  }

  lemma NoEarlyCauses(reaches: Sentinel -> bool, stage: nat)
    requires stage > 3 && NoneBefore(stage, reaches)
    ensures !reaches(ContextCanceled) && !reaches(ContextDeadlineExceeded)
    ensures !reaches(LibTokenMalformed) && !reaches(JwtInvalidHeader)
    ensures !reaches(LibTokenExpired) && !reaches(LibTokenNotValidYet)
  {
  }

  lemma ClassOfLate(reaches: Sentinel -> bool, first: Sentinel)
    requires reaches(first) && Stage(first) > 3 && NoneBefore(Stage(first), reaches)
    requires !reaches(ContextCanceled) && !reaches(ContextDeadlineExceeded)
    requires !reaches(LibTokenMalformed) && !reaches(JwtInvalidHeader)
    requires !reaches(LibTokenExpired) && !reaches(LibTokenNotValidYet)
    ensures Class(reaches) == AddedTo(first)
  {
    var stage := Stage(first);
    assert stage > 4 ==> !reaches(LibTokenUsedBeforeIssued);
    assert stage > 5 ==> !reaches(LibTokenSignatureInvalid);
    if stage <= 6 {
      assert stage == 6 ==> AddedTo(first) == Some(JwtInvalidClaims);
    } else {
      assert !reaches(LibTokenRequiredClaimMissing) && !reaches(LibTokenInvalidAudience);
      assert !reaches(LibTokenInvalidIssuer) && !reaches(LibTokenInvalidSubject) && !reaches(LibTokenInvalidClaims);
      KeyCausesAreLast(reaches, first);
    }
  }

  lemma KeyCausesAreLast(reaches: Sentinel -> bool, first: Sentinel)
    requires reaches(first) && Stage(first) > 6 && NoneBefore(Stage(first), reaches)
    ensures (reaches(JwtUnknownKey) || reaches(JwtMissingKeyID) || reaches(JwtUnexpectedAlgorithm)
             || reaches(JwtKeyUnavailable) || reaches(JwtInvalidKey)) <==> AddedTo(first).None?
    ensures AddedTo(first).Some? ==> AddedTo(first).value == JwtVerify
  {
  }
}
