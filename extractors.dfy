/**
 * The bounded integer extractors of the glomerular-filtration-rate calculator
 * (app/skf/handlers/get_number_creatinine_age.py): a text is accepted only when
 * it is a non-empty string of digits whose decimal value lies in a fixed
 * inclusive range; anything else yields `None`.
 */
module Extractors {
  import opened Wrappers
  import opened Decimal
  import Memo

  const AgeMin: nat := 18
  const AgeMax: nat := 100
  const CreatinineMin: nat := 0
  const CreatinineMax: nat := 1000

  /** Both extractors are decorated with `lru_cache(maxsize=3)`. */
  const CacheSize: nat := 3

  /** The shared shape of both extractors: `int(user)` if `user.isdigit()` and `lo <= int(user) <= hi`. */
  function ExtractInRange(user: string, lo: nat, hi: nat): (r: Option<nat>)
    ensures r.Some? ==> IsDigitString(user) && DecimalValue(user) == r.value && lo <= r.value <= hi
    ensures r.None? ==> !IsDigitString(user) || DecimalValue(user) < lo || hi < DecimalValue(user)
  {
    if IsDigitString(user) && lo <= DecimalValue(user) <= hi then Some(DecimalValue(user)) else None
  }

  /** `get_answer_age`: an age between 18 and 100 written with digits only. */
  function GetAnswerAge(user: string): (r: Option<nat>)
    ensures r.Some? ==> AgeMin <= r.value <= AgeMax
    ensures r.Some? ==> IsDigitString(user) && DecimalValue(user) == r.value
    ensures !IsDigitString(user) ==> r == None
  {
    ExtractInRange(user, AgeMin, AgeMax)
  }

  /** `get_answer_creatinine`: a creatinine value between 0 and 1000 written with digits only. */
  function GetAnswerCreatinine(user: string): (r: Option<nat>)
    ensures r.Some? ==> CreatinineMin <= r.value <= CreatinineMax
    ensures r.Some? ==> IsDigitString(user) && DecimalValue(user) == r.value
    ensures !IsDigitString(user) ==> r == None
  {
    ExtractInRange(user, CreatinineMin, CreatinineMax)
  }

  /**
   * What an extractor accepts, stated on characters: `user` yields `v` exactly
   * when `v` is in range and `user` is `v` written in decimal behind any number
   * of leading zeros.
   */
  lemma ExtractInRangeExactly(user: string, lo: nat, hi: nat, v: nat)
    ensures ExtractInRange(user, lo, hi) == Some(v) <==>
            lo <= v <= hi && exists k :: user == Zeros(k) + ShowNat(v)
  {
    ReadsAs(user, v);
  }

  /** Age: soundness and completeness against the decimal rendering of the value. */
  lemma AgeAcceptsExactly(user: string, v: nat)
    ensures GetAnswerAge(user) == Some(v) <==>
            18 <= v <= 100 && exists k :: user == Zeros(k) + ShowNat(v)
  {
    ExtractInRangeExactly(user, AgeMin, AgeMax, v);
  }

  /** Every age in range, written canonically or with leading zeros, is accepted. */
  lemma AgeComplete(k: nat, v: nat)
    requires 18 <= v <= 100
    ensures GetAnswerAge(Zeros(k) + ShowNat(v)) == Some(v)
  {
    AgeAcceptsExactly(Zeros(k) + ShowNat(v), v);
  }

  /** Creatinine: soundness and completeness against the decimal rendering of the value. */
  lemma CreatinineAcceptsExactly(user: string, v: nat)
    ensures GetAnswerCreatinine(user) == Some(v) <==>
            v <= 1000 && exists k :: user == Zeros(k) + ShowNat(v)
  {
    ExtractInRangeExactly(user, CreatinineMin, CreatinineMax, v);
  }

  /** The lower bound `0 <=` never rejects: creatinine acceptance is "digits and at most 1000". */
  lemma CreatinineLowerBoundVacuous(user: string)
    ensures GetAnswerCreatinine(user).Some? <==> IsDigitString(user) && DecimalValue(user) <= 1000
  {
  }

  /** The worked examples in the comments after `get_answer_age`. */
  lemma AgeExamples()
    ensures GetAnswerAge("45") == Some(45)
    ensures GetAnswerAge("fghvkf") == None
    ensures GetAnswerAge("-lklkl120") == None
    ensures GetAnswerAge("120") == None
  {
    assert "fghvkf"[0] == 'f' && !IsDigit('f');
    assert "-lklkl120"[0] == '-' && !IsDigit('-');
    assert "120"[..2] == "12" && "12"[..1] == "1" && "45"[..1] == "4";
    assert DecimalValue("12") == 12;
    assert DecimalValue("120") == 120;
  }

  /** A leading zero is accepted, and the empty string is not. */
  lemma AgeEdgeExamples()
    ensures GetAnswerAge("045") == Some(45)
    ensures GetAnswerAge("") == None
  {
    assert "045"[..2] == "04" && "04"[..1] == "0";
    assert DecimalValue("04") == 4;
    assert DecimalValue("045") == 45;
  }

  /** Both ends of the creatinine range are accepted and one past the top is not. */
  lemma CreatinineExamples()
    ensures GetAnswerCreatinine("0") == Some(0)
    ensures GetAnswerCreatinine("1000") == Some(1000)
    ensures GetAnswerCreatinine("1001") == None
  {
    assert "1000"[..3] == "100" && "1001"[..3] == "100";
    assert "100"[..2] == "10" && "10"[..1] == "1";
    assert DecimalValue("10") == 10;
    assert DecimalValue("100") == 100;
    assert DecimalValue("1000") == 1000;
    assert DecimalValue("1001") == 1001;
  }

  /** Through its cache, `get_answer_age` answers every call of a sequence as the bare function would. */
  lemma AgeCacheTransparent(calls: seq<string>, i: nat)
    requires i < |calls|
    ensures Memo.Run(Memo.Empty(CacheSize), GetAnswerAge, calls).0[i] == GetAnswerAge(calls[i])
  {
  }

  /** Through its cache, `get_answer_creatinine` answers every call as the bare function would. */
  lemma CreatinineCacheTransparent(calls: seq<string>, i: nat)
    requires i < |calls|
    ensures Memo.Run(Memo.Empty(CacheSize), GetAnswerCreatinine, calls).0[i] == GetAnswerCreatinine(calls[i])
  {
  }
}
