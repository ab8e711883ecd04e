/** `get_num_field_mock_value`: the random number generated for a numeric
    model field, drawn from a range derived from the field's validators. */
module MockValues {
  import opened Wrappers

  /** A field validator: `MinValueValidator`, `MaxValueValidator`, or any
      other kind. Limits are integers. */
  datatype Validator = MinValue(limit: int) | MaxValue(limit: int) | OtherValidator

  /** `random.randint(low, high)` raises ValueError when the range is empty. */
  datatype MockError = EmptyRange(low: int, high: int)

  predicate IsLimit(v: Validator) {
    v.MinValue? || v.MaxValue?
  }

  /** The value passes the validator. */
  predicate Accepts(v: Validator, x: int) {
    match v
    case MinValue(m) => x >= m
    case MaxValue(m) => x <= m
    case OtherValidator => true
  }

  /** Exactly two validators, both limits: they alone decide the range. */
  predicate LimitPair(validators: seq<Validator>) {
    |validators| == 2 && IsLimit(validators[0]) && IsLimit(validators[1])
  }

  /** The closed range `randint` is called with. */
  function MockRange(validators: seq<Validator>): (r: Result<(int, int), MockError>)
    ensures r.Success? ==> r.value.0 <= r.value.1
    ensures r.Failure? <==> (!LimitPair(validators) && |validators| > 0
                             && validators[0].MaxValue? && validators[0].limit < 1)
    ensures |validators| == 0 ==> r == Success((1, 9))
    ensures LimitPair(validators) ==>
      r.Success? && {r.value.0, r.value.1} == {validators[0].limit, validators[1].limit}
    ensures !LimitPair(validators) && |validators| > 0 && validators[0].MinValue? ==>
      r == Success((validators[0].limit, validators[0].limit + 9))
    ensures !LimitPair(validators) && |validators| > 0 && validators[0].MaxValue? && validators[0].limit >= 1 ==>
      r == Success((1, validators[0].limit))
    ensures |validators| > 0 && validators[0].OtherValidator? ==> r == Success((1, 9))
  {
    if |validators| > 0 then
      if LimitPair(validators) then
        var a := validators[0].limit;
        var b := validators[1].limit;
        if a <= b then Success((a, b)) else Success((b, a))
      else
        match validators[0]
        case MinValue(m) => Success((m, m + 9))
        case MaxValue(m) => if 1 <= m then Success((1, m)) else Failure(EmptyRange(1, m))
        case OtherValidator => Success((1, 9))
    else Success((1, 9))
  }

  /** Draws the mock value. The random choice is any member of the range.
      When a single validator decides the range, the value passes it; when a
      minimum and a maximum validator decide it, the value passes both,
      provided the minimum does not exceed the maximum. */
  method NumFieldMockValue(validators: seq<Validator>) returns (r: Result<int, MockError>)
    ensures r.Success? <==> MockRange(validators).Success?
    ensures r.Failure? ==> r == Failure(MockRange(validators).error)
    ensures r.Success? ==> MockRange(validators).value.0 <= r.value <= MockRange(validators).value.1
    ensures r.Success? && (|validators| == 0 || validators[0].OtherValidator?) ==> 1 <= r.value <= 9
    ensures r.Success? && |validators| > 0 && !LimitPair(validators) ==> Accepts(validators[0], r.value)
    ensures r.Success? && LimitPair(validators) && validators[0].MinValue? != validators[1].MinValue?
      && (validators[0].MinValue? ==> validators[0].limit <= validators[1].limit)
      && (validators[1].MinValue? ==> validators[1].limit <= validators[0].limit)
      ==> Accepts(validators[0], r.value) && Accepts(validators[1], r.value)
  {
    var range := MockRange(validators);
    if range.Failure? {
      return Failure(range.error);
    }
    var (low, high) := range.value;
    var x :| low <= x <= high;
    return Success(x);
  }

  /** Two validators of the same kind still give a range between their limits,
      so the value may fail the stricter one: with minimums 3 and 5 the value
      3 can be drawn. */
  lemma SameKindPairIgnoresStricterLimit()
    ensures MockRange([MinValue(3), MinValue(5)]) == Success((3, 5))
    ensures !Accepts(MinValue(5), 3)
  {
  }

  /** An inverted pair, a minimum above the maximum, is sorted into a range
      between the two limits, so the value may fail both validators: with
      minimum 5 and maximum 3 the value 4 can be drawn. */
  lemma InvertedPairFailsBoth()
    ensures MockRange([MinValue(5), MaxValue(3)]) == Success((3, 5))
    ensures !Accepts(MinValue(5), 4) && !Accepts(MaxValue(3), 4)
  {
  }
}
