/** The XAML value converters: each Convert tests the boxed value's type and answers a
    boxed bool; only the inverted-bool converter converts back, the others throw. */
module Converters {
  import opened Wrappers
  import opened Exceptions
  import opened Text

  /** A boxed binding value, as far as the converters tell values apart. `Other` stands for
      any other object, with the text its ToString() returns. */
  datatype Value = Null | Bool(b: bool) | Int(n: int) | Str(s: string) | Other(text: string)

  /** value?.ToString(): bool prints as "True"/"False", int in decimal. */
  function ToText(v: Value): Option<string> {
    match v
    case Null => None
    case Bool(b) => Some(if b then "True" else "False")
    case Int(n) => Some(IntToString(n))
    case Str(s) => Some(s)
    case Other(text) => Some(text)
  }

  /** string.IsNullOrWhiteSpace. */
  predicate NullOrWhiteSpace(s: Option<string>) {
    s.None? || IsBlank(s.value)
  }

  datatype Converter = InvertedBoolConverter | CountToBoolConverter | InvertedCountToBoolConverter | StringToBoolConverter
  {
    /** Convert, whose answer is always a boxed bool. */
    function Convert(v: Value): (r: Value)
      ensures r.Bool?
    {
      match this
      case InvertedBoolConverter => Bool(if v.Bool? then !v.b else false)
      case CountToBoolConverter => Bool(if v.Int? then v.n > 0 else false)
      case InvertedCountToBoolConverter => Bool(if v.Int? then v.n == 0 else true)
      case StringToBoolConverter => Bool(!NullOrWhiteSpace(ToText(v)))
    }

    /** ConvertBack: the inverted-bool converter inverts again, the others throw
        NotImplementedException. */
    function ConvertBack(v: Value): Result<Value, Exception> {
      match this
      case InvertedBoolConverter => Success(Bool(if v.Bool? then !v.b else false))
      case _ => Failure(NotImplementedException)
    }
  }

  /** The inverted-bool converter negates a bool and answers false for anything else. */
  lemma InvertedBoolNegates(v: Value)
    ensures InvertedBoolConverter.Convert(v) == Bool(v.Bool? && !v.b)
  {
  }

  /** Converting a bool back undoes converting it. */
  lemma InvertedBoolRoundTrip(b: bool)
    ensures InvertedBoolConverter.ConvertBack(InvertedBoolConverter.Convert(Bool(b))) == Success(Bool(b))
  {
  }

  /** Every converter but the inverted-bool one throws NotImplementedException on the way
      back, whatever the value. */
  lemma OnlyInvertedBoolConvertsBack(c: Converter, v: Value)
    ensures c.ConvertBack(v).Failure? <==> c != InvertedBoolConverter
    ensures c.ConvertBack(v).Failure? ==> c.ConvertBack(v).error == NotImplementedException
  {
  }

  /** The count converter answers true exactly for a positive int. */
  lemma CountToBoolIsPositive(v: Value)
    ensures CountToBoolConverter.Convert(v).b <==> v.Int? && v.n > 0
  {
  }

  /** The inverted count converter is the complement of the count converter except on a
      negative int, where both answer false. */
  lemma InvertedCountComplements(v: Value)
    ensures InvertedCountToBoolConverter.Convert(v).b == !CountToBoolConverter.Convert(v).b
        <==> !(v.Int? && v.n < 0)
    ensures v.Int? && v.n < 0 ==>
      !InvertedCountToBoolConverter.Convert(v).b && !CountToBoolConverter.Convert(v).b
  {
  }

  /** The string converter answers false exactly for null, or for a value whose text is
      empty or white space; a bool or an int is always true. */
  lemma StringToBoolIsNotBlank(v: Value)
    ensures !StringToBoolConverter.Convert(v).b <==> v.Null? || IsBlank(ToText(v).value)
    ensures v.Bool? || v.Int? ==> StringToBoolConverter.Convert(v).b
  {
    if v.Bool? {
      var t := ToText(v).value;
      assert !IsWhiteSpace(t[0]);
    }
    if v.Int? {
      IntToStringNotBlank(v.n);
    }
  }
}
