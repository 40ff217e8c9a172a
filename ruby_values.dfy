/**
 * Ruby values as the serializer and the component see them: the scalar
 * classes that receive a `react_serializer` in lib/reactive-ruby/serializers.rb,
 * arrays, and insertion-ordered hashes.
 */
module RubyValues {

  /** Instances of the scalar classes TrueClass, FalseClass, NilClass, Float,
      String, Symbol, Time, Integer and BigDecimal. */
  datatype Scalar =
    | Bool(b: bool)
    | Nil
    | Float(x: real)
    | Str(s: string)
    | Sym(name: string)
    | Time(seconds: real)
    | Int(i: int)
    | Decimal(d: real)

  /** A Ruby value. A Hash keeps its entries in insertion order; keys are
      compared with Ruby's `eql?`, modelled as equality of values. */
  datatype Value =
    | Scalar(scalar: Scalar)
    | Arr(items: seq<Value>)
    | Hash(entries: seq<(Value, Value)>)

  /** Ruby truthiness: everything except `nil` and `false` is true. */
  predicate Truthy(v: Value) {
    v != Scalar(Nil) && v != Scalar(Bool(false))
  }
}
