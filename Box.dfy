/** Stl.Internal.Box<T>: a mutable cell with a typed and an untyped view of its one value. */
module Internal {

  /** A T converted to `object?`: what the untyped `IBox.Value` view hands out and takes in. */
  datatype Boxed<T> = Boxed(content: T)

  class Box<T> {
    /** The auto-property `Value`; reading it is reading this field. */
    var value: T

    /** `Box(T value)`. */
    constructor (value: T)
      ensures this.value == value
    {
      this.value := value;
    }

    /** `Box()`, which stores `default(T)`; the default is passed in because a generic
        Dafny type has no expressible default value. */
    constructor Empty(defaultOfT: T)
      ensures value == defaultOfT
    {
      value := defaultOfT;
    }

    /** The typed setter of `Value`. */
    method SetValue(v: T)
      modifies this
      ensures value == v
    {
      value := v;
    }

    /** The getter of the explicit `IBox.Value`: the typed value, boxed. */
    function UntypedValue(): (o: Boxed<T>)
      reads this
      ensures o.content == value
    {
      Boxed(value)
    }

    /** The setter of the explicit `IBox.Value`: casts back to T and stores into `Value`. */
    method SetUntypedValue(o: Boxed<T>)
      modifies this
      ensures value == o.content
      ensures UntypedValue() == o
    {
      value := o.content;
    }
  }

  /** `Box.New(value)`. */
  method New<T>(value: T) returns (b: Box<T>)
    ensures fresh(b)
    ensures b.value == value && b.UntypedValue() == Boxed(value)
  {
    b := new Box(value);
  }
}
