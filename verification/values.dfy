/** The runtime values that flow through a stream. Java's generics are
    erased, so the model uses one dynamically typed universe of values,
    including `null`, and the `Group` objects that `groupBy` produces. */
module Values {

  datatype Value =
    | Null
    | Int(i: int)
    | Str(s: string)
    | Group(key: Value, members: seq<Value>)

  /** The runtime classes a `Class<C>` argument can name. */
  datatype Class = ObjectClass | IntegerClass | StringClass | GroupClass

  /** `Class.isInstance`: false for `null`, otherwise a runtime class test. */
  predicate IsInstance(c: Class, v: Value) {
    match v
    case Null => false
    case Int(_) => c == ObjectClass || c == IntegerClass
    case Str(_) => c == ObjectClass || c == StringClass
    case Group(_, _) => c == ObjectClass || c == GroupClass
  }

  /** The `Group` object for a (key, members) pair. */
  function AsGroup(g: (Value, seq<Value>)): Value {
    Group(g.0, g.1)
  }
}
