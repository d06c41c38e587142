/** The value types of the engine: bound data, the data map, parsed nodes. */
module TinjaTypes {

  /**
   * One bound value. `StringRef` and `StringRefs` refer to strings the caller owns;
   * the model keeps the referred-to text by value.
   */
  datatype Data =
    | String(str: string)
    | StringRef(str: string)
    | Strings(items: seq<string>)
    | StringRefs(items: seq<string>)
  {
    /** Bound to a vector, so rendering indexes it with the current loop index. */
    predicate IsSequence() { Strings? || StringRefs? }
  }

  /** Variable name to bound value; lookup ignores insertion order. */
  type DataMap = map<string, Data>

  /**
   * A parsed node: literal text, a `{{name}}` placeholder, or a `{[ ... ]}` section
   * whose body was parsed into a nested node list.
   */
  datatype Node =
    | Text(text: string)
    | Variable(name: string)
    | Section(body: seq<Node>)

  /** The one failure rendering can raise: `std::vector::at` past the end. */
  datatype RenderError = OutOfRange
}
