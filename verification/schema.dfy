/** Message schemas: the JSON-Schema-like descriptions generated from JSIDL
    that drive the serializer. A schema's `properties` are walked in
    order; each property's kind is the branch the serializer takes for it,
    decided from its `type` and the attributes it carries. */
module Schemas {
  import opened Results
  import opened Wire

  /** `bitRange`: the bits `from..to` of the enclosing word (AS5684). */
  datatype BitRange = BitRange(from: nat, to: nat)

  /** One entry of a `valueSet`: a named enumerant or some other entry
      (a value range), which the serializer ignores. */
  datatype Enumerant = ValueEnum(enumIndex: int, enumConst: string) | OtherEntry

  datatype Schema = Schema(properties: seq<Property>, required: seq<string>)

  datatype Property = Property(name: string, kind: Kind)

  datatype Kind =
      /** `type: number` with a `jausType`; a property named
          `presenceVector` is the record's presence vector. */
    | Number(jausType: JausType, bitRange: Option<BitRange>)
      /** `type: string` with a hex `const`, for a property whose name is
          `MessageID`: both directions take this branch only under that
          name, which the kind stands for (the name is `Property.name`). */
    | MessageId(jausType: JausType, hexConst: string)
      /** `type: string` with `enum` and `valueSet`; `jausType` is the word. */
    | ValueSet(jausType: JausType, valueSet: seq<Enumerant>, bitRange: Option<BitRange>)
      /** `type: string` with `minLength == maxLength`. */
    | FixedString(length: nat)
      /** `type: string` with `minLength != maxLength`; `jausType` is the
          length prefix. */
    | VarString(jausType: JausType, maxLength: nat)
      /** `type: string` with none of the attributes above. */
    | PlainString(jausType: JausType)
      /** `type: object` without `fieldFormat` or `bitField`. */
    | Record(body: Schema)
      /** `type: object` with `bitField`: sub-fields packed into one word. */
    | BitField(fieldType: JausType, body: Schema)
      /** `type: array` with a `jausType` count prefix: a list, or a variant
          whose count selects one of `items.anyOf`. `isVariant` is `None`
          when the schema has no such attribute: the encoder's `not
          property.isVariant` then raises, while the decoder's `hasattr`
          test reads a list. */
    | CountedArray(jausType: JausType, isVariant: Option<bool>, anyOf: seq<Schema>)
      /** `type: array` without `jausType`; `isVariant` as for a counted
          array. */
    | FixedArray(minItems: nat, maxItems: nat, isVariant: Option<bool>, anyOf: seq<Schema>)
      /** any other `type`: logged and skipped by both directions. */
    | OtherType

  const PresenceVectorName := "presenceVector"

  predicate IsRequired(s: Schema, name: string) {
    name in s.required
  }

  /** Property names are the keys of a JSON object, hence distinct: no
      later property repeats the first one's name, and so on down the list. */
  predicate DistinctNames(props: seq<Property>)
    decreases |props|
  {
    |props| == 0 ||
    ((forall b :: 1 <= b < |props| ==> props[b].name != props[0].name) && DistinctNames(props[1..]))
  }

  lemma {:induction false} DistinctNamesAt(props: seq<Property>, a: nat, b: nat)
    requires DistinctNames(props) && a < b < |props|
    ensures props[a].name != props[b].name
    decreases a
  {
    if a > 0 {
      DistinctNamesAt(props[1..], a - 1, b - 1);
    }
  }

  /** A message type of the registry: the schema under its `title`. */
  datatype Message = Message(title: string, schema: Schema)
}
