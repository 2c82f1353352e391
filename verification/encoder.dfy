/** `_addProperties`: JSON to JAUS payload bytes, walking a schema's
    properties in order. A Python exception becomes a `Stop` that keeps the
    bytes already appended to the message payload, because `pack` leaves
    them there. */
module Encoder {
  import opened Results
  import opened Bits
  import opened Wire
  import opened Text
  import opened Json
  import opened Schemas
  import Presence

  datatype EncodeError =
    | StructFailure(name: string, cause: StructError)  // struct.error from a pack
    | MissingAttribute(name: string)                   // AttributeError from getattr
    | NotAnInteger(name: string)                       // a non-integer packed or shifted
    | NotText(name: string)                            // ljust / len on a non-string
    | NotSized(name: string)                           // TypeError: len of a non-sequence
    | NoVariantFlag(name: string)                      // AttributeError: isVariant
    | NonAsciiText(name: string)                       // text outside this model
    | UnboundArray(name: string)                       // UnboundLocalError: arrayObj
    | BadHexConst(name: string)                        // ValueError from int(const, 16)
    | NoItemSchema(name: string)                       // IndexError: items.anyOf[0]
    | FixedArrayUnsupported(name: string)              // AttributeError: jausType of a fixed array
    | StrNotBytes(name: string)                        // struct.error: 's' needs bytes

  /** An exception raised after `written` had been appended. */
  datatype Stop = Stop(written: seq<byte>, why: EncodeError)

  /** What one property contributes: its bytes, its addition to the
      `bitFieldValue` accumulator and the `arrayObj` local after it. */
  datatype Step = Step(bytes: seq<byte>, bitField: int, arrayObj: Option<Value>)

  /** The bytes of a whole record and the accumulator `_addProperties` returns. */
  datatype Encoded = Encoded(bytes: seq<byte>, bitField: int)

  /** The last `valueEnum` whose `enumConst` is `c` gives the index. */
  function EnumIndexOf(vs: seq<Enumerant>, c: string, default: int): int {
    EnumIndexBefore(vs, c, default, |vs|)
  }

  /** `EnumIndexOf` over the first `n` enumerants. */
  function EnumIndexBefore(vs: seq<Enumerant>, c: string, default: int, n: nat): (r: int)
    requires n <= |vs|
    ensures (forall k :: 0 <= k < n ==> !(vs[k].ValueEnum? && vs[k].enumConst == c)) ==> r == default
    ensures (exists k :: 0 <= k < n && vs[k].ValueEnum? && vs[k].enumConst == c) ==>
      exists k :: 0 <= k < n && vs[k].ValueEnum? && vs[k].enumConst == c && r == vs[k].enumIndex
        && forall k' :: k < k' < n ==> !(vs[k'].ValueEnum? && vs[k'].enumConst == c)
  {
    if n == 0 then default
    else if vs[n - 1].ValueEnum? && vs[n - 1].enumConst == c then vs[n - 1].enumIndex
    else EnumIndexBefore(vs, c, default, n - 1)
  }

  /** The word a value-set property packs: an integer passes through, a
      name maps to its enumerant's index, anything else (absent, unknown
      name, another JSON type) gives 0. */
  function ValueSetIndex(vs: seq<Enumerant>, j: Value, name: string): (r: int)
    ensures !Has(j, name) ==> r == 0
    ensures Has(j, name) && Get(j, name).Int? ==> r == Get(j, name).i
    ensures Has(j, name) && Get(j, name).Str? ==> r == EnumIndexOf(vs, Get(j, name).s, 0)
    ensures Has(j, name) && !Get(j, name).Int? && !Get(j, name).Str? ==> r == 0
  {
    if !Has(j, name) then 0
    else
      match Get(j, name)
      case Int(x) => x
      case Str(c) => EnumIndexOf(vs, c, 0)
      case _ => 0
  }

  function PackOrStop(name: string, t: JausType, v: int, written: seq<byte>): (r: Result<seq<byte>, Stop>)
    ensures r.Success? <==> InRange(t, v)
    ensures r.Success? ==> r.value == written + Pack(t, v).value
    ensures r.Failure? ==> r.error.written == written
  {
    match Pack(t, v)
    case Success(w) => Success(written + w)
    case Failure(e) => Failure(Stop(written, StructFailure(name, e)))
  }

  /** A `number` property. The presence vector is generated from the JSON;
      any other number is packed from the JSON, as 0 when it is absent but
      required, and not at all when it is absent and optional (or null).
      With a `bitRange`, the value is still packed and its shift by `from`
      is added to the bit-field accumulator. */
  function EncodeNumber(s: Schema, name: string, t: JausType, br: Option<BitRange>, j: Value): (r: Result<seq<byte>, Stop>)
    requires name == PresenceVectorName ==> br.None?
    ensures name == PresenceVectorName ==> r == PackOrStop(name, t, Presence.Generate(s, j), [])
    ensures name != PresenceVectorName && Has(j, name) && Get(j, name).Int? ==>
      r == PackOrStop(name, t, Get(j, name).i, [])
    ensures name != PresenceVectorName && !Has(j, name) && IsRequired(s, name) ==>
      r == PackOrStop(name, t, 0, [])
    ensures name != PresenceVectorName && !Has(j, name) && !IsRequired(s, name) ==> r == Success([])
    ensures name != PresenceVectorName && Has(j, name) && Get(j, name).Null? ==> r == Success([])
    ensures r.Success? ==> |r.value| == 0 || |r.value| == TypeSize(t)
  {
    if name == PresenceVectorName then PackOrStop(name, t, Presence.Generate(s, j), [])
    else
      var value := if Has(j, name) then Get(j, name) else if IsRequired(s, name) then Int(0) else Null;
      match value
      case Null => Success([])
      case Int(x) => PackOrStop(name, t, x, [])
      case _ => Failure(Stop([], NotAnInteger(name)))
  }

  /** The bit-field accumulator's addition for a `number` with a `bitRange`
      (`value >> from` when the JSON has the property); `None` is the
      TypeError of shifting a non-integer. */
  function NumberBitField(name: string, br: BitRange, j: Value): (r: Option<int>)
    ensures !Has(j, name) ==> r == Some(0)
    ensures Has(j, name) ==> (r.Some? <==> Get(j, name).Int?)
    ensures Has(j, name) && Get(j, name).Int? ==> r == Some(Shr(Get(j, name).i, br.from))
  {
    if !Has(j, name) then Some(0)
    else match Get(j, name)
      case Int(x) => Some(Shr(x, br.from))
      case _ => None
  }

  /** A fixed-length string: exactly `n` bytes, the text NUL-padded or cut
      to `n`; an absent property is the empty text. */
  function EncodeFixedString(name: string, n: nat, j: Value): (r: Result<seq<byte>, Stop>)
    ensures r.Success? ==> |r.value| == n
    ensures (!Has(j, name) || (Get(j, name).Str? && IsAscii(Get(j, name).s))) <==> r.Success?
    ensures r.Success? && Has(j, name) ==>
      forall k :: 0 <= k < n ==> r.value[k] == if k < |Get(j, name).s| then Get(j, name).s[k] as int else 0
    ensures r.Success? && !Has(j, name) ==> forall k :: 0 <= k < n ==> r.value[k] == 0
  {
    var v := if Has(j, name) then Get(j, name) else Str("");
    if !v.Str? then Failure(Stop([], NotText(name)))
    else match EncodeAscii(v.s)
      case None => Failure(Stop([], NonAsciiText(name)))
      case Some(b) => Success(NulPadded(b, n))
  }

  /** The fixed-length string branch exactly as the source writes it: the
      padded `str` goes to `struct.pack(f'{n}s', ...)`, which accepts only
      bytes, so any non-empty field raises. */
  function EncodeFixedStringAsWritten(name: string, n: nat, j: Value): (r: Result<seq<byte>, Stop>)
    ensures n > 0 ==> r.Failure?
    ensures n == 0 ==> (r.Success? <==> !Has(j, name) || Get(j, name).Str?)
  {
    var v := if Has(j, name) then Get(j, name) else Str("");
    if !v.Str? then Failure(Stop([], NotText(name)))
    else if n > 0 then Failure(Stop([], StrNotBytes(name)))
    else Success([])
  }

  /** A variable-length string: the prefix is `maxLength` (not the text's
      length), then the text cut to at most `maxLength` bytes. */
  function EncodeVarString(name: string, t: JausType, max: nat, j: Value): (r: Result<seq<byte>, Stop>)
    ensures r.Success? ==> InRange(t, max) && Pack(t, max).value <= r.value
    ensures !Has(j, name) && InRange(t, max) ==> r == Success(Pack(t, max).value)
    ensures Has(j, name) && Get(j, name).Str? && IsAscii(Get(j, name).s) && InRange(t, max) ==>
      r == Success(Pack(t, max).value + Truncate(EncodeAscii(Get(j, name).s).value, max))
  {
    var v := if Has(j, name) then Get(j, name) else Str("");
    var len := if v.Str? then |v.s| else if v.List? then |v.items| else -1;
    if len < 0 then Failure(Stop([], NotText(name)))
    else
      match PackOrStop(name, t, max, [])
      case Failure(st) => Failure(st)
      case Success(prefix) =>
        var n := Min(len, max);
        assert prefix == [] + Pack(t, max).value == Pack(t, max).value;
        if n == 0 then
          assert v.Str? && IsAscii(v.s) ==> Truncate(EncodeAscii(v.s).value, max) == [];
          assert prefix + [] == prefix;
          Success(prefix)
        else if v.List? then Failure(Stop(prefix, NotText(name)))
        else match EncodeAscii(v.s)
          case None => Failure(Stop(prefix, NonAsciiText(name)))
          case Some(b) => Success(prefix + Truncate(b, max))
  }

  /** The variable-length string branch exactly as the source writes it:
      the `maxLength` prefix is appended, then `struct.pack(f'{n}s', str)`
      raises for any non-empty text, leaving the prefix in the payload. */
  function EncodeVarStringAsWritten(name: string, t: JausType, max: nat, j: Value): (r: Result<seq<byte>, Stop>)
    ensures r.Success? ==> InRange(t, max) && r.value == Pack(t, max).value
    ensures Has(j, name) && Get(j, name).Str? && |Get(j, name).s| > 0 && max > 0 && InRange(t, max) ==>
      r == Failure(Stop(Pack(t, max).value, StrNotBytes(name)))
  {
    var v := if Has(j, name) then Get(j, name) else Str("");
    var len := if v.Str? then |v.s| else if v.List? then |v.items| else -1;
    if len < 0 then Failure(Stop([], NotText(name)))
    else
      match PackOrStop(name, t, max, [])
      case Failure(st) => Failure(st)
      case Success(prefix) =>
        assert prefix == [] + Pack(t, max).value == Pack(t, max).value;
        if Min(len, max) == 0 then Success(prefix)
        else Failure(Stop(prefix, StrNotBytes(name)))
  }

  /** Non-empty ASCII text that fits its field is written by the corrected
      string branches and makes both branches as written raise. */
  lemma TextAsWrittenFails(name: string, t: JausType, n: nat, text: string)
    requires IsAscii(text) && 0 < |text| <= n && InRange(t, n)
    ensures EncodeFixedString(name, n, Obj(map[name := Str(text)])).Success?
    ensures EncodeFixedStringAsWritten(name, n, Obj(map[name := Str(text)])).Failure?
    ensures EncodeVarString(name, t, n, Obj(map[name := Str(text)]))
      == Success(Pack(t, n).value + EncodeAscii(text).value)
    ensures EncodeVarStringAsWritten(name, t, n, Obj(map[name := Str(text)])).Failure?
  {
    var j := Obj(map[name := Str(text)]);
    assert Has(j, name) && Get(j, name) == Str(text);
  }

  /** `struct.pack(f'{n}s', b)` for `n = min(len(b), max)`: at most `max` bytes. */
  function Truncate(b: seq<byte>, max: nat): (r: seq<byte>)
    ensures |r| <= max && r <= b
    ensures |b| <= max ==> r == b
  {
    if |b| <= max then b else b[..max]
  }

  function Min(a: int, b: int): int {
    if a < b then a else b
  }

  /** What `len(arrayObj)` and `for item in arrayObj` see. */
  function ArrayItems(v: Value): (r: Option<seq<Value>>)
    ensures v.List? ==> r == Some(v.items)
    ensures v.Str? ==> r.Some? && |r.value| == |v.s|
    ensures !v.List? && !v.Str? ==> r.None?
  {
    match v
    case List(xs) => Some(xs)
    case Str(s) => Some(seq(|s|, k requires 0 <= k < |s| => Str([s[k]])))
    case _ => None
  }

  /** `_addProperties(jsonObj, message, schema)` on a fresh accumulator. */
  function EncodeRecord(s: Schema, j: Value): Result<Encoded, Stop>
    decreases s, 3, 0
  {
    EncodeFrom(s, j, 0, None)
  }

  function EncodeFrom(s: Schema, j: Value, i: nat, arrayObj: Option<Value>): Result<Encoded, Stop>
    requires i <= |s.properties|
    decreases s, 2, |s.properties| - i
  {
    if i == |s.properties| then Success(Encoded([], 0))
    else
      match EncodeProperty(s, i, j, arrayObj)
      case Failure(st) => Failure(st)
      case Success(step) =>
        match EncodeFrom(s, j, i + 1, step.arrayObj)
        case Failure(st) => Failure(Stop(step.bytes + st.written, st.why))
        case Success(e) => Success(Encoded(step.bytes + e.bytes, step.bitField + e.bitField))
  }

  /** One list item after another, each with the item schema. */
  function EncodeItems(t: Schema, items: seq<Value>, k: nat): Result<seq<byte>, Stop>
    requires k <= |items|
    decreases t, 4, |items| - k
  {
    if k == |items| then Success([])
    else
      match EncodeRecord(t, items[k])
      case Failure(st) => Failure(st)
      case Success(e) =>
        match EncodeItems(t, items, k + 1)
        case Failure(st) => Failure(Stop(e.bytes + st.written, st.why))
        case Success(b) => Success(e.bytes + b)
  }

  function Lift(r: Result<seq<byte>, Stop>, arrayObj: Option<Value>): Result<Step, Stop> {
    match r
    case Success(b) => Success(Step(b, 0, arrayObj))
    case Failure(st) => Failure(st)
  }

  function EncodeProperty(s: Schema, i: nat, j: Value, arrayObj: Option<Value>): Result<Step, Stop>
    requires i < |s.properties|
    decreases s, 1, 0
  {
    var p := s.properties[i];
    var name := p.name;
    match p.kind
    case Record(body) =>
      if !Has(j, name) then Failure(Stop([], MissingAttribute(name)))
      else
        (match EncodeRecord(body, Get(j, name))
         case Failure(st) => Failure(st)
         case Success(e) => Success(Step(e.bytes, 0, arrayObj)))
    case BitField(ft, body) =>
      if !Has(j, name) then Failure(Stop([], MissingAttribute(name)))
      else
        (match EncodeRecord(body, Get(j, name))
         case Failure(st) => Failure(st)
         case Success(e) => Lift(PackOrStop(name, ft, e.bitField, e.bytes), arrayObj))
    case Number(t, br) =>
      if name == PresenceVectorName then Lift(EncodeNumber(s, name, t, None, j), arrayObj)
      else EncodeBitRangeNumber(s, name, t, br, j, arrayObj)
    case MessageId(t, hex) =>
      (match ParseHex(hex)
       case None => Failure(Stop([], BadHexConst(name)))
       case Some(v) => Lift(PackOrStop(name, t, v, []), arrayObj))
    case ValueSet(t, vs, br) =>
      if Omitted(s, i, j) then Success(Step([], 0, arrayObj))
      else ValueSetAsWritten(name, t, vs, br, j, arrayObj)
    case FixedString(n) =>
      if Omitted(s, i, j) then Success(Step([], 0, arrayObj))
      else Lift(EncodeFixedString(name, n, j), arrayObj)
    case VarString(t, max) =>
      if Omitted(s, i, j) then Success(Step([], 0, arrayObj))
      else Lift(EncodeVarString(name, t, max, j), arrayObj)
    case PlainString(_) => Success(Step([], 0, arrayObj))
    case CountedArray(t, isVariant, anyOf) => EncodeList(name, t, isVariant, anyOf, j, arrayObj)
    case FixedArray(_, _, isVariant, _) =>
      var arr := if Has(j, name) then Some(Get(j, name)) else arrayObj;
      if isVariant.None? then Failure(Stop([], NoVariantFlag(name)))
      else if isVariant.value then Success(Step([], 0, arr))
      else Failure(Stop([], FixedArrayUnsupported(name)))
    case OtherType => Success(Step([], 0, arrayObj))
  }

  /** An optional property the object lacks, after a presence-vector
      field. The number branch writes nothing for it; the value-set and
      string branches as written still write a word, NULs or a length
      prefix although the generated presence vector marks the property
      absent and the decoder skips it. This model leaves such a property
      out of those branches too, so that the bytes agree with the vector.
      Before any presence-vector field the decoder reads every property, so
      there the branches write what the source writes. The field is found
      by its name alone, as `_generatePresenceVector` finds it; the decoder
      starts the vector only at a plain number of that name, which is the
      only presence-vector property a conforming schema has. */
  predicate Omitted(s: Schema, i: nat, j: Value)
    requires i < |s.properties|
  {
    var name := s.properties[i].name;
    !Has(j, name) && !IsRequired(s, name) && Presence.VectorBefore(s, i).Some?
  }

  /** The value-set branch as the source writes it: the word is the
      enumerant's index (0 when the property is absent), packed at the
      type's width, or shifted into the bit-field accumulator when the
      property has a `bitRange`. */
  function ValueSetAsWritten(name: string, t: JausType, vs: seq<Enumerant>, br: Option<BitRange>, j: Value,
                             arrayObj: Option<Value>): (r: Result<Step, Stop>)
    ensures r.Success? ==> r.value.arrayObj == arrayObj
    ensures br.Some? ==> r.Success? && r.value.bytes == [] && r.value.bitField == Shr(ValueSetIndex(vs, j, name), br.value.from)
    ensures br.None? ==> (r.Success? <==> InRange(t, ValueSetIndex(vs, j, name)))
    ensures br.None? && r.Success? ==>
      r.value.bitField == 0 && |r.value.bytes| == TypeSize(t) && Unpack(t, r.value.bytes) == Success(ValueSetIndex(vs, j, name))
    ensures br.None? && !Has(j, name) ==> r.Success? && Unpack(t, r.value.bytes) == Success(0)
  {
    var v := ValueSetIndex(vs, j, name);
    if br.Some? then Success(Step([], Shr(v, br.value.from), arrayObj))
    else if InRange(t, v) then
      PackThenUnpack(t, v);
      assert [] + Pack(t, v).value == Pack(t, v).value;
      Lift(PackOrStop(name, t, v, []), arrayObj)
    else Lift(PackOrStop(name, t, v, []), arrayObj)
  }

  /** A `number` other than the presence vector, with its optional
      bit-range contribution to the accumulator. */
  function EncodeBitRangeNumber(s: Schema, name: string, t: JausType, br: Option<BitRange>, j: Value,
                                arrayObj: Option<Value>): Result<Step, Stop>
    requires name != PresenceVectorName
  {
    match EncodeNumber(s, name, t, br, j)
    case Failure(st) => Failure(st)
    case Success(b) =>
      if br.None? then Success(Step(b, 0, arrayObj))
      else
        match NumberBitField(name, br.value, j)
        case None => Failure(Stop(b, NotAnInteger(name)))
        case Some(add) => Success(Step(b, add, arrayObj))
  }

  /** An `array` with a count prefix. `arrayObj` keeps its value from an
      earlier array of the same record when this one is absent; a variant
      writes nothing, and a schema without `isVariant` raises before
      anything is written. */
  function EncodeList(name: string, t: JausType, isVariant: Option<bool>, anyOf: seq<Schema>, j: Value,
                      arrayObj: Option<Value>): Result<Step, Stop>
    decreases anyOf, 0
  {
    var arr := if Has(j, name) then Some(Get(j, name)) else arrayObj;
    if isVariant.None? then Failure(Stop([], NoVariantFlag(name)))
    else if isVariant.value then Success(Step([], 0, arr))
    else if arr.None? then Failure(Stop([], UnboundArray(name)))
    else
      match ArrayItems(arr.value)
      case None => Failure(Stop([], NotSized(name)))
      case Some(items) =>
        match PackOrStop(name, t, |items|, [])
        case Failure(st) => Failure(st)
        case Success(prefix) =>
          if |items| == 0 then Success(Step(prefix, 0, arr))
          else if |anyOf| == 0 then Failure(Stop(prefix, NoItemSchema(name)))
          else
            match EncodeItems(anyOf[0], items, 0)
            case Failure(st) => Failure(Stop(prefix + st.written, st.why))
            case Success(b) => Success(Step(prefix + b, 0, arr))
  }
}
