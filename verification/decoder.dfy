/** `_getProperties`: JAUS payload bytes to JSON, walking a schema's
    properties in order from a byte index and returning the new index.
    After a `presenceVector` field, an optional property whose bit is clear
    is skipped without consuming bytes. */
module Decoder {
  import opened Results
  import opened Bits
  import opened Wire
  import opened Text
  import opened Json
  import opened Schemas

  datatype DecodeError =
    | StructFailure(name: string, cause: StructError)  // struct.error: short buffer
    | BadText(name: string)                            // UnicodeDecodeError
    | IndexBeforeStart(name: string)                   // a negative count past the payload's start
    | NoItemSchema(name: string)                       // IndexError: items.anyOf[0]
    | NoVariant(name: string, selector: int)           // IndexError: items.anyOf[n]

  /** `presenceVector` (None until read) and `presenceIndex` as `1 << bit`. */
  datatype PresenceState = PresenceState(vector: Option<int>, bit: nat)

  const NoVector := PresenceState(None, 0)

  /** The JSON object built so far and the payload index. */
  datatype Decoded = Decoded(fields: map<string, Value>, index: nat)

  datatype PropertyDecoded = PropertyDecoded(fields: map<string, Value>, index: nat, presence: PresenceState)

  /** The name of the last `valueEnum` whose `enumIndex` is `w`; `None`
      when no enumerant has that index. */
  function EnumName(vs: seq<Enumerant>, w: int): Option<string> {
    EnumNameBefore(vs, w, |vs|)
  }

  /** `EnumName` over the first `n` enumerants. */
  function EnumNameBefore(vs: seq<Enumerant>, w: int, n: nat): (r: Option<string>)
    requires n <= |vs|
    ensures r.None? <==> forall k :: 0 <= k < n ==> !(vs[k].ValueEnum? && vs[k].enumIndex == w)
    ensures r.Some? ==>
      exists k :: 0 <= k < n && vs[k].ValueEnum? && vs[k].enumIndex == w && r.value == vs[k].enumConst
        && forall k' :: k < k' < n ==> !(vs[k'].ValueEnum? && vs[k'].enumIndex == w)
  {
    if n == 0 then None
    else if vs[n - 1].ValueEnum? && vs[n - 1].enumIndex == w then Some(vs[n - 1].enumConst)
    else EnumNameBefore(vs, w, n - 1)
  }

  /** The word a typed field holds, or the bits of its `bitRange`; a bit
      range does not advance the index, a plain number advances it by
      exactly the type's width. */
  function DecodeNumber(name: string, t: JausType, br: Option<BitRange>, payload: seq<byte>, index: nat)
    : (r: Result<(int, nat), DecodeError>)
    ensures r.Success? <==> index + TypeSize(t) <= |payload|
    ensures r.Success? && br.None? ==>
      r.value.1 == index + TypeSize(t) && Unpack(t, payload[index..index + TypeSize(t)]) == Success(r.value.0)
    ensures r.Success? && br.Some? ==>
      r.value.1 == index
      && r.value.0 == ExtractBits(Unpack(t, payload[index..index + TypeSize(t)]).value, br.value.from, br.value.to)
  {
    match UnpackAt(t, payload, index)
    case Failure(e) => Failure(StructFailure(name, e))
    case Success(v) =>
      if br.Some? then Success((ExtractBits(v, br.value.from, br.value.to), index))
      else Success((v, index + TypeSize(t)))
  }

  /** A fixed-length string: exactly `n` bytes are consumed (a short
      buffer gives fewer), decoded, and trailing NULs dropped. */
  function DecodeFixedString(name: string, n: nat, payload: seq<byte>, index: nat): (r: Result<string, DecodeError>)
    ensures r.Success? <==> AllAscii(Slice(payload, index, index + n))
    ensures r.Success? ==> |r.value| <= n && (|r.value| == 0 || r.value[|r.value| - 1] != '\0')
    ensures r.Success? ==> forall k :: 0 <= k < |r.value| ==>
      index + k < |payload| && r.value[k] as int == payload[index + k]
    ensures r.Success? ==> forall k :: index + |r.value| <= k < index + n && k < |payload| ==>
      payload[k] == 0
  {
    var raw := Slice(payload, index, index + n);
    match DecodeAscii(raw)
    case None => Failure(BadText(name))
    case Some(text) =>
      var stripped := RStripNul(text);
      assert forall k :: index + |stripped| <= k < index + n && k < |payload| ==> raw[k - index] == payload[k];
      Success(stripped)
  }

  /** A length-prefixed string: the prefix is read as the byte count `n`,
      the text is `payload[start:start+n]` with Python's slice clipping
      (empty for a count of zero or less, short when the buffer ends), and
      the index moves to `start + n`, backwards for a negative count. */
  function DecodeCountedString(name: string, t: JausType, payload: seq<byte>, index: nat)
    : (r: Result<(string, nat), DecodeError>)
    ensures r.Success? <==>
      index + TypeSize(t) <= |payload|
      && var start := index + TypeSize(t);
         var n := Unpack(t, payload[index..start]).value;
         start + n >= 0 && (n > 0 ==> AllAscii(Slice(payload, start, start + n)))
    ensures r.Success? ==>
      var start := index + TypeSize(t);
      var n := Unpack(t, payload[index..start]).value;
      r.value.1 == start + n
      && |r.value.0| == (if n <= 0 then 0 else if n < |payload| - start then n else |payload| - start)
      && forall k :: 0 <= k < |r.value.0| ==> r.value.0[k] as int == payload[start + k]
  {
    match UnpackAt(t, payload, index)
    case Failure(e) => Failure(StructFailure(name, e))
    case Success(n) => CountedText(name, payload, index + TypeSize(t), n)
  }

  /** The text `payload[start:start+n]` and the index `start + n`, for a
      count `n` read just before `start`. */
  function CountedText(name: string, payload: seq<byte>, start: nat, n: int): (r: Result<(string, nat), DecodeError>)
    requires start <= |payload|
    ensures r.Success? <==> start + n >= 0 && (n > 0 ==> AllAscii(Slice(payload, start, start + n)))
    ensures r.Success? ==>
      r.value.1 == start + n
      && |r.value.0| == (if n <= 0 then 0 else if n < |payload| - start then n else |payload| - start)
      && forall k :: 0 <= k < |r.value.0| ==> r.value.0[k] as int == payload[start + k]
  {
    if start + n < 0 then Failure(IndexBeforeStart(name))
    else if n < 0 then Success(("", start + n))
    else
      var raw := Slice(payload, start, start + n);
      SliceFrom(payload, start, start + n);
      match DecodeAscii(raw)
      case None => Failure(BadText(name))
      case Some(text) => Success((text, start + n))
  }

  /** A slice from a position inside the buffer is cut at its end. */
  lemma SliceFrom(p: seq<byte>, i: nat, j: nat)
    requires i <= |p| && i <= j
    ensures |Slice(p, i, j)| == if j - i < |p| - i then j - i else |p| - i
    ensures forall k :: 0 <= k < |Slice(p, i, j)| ==> Slice(p, i, j)[k] == p[i + k]
  {
  }

  /** A signed one-byte count of -1 read at the start of the payload: no
      text, and the index moves back onto the count itself. */
  lemma NegativeCountMovesBack(name: string)
    ensures DecodeCountedString(name, Byte, [255, 65, 66], 0) == Success(("", 0))
  {
    assert [255, 65, 66][0..1] == [255 as byte];
    assert Reinterpret(true, 1, 255) == -1;
  }

  /** Python's `seq[n]` index check, negative `n` counting from the end. */
  function PyIndex(len: nat, n: int): (r: Option<nat>)
    ensures r.Some? ==> r.value < len
    ensures r.Some? <==> 0 - len <= n < len
    ensures 0 <= n < len ==> r == Some(n)
    ensures n < 0 && r.Some? ==> r.value == len + n
  {
    if 0 <= n < len then Some(n) else if 0 - len <= n < 0 then Some(len + n) else None
  }

  /** `_getProperties(jsonObj, payload, index, schema)`. */
  function DecodeRecord(s: Schema, payload: seq<byte>, index: nat, fields: map<string, Value>)
    : Result<Decoded, DecodeError>
    decreases s, 2, 0
  {
    DecodeFrom(s, 0, payload, index, fields, NoVector)
  }

  /** Whether the property at `i` is read, given the presence state: only
      after the vector, only for optional properties, only on a clear bit
      is it skipped. */
  predicate Skipped(s: Schema, i: nat, pres: PresenceState)
    requires i < |s.properties|
  {
    pres.vector.Some? && !IsRequired(s, s.properties[i].name) && !Bit(pres.vector.value, pres.bit)
  }

  /** The presence index moves on once per optional property after the
      vector, whether that property is present or not. */
  function NextPresence(s: Schema, i: nat, pres: PresenceState): (r: PresenceState)
    requires i < |s.properties|
    ensures r.vector == pres.vector
    ensures r.bit == if pres.vector.Some? && !IsRequired(s, s.properties[i].name) then pres.bit + 1 else pres.bit
  {
    if pres.vector.Some? && !IsRequired(s, s.properties[i].name) then pres.(bit := pres.bit + 1) else pres
  }

  function DecodeFrom(s: Schema, i: nat, payload: seq<byte>, index: nat, fields: map<string, Value>,
                      pres: PresenceState): Result<Decoded, DecodeError>
    requires i <= |s.properties|
    decreases s, 1, |s.properties| - i
  {
    if i == |s.properties| then Success(Decoded(fields, index))
    else if Skipped(s, i, pres) then DecodeFrom(s, i + 1, payload, index, fields, NextPresence(s, i, pres))
    else
      match DecodeProperty(s, i, payload, index, fields, NextPresence(s, i, pres))
      case Failure(e) => Failure(e)
      case Success(d) => DecodeFrom(s, i + 1, payload, d.index, d.fields, d.presence)
  }

  /** `count` list items, each a fresh object decoded with the item schema. */
  function DecodeItems(t: Schema, count: nat, payload: seq<byte>, index: nat, acc: seq<Value>)
    : Result<(seq<Value>, nat), DecodeError>
    decreases t, 3, count
  {
    if count == 0 then Success((acc, index))
    else
      match DecodeRecord(t, payload, index, map[])
      case Failure(e) => Failure(e)
      case Success(d) => DecodeItems(t, count - 1, payload, d.index, acc + [Obj(d.fields)])
  }

  /** A list of `count` items under `name`; a non-positive count gives
      the empty list. */
  function DecodeListItems(name: string, anyOf: seq<Schema>, count: int, payload: seq<byte>, index: nat)
    : Result<(seq<Value>, nat), DecodeError>
    decreases anyOf, 0
  {
    if count <= 0 then Success(([], index))
    else if |anyOf| == 0 then Failure(NoItemSchema(name))
    else DecodeItems(anyOf[0], count, payload, index, [])
  }

  function DecodeProperty(s: Schema, i: nat, payload: seq<byte>, index: nat, fields: map<string, Value>,
                          pres: PresenceState): Result<PropertyDecoded, DecodeError>
    requires i < |s.properties|
    decreases s, 0, 0
  {
    var p := s.properties[i];
    var name := p.name;
    match p.kind
    case Record(body) =>
      (match DecodeRecord(body, payload, index, map[])
       case Failure(e) => Failure(e)
       case Success(d) => Success(PropertyDecoded(fields[name := Obj(d.fields)], d.index, pres)))
    case BitField(ft, body) =>
      (match DecodeRecord(body, payload, index, map[])
       case Failure(e) => Failure(e)
       case Success(d) => Success(PropertyDecoded(fields[name := Obj(d.fields)], d.index + TypeSize(ft), pres)))
    case Number(t, br) =>
      (match DecodeNumber(name, t, br, payload, index)
       case Failure(e) => Failure(e)
       case Success((v, next)) =>
         var pres' := if br.None? && name == PresenceVectorName then PresenceState(Some(v), 0) else pres;
         Success(PropertyDecoded(fields[name := Int(v)], next, pres')))
    case MessageId(t, _) =>
      (match DecodeNumber(name, t, None, payload, index)
       case Failure(e) => Failure(e)
       case Success((v, next)) => Success(PropertyDecoded(fields[name := Str(FormatHex(v))], next, pres)))
    case ValueSet(t, vs, br) =>
      (match DecodeNumber(name, t, br, payload, index)
       case Failure(e) => Failure(e)
       case Success((w, next)) =>
         var fields' := match EnumName(vs, w) case Some(c) => fields[name := Str(c)] case None => fields;
         Success(PropertyDecoded(fields', next, pres)))
    case FixedString(n) =>
      (match DecodeFixedString(name, n, payload, index)
       case Failure(e) => Failure(e)
       case Success(text) => Success(PropertyDecoded(fields[name := Str(text)], index + n, pres)))
    case VarString(t, _) =>
      (match DecodeCountedString(name, t, payload, index)
       case Failure(e) => Failure(e)
       case Success((text, next)) => Success(PropertyDecoded(fields[name := Str(text)], next, pres)))
    case PlainString(t) =>
      (match DecodeCountedString(name, t, payload, index)
       case Failure(e) => Failure(e)
       case Success((text, next)) => Success(PropertyDecoded(fields[name := Str(text)], next, pres)))
    case CountedArray(t, isVariant, anyOf) =>
      (match DecodeNumber(name, t, None, payload, index)
       case Failure(e) => Failure(e)
       case Success((n, next)) =>
         if isVariant == Some(true) then
           (match PyIndex(|anyOf|, n)
            case None => Failure(NoVariant(name, n))
            case Some(k) =>
              (match DecodeFrom(anyOf[k], 0, payload, next, fields, NoVector)
               case Failure(e) => Failure(e)
               case Success(d) => Success(PropertyDecoded(d.fields, d.index, pres))))
         else
           (match DecodeListItems(name, anyOf, n, payload, next)
            case Failure(e) => Failure(e)
            case Success((items, after)) => Success(PropertyDecoded(fields[name := List(items)], after, pres))))
    case FixedArray(minItems, maxItems, _, anyOf) =>
      if minItems != maxItems then Success(PropertyDecoded(fields, index, pres))
      else
        (match DecodeListItems(name, anyOf, maxItems, payload, index)
         case Failure(e) => Failure(e)
         case Success((items, after)) => Success(PropertyDecoded(fields[name := List(items)], after, pres)))
    case OtherType => Success(PropertyDecoded(fields, index, pres))
  }
}
