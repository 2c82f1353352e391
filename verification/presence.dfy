/** The presence vector of a record (AS5684): one bit per optional
    property following the `presenceVector` field, set when the JSON
    carries that property. This is `_generatePresenceVector`; its running
    `presenceIndex` is 0 until the presence-vector field is seen, so
    optional properties before it contribute nothing. */
module Presence {
  import opened Results
  import opened Bits
  import opened Json
  import opened Schemas

  /** The bits set so far are `flags`; `index` is `None` while Python's
      `presenceIndex` is 0 and `Some(k)` while it is `1 << k`. */
  function GenerateFrom(s: Schema, j: Value, i: nat, index: Option<nat>, flags: seq<bool>): seq<bool>
    requires i <= |s.properties|
    decreases |s.properties| - i
  {
    if i == |s.properties| then flags
    else
      var name := s.properties[i].name;
      if name == PresenceVectorName then GenerateFrom(s, j, i + 1, Some(0), flags)
      else if !IsRequired(s, name) then
        match index
        case None => GenerateFrom(s, j, i + 1, None, flags)
        case Some(k) => GenerateFrom(s, j, i + 1, Some(k + 1), OrFlag(flags, k, Has(j, name)))
      else GenerateFrom(s, j, i + 1, index, flags)
  }

  /** The value `_generatePresenceVector` returns. */
  function Generate(s: Schema, j: Value): nat {
    FromBits(GenerateFrom(s, j, 0, None, []))
  }

  /** Names of the optional properties from position `i` on, in order;
      these are the ones that take a presence bit after the vector. */
  function Optionals(s: Schema, i: nat): seq<string>
    requires i <= |s.properties|
    decreases |s.properties| - i
  {
    if i == |s.properties| then []
    else
      var name := s.properties[i].name;
      (if name != PresenceVectorName && !IsRequired(s, name) then [name] else [])
        + Optionals(s, i + 1)
  }

  predicate NoPresenceVectorFrom(s: Schema, i: nat) {
    forall q :: i <= q < |s.properties| ==> s.properties[q].name != PresenceVectorName
  }

  /** The last presence-vector field before position `i`, if any: the
      properties after it are the ones `presenceIndex` counts. */
  function VectorBefore(s: Schema, i: nat): (r: Option<nat>)
    requires i <= |s.properties|
    ensures r.Some? ==> r.value < i && s.properties[r.value].name == PresenceVectorName
    ensures r.None? ==> forall q :: 0 <= q < i ==> s.properties[q].name != PresenceVectorName
  {
    if i == 0 then None
    else if s.properties[i - 1].name == PresenceVectorName then Some(i - 1)
    else VectorBefore(s, i - 1)
  }

  /** The record has exactly one presence-vector field, at position `p`. */
  predicate SinglePresenceVectorAt(s: Schema, p: nat) {
    && p < |s.properties|
    && s.properties[p].name == PresenceVectorName
    && forall q :: 0 <= q < |s.properties| && q != p ==> s.properties[q].name != PresenceVectorName
  }

  lemma {:induction false} BeforeVector(s: Schema, j: Value, i: nat, p: nat)
    requires SinglePresenceVectorAt(s, p) && i <= p
    ensures GenerateFrom(s, j, i, None, []) == GenerateFrom(s, j, p, None, [])
    decreases p - i
  {
    if i < p {
      BeforeVector(s, j, i + 1, p);
    }
  }

  lemma {:induction false} AfterVector(s: Schema, j: Value, i: nat, flags: seq<bool>)
    requires i <= |s.properties| && NoPresenceVectorFrom(s, i)
    ensures GenerateFrom(s, j, i, Some(|flags|), flags)
      == flags + seq(|Optionals(s, i)|, k requires 0 <= k < |Optionals(s, i)| => Has(j, Optionals(s, i)[k]))
    decreases |s.properties| - i
  {
    var opts := Optionals(s, i);
    var want := seq(|opts|, k requires 0 <= k < |opts| => Has(j, opts[k]));
    if i < |s.properties| {
      var name := s.properties[i].name;
      var rest := Optionals(s, i + 1);
      var restFlags := seq(|rest|, k requires 0 <= k < |rest| => Has(j, rest[k]));
      if !IsRequired(s, name) {
        var f2 := OrFlag(flags, |flags|, Has(j, name));
        assert f2 == flags + [Has(j, name)];
        AfterVector(s, j, i + 1, f2);
        assert opts == [name] + rest;
        assert want == [Has(j, name)] + restFlags;
      } else {
        AfterVector(s, j, i + 1, flags);
        assert opts == rest;
      }
    }
  }

  /** Bit `k` of the generated vector (bit 0 being the first after the
      vector field) is set exactly when the `k`-th optional property after
      the vector is present in the JSON; required properties take no bit,
      and no bit beyond the optional properties is set. */
  lemma PresenceBits(s: Schema, j: Value, p: nat, k: nat)
    requires SinglePresenceVectorAt(s, p)
    ensures Bit(Generate(s, j), k)
      <==> k < |Optionals(s, p + 1)| && Has(j, Optionals(s, p + 1)[k])
  {
    BeforeVector(s, j, 0, p);
    AfterVector(s, j, p + 1, []);
    var opts := Optionals(s, p + 1);
    var flags := seq(|opts|, q requires 0 <= q < |opts| => Has(j, opts[q]));
    assert GenerateFrom(s, j, 0, None, []) == [] + flags;
    BitOfFromBits([] + flags, k);
  }

  /** Without a presence-vector field the generated vector is 0. */
  lemma {:induction false} NoVectorIsZero(s: Schema, j: Value, i: nat)
    requires i <= |s.properties| && NoPresenceVectorFrom(s, i)
    ensures GenerateFrom(s, j, i, None, []) == []
    decreases |s.properties| - i
  {
    if i < |s.properties| {
      NoVectorIsZero(s, j, i + 1);
    }
  }
}
