/** The generated message types: size, backward marshalling into a buffer, and parsing. */
module Messages {
  import opened Machine
  import opened Options
  import opened Results
  import opened Varint
  import opened Skip
  import opened Decoder

  // ---------- the bytes of a message ----------

  /** Field 1 as a string; left out when empty. */
  function EncodeText(text: seq<byte>): seq<byte> {
    if text == [] then [] else [0x0a] + (Encode(|text|) + text)
  }

  /** A Params message has no fields, and so no bytes. */
  datatype Params = Params

  const PARAMS_BYTES: seq<byte> := []

  /** A nested Params under the given tag byte; always present. */
  function EncodeParamsField(tag: byte): seq<byte> {
    [tag] + (Encode(|PARAMS_BYTES|) + PARAMS_BYTES)
  }

  function EncodeMsg(authority: seq<byte>): seq<byte> {
    EncodeText(authority) + EncodeParamsField(0x12)
  }

  // ---------- pieces that the message methods share ----------

  /** The tail of a buffer is `w`, and everything before it is as it was in `before`. */
  ghost predicate Tail(before: seq<byte>, now: seq<byte>, i: nat, w: seq<byte>) {
    && |before| == |now| && i + |w| == |now|
    && now == before[..i] + w
  }

  method PutByte(dAtA: array<byte>, i: nat, b: byte, ghost before: seq<byte>, ghost w: seq<byte>) returns (j: nat)
    requires i > 0 && Tail(before, dAtA[..], i, w)
    modifies dAtA
    ensures j == i - 1 && Tail(before, dAtA[..], j, [b] + w)
  {
    j := i - 1;
    dAtA[j] := b;
    assert dAtA[..] == before[..j] + [b] + w;
  }

  method PutText(dAtA: array<byte>, i: nat, text: seq<byte>, ghost before: seq<byte>, ghost w: seq<byte>) returns (j: nat)
    requires |text| <= i && Tail(before, dAtA[..], i, w)
    modifies dAtA
    ensures j == i - |text| && Tail(before, dAtA[..], j, text + w)
  {
    j := i - |text|;
    forall k | 0 <= k < |text| {
      dAtA[j + k] := text[k];
    }
    assert dAtA[..] == before[..j] + text + w;
  }

  method PutVarint(dAtA: array<byte>, i: nat, v: uint64, ghost before: seq<byte>, ghost w: seq<byte>) returns (j: nat)
    requires Sov(v) <= i && Tail(before, dAtA[..], i, w)
    modifies dAtA
    ensures j == i - Sov(v) && Tail(before, dAtA[..], j, Encode(v) + w)
  {
    SovIsLength(v);
    j := EncodeInto(dAtA, i, v);
    assert dAtA[..] == before[..j] + Encode(v) + w;
  }

  /** `Params.MarshalToSizedBuffer(dAtA[:i])`: nothing to write. */
  method MarshalParams(dAtA: array<byte>, i: nat) returns (n: nat)
    requires i <= dAtA.Length
    ensures n == |PARAMS_BYTES|
  {
    var end := i;
    n := i - end;
  }

  /** The block that writes a nested Params and its tag in front of `w`. */
  method PutParamsField(dAtA: array<byte>, i: nat, tag: byte, ghost before: seq<byte>, ghost w: seq<byte>) returns (j: nat)
    requires |EncodeParamsField(tag)| <= i && Tail(before, dAtA[..], i, w)
    modifies dAtA
    ensures j == i - |EncodeParamsField(tag)| && Tail(before, dAtA[..], j, EncodeParamsField(tag) + w)
  {
    SovIsLength(0);
    var size := MarshalParams(dAtA, i);
    j := i - size;
    j := PutVarint(dAtA, j, size, before, w);
    j := PutByte(dAtA, j, tag, before, Encode(0) + w);
    assert [tag] + (Encode(0) + w) == EncodeParamsField(tag) + w;
  }

  /** The block that writes a non-empty string under field 1 in front of `w`. */
  method PutTextField(dAtA: array<byte>, i: nat, text: Buffer, ghost before: seq<byte>, ghost w: seq<byte>) returns (j: nat)
    requires |EncodeText(text)| <= i && Tail(before, dAtA[..], i, w)
    modifies dAtA
    ensures j == i - |EncodeText(text)| && Tail(before, dAtA[..], j, EncodeText(text) + w)
  {
    j := i;
    if |text| > 0 {
      SovIsLength(|text|);
      j := PutText(dAtA, j, text, before, w);
      j := PutVarint(dAtA, j, |text|, before, text + w);
      j := PutByte(dAtA, j, 0x0a, before, Encode(|text|) + (text + w));
      assert [0x0a] + (Encode(|text|) + (text + w)) == EncodeText(text) + w;
    } else {
      assert EncodeText(text) + w == w;
    }
  }

  method ReadTag(dAtA: Buffer, iNdEx: nat) returns (r: Result<(int, int, nat)>)
    requires iNdEx < |dAtA|
    ensures r == TagAt(dAtA, iNdEx)
  {
    var tag := Read(dAtA, iNdEx);
    if tag.Err? {
      return Err(tag.error);
    }
    var (wire, afterTag) := tag.value;
    var fieldNum, wireType := ToInt32(wire / 8), wire % 8;
    if wireType == 4 {
      return Err(EndGroupForNonGroup);
    }
    if fieldNum <= 0 {
      return Err(IllegalTag(fieldNum, wire));
    }
    return Ok((fieldNum, wireType, afterTag));
  }

  method ReadWindow(dAtA: Buffer, iNdEx: nat) returns (r: Result<(nat, nat)>)
    requires iNdEx <= |dAtA|
    ensures r == Window(dAtA, iNdEx)
  {
    var len := Read(dAtA, iNdEx);
    if len.Err? {
      return Err(len.error);
    }
    var (n, start) := len.value;
    var length := ToInt64(n);
    if length < 0 {
      return Err(InvalidLength);
    }
    var postIndex := Add64(start, length);
    if postIndex < 0 {
      return Err(InvalidLength);
    }
    if postIndex > |dAtA| {
      return Err(UnexpectedEOF);
    }
    return Ok((start, postIndex));
  }

  method SkipUnknown(dAtA: Buffer, preIndex: nat) returns (r: Result<nat>)
    requires preIndex <= |dAtA|
    ensures r == SkipAt(dAtA, preIndex)
  {
    var skippy := Skip.Skip(dAtA[preIndex..]);
    if skippy.Err? {
      return Err(skippy.error);
    }
    // A skipped length is never negative (the contract of SkipFrom), so only the sum is tested.
    if Add64(preIndex, skippy.value) < 0 {
      return Err(InvalidLength);
    }
    if Add64(preIndex, skippy.value) > |dAtA| {
      return Err(UnexpectedEOF);
    }
    return Ok(preIndex + skippy.value);
  }

  /** `Unmarshal` of Params, MsgUpdateParamsResponse and QueryParamsRequest. */
  method UnmarshalEmpty(dAtA: Buffer) returns (error: Option<Error>)
    ensures Outcome([], error) == Decoder.Unmarshal(EMPTY, [], dAtA)
  {
    var iNdEx := 0;
    while iNdEx < |dAtA|
      invariant 0 <= iNdEx <= |dAtA|
      invariant Decoder.Unmarshal(EMPTY, [], dAtA) == DecodeFrom(EMPTY, [], dAtA, iNdEx)
    {
      var tag := ReadTag(dAtA, iNdEx);
      if tag.Err? {
        return Some(tag.error);
      }
      var next := SkipUnknown(dAtA, iNdEx);
      if next.Err? {
        return Some(next.error);
      }
      iNdEx := next.value;
    }
    return if iNdEx > |dAtA| then Some(UnexpectedEOF) else None;
  }

  /** A window holding a Params message, parsed in place. */
  method ReadParams(dAtA: Buffer, iNdEx: nat, fieldNum: int, wireType: int) returns (r: Result<nat>)
    requires iNdEx <= |dAtA|
    ensures r == ParamsAt(dAtA, iNdEx, fieldNum, wireType)
  {
    if wireType != 2 {
      return Err(WrongWireType(fieldNum, wireType));
    }
    var w := ReadWindow(dAtA, iNdEx);
    if w.Err? {
      return Err(w.error);
    }
    var (start, postIndex) := w.value;
    var error := UnmarshalEmpty(dAtA[start..postIndex]);
    if error.Some? {
      return Err(error.value);
    }
    return Ok(postIndex);
  }

  // ---------- the messages ----------

  class MsgUpdateParams {
    var authority: Buffer
    var params: Params

    constructor ()
      ensures authority == []
    {
      authority, params := [], Params;
    }

    function Size(): nat
      reads this
    {
      (if |authority| > 0 then 1 + |authority| + Sov(|authority|) else 0)
      + 1 + |PARAMS_BYTES| + Sov(|PARAMS_BYTES|)
    }

    /** `Size` is exact. */
    lemma SizeIsExact()
      ensures Size() == |EncodeMsg(authority)|
    {
      SovIsLength(|authority|);
      SovIsLength(0);
    }

    /** Fills the end of the buffer with the message and leaves the rest alone. */
    method MarshalToSizedBuffer(dAtA: array<byte>) returns (n: nat)
      requires Size() <= dAtA.Length
      modifies dAtA
      ensures n == Size() == |EncodeMsg(authority)|
      ensures dAtA[..] == old(dAtA[..dAtA.Length - |EncodeMsg(authority)|]) + EncodeMsg(authority)
      ensures authority == old(authority)
    {
      SizeIsExact();
      ghost var before := dAtA[..];
      var i := dAtA.Length;
      assert Tail(before, dAtA[..], i, []);
      i := PutParamsField(dAtA, i, 0x12, before, []);
      assert EncodeParamsField(0x12) + [] == EncodeParamsField(0x12);
      i := PutTextField(dAtA, i, authority, before, EncodeParamsField(0x12));
      return dAtA.Length - i;
    }

    method Marshal() returns (out: seq<byte>)
      requires Size() <= MAX_INT64
      ensures out == EncodeMsg(authority)
    {
      var size := Size();
      var dAtA := new byte[size];
      var n := MarshalToSizedBuffer(dAtA);
      return dAtA[..n];
    }

    method Unmarshal(dAtA: Buffer) returns (error: Option<Error>)
      modifies this
      ensures Outcome(authority, error) == Decoder.Unmarshal(MSG_UPDATE_PARAMS, old(authority), dAtA)
    {
      var iNdEx := 0;
      while iNdEx < |dAtA|
        invariant 0 <= iNdEx <= |dAtA|
        invariant Decoder.Unmarshal(MSG_UPDATE_PARAMS, old(authority), dAtA)
               == DecodeFrom(MSG_UPDATE_PARAMS, authority, dAtA, iNdEx)
      {
        var tag := ReadTag(dAtA, iNdEx);
        if tag.Err? {
          return Some(tag.error);
        }
        var (fieldNum, wireType, afterTag) := tag.value;
        if fieldNum == 1 {
          if wireType != 2 {
            return Some(WrongWireType(fieldNum, wireType));
          }
          var w := ReadWindow(dAtA, afterTag);
          if w.Err? {
            return Some(w.error);
          }
          authority := dAtA[w.value.0..w.value.1];
          iNdEx := w.value.1;
        } else if fieldNum == 2 {
          var next := ReadParams(dAtA, afterTag, fieldNum, wireType);
          if next.Err? {
            return Some(next.error);
          }
          iNdEx := next.value;
        } else {
          var next := SkipUnknown(dAtA, iNdEx);
          if next.Err? {
            return Some(next.error);
          }
          iNdEx := next.value;
        }
      }
      return if iNdEx > |dAtA| then Some(UnexpectedEOF) else None;
    }
  }

  class Module {
    var authority: Buffer

    constructor ()
      ensures authority == []
    {
      authority := [];
    }

    function Size(): nat
      reads this
    {
      if |authority| > 0 then 1 + |authority| + Sov(|authority|) else 0
    }

    lemma SizeIsExact()
      ensures Size() == |EncodeText(authority)|
    {
      SovIsLength(|authority|);
    }

    method MarshalToSizedBuffer(dAtA: array<byte>) returns (n: nat)
      requires Size() <= dAtA.Length
      modifies dAtA
      ensures n == Size() == |EncodeText(authority)|
      ensures dAtA[..] == old(dAtA[..dAtA.Length - |EncodeText(authority)|]) + EncodeText(authority)
      ensures authority == old(authority)
    {
      SizeIsExact();
      ghost var before := dAtA[..];
      var i := dAtA.Length;
      i := PutTextField(dAtA, i, authority, before, []);
      assert EncodeText(authority) + [] == EncodeText(authority);
      return dAtA.Length - i;
    }

    method Marshal() returns (out: seq<byte>)
      requires Size() <= MAX_INT64
      ensures out == EncodeText(authority)
    {
      var size := Size();
      var dAtA := new byte[size];
      var n := MarshalToSizedBuffer(dAtA);
      return dAtA[..n];
    }

    method Unmarshal(dAtA: Buffer) returns (error: Option<Error>)
      modifies this
      ensures Outcome(authority, error) == Decoder.Unmarshal(MODULE, old(authority), dAtA)
    {
      var iNdEx := 0;
      while iNdEx < |dAtA|
        invariant 0 <= iNdEx <= |dAtA|
        invariant Decoder.Unmarshal(MODULE, old(authority), dAtA) == DecodeFrom(MODULE, authority, dAtA, iNdEx)
      {
        var tag := ReadTag(dAtA, iNdEx);
        if tag.Err? {
          return Some(tag.error);
        }
        var (fieldNum, wireType, afterTag) := tag.value;
        if fieldNum == 1 {
          if wireType != 2 {
            return Some(WrongWireType(fieldNum, wireType));
          }
          var w := ReadWindow(dAtA, afterTag);
          if w.Err? {
            return Some(w.error);
          }
          authority := dAtA[w.value.0..w.value.1];
          iNdEx := w.value.1;
        } else {
          var next := SkipUnknown(dAtA, iNdEx);
          if next.Err? {
            return Some(next.error);
          }
          iNdEx := next.value;
        }
      }
      return if iNdEx > |dAtA| then Some(UnexpectedEOF) else None;
    }
  }

  /** GenesisState; QueryParamsResponse is the same code under another name. */
  class GenesisState {
    var params: Params

    constructor () {
      params := Params;
    }

    function Size(): nat {
      1 + |PARAMS_BYTES| + Sov(|PARAMS_BYTES|)
    }

    lemma SizeIsExact()
      ensures Size() == |EncodeParamsField(0x0a)|
    {
      SovIsLength(0);
    }

    method MarshalToSizedBuffer(dAtA: array<byte>) returns (n: nat)
      requires Size() <= dAtA.Length
      modifies dAtA
      ensures n == Size() == |EncodeParamsField(0x0a)|
      ensures dAtA[..] == old(dAtA[..dAtA.Length - |EncodeParamsField(0x0a)|]) + EncodeParamsField(0x0a)
    {
      SizeIsExact();
      ghost var before := dAtA[..];
      var i := dAtA.Length;
      i := PutParamsField(dAtA, i, 0x0a, before, []);
      assert EncodeParamsField(0x0a) + [] == EncodeParamsField(0x0a);
      return dAtA.Length - i;
    }

    method Marshal() returns (out: seq<byte>)
      ensures out == EncodeParamsField(0x0a)
    {
      var size := Size();
      var dAtA := new byte[size];
      var n := MarshalToSizedBuffer(dAtA);
      return dAtA[..n];
    }

    method Unmarshal(dAtA: Buffer) returns (error: Option<Error>)
      modifies this
      ensures Outcome([], error) == Decoder.Unmarshal(PARAMS_HOLDER, [], dAtA)
    {
      var iNdEx := 0;
      while iNdEx < |dAtA|
        invariant 0 <= iNdEx <= |dAtA|
        invariant Decoder.Unmarshal(PARAMS_HOLDER, [], dAtA) == DecodeFrom(PARAMS_HOLDER, [], dAtA, iNdEx)
      {
        var tag := ReadTag(dAtA, iNdEx);
        if tag.Err? {
          return Some(tag.error);
        }
        var (fieldNum, wireType, afterTag) := tag.value;
        if fieldNum == 1 {
          var next := ReadParams(dAtA, afterTag, fieldNum, wireType);
          if next.Err? {
            return Some(next.error);
          }
          iNdEx := next.value;
        } else {
          var next := SkipUnknown(dAtA, iNdEx);
          if next.Err? {
            return Some(next.error);
          }
          iNdEx := next.value;
        }
      }
      return if iNdEx > |dAtA| then Some(UnexpectedEOF) else None;
    }
  }
}
