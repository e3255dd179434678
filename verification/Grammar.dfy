/** The wire format as derivation trees: what one complete field is, independent of any parser. */
module Grammar {
  import opened Machine
  import opened Varint

  datatype Field =
    | Number(tag: seq<byte>, payload: seq<byte>)
    | Fixed64(tag: seq<byte>, payload: seq<byte>)
    | Bytes(tag: seq<byte>, length: seq<byte>, payload: seq<byte>)
    | Group(tag: seq<byte>, body: Fields, end: seq<byte>)
    | Fixed32(tag: seq<byte>, payload: seq<byte>)

  datatype Fields = NoFields | Then(head: Field, tail: Fields)

  function WireType(tag: seq<byte>): int {
    Decode(tag) % 8
  }

  /** The field number as the parser sees it: truncated to 32 bits, signed. */
  function FieldNumber(tag: seq<byte>): int {
    ToInt32(Decode(tag) / 8)
  }

  predicate IsTag(tag: seq<byte>, wireType: int) {
    IsVarint(tag) && WireType(tag) == wireType
  }

  /** Start and end tags of a group need not carry the same field number. */
  predicate WellFormed(f: Field) {
    match f
    case Number(tag, payload) => IsTag(tag, 0) && IsVarint(payload)
    case Fixed64(tag, payload) => IsTag(tag, 1) && |payload| == 8
    case Bytes(tag, length, payload) => IsTag(tag, 2) && IsVarint(length) && |payload| == ToInt64(Decode(length))
    case Group(tag, body, end) => IsTag(tag, 3) && AllWellFormed(body) && IsTag(end, 4)
    case Fixed32(tag, payload) => IsTag(tag, 5) && |payload| == 4
  }

  predicate AllWellFormed(fs: Fields) {
    fs.Then? ==> WellFormed(fs.head) && AllWellFormed(fs.tail)
  }

  function Print(f: Field): seq<byte> {
    match f
    case Number(tag, payload) => tag + payload
    case Fixed64(tag, payload) => tag + payload
    case Bytes(tag, length, payload) => tag + (length + payload)
    case Group(tag, body, end) => tag + (PrintAll(body) + end)
    case Fixed32(tag, payload) => tag + payload
  }

  function PrintAll(fs: Fields): seq<byte> {
    if fs.NoFields? then [] else Print(fs.head) + PrintAll(fs.tail)
  }

  /** Every group closes with the field number it was opened with. */
  predicate EndsMatch(f: Field) {
    f.Group? ==> FieldNumber(f.tag) == FieldNumber(f.end) && AllEndsMatch(f.body)
  }

  predicate AllEndsMatch(fs: Fields) {
    fs.Then? ==> EndsMatch(fs.head) && AllEndsMatch(fs.tail)
  }

  // ---------- a string standing at a position ----------

  predicate At(s: seq<byte>, i: nat, w: seq<byte>) {
    i + |w| <= |s| && s[i..i + |w|] == w
  }

  lemma AtConcat(s: seq<byte>, i: nat, u: seq<byte>, w: seq<byte>)
    ensures At(s, i, u + w) <==> At(s, i, u) && At(s, i + |u|, w)
  {
    if At(s, i, u + w) {
      assert s[i..i + |u|] == (u + w)[..|u|];
      assert s[i + |u|..i + |u| + |w|] == (u + w)[|u|..];
    }
    if At(s, i, u) && At(s, i + |u|, w) {
      assert s[i..i + |u + w|] == s[i..i + |u|] + s[i + |u|..i + |u| + |w|];
    }
  }
}
