/** Base 128 varints: their meaning, the backward writer and the reading loop. */
module Varint {
  import opened Machine
  import opened Results

  // ---------- meaning ----------

  /** `b & 0x7F`. */
  function Low7(b: byte): nat {
    b as int % 128
  }

  /** The number written by the low seven bits of each byte, least significant group first. */
  function Value(w: seq<byte>): nat {
    if w == [] then 0 else Low7(w[0]) + 128 * Value(w[1..])
  }

  /** One to ten bytes, of which exactly the last has its top bit clear. */
  predicate IsVarint(w: seq<byte>) {
    && 1 <= |w| <= 10
    && w[|w| - 1] < 128
    && forall k :: 0 <= k < |w| - 1 ==> w[k] >= 128
  }

  /** What the parser makes of a varint: bits above the 64th are lost. */
  function Decode(w: seq<byte>): uint64 {
    Value(w) % TWO_64
  }

  function Encode(v: nat): seq<byte> {
    if v < 128 then [v as byte] else [(v % 128 + 128) as byte] + Encode(v / 128)
  }

  /** The number of bytes of `Encode`, computed from the bit length. */
  function Sov(x: nat): nat {
    (BitLen(OrOne(x)) + 6) / 7
  }

  /** How many bytes with the top bit set stand in a row from `i`. */
  function Continuations(s: seq<byte>, i: nat): (c: nat)
    requires i <= |s|
    ensures i + c <= |s|
    ensures forall k :: i <= k < i + c ==> s[k] >= 128
    ensures i + c < |s| ==> s[i + c] < 128
    decreases |s| - i
  {
    if i < |s| && s[i] >= 128 then 1 + Continuations(s, i + 1) else 0
  }

  /** The varint that starts at `i`, with the index after it. */
  function ReadAt(s: seq<byte>, i: nat): Result<(uint64, nat)>
    requires i <= |s|
  {
    var c := Continuations(s, i);
    if c >= 10 then Err(IntOverflow)
    else if i + c == |s| then Err(UnexpectedEOF)
    else Ok((Decode(s[i..i + c + 1]), i + c + 1))
  }

  // ---------- Value and its bounds ----------

  lemma {:induction false} ValueAppend(w: seq<byte>, b: byte)
    ensures Value(w + [b]) == Value(w) + Low7(b) * Pow128(|w|)
  {
    if w == [] {
      assert w + [b] == [b];
      assert Value([b]) == Low7(b) + 128 * Value([]);
    } else {
      assert (w + [b])[1..] == w[1..] + [b];
      ValueAppend(w[1..], b);
      assert Low7(b) * Pow128(|w|) == 128 * (Low7(b) * Pow128(|w| - 1));
    }
  }

  lemma {:induction false} ValueBound(w: seq<byte>)
    ensures Value(w) < Pow128(|w|)
  {
    if w != [] {
      ValueBound(w[1..]);
    }
  }

  // ---------- the reading loop ----------

  /** Appending the next group to what was read so far, in 64 bits: the bits of the two parts
      do not overlap. */
  lemma Accumulate(w: seq<byte>, b: byte) returns (multiple: nat)
    requires |w| < 10
    ensures Value(w) < Pow2(7 * |w|) && Value(w) < TWO_64
    ensures Shl64(Low7(b), 7 * |w|) == multiple * Pow2(7 * |w|)
    ensures Value(w) + Shl64(Low7(b), 7 * |w|) == Decode(w + [b])
    ensures |w| < 9 ==> Decode(w + [b]) == Value(w + [b])
  {
    Pow2IsPow128(|w|);
    ValueBound(w);
    ValueAppend(w, b);
    Pow128Of9();
    if |w| < 9 {
      LowGroup(Value(w), Low7(b), |w|);
      multiple := Low7(b);
    } else {
      TopGroup(Value(w), Low7(b));
      multiple := Low7(b) % 2;
    }
  }

  lemma LowGroup(a: nat, x: nat, k: nat)
    requires x < 128 && k < 9 && a < Pow128(k)
    ensures a + x * Pow128(k) < TWO_64
  {
    Pow128Monotonic(k, 8);
    assert x * Pow128(k) <= 127 * Pow128(k);
  }

  lemma TopGroup(a: nat, x: nat)
    requires a < TWO_63 && x < 128
    ensures x * TWO_63 % TWO_64 == x % 2 * TWO_63
    ensures (a + x * TWO_63) % TWO_64 == a + x % 2 * TWO_63
  {
    assert x == 2 * (x / 2) + x % 2;
    assert x * TWO_63 == x / 2 * TWO_64 + x % 2 * TWO_63;
  }

  lemma NothingRead()
    ensures Value([]) == 0
  {
  }

  /** The loop that the parsers repeat for tags, lengths and skipped numbers. */
  method Read(dAtA: Buffer, start: nat) returns (r: Result<(uint64, nat)>)
    requires start <= |dAtA|
    ensures r == ReadAt(dAtA, start)
  {
    hide Value, Pow2, Shl64;
    var iNdEx, wire: uint64, shift := start, 0, 0;
    NothingRead();
    assert dAtA[start..start] == [];
    while true
      invariant start <= iNdEx <= |dAtA| && iNdEx - start <= 10
      invariant shift == 7 * (iNdEx - start)
      invariant Continuations(dAtA, start) == iNdEx - start + Continuations(dAtA, iNdEx)
      invariant iNdEx - start < 10 ==> wire == Value(dAtA[start..iNdEx])
      decreases 70 - shift
    {
      if shift >= 64 {
        return Err(IntOverflow);
      }
      if iNdEx >= |dAtA| {
        return Err(UnexpectedEOF);
      }
      var b := dAtA[iNdEx];
      ghost var multiple := Accumulate(dAtA[start..iNdEx], b);
      assert dAtA[start..iNdEx] + [b] == dAtA[start..iNdEx + 1];
      iNdEx := iNdEx + 1;
      wire := OrDisjoint(wire, Shl64(Low7(b), shift), shift, multiple);
      if b < 0x80 {
        return Ok((wire, iNdEx));
      }
      shift := shift + 7;
    }
  }

  /** The reader succeeds on exactly the varints, and consumes exactly their bytes. */
  lemma ReadIff(s: seq<byte>, i: nat, v: uint64, n: nat)
    requires i <= |s|
    ensures ReadAt(s, i) == Ok((v, n))
       <==> i < n <= |s| && IsVarint(s[i..n]) && v == Decode(s[i..n])
  {
    hide Decode;
    var c := Continuations(s, i);
    if i < n <= |s| && IsVarint(s[i..n]) {
      var w := s[i..n];
      assert forall k :: 0 <= k < |w| ==> w[k] == s[i + k];
      assert s[n - 1] == w[|w| - 1] < 128;
      assert forall k :: i <= k < n - 1 ==> s[k] == w[k - i];
      assert c == n - i - 1;
    }
    if ReadAt(s, i).Ok? {
      var w := s[i..i + c + 1];
      assert forall k :: 0 <= k < |w| ==> w[k] == s[i + k];
      assert IsVarint(w);
    }
  }

  /** The two ways to fail: ten continuation bytes, or fewer and then the end of the input. */
  lemma ReadErrorIff(s: seq<byte>, i: nat)
    requires i <= |s|
    ensures ReadAt(s, i) == Err(IntOverflow)
       <==> i + 10 <= |s| && forall k :: i <= k < i + 10 ==> s[k] >= 128
    ensures ReadAt(s, i) == Err(UnexpectedEOF)
       <==> |s| < i + 10 && forall k :: i <= k < |s| ==> s[k] >= 128
  {
    var c := Continuations(s, i);
    assert forall k :: i <= k < i + c ==> s[k] >= 128;
    if i + c < |s| {
      assert s[i + c] < 128;
      assert c < 10 ==> !(forall k :: i <= k < i + 10 && k < |s| ==> s[k] >= 128);
    }
  }

  // ---------- the writer ----------

  lemma {:induction false} BitLenStep7(x: nat)
    requires x >= 128
    ensures BitLen(x) == 7 + BitLen(x / 128)
  {
    assert BitLen(x) == 1 + BitLen(x / 2) == 2 + BitLen(x / 2 / 2) == 3 + BitLen(x / 2 / 2 / 2);
    var y := x / 2 / 2 / 2;
    assert y == x / 8;
    assert BitLen(y) == 1 + BitLen(y / 2) == 2 + BitLen(y / 2 / 2) == 3 + BitLen(y / 2 / 2 / 2);
    var z := y / 2 / 2 / 2;
    assert z == x / 64;
    assert BitLen(z) == 1 + BitLen(z / 2);
    assert z / 2 == x / 128;
  }

  lemma BitLenOrOne(x: nat)
    requires x > 0
    ensures BitLen(OrOne(x)) == BitLen(x)
  {
    assert OrOne(x) / 2 == x / 2;
  }

  lemma BitLenSmall(x: nat)
    requires 0 < x < 128
    ensures 1 <= BitLen(x) <= 7
  {
    var y := x / 2 / 2 / 2;
    var z := y / 2 / 2 / 2;
    assert y < 16 && z < 2;
    assert BitLen(z) <= 1;
    assert BitLen(y / 2 / 2) <= 1 + BitLen(z);
    assert BitLen(y) <= 2 + BitLen(y / 2 / 2);
    assert BitLen(x / 2 / 2) <= 1 + BitLen(y);
    assert BitLen(x) <= 2 + BitLen(x / 2 / 2);
  }

  /** The bit-length formula counts the base 128 digits. */
  lemma {:induction false} SovIsLength(v: nat)
    ensures Sov(v) == |Encode(v)| >= 1
  {
    if v < 128 {
      BitLenSmall(OrOne(v));
    } else {
      SovIsLength(v / 128);
      BitLenOrOne(v);
      BitLenStep7(v);
      BitLenOrOne(v / 128);
    }
  }

  lemma {:induction false} EncodeMeaning(v: nat)
    ensures Value(Encode(v)) == v
    ensures Encode(v)[|Encode(v)| - 1] < 128
    ensures forall k :: 0 <= k < |Encode(v)| - 1 ==> Encode(v)[k] >= 128
  {
    if v < 128 {
      assert Value([v as byte]) == v + 128 * Value([]);
    } else {
      EncodeMeaning(v / 128);
      assert Encode(v)[1..] == Encode(v / 128);
    }
  }

  /** A number below 128^k has at most k digits. */
  lemma {:induction false} EncodeLength(v: nat, k: nat)
    requires k >= 1 && v < Pow128(k)
    ensures |Encode(v)| <= k
  {
    if v >= 128 {
      if k == 1 {
        assert false;
      }
      EncodeLength(v / 128, k - 1);
    }
  }

  /** Every 64-bit number is written as a varint of 1 to 10 bytes that reads back as itself. */
  lemma EncodeIsVarint(v: uint64)
    ensures IsVarint(Encode(v)) && Decode(Encode(v)) == v
    ensures 1 <= Sov(v) == |Encode(v)| <= 10
  {
    EncodeMeaning(v);
    SovIsLength(v);
    Pow128Of9();
    EncodeLength(v, 10);
  }

  /** No varint that decodes to `v` is shorter than the written one. */
  lemma EncodeIsShortest(v: uint64, w: seq<byte>)
    requires IsVarint(w) && Decode(w) == v
    ensures Sov(v) <= |w|
  {
    ValueBound(w);
    SovIsLength(v);
    EncodeLength(v, |w|);
  }

  /** The encoding guide's example. */
  lemma ThreeHundred()
    ensures Encode(300) == [0xac, 0x02] && IsVarint([0xac, 0x02]) && Value([0xac, 0x02]) == 300
  {
    assert Encode(300) == [0xac] + Encode(2);
    EncodeMeaning(300);
  }

  lemma LowDigit(a: nat, x: nat, b: nat, y: nat)
    requires a < 128 && b < 128 && a + 128 * x == b + 128 * y
    ensures a == b && x == y
  {
  }

  lemma {:induction false} DigitsUnique(u: seq<byte>, w: seq<byte>)
    requires |u| == |w| && Value(u) == Value(w)
    requires forall k :: 0 <= k < |u| ==> (u[k] >= 128 <==> w[k] >= 128)
    ensures u == w
  {
    if u != [] {
      LowDigit(Low7(u[0]), Value(u[1..]), Low7(w[0]), Value(w[1..]));
      assert u[0] == w[0];
      DigitsUnique(u[1..], w[1..]);
      assert u == [u[0]] + u[1..] && w == [w[0]] + w[1..];
    }
  }

  lemma ShortestBelow(v: uint64, w: seq<byte>)
    requires v < TWO_63 && IsVarint(w) && Decode(w) == v && |w| == Sov(v)
    ensures w == Encode(v)
  {
    hide Encode, Value, Sov;
    EncodeMeaning(v);
    SovIsLength(v);
    Pow128Of9();
    EncodeLength(v, 9);
    ValueBound(w);
    Pow128Monotonic(|w|, 9);
    DigitsUnique(w, Encode(v));
  }

  /** The shortest encoding is unique exactly for the numbers below 2^63: above, the tenth
      byte has six bits that the parser drops. */
  lemma ShortestIsUnique(v: uint64)
    ensures v < TWO_63
       <==> forall w: seq<byte> :: IsVarint(w) && Decode(w) == v && |w| == Sov(v) ==> w == Encode(v)
  {
    if v < TWO_63 {
      forall w: seq<byte> | IsVarint(w) && Decode(w) == v && |w| == Sov(v)
        ensures w == Encode(v)
      {
        ShortestBelow(v, w);
      }
    } else {
      var w := Alternative(v);
    }
  }

  lemma TenBytes(v: uint64) returns (u: seq<byte>, top: byte)
    requires v >= TWO_63
    ensures Encode(v) == u + [top] && |u| == 9 && top <= 1 && Sov(v) == 10
    ensures v == Value(u) + top as int * TWO_63
    ensures forall k :: 0 <= k < 9 ==> u[k] >= 128
  {
    EncodeIsVarint(v);
    EncodeMeaning(v);
    hide Encode, Sov, Value, Decode;
    var e := Encode(v);
    ValueBound(e);
    Pow128Of9();
    Pow128Monotonic(if |e| < 10 then |e| else 9, 9);
    u, top := e[..9], e[9];
    assert e == u + [top];
    ValueAppend(u, top);
    assert Low7(top) == top as int;
  }

  lemma Alternative(v: uint64) returns (w: seq<byte>)
    requires v >= TWO_63
    ensures IsVarint(w) && Decode(w) == v && |w| == Sov(v) && w != Encode(v)
  {
    hide Encode, Sov;
    var u, top := TenBytes(v);
    w := u + [top + 2];
    Pow128Of9();
    ValueAppend(u, top + 2);
    assert w[9] != (u + [top])[9];
  }

  lemma SetMiddle(p: seq<byte>, q: seq<byte>, r: seq<byte>, x: byte)
    requires r != []
    ensures (p + q + r)[|p| + |q| := x] == p + (q + [x]) + r[1..]
  {
  }

  /** Stores one byte of a buffer seen as `p + q + r`, just after `q`. */
  method Put(dAtA: array<byte>, at: nat, x: byte, ghost p: seq<byte>, ghost q: seq<byte>, ghost r: seq<byte>)
    requires dAtA[..] == p + q + r && at == |p| + |q| && r != []
    modifies dAtA
    ensures dAtA[..] == p + (q + [x]) + r[1..]
  {
    SetMiddle(p, q, r, x);
    dAtA[at] := x;
  }

  lemma Regroup(a: seq<byte>, b: seq<byte>, c: seq<byte>)
    ensures a + b + c == a + (b + c)
  {
  }

  lemma EncodeStep(v: nat)
    ensures v < 128 ==> Encode(v) == [v as byte]
    ensures v >= 128 ==> Encode(v) == [(v % 128 + 128) as byte] + Encode(v / 128)
  {
  }

  /** Writes `v` so that it ends just before `offset`, and touches no other byte. */
  method EncodeInto(dAtA: array<byte>, offset: nat, v: uint64) returns (base: nat)
    requires Sov(v) <= offset <= dAtA.Length
    modifies dAtA
    ensures base == offset - Sov(v)
    ensures dAtA[..] == old(dAtA[..offset - Sov(v)]) + Encode(v) + old(dAtA[offset..])
  {
    hide Encode, Sov;
    SovIsLength(v);
    base := offset - Sov(v);
    var at, rest: uint64 := base, v;
    ghost var start, done: seq<byte> := dAtA[..], [];
    while rest >= 0x80
      invariant base <= at && at + |Encode(rest)| == offset
      invariant at == base + |done| && done + Encode(rest) == Encode(v)
      invariant dAtA[..] == start[..base] + done + start[at..]
    {
      var digit := (rest % 128 + 128) as byte;
      EncodeStep(rest);
      Put(dAtA, at, digit, start[..base], done, start[at..]);
      Regroup(done, [digit], Encode(rest / 128));
      done := done + [digit];
      rest := rest / 128;
      at := at + 1;
    }
    EncodeStep(rest);
    Put(dAtA, at, rest as byte, start[..base], done, start[at..]);
    assert done + [rest as byte] == Encode(v);
  }
}
