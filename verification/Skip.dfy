/** `skip*`: the loop with a depth counter, and the grammar it recognises. */
module Skip {
  import opened Machine
  import opened Results
  import opened Varint
  import opened Grammar

  // ---------- the loop as a function ----------

  /** One turn of the loop: where it ends, and what it does to the depth. */
  datatype Token = Token(next: int, delta: int)

  function NextToken(s: Buffer, i: nat): (r: Result<Token>)
    requires i < |s|
    ensures r.Ok? && r.value.next >= 0 ==> r.value.next > i
    ensures r.Ok? ==> -1 <= r.value.delta <= 1 && r.value.next <= MAX_INT64
  {
    match ReadAt(s, i)
    case Err(e) => Err(e)
    case Ok((wire, j)) =>
      match wire % 8
      case 0 => (
        match ReadAt(s, j)
        case Err(e) => Err(e)
        case Ok((_, k)) => Ok(Token(k, 0)))
      case 1 => Ok(Token(Add64(j, 8), 0))
      case 2 => (
        match ReadAt(s, j)
        case Err(e) => Err(e)
        case Ok((n, k)) =>
          if ToInt64(n) < 0 then Err(InvalidLength) else Ok(Token(Add64(k, ToInt64(n)), 0)))
      case 3 => Ok(Token(j, 1))
      case 4 => Ok(Token(j, -1))
      case 5 => Ok(Token(Add64(j, 4), 0))
      case wireType => Err(IllegalWireType(wireType))
  }

  /** The rest of the loop from `i` at the given depth. The end may lie beyond the buffer. */
  function SkipFrom(s: Buffer, i: nat, depth: nat): (r: Result<nat>)
    ensures r.Ok? ==> i < r.value <= MAX_INT64
    decreases |s| - i
  {
    if i >= |s| then Err(UnexpectedEOF)
    else
      match NextToken(s, i)
      case Err(e) => Err(e)
      case Ok(t) =>
        if t.delta == -1 && depth == 0 then Err(UnexpectedEndOfGroup)
        else if t.next < 0 then Err(InvalidLength)
        else if depth + t.delta == 0 then Ok(t.next)
        else SkipFrom(s, t.next, depth + t.delta)
  }

  /** The `switch` on the wire type: passes over one tag and, but for groups, its payload. */
  method ReadToken(dAtA: Buffer, start: nat) returns (r: Result<Token>)
    requires start < |dAtA|
    ensures r == NextToken(dAtA, start)
  {
    var tag := Read(dAtA, start);
    if tag.Err? {
      return Err(tag.error);
    }
    var (wire, iNdEx) := tag.value;
    var wireType := wire % 8;
    match wireType {
      case 0 =>
        var number := Read(dAtA, iNdEx);
        if number.Err? {
          return Err(number.error);
        }
        return Ok(Token(number.value.1, 0));
      case 1 =>
        return Ok(Token(Add64(iNdEx, 8), 0));
      case 2 =>
        var len := Read(dAtA, iNdEx);
        if len.Err? {
          return Err(len.error);
        }
        var length := ToInt64(len.value.0);
        if length < 0 {
          return Err(InvalidLength);
        }
        return Ok(Token(Add64(len.value.1, length), 0));
      case 3 =>
        return Ok(Token(iNdEx, 1));
      case 4 =>
        return Ok(Token(iNdEx, -1));
      case 5 =>
        return Ok(Token(Add64(iNdEx, 4), 0));
      case _ =>
        return Err(IllegalWireType(wireType));
    }
  }

  method Skip(dAtA: Buffer) returns (r: Result<nat>)
    ensures r == SkipFrom(dAtA, 0, 0)
  {
    hide NextToken;
    var l, iNdEx, depth := |dAtA|, 0, 0;
    while iNdEx < l
      invariant 0 <= iNdEx && 0 <= depth
      invariant SkipFrom(dAtA, 0, 0) == SkipFrom(dAtA, iNdEx, depth)
      decreases l - iNdEx
    {
      var token := ReadToken(dAtA, iNdEx);
      if token.Err? {
        return Err(token.error);
      }
      var Token(next, delta) := token.value;
      if delta == -1 && depth == 0 {
        return Err(UnexpectedEndOfGroup);
      }
      depth := depth + delta;
      if next < 0 {
        return Err(InvalidLength);
      }
      iNdEx := next;
      if depth == 0 {
        return Ok(iNdEx);
      }
    }
    return Err(UnexpectedEOF);
  }

  // ---------- tokens and fields ----------

  predicate IsScalar(f: Field) {
    !f.Group?
  }

  /** A token that leaves the depth alone and stays in the buffer is one scalar field. */
  lemma ScalarSound(s: Buffer, i: nat) returns (f: Field)
    requires i < |s| && NextToken(s, i).Ok?
    requires var t := NextToken(s, i).value; t.delta == 0 && 0 <= t.next <= |s|
    ensures IsScalar(f) && WellFormed(f)
    ensures s[i..NextToken(s, i).value.next] == Print(f)
  {
    hide Decode, IsVarint, ReadAt;
    var (wire, j) := ReadAt(s, i).value;
    ReadIff(s, i, wire, j);
    var tag, end := s[i..j], NextToken(s, i).value.next;
    if wire % 8 == 0 || wire % 8 == 2 {
      var (n, k) := ReadAt(s, j).value;
      ReadIff(s, j, n, k);
      if wire % 8 == 0 {
        f := Number(tag, s[j..end]);
      } else {
        f := Bytes(tag, s[j..k], s[k..end]);
        assert s[j..end] == s[j..k] + s[k..end];
      }
    } else if wire % 8 == 1 {
      f := Fixed64(tag, s[j..end]);
    } else {
      f := Fixed32(tag, s[j..end]);
    }
    assert s[i..end] == tag + s[j..end];
  }

  lemma TagRead(s: Buffer, i: nat, tag: seq<byte>, wireType: int)
    requires At(s, i, tag) && IsTag(tag, wireType)
    ensures i < i + |tag| <= |s| && ReadAt(s, i) == Ok((Decode(tag), i + |tag|)) && Decode(tag) % 8 == wireType
  {
    ReadIff(s, i, Decode(tag), i + |tag|);
  }

  lemma NumberComplete(s: Buffer, i: nat, tag: seq<byte>, payload: seq<byte>)
    requires IsTag(tag, 0) && IsVarint(payload) && At(s, i, tag + payload)
    ensures i < |s| && NextToken(s, i) == Ok(Token(i + |tag| + |payload|, 0))
  {
    AtConcat(s, i, tag, payload);
    TagRead(s, i, tag, 0);
    ReadIff(s, i + |tag|, Decode(payload), i + |tag| + |payload|);
  }

  lemma BytesComplete(s: Buffer, i: nat, tag: seq<byte>, length: seq<byte>, payload: seq<byte>)
    requires IsTag(tag, 2) && IsVarint(length) && |payload| == ToInt64(Decode(length))
    requires At(s, i, tag + (length + payload))
    ensures i < |s| && NextToken(s, i) == Ok(Token(i + |tag| + |length| + |payload|, 0))
  {
    hide ReadAt;
    AtConcat(s, i, tag, length + payload);
    AtConcat(s, i + |tag|, length, payload);
    TagRead(s, i, tag, 2);
    var j := i + |tag|;
    var k := j + |length|;
    assert s[j..k] == length;
    ReadIff(s, j, Decode(length), k);
  }

  lemma FixedComplete(s: Buffer, i: nat, tag: seq<byte>, payload: seq<byte>)
    requires (IsTag(tag, 1) && |payload| == 8) || (IsTag(tag, 5) && |payload| == 4)
    requires At(s, i, tag + payload)
    ensures i < |s| && NextToken(s, i) == Ok(Token(i + |tag| + |payload|, 0))
  {
    AtConcat(s, i, tag, payload);
    TagRead(s, i, tag, WireType(tag));
  }

  lemma ScalarComplete(s: Buffer, i: nat, f: Field)
    requires IsScalar(f) && WellFormed(f) && At(s, i, Print(f))
    ensures i < |s| && NextToken(s, i) == Ok(Token(i + |Print(f)|, 0))
  {
    hide NextToken, IsTag, IsVarint, Decode;
    match f
    case Number(tag, payload) => NumberComplete(s, i, tag, payload);
    case Bytes(tag, length, payload) => BytesComplete(s, i, tag, length, payload);
    case Fixed64(tag, payload) => FixedComplete(s, i, tag, payload);
    case Fixed32(tag, payload) => FixedComplete(s, i, tag, payload);
  }

  /** A start or end tag is a token of its own. */
  lemma GroupTagSound(s: Buffer, i: nat)
    requires i < |s| && NextToken(s, i).Ok? && NextToken(s, i).value.delta != 0
    ensures var t := NextToken(s, i).value;
      i < t.next <= |s| && IsTag(s[i..t.next], if t.delta == 1 then 3 else 4)
  {
    var (v, k) := ReadAt(s, i).value;
    ReadIff(s, i, v, k);
  }

  // ---------- completeness: the loop accepts every tree ----------

  /** What the loop does next once a field inside `depth` open groups has ended. */
  function AfterField(s: Buffer, n: nat, depth: nat): Result<nat> {
    if depth == 0 then Ok(n) else SkipFrom(s, n, depth)
  }

  lemma TokenStep(s: Buffer, i: nat, depth: nat, n: nat, delta: int)
    requires i < |s| && NextToken(s, i) == Ok(Token(n, delta)) && n <= |s| && depth + delta >= 0
    ensures SkipFrom(s, i, depth) == AfterField(s, n, depth + delta)
  {
  }

  lemma StartTag(s: Buffer, i: nat, depth: nat, tag: seq<byte>)
    requires At(s, i, tag) && IsTag(tag, 3)
    ensures SkipFrom(s, i, depth) == SkipFrom(s, i + |tag|, depth + 1)
  {
    TagRead(s, i, tag, 3);
    TokenStep(s, i, depth, i + |tag|, 1);
  }

  lemma EndTag(s: Buffer, i: nat, depth: nat, tag: seq<byte>)
    requires At(s, i, tag) && IsTag(tag, 4) && depth > 0
    ensures SkipFrom(s, i, depth) == AfterField(s, i + |tag|, depth - 1)
  {
    TagRead(s, i, tag, 4);
    TokenStep(s, i, depth, i + |tag|, -1);
  }

  lemma {:induction false} FieldComplete(s: Buffer, i: nat, depth: nat, f: Field)
    requires WellFormed(f) && At(s, i, Print(f))
    ensures SkipFrom(s, i, depth) == AfterField(s, i + |Print(f)|, depth)
    decreases f, 0
  {
    hide SkipFrom, IsTag, NextToken, Decode;
    if f.Group? {
      var j := i + |f.tag|;
      var k := j + |PrintAll(f.body)|;
      AtConcat(s, i, f.tag, PrintAll(f.body) + f.end);
      AtConcat(s, j, PrintAll(f.body), f.end);
      StartTag(s, i, depth, f.tag);
      BodyComplete(s, j, depth + 1, f.body);
      EndTag(s, k, depth + 1, f.end);
    } else {
      ScalarComplete(s, i, f);
      TokenStep(s, i, depth, i + |Print(f)|, 0);
    }
  }

  lemma {:induction false} BodyComplete(s: Buffer, i: nat, depth: nat, fs: Fields)
    requires depth > 0 && AllWellFormed(fs) && At(s, i, PrintAll(fs))
    ensures SkipFrom(s, i, depth) == SkipFrom(s, i + |PrintAll(fs)|, depth)
    decreases fs, 1
  {
    hide SkipFrom;
    if fs.Then? {
      AtConcat(s, i, Print(fs.head), PrintAll(fs.tail));
      FieldComplete(s, i, depth, fs.head);
      BodyComplete(s, i + |Print(fs.head)|, depth, fs.tail);
    }
  }

  // ---------- soundness: whatever the loop accepts is a tree ----------

  /** The unread parts of the groups that are open, innermost first. */
  datatype Open = Closed | Rest(body: Fields, end: seq<byte>, outer: Open)

  predicate OpenWellFormed(o: Open) {
    o.Rest? ==> AllWellFormed(o.body) && IsTag(o.end, 4) && OpenWellFormed(o.outer)
  }

  function Depth(o: Open): nat {
    if o.Closed? then 0 else 1 + Depth(o.outer)
  }

  function PrintOpen(o: Open): seq<byte> {
    if o.Closed? then [] else PrintAll(o.body) + o.end + PrintOpen(o.outer)
  }

  /** A run of the loop that ends inside the buffer took one token and went on from there. */
  lemma TakeToken(s: Buffer, i: nat, depth: nat, n: nat) returns (next: nat, delta: int)
    requires SkipFrom(s, i, depth) == Ok(n) && n <= |s|
    ensures i < next <= n && -1 <= delta <= 1 && depth + delta >= 0
    ensures NextToken(s, i) == Ok(Token(next, delta))
    ensures AfterField(s, next, depth + delta) == Ok(n)
  {
    hide NextToken;
    next, delta := NextToken(s, i).value.next, NextToken(s, i).value.delta;
  }

  lemma {:induction false} OpenSound(s: Buffer, i: nat, depth: nat, n: nat) returns (o: Open)
    requires depth > 0 && SkipFrom(s, i, depth) == Ok(n) && n <= |s|
    ensures i < n && OpenWellFormed(o) && Depth(o) == depth && s[i..n] == PrintOpen(o)
    decreases |s| - i
  {
    hide SkipFrom, NextToken, Decode, IsVarint;
    var next, delta := TakeToken(s, i, depth, n);
    var o' := Closed;
    if depth + delta > 0 {
      o' := OpenSound(s, next, depth + delta, n);
    }
    assert s[i..n] == s[i..next] + s[next..n];
    if delta == 0 {
      var f := ScalarSound(s, i);
      o := PrependField(f, o');
    } else {
      GroupTagSound(s, i);
      if delta == 1 {
        o := PrependStart(s[i..next], o');
      } else {
        o := Rest(NoFields, s[i..next], o');
      }
    }
  }

  lemma PrependField(f: Field, o: Open) returns (r: Open)
    requires WellFormed(f) && o.Rest? && OpenWellFormed(o)
    ensures OpenWellFormed(r) && Depth(r) == Depth(o) && PrintOpen(r) == Print(f) + PrintOpen(o)
  {
    r := Rest(Then(f, o.body), o.end, o.outer);
  }

  lemma PrependStart(tag: seq<byte>, o: Open) returns (r: Open)
    requires IsTag(tag, 3) && Depth(o) > 1 && OpenWellFormed(o)
    ensures OpenWellFormed(r) && Depth(r) == Depth(o) - 1 && PrintOpen(r) == tag + PrintOpen(o)
  {
    var g := Group(tag, o.body, o.end);
    r := PrependField(g, o.outer);
    assert Print(g) + PrintOpen(o.outer) == tag + (PrintAll(o.body) + o.end + PrintOpen(o.outer));
  }

  lemma FieldSound(s: Buffer, n: nat) returns (f: Field)
    requires SkipFrom(s, 0, 0) == Ok(n) && n <= |s|
    ensures 0 < n && WellFormed(f) && s[..n] == Print(f)
  {
    hide SkipFrom, NextToken, Decode, IsVarint;
    var next, delta := TakeToken(s, 0, 0, n);
    if delta == 0 {
      f := ScalarSound(s, 0);
    } else {
      var o := OpenSound(s, next, 1, n);
      GroupTagSound(s, 0);
      f := Group(s[..next], o.body, o.end);
      assert s[..n] == s[..next] + s[next..n];
      assert PrintOpen(o) == PrintAll(o.body) + o.end + [];
    }
  }

  /** The depth counter recognises exactly the grammar: the loop ends at `n`, inside the buffer,
      if and only if the first `n` bytes are one complete field. */
  lemma SkipIff(s: Buffer, n: nat)
    requires n <= |s|
    ensures SkipFrom(s, 0, 0) == Ok(n) <==> exists f :: WellFormed(f) && Print(f) == s[..n]
  {
    hide SkipFrom, Print, WellFormed;
    if SkipFrom(s, 0, 0) == Ok(n) {
      var f := FieldSound(s, n);
      assert WellFormed(f) && Print(f) == s[..n];
    }
    forall f | WellFormed(f) && Print(f) == s[..n]
      ensures SkipFrom(s, 0, 0) == Ok(n)
    {
      FieldComplete(s, 0, 0, f);
    }
  }

  /** The bytes of a scalar that say how long it is. */
  function Header(f: Field): seq<byte>
    requires IsScalar(f)
  {
    if f.Bytes? then f.tag + f.length else f.tag
  }

  /** `s` is the beginning of a scalar of `n` bytes and breaks off in its payload, after the header. */
  ghost predicate BreaksOff(s: seq<byte>, n: nat, f: Field) {
    && IsScalar(f) && !f.Number? && WellFormed(f)
    && |Header(f)| <= |s| < |Print(f)| == n
    && s == Print(f)[..|s|]
  }

  lemma FixedHeader(s: Buffer, f: Field)
    requires (f.Fixed64? || f.Fixed32?) && WellFormed(f) && At(s, 0, f.tag)
    requires |Print(f)| <= MAX_INT64
    ensures s != [] && NextToken(s, 0) == Ok(Token(|Print(f)|, 0))
  {
    TagRead(s, 0, f.tag, WireType(f.tag));
  }

  /** The token of a length-delimited field, in true sums. */
  lemma BytesToken(s: Buffer, j: nat, k: nat, wire: uint64, len: uint64)
    requires s != [] && ReadAt(s, 0) == Ok((wire, j)) && wire % 8 == 2
    requires j <= k <= |s| && ReadAt(s, j) == Ok((len, k))
    ensures 0 <= ToInt64(len) && k + ToInt64(len) <= MAX_INT64
        ==> NextToken(s, 0) == Ok(Token(k + ToInt64(len), 0))
    ensures NextToken(s, 0).Ok? && NextToken(s, 0).value.next >= 0
        ==> 0 <= ToInt64(len) && NextToken(s, 0) == Ok(Token(k + ToInt64(len), 0))
  {
    hide ReadAt;
  }

  lemma BytesHeader(s: Buffer, f: Field)
    requires f.Bytes? && WellFormed(f) && At(s, 0, f.tag + f.length)
    requires |Print(f)| <= MAX_INT64
    ensures s != [] && NextToken(s, 0) == Ok(Token(|Print(f)|, 0))
  {
    hide NextToken, ReadAt;
    var j := |f.tag|;
    AtConcat(s, 0, f.tag, f.length);
    TagRead(s, 0, f.tag, 2);
    ReadIff(s, j, Decode(f.length), j + |f.length|);
    BytesToken(s, j, j + |f.length|, Decode(f.tag), Decode(f.length));
  }

  lemma HeaderIsRead(s: Buffer, n: nat, f: Field)
    requires BreaksOff(s, n, f) && n <= MAX_INT64
    ensures s != [] && NextToken(s, 0) == Ok(Token(n, 0))
  {
    hide NextToken, WellFormed;
    assert Print(f) == Header(f) + f.payload;
    assert s[0..|Header(f)|] == Print(f)[..|Header(f)|] == Header(f);
    if f.Bytes? {
      BytesHeader(s, f);
    } else {
      FixedHeader(s, f);
    }
  }

  lemma SplitAndPad(s: seq<byte>, j: nat, k: nat, pad: seq<byte>)
    requires j <= k <= |s|
    ensures s[0..j] + (s[j..k] + (s[k..] + pad)) == s + pad
  {
    assert s == s[0..j] + (s[j..k] + s[k..]);
  }

  /** The two varints that head a length-delimited field. */
  lemma TwoVarints(s: Buffer, n: nat) returns (j: nat, k: nat)
    requires s != [] && NextToken(s, 0) == Ok(Token(n, 0)) && ReadAt(s, 0).value.0 % 8 == 2
    ensures j <= k <= |s| && IsVarint(s[0..j]) && Decode(s[0..j]) % 8 == 2
    ensures IsVarint(s[j..k]) && n == k + ToInt64(Decode(s[j..k]))
  {
    var (wire, tagEnd) := ReadAt(s, 0).value;
    var (len, end) := ReadAt(s, tagEnd).value;
    j, k := tagEnd, end;
    hide Decode, IsVarint;
    ReadIff(s, 0, wire, j);
    ReadIff(s, j, len, k);
    hide ReadAt;
    BytesToken(s, j, k, wire, len);
  }

  lemma PadBytes(s: Buffer, n: nat, pad: seq<byte>) returns (f: Field)
    requires |s| < n <= MAX_INT64 && s != [] && NextToken(s, 0) == Ok(Token(n, 0))
    requires ReadAt(s, 0).value.0 % 8 == 2 && |pad| == n - |s|
    ensures f.Bytes? && WellFormed(f) && Print(f) == s + pad && |Header(f)| <= |s|
  {
    var j, k := TwoVarints(s, n);
    hide NextToken, ReadAt, Decode, IsVarint, ToInt64;
    SplitAndPad(s, j, k, pad);
    f := BytesOf(s[0..j], s[j..k], s[k..] + pad);
  }

  lemma BytesOf(tag: seq<byte>, length: seq<byte>, payload: seq<byte>) returns (f: Field)
    requires IsVarint(tag) && Decode(tag) % 8 == 2 && IsVarint(length) && |payload| == ToInt64(Decode(length))
    ensures f.Bytes? && WellFormed(f) && Print(f) == tag + (length + payload) && Header(f) == tag + length
  {
    f := Bytes(tag, length, payload);
  }

  lemma PadFixed(s: Buffer, n: nat, pad: seq<byte>) returns (f: Field)
    requires |s| < n <= MAX_INT64 && s != [] && NextToken(s, 0) == Ok(Token(n, 0))
    requires ReadAt(s, 0).value.0 % 8 != 2 && |pad| == n - |s|
    ensures (f.Fixed64? || f.Fixed32?) && WellFormed(f) && Print(f) == s + pad && |Header(f)| <= |s|
  {
    var (wire, j) := ReadAt(s, 0).value;
    ReadIff(s, 0, wire, j);
    if wire % 8 == 0 {
      var (v, k) := ReadAt(s, j).value;
      ReadIff(s, j, v, k);
    }
    hide Decode, IsVarint, ReadAt;
    var payload := s[j..] + pad;
    f := if wire % 8 == 1 then Fixed64(s[..j], payload) else Fixed32(s[..j], payload);
    assert s[0..j] == s[..j];
    assert s == s[..j] + s[j..];
  }

  lemma PadPayload(s: Buffer, n: nat) returns (f: Field)
    requires |s| < n <= MAX_INT64 && s != [] && NextToken(s, 0) == Ok(Token(n, 0))
    ensures BreaksOff(s, n, f)
  {
    var pad: seq<byte> := seq(n - |s|, _ => 0);
    var bytes := ReadAt(s, 0).value.0 % 8 == 2;
    hide NextToken, WellFormed, Print, Header;
    if bytes {
      f := PadBytes(s, n, pad);
    } else {
      f := PadFixed(s, n, pad);
    }
    assert (s + pad)[..|s|] == s;
  }

  /** An end beyond the buffer means that the input breaks off in the payload of a fixed-size or
      length-delimited field at the top level; inside a group the loop reports the end of input. */
  lemma SkipBeyondIff(s: Buffer, n: nat)
    requires |s| < n <= MAX_INT64
    ensures SkipFrom(s, 0, 0) == Ok(n) <==> exists f :: BreaksOff(s, n, f)
  {
    hide NextToken;
    forall f | BreaksOff(s, n, f)
      ensures SkipFrom(s, 0, 0) == Ok(n)
    {
      hide BreaksOff;
      HeaderIsRead(s, n, f);
    }
    if SkipFrom(s, 0, 0) == Ok(n) {
      var t := NextToken(s, 0).value;
      if t.delta == 1 {
        NoOverrunInGroup(s, t.next, 1);
      }
      var f := PadPayload(s, n);
    }
  }

  /** Inside a group the loop never ends beyond the buffer: its last token is an end tag. */
  lemma {:induction false} NoOverrunInGroup(s: Buffer, i: nat, depth: nat)
    requires depth > 0
    ensures SkipFrom(s, i, depth).Ok? ==> SkipFrom(s, i, depth).value <= |s|
    decreases |s| - i
  {
    hide NextToken;
    if i < |s| && NextToken(s, i).Ok? && NextToken(s, i).value.next >= 0 {
      var t := NextToken(s, i).value;
      if t.delta == -1 {
        GroupTagSound(s, i);
      }
      if depth + t.delta > 0 {
        NoOverrunInGroup(s, t.next, depth + t.delta);
      }
    }
  }

  /** No complete field is a proper prefix of another: where a field ends is settled by its bytes. */
  lemma PrefixFree(f: Field, g: Field, rest: seq<byte>)
    requires WellFormed(f) && WellFormed(g) && Print(g) == Print(f) + rest
    requires |Print(g)| <= MAX_INT64
    ensures rest == []
  {
    hide SkipFrom, Print, WellFormed;
    FieldComplete(Print(g), 0, 0, f);
    FieldComplete(Print(g), 0, 0, g);
  }
}
