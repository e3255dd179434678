/** The messages by field number: what each accepts, stores, rejects and writes. */
module MessageFormats {
  import opened Machine
  import opened Options
  import opened Results
  import opened Varint
  import opened Grammar
  import opened Decoder
  import opened Messages
  import opened CodecLaws

  // ---------- tags ----------

  /** Wire type and field number are the low three bits and the 32 bits above them, signed. */
  lemma TagIff(tag: seq<byte>, n: int, wireType: int)
    ensures FieldNumber(tag) == n && WireType(tag) == wireType
       <==> 0 <= wireType < 8 && -TWO_31 <= n < TWO_31 && (Value(tag) - wireType - 8 * n) % (8 * TWO_32) == 0
  {
    var v, d := Value(tag), Decode(tag);
    assert v == v / TWO_64 * TWO_64 + d;
    var q, w := d / 8, d % 8;
    var turns := q / TWO_32;
    var number := FieldNumber(tag);
    assert q == turns * TWO_32 + q % TWO_32;
    var low := if number < 0 then turns + 1 else turns;
    assert d - w - 8 * number == low * (8 * TWO_32);
    Congruent(v - w - 8 * number, v / TWO_64 * (TWO_64 / (8 * TWO_32)) + low);
    if 0 <= wireType < 8 && -TWO_31 <= n < TWO_31 && (v - wireType - 8 * n) % (8 * TWO_32) == 0 {
      SameTag(v, w, number, wireType, n);
    }
  }

  lemma Congruent(x: int, k: int)
    requires x == k * (8 * TWO_32)
    ensures x % (8 * TWO_32) == 0
  {
  }

  lemma SameTag(v: int, w: int, n: int, w': int, n': int)
    requires 0 <= w < 8 && 0 <= w' < 8 && -TWO_31 <= n < TWO_31 && -TWO_31 <= n' < TWO_31
    requires (v - w - 8 * n) % (8 * TWO_32) == 0 && (v - w' - 8 * n') % (8 * TWO_32) == 0
    ensures w == w' && n == n'
  {
    var a, b := (v - w - 8 * n) / (8 * TWO_32), (v - w' - 8 * n') / (8 * TWO_32);
    assert w' + 8 * n' - w - 8 * n == (a - b) * (8 * TWO_32);
    assert a == b;
  }

  // ---------- declared numbers ----------

  /** The schema stores the fields with the first numbers, parses those with the second as nested
      messages, and declares no other number. */
  ghost predicate Declares(sch: Schema, texts: set<int>, nested: set<int>) {
    forall n :: sch.KindOf(n) == if n in texts then Text else if n in nested then Nested else Unknown
  }

  lemma Declarations()
    ensures Declares(MSG_UPDATE_PARAMS, {1}, {2})
    ensures Declares(MODULE, {1}, {})
    ensures Declares(PARAMS_HOLDER, {}, {1})
    ensures Declares(EMPTY, {}, {})
  {
  }

  /** Positive numbers only; declared fields are length-delimited, nested ones hold a Params. */
  ghost predicate Fits(texts: set<int>, nested: set<int>, f: Field) {
    var n := FieldNumber(f.tag);
    && n > 0
    && (n in texts ==> f.Bytes?)
    && (n in nested ==> f.Bytes? && IsEmptyMessage(f.payload))
  }

  ghost predicate AllFit(texts: set<int>, nested: set<int>, fs: Fields) {
    fs.Then? ==> Fits(texts, nested, fs.head) && AllFit(texts, nested, fs.tail)
  }

  /** The last field that carries one of the numbers. */
  function LastNumbered(numbers: set<int>, fs: Fields): Option<Field> {
    if fs.NoFields? then None
    else
      var later := LastNumbered(numbers, fs.tail);
      if later.Some? then later else if FieldNumber(fs.head.tag) in numbers then Some(fs.head) else None
  }

  ghost predicate Stores(texts: set<int>, authority: seq<byte>, fs: Fields, result: seq<byte>) {
    match LastNumbered(texts, fs)
    case None => result == authority
    case Some(f) => f.Bytes? && result == f.payload
  }

  lemma {:induction false} FitIff(sch: Schema, texts: set<int>, nested: set<int>, fs: Fields)
    requires Declares(sch, texts, nested) && texts !! nested
    ensures AllAdmissible(sch, fs) <==> AllFit(texts, nested, fs)
  {
    if fs.Then? {
      FitIff(sch, texts, nested, fs.tail);
    }
  }

  lemma {:induction false} MeaningIsLast(
    sch: Schema, texts: set<int>, nested: set<int>, authority: seq<byte>, fs: Fields)
    requires Declares(sch, texts, nested) && AllFit(texts, nested, fs)
    ensures Stores(texts, authority, fs, Meaning(sch, authority, fs))
    decreases fs
  {
    hide IsEmptyMessage, FieldNumber;
    if fs.Then? {
      var f := fs.head;
      MeaningIsLast(sch, texts, nested, if StoresText(sch, f) then f.payload else authority, fs.tail);
    }
  }

  /** The input is a run of complete fields that fit, and `result` the payload of the last stored one. */
  ghost predicate Reads(
    texts: set<int>, nested: set<int>, authority: seq<byte>, s: seq<byte>, result: seq<byte>, fs: Fields)
  {
    && AllWellFormed(fs) && PrintAll(fs) == s
    && AllFit(texts, nested, fs) && Stores(texts, authority, fs, result)
  }

  lemma FormatIff(
    sch: Schema, texts: set<int>, nested: set<int>, authority: seq<byte>, s: Buffer, result: seq<byte>)
    requires Declares(sch, texts, nested) && texts !! nested
    ensures Unmarshal(sch, authority, s) == Outcome(result, None)
       <==> exists fs :: Reads(texts, nested, authority, s, result, fs)
  {
    hide DecodeFrom, AllWellFormed, AllAdmissible, Meaning, PrintAll, AllFit, Declares, LastNumbered;
    assert s[0..] == s;
    if Unmarshal(sch, authority, s) == Outcome(result, None) {
      var fs := DecodeSound(sch, authority, s, 0);
      FitIff(sch, texts, nested, fs);
      MeaningIsLast(sch, texts, nested, authority, fs);
      assert Reads(texts, nested, authority, s, result, fs);
    }
    forall fs | Reads(texts, nested, authority, s, result, fs)
      ensures Unmarshal(sch, authority, s) == Outcome(result, None)
    {
      FitIff(sch, texts, nested, fs);
      MeaningIsLast(sch, texts, nested, authority, fs);
      AcceptsTree(sch, authority, s, fs);
    }
  }

  /** MsgUpdateParams accepts exactly the runs of complete fields with positive numbers in which field 1
      is length-delimited and field 2 a length-delimited Params; the last field 1 is the authority. */
  lemma MsgIff(authority: seq<byte>, s: Buffer, result: seq<byte>)
    ensures Unmarshal(MSG_UPDATE_PARAMS, authority, s) == Outcome(result, None)
       <==> exists fs :: Reads({1}, {2}, authority, s, result, fs)
  {
    Declarations();
    FormatIff(MSG_UPDATE_PARAMS, {1}, {2}, authority, s, result);
  }

  lemma ModuleIff(authority: seq<byte>, s: Buffer, result: seq<byte>)
    ensures Unmarshal(MODULE, authority, s) == Outcome(result, None)
       <==> exists fs :: Reads({1}, {}, authority, s, result, fs)
  {
    Declarations();
    FormatIff(MODULE, {1}, {}, authority, s, result);
  }

  /** GenesisState and QueryParamsResponse. */
  lemma HolderIff(authority: seq<byte>, s: Buffer, result: seq<byte>)
    ensures Unmarshal(PARAMS_HOLDER, authority, s) == Outcome(result, None)
       <==> exists fs :: Reads({}, {1}, authority, s, result, fs)
  {
    Declarations();
    FormatIff(PARAMS_HOLDER, {}, {1}, authority, s, result);
  }

  /** Params, MsgUpdateParamsResponse and QueryParamsRequest. */
  lemma EmptyIff(authority: seq<byte>, s: Buffer, result: seq<byte>)
    ensures Unmarshal(EMPTY, authority, s) == Outcome(result, None)
       <==> exists fs :: Reads({}, {}, authority, s, result, fs)
  {
    Declarations();
    FormatIff(EMPTY, {}, {}, authority, s, result);
  }

  /** A complete field with any other positive number is transparent to each message. */
  lemma OtherNumbers(authority: seq<byte>, a: seq<byte>, f: Field, b: seq<byte>)
    requires |a| + |Print(f)| + |b| <= MAX_INT64 && WellFormed(f) && FieldNumber(f.tag) > 0
    ensures FieldNumber(f.tag) != 1 && FieldNumber(f.tag) != 2
        ==> Transparent(MSG_UPDATE_PARAMS, authority, a, Print(f), b)
    ensures FieldNumber(f.tag) != 1 ==> Transparent(MODULE, authority, a, Print(f), b)
    ensures FieldNumber(f.tag) != 1 ==> Transparent(PARAMS_HOLDER, authority, a, Print(f), b)
    ensures Transparent(EMPTY, authority, a, Print(f), b)
  {
    hide DecodeFrom, WellFormed, Print;
    forall sch: Schema | sch.KindOf(FieldNumber(f.tag)).Unknown?
      ensures Transparent(sch, authority, a, Print(f), b)
    {
      if Unmarshal(sch, authority, a).error.None? {
        UnknownField(sch, authority, a, f, b);
      }
    }
  }

  predicate Transparent(sch: Schema, authority: seq<byte>, a: seq<byte>, x: seq<byte>, b: seq<byte>)
    requires |a| + |x| + |b| <= MAX_INT64
  {
    Unmarshal(sch, authority, a).error.None?
    ==> Follows(Unmarshal(sch, authority, a + (x + b)), Unmarshal(sch, authority, a + b))
  }

  // ---------- rejected records ----------

  /** Why the record at `i` is rejected: its tag cannot be read, ends a group that is not open, has a
      number that is not positive, has the wrong wire type for a declared number, has a window that
      cannot be read or holds no Params, or is an unknown field that cannot be skipped. */
  predicate RecordFails(texts: set<int>, nested: set<int>, s: Buffer, i: nat, e: Error)
    requires i < |s|
  {
    match ReadAt(s, i)
    case Err(unread) => e == unread
    case Ok((wire, j)) =>
      var n, wireType := ToInt32(wire / 8), wire % 8;
      if wireType == 4 then e == EndGroupForNonGroup
      else if n <= 0 then e == IllegalTag(n, wire)
      else if n !in texts && n !in nested then SkipAt(s, i) == Err(e)
      else if wireType != 2 then e == WrongWireType(n, wireType)
      else if i < j <= |s| then
        match Window(s, j)
        case Err(broken) => e == broken
        case Ok((k, post)) => n in nested && Unmarshal(EMPTY, [], s[k..post]).error == Some(e)
      else false
  }

  lemma RecordErrorIff(s: Buffer, i: nat, e: Error)
    requires i < |s|
    ensures DecodeRecord(MSG_UPDATE_PARAMS, s, i) == Err(e) <==> RecordFails({1}, {2}, s, i, e)
    ensures DecodeRecord(MODULE, s, i) == Err(e) <==> RecordFails({1}, {}, s, i, e)
    ensures DecodeRecord(PARAMS_HOLDER, s, i) == Err(e) <==> RecordFails({}, {1}, s, i, e)
    ensures DecodeRecord(EMPTY, s, i) == Err(e) <==> RecordFails({}, {}, s, i, e)
  {
    Declarations();
    DeclaredErrorIff(MSG_UPDATE_PARAMS, {1}, {2}, s, i, e);
    DeclaredErrorIff(MODULE, {1}, {}, s, i, e);
    DeclaredErrorIff(PARAMS_HOLDER, {}, {1}, s, i, e);
    DeclaredErrorIff(EMPTY, {}, {}, s, i, e);
  }

  lemma DeclaredErrorIff(sch: Schema, texts: set<int>, nested: set<int>, s: Buffer, i: nat, e: Error)
    requires i < |s| && Declares(sch, texts, nested) && texts !! nested
    ensures DecodeRecord(sch, s, i) == Err(e) <==> RecordFails(texts, nested, s, i, e)
  {
    hide SkipAt, Window, DecodeFrom, ToInt32;
  }

  /** What a tag decides whatever follows it: an end tag, a number that is not positive, and a declared
      number with a wrong wire type are rejected as such, by every message. */
  lemma TagDecides(sch: Schema, texts: set<int>, nested: set<int>, s: Buffer, i: nat, tag: seq<byte>)
    requires i < |s| && Declares(sch, texts, nested) && IsVarint(tag) && At(s, i, tag)
    ensures var n, wireType := FieldNumber(tag), WireType(tag);
      && (wireType == 4 ==> DecodeRecord(sch, s, i) == Err(EndGroupForNonGroup))
      && (wireType != 4 && n <= 0 ==> DecodeRecord(sch, s, i) == Err(IllegalTag(n, Decode(tag))))
      && (wireType != 4 && wireType != 2 && n > 0 && n in texts + nested
          ==> DecodeRecord(sch, s, i) == Err(WrongWireType(n, wireType)))
  {
    ReadIff(s, i, Decode(tag), i + |tag|);
    hide ReadAt, Decode, IsVarint, SkipAt, Window, DecodeFrom, ToInt32;
  }

  // ---------- written bytes ----------

  /** No varint of the same value is shorter. */
  ghost predicate Shortest(w: seq<byte>) {
    forall u: seq<byte> :: IsVarint(u) && Decode(u) == Decode(w) ==> |w| <= |u|
  }

  /** A length-delimited field with a one-byte tag and the shortest length. */
  ghost predicate Written(f: Field, n: int, payload: seq<byte>) {
    && f.Bytes? && WellFormed(f)
    && FieldNumber(f.tag) == n && |f.tag| == 1
    && Shortest(f.length) && f.payload == payload
  }

  lemma OneByteTag(tag: seq<byte>, n: int)
    requires 1 <= n <= 2
    ensures |tag| == 1 && IsTag(tag, 2) && FieldNumber(tag) == n <==> tag == [(8 * n + 2) as byte]
  {
    if |tag| == 1 && IsVarint(tag) {
      assert Value(tag) == Low7(tag[0]) + 128 * Value([]) == tag[0] as int;
      assert tag == [tag[0]];
      hide Value, IsVarint;
      assert Decode(tag) == tag[0] as int;
      assert FieldNumber(tag) == tag[0] as int / 8;
    }
  }

  lemma ShortestIff(w: seq<byte>, v: nat)
    requires v <= MAX_INT64
    ensures IsVarint(w) && Decode(w) == v && Shortest(w) <==> w == Encode(v)
  {
    EncodeIsVarint(v);
    hide Encode, Decode, IsVarint, Sov;
    if IsVarint(w) && Decode(w) == v && Shortest(w) {
      assert |w| <= |Encode(v)|;
      EncodeIsShortest(v, w);
      ShortestBelow(v, w);
    }
    forall u: seq<byte> | IsVarint(u) && Decode(u) == v
      ensures |Encode(v)| <= |u|
    {
      EncodeIsShortest(v, u);
    }
  }

  lemma WrittenIff(f: Field, n: int, payload: seq<byte>)
    requires 1 <= n <= 2 && |payload| <= MAX_INT64
    ensures Written(f, n, payload) <==> f == Bytes([(8 * n + 2) as byte], Encode(|payload|), payload)
  {
    OneByteTag(if f.Bytes? then f.tag else [], n);
    OneByteTag([(8 * n + 2) as byte], n);
    ShortestIff(Encode(|payload|), |payload|);
    hide IsTag, IsVarint, Decode, Encode, Shortest, FieldNumber;
    if f.Bytes? {
      ShortestIff(f.length, |payload|);
    }
  }

  ghost predicate OnlyField(fs: Fields, n: int, payload: seq<byte>) {
    fs.Then? && Written(fs.head, n, payload) && fs.tail.NoFields?
  }

  /** The authority as field 1, absent when empty, then an empty Params as field 2. */
  ghost predicate MsgShape(authority: seq<byte>, fs: Fields) {
    if authority == [] then OnlyField(fs, 2, [])
    else fs.Then? && Written(fs.head, 1, authority) && OnlyField(fs.tail, 2, [])
  }

  ghost predicate ModuleShape(authority: seq<byte>, fs: Fields) {
    if authority == [] then fs.NoFields? else OnlyField(fs, 1, authority)
  }

  lemma TextIsOneField(text: seq<byte>) returns (f: Field)
    requires text != [] && |EncodeText(text)| <= MAX_INT64
    ensures Written(f, 1, text) && Print(f) == EncodeText(text)
    ensures forall g :: Written(g, 1, text) ==> g == f
  {
    f := Bytes([0x0a], Encode(|text|), text);
    forall g
      ensures Written(g, 1, text) <==> g == f
    {
      WrittenIff(g, 1, text);
    }
  }

  lemma ParamsIsOneField(n: int) returns (f: Field)
    requires 1 <= n <= 2
    ensures Written(f, n, []) && Print(f) == EncodeParamsField((8 * n + 2) as byte)
    ensures forall g :: Written(g, n, []) ==> g == f
  {
    f := Bytes([(8 * n + 2) as byte], Encode(0), []);
    forall g
      ensures Written(g, n, []) <==> g == f
    {
      WrittenIff(g, n, []);
    }
  }

  lemma ParamsIsOnly(n: int) returns (gs: Fields)
    requires 1 <= n <= 2
    ensures AllWellFormed(gs) && PrintAll(gs) == EncodeParamsField((8 * n + 2) as byte)
    ensures forall fs :: OnlyField(fs, n, []) <==> fs == gs
  {
    var p := ParamsIsOneField(n);
    hide Print, EncodeParamsField, FieldNumber, WellFormed, Shortest;
    gs := Then(p, NoFields);
    assert PrintAll(gs) == Print(p) + [] == Print(p);
  }

  lemma TwoFields(authority: seq<byte>, f: Field, tail: Fields, fs: Fields)
    requires authority != [] && (forall g :: Written(g, 1, authority) <==> g == f)
    requires forall gs :: OnlyField(gs, 2, []) <==> gs == tail
    ensures WellFormed(f) && (MsgShape(authority, fs) <==> fs == Then(f, tail))
  {
    assert Written(f, 1, authority);
    hide OnlyField, WellFormed, FieldNumber, Shortest;
  }

  lemma TwoFieldBytes(authority: seq<byte>, f: Field, tail: Fields)
    requires Print(f) == EncodeText(authority) && PrintAll(tail) == EncodeParamsField(0x12)
    ensures PrintAll(Then(f, tail)) == EncodeMsg(authority)
  {
    hide Print, EncodeText, EncodeParamsField;
  }

  lemma EncodedParts(authority: seq<byte>)
    ensures |EncodeText(authority)| <= |EncodeMsg(authority)|
    ensures authority == [] ==> EncodeMsg(authority) == EncodeParamsField(0x12)
  {
    if authority == [] {
      assert EncodeMsg([]) == [] + EncodeParamsField(0x12);
    }
  }

  /** The written message has exactly one reading, and it is the shape of the message. */
  lemma MsgWritten(authority: seq<byte>, fs: Fields)
    requires |EncodeMsg(authority)| <= MAX_INT64 && AllWellFormed(fs)
    ensures PrintAll(fs) == EncodeMsg(authority) <==> MsgShape(authority, fs)
  {
    hide Print, PrintAll, EncodeMsg, EncodeText, EncodeParamsField, Written, OnlyField, WellFormed;
    EncodedParts(authority);
    var tail := ParamsIsOnly(2);
    if authority == [] {
      OneReading(fs, tail);
    } else {
      var f := TextIsOneField(authority);
      TwoFields(authority, f, tail, fs);
      TwoFieldBytes(authority, f, tail);
      hide MsgShape;
      OneReading(fs, Then(f, tail));
    }
  }

  lemma ModuleWritten(authority: seq<byte>, fs: Fields)
    requires |EncodeText(authority)| <= MAX_INT64 && AllWellFormed(fs)
    ensures PrintAll(fs) == EncodeText(authority) <==> ModuleShape(authority, fs)
  {
    if authority == [] {
      OneReading(fs, NoFields);
    } else {
      var f := TextIsOneField(authority);
      assert PrintAll(Then(f, NoFields)) == Print(f) + [] == Print(f);
      OneReading(fs, Then(f, NoFields));
    }
  }

  /** GenesisState and QueryParamsResponse write an empty Params as field 1, always. */
  lemma HolderWritten(fs: Fields)
    requires AllWellFormed(fs)
    ensures PrintAll(fs) == EncodeParamsField(0x0a) <==> OnlyField(fs, 1, [])
  {
    var only := ParamsIsOnly(1);
    EncodeIsVarint(0);
    OneReading(fs, only);
  }

  lemma OneReading(fs: Fields, gs: Fields)
    requires AllWellFormed(fs) && AllWellFormed(gs) && |PrintAll(gs)| <= MAX_INT64
    ensures PrintAll(fs) == PrintAll(gs) <==> fs == gs
  {
    if PrintAll(fs) == PrintAll(gs) {
      Unambiguous(fs, gs);
    }
  }

  /** The bytes of the two shortest messages. */
  lemma WrittenBytes()
    ensures EncodeMsg([0x61]) == [0x0a, 0x01, 0x61, 0x12, 0x00]
    ensures EncodeMsg([]) == [0x12, 0x00]
  {
  }
}
