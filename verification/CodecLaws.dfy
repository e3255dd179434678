/** What the wire codec guarantees its callers. */
module CodecLaws {
  import opened Machine
  import opened Options
  import opened Results
  import opened Varint
  import opened Grammar
  import opened Decoder
  import opened Messages

  // ---------- the grammar is unambiguous ----------

  lemma TagUnique(s: seq<byte>, i: nat, t: seq<byte>, u: seq<byte>)
    requires IsVarint(t) && IsVarint(u) && At(s, i, t) && At(s, i, u)
    ensures t == u
  {
    ReadIff(s, i, Decode(t), i + |t|);
    ReadIff(s, i, Decode(u), i + |u|);
  }

  lemma ScalarUnique(s: Buffer, j: nat, f: Field, g: Field)
    requires WellFormed(f) && WellFormed(g) && TypeOf(f) == TypeOf(g) && f.tag == g.tag && !f.Group?
    requires At(s, j, AfterTag(f)) && At(s, j, AfterTag(g))
    ensures f == g
  {
    hide IsVarint, Decode;
    match f
    case Number(_, _) => TagUnique(s, j, f.payload, g.payload);
    case Bytes(_, _, _) => WindowUnique(s, j, f.length, f.payload, g.length, g.payload);
    case _ =>
  }

  lemma {:induction false} FieldUnique(s: Buffer, i: nat, f: Field, g: Field)
    requires WellFormed(f) && WellFormed(g) && At(s, i, Print(f)) && At(s, i, Print(g))
    ensures f == g
    decreases f, 0
  {
    hide IsVarint, WireType, ReadAt, Print, At;
    TagIsRead(s, i, f);
    TagIsRead(s, i, g);
    TagUnique(s, i, f.tag, g.tag);
    assert TypeOf(f) == TypeOf(g);
    if f.Group? {
      BodyUnique(s, i + |f.tag|, f.body, g.body, f.end, g.end);
    } else {
      ScalarUnique(s, i + |f.tag|, f, g);
    }
  }

  lemma WindowUnique(s: Buffer, j: nat, length: seq<byte>, payload: seq<byte>, length': seq<byte>, payload': seq<byte>)
    requires IsVarint(length) && |payload| == ToInt64(Decode(length)) && At(s, j, length + payload)
    requires IsVarint(length') && |payload'| == ToInt64(Decode(length')) && At(s, j, length' + payload')
    ensures length == length' && payload == payload'
  {
    hide IsVarint, Decode;
    AtConcat(s, j, length, payload);
    AtConcat(s, j, length', payload');
    TagUnique(s, j, length, length');
  }

  /** What starts as a field is not an end tag. */
  lemma FieldIsNoEnd(s: Buffer, i: nat, f: Field, end: seq<byte>)
    requires WellFormed(f) && At(s, i, Print(f)) && IsTag(end, 4)
    ensures !At(s, i, end)
  {
    TagIsRead(s, i, f);
    if At(s, i, end) {
      TagUnique(s, i, f.tag, end);
    }
  }

  lemma {:induction false} BodyUnique(s: Buffer, i: nat, fs: Fields, gs: Fields, e: seq<byte>, e': seq<byte>)
    requires AllWellFormed(fs) && AllWellFormed(gs) && IsTag(e, 4) && IsTag(e', 4)
    requires At(s, i, PrintAll(fs) + e) && At(s, i, PrintAll(gs) + e')
    ensures fs == gs && e == e'
    decreases fs, 1
  {
    hide IsVarint, Decode, WellFormed, Print;
    HeadAndTail(s, i, fs, e);
    HeadAndTail(s, i, gs, e');
    if fs.NoFields? && gs.NoFields? {
      TagUnique(s, i, e, e');
    } else if fs.NoFields? {
      FieldIsNoEnd(s, i, gs.head, e);
    } else if gs.NoFields? {
      FieldIsNoEnd(s, i, fs.head, e');
    } else {
      FieldUnique(s, i, fs.head, gs.head);
      BodyUnique(s, i + |Print(fs.head)|, fs.tail, gs.tail, e, e');
    }
  }

  lemma HeadAndTail(s: seq<byte>, i: nat, fs: Fields, e: seq<byte>)
    requires At(s, i, PrintAll(fs) + e)
    ensures if fs.NoFields? then At(s, i, e)
            else At(s, i, Print(fs.head)) && At(s, i + |Print(fs.head)|, PrintAll(fs.tail) + e)
  {
    if fs.NoFields? {
      assert PrintAll(fs) + e == e;
    } else {
      assert PrintAll(fs) + e == Print(fs.head) + (PrintAll(fs.tail) + e);
      AtConcat(s, i, Print(fs.head), PrintAll(fs.tail) + e);
    }
  }

  /** Different runs of fields never print the same bytes. */
  lemma {:induction false} Unambiguous(fs: Fields, gs: Fields)
    requires AllWellFormed(fs) && AllWellFormed(gs) && PrintAll(fs) == PrintAll(gs)
    requires |PrintAll(fs)| <= MAX_INT64
    ensures fs == gs
    decreases fs
  {
    hide IsVarint, Decode, WellFormed, Print;
    var s := PrintAll(fs);
    FieldsAtStart(s, fs);
    FieldsAtStart(s, gs);
    if fs.Then? && gs.Then? {
      FieldUnique(s, 0, fs.head, gs.head);
      Unambiguous(fs.tail, gs.tail);
    }
  }

  lemma FieldsAtStart(s: Buffer, fs: Fields)
    requires AllWellFormed(fs) && PrintAll(fs) == s
    ensures fs.Then? ==> s != [] && At(s, 0, Print(fs.head)) && PrintAll(fs.tail) == s[|Print(fs.head)|..]
  {
    if fs.Then? {
      assert s[0..|Print(fs.head)|] == Print(fs.head);
      TagIsRead(s, 0, fs.head);
    }
  }

  /** For input that is a run of complete fields, acceptance and result are read off the fields. */
  lemma AcceptsTree(sch: Schema, authority: seq<byte>, s: Buffer, fs: Fields)
    requires AllWellFormed(fs) && PrintAll(fs) == s
    ensures Unmarshal(sch, authority, s).error.None? <==> AllAdmissible(sch, fs)
    ensures AllAdmissible(sch, fs)
        ==> Unmarshal(sch, authority, s) == Outcome(Meaning(sch, authority, fs), None)
  {
    assert s[0..] == s;
    if AllAdmissible(sch, fs) {
      assert Denotes(sch, authority, s[0..], fs, Meaning(sch, authority, fs));
      DecodeIff(sch, authority, s, 0, Meaning(sch, authority, fs));
    }
    if Unmarshal(sch, authority, s).error.None? {
      var gs := DecodeSound(sch, authority, s, 0);
      Unambiguous(fs, gs);
    }
  }

  // ---------- concatenation ----------

  /** Once `a` is accepted, `a + b` is parsed as `b` is parsed into the message that `a` left: the same
      message, also when `b` fails, and the same error up to an index overflow in place of the end of
      input. */
  lemma Concatenation(sch: Schema, authority: seq<byte>, a: seq<byte>, b: seq<byte>)
    requires |a| + |b| <= MAX_INT64 && Unmarshal(sch, authority, a).error.None?
    ensures Follows(
              Unmarshal(sch, authority, a + b),
              Unmarshal(sch, Unmarshal(sch, authority, a).authority, b))
  {
    Resume(sch, authority, a, b);
    assert (a + b)[|a|..] == b[0..] == b;
    DecodeLater(sch, Unmarshal(sch, authority, a).authority, b, 0, a + b, |a|);
  }

  /** After an accepted prefix the parser goes on from its end with what it stored. */
  lemma Resume(sch: Schema, authority: seq<byte>, a: seq<byte>, b: seq<byte>)
    requires |a| + |b| <= MAX_INT64 && Unmarshal(sch, authority, a).error.None?
    ensures Unmarshal(sch, authority, a + b)
         == DecodeFrom(sch, Unmarshal(sch, authority, a).authority, a + b, |a|)
  {
    hide DecodeFrom, AllWellFormed, AllAdmissible, PrintAll, Meaning;
    var fs := DecodeSound(sch, authority, a, 0);
    assert a[0..] == a;
    assert (a + b)[0..|a|] == a;
    DecodeComplete(sch, authority, a + b, 0, fs);
  }

  lemma OneField(sch: Schema, authority: seq<byte>, f: Field)
    requires WellFormed(f) && Admissible(sch, f) && |Print(f)| <= MAX_INT64
    ensures Unmarshal(sch, authority, Print(f))
         == Outcome(if StoresText(sch, f) then f.payload else authority, None)
  {
    hide WellFormed, Admissible, Print, DecodeRecord;
    var s := Print(f);
    assert s[0..|s|] == s;
    RecordComplete(sch, s, 0, f);
    DecodeAtEnd(sch, if StoresText(sch, f) then f.payload else authority, s);
  }

  // ---------- unknown fields ----------

  /** A complete field that the message does not declare can stand anywhere between records: the
      longer input is parsed as the shorter one, failures included. */
  lemma UnknownField(sch: Schema, authority: seq<byte>, a: seq<byte>, f: Field, b: seq<byte>)
    requires |a| + |Print(f)| + |b| <= MAX_INT64
    requires Unmarshal(sch, authority, a).error.None?
    requires WellFormed(f) && FieldNumber(f.tag) > 0 && sch.KindOf(FieldNumber(f.tag)).Unknown?
    ensures Follows(
              Unmarshal(sch, authority, a + (Print(f) + b)),
              Unmarshal(sch, authority, a + b))
  {
    hide DecodeFrom, WellFormed, Print, Admissible;
    var authority' := Unmarshal(sch, authority, a).authority;
    var p := Print(f);
    UnknownIsAdmissible(sch, f);
    OneField(sch, authority', f);
    Concatenation(sch, authority, a, p);
    Resume(sch, authority, a + p, b);
    Resume(sch, authority, a, b);
    assert a + p + b == a + (p + b);
    assert (a + b)[|a|..] == b == (a + p + b)[|a + p|..];
    DecodeLater(sch, authority', a + b, |a|, a + p + b, |a + p|);
  }

  lemma UnknownIsAdmissible(sch: Schema, f: Field)
    requires FieldNumber(f.tag) > 0 && sch.KindOf(FieldNumber(f.tag)).Unknown?
    ensures Admissible(sch, f) && !StoresText(sch, f)
  {
  }

  // ---------- schema evolution ----------

  /** `narrow` declares no more than `wide`, and what it declares it declares alike. */
  predicate Forgets(wide: Schema, narrow: Schema) {
    && (narrow.field1 == wide.field1 || narrow.field1.Unknown?)
    && (narrow.field2 == wide.field2 || narrow.field2.Unknown?)
  }

  predicate KeepsText(wide: Schema, narrow: Schema) {
    && (wide.field1.Text? ==> narrow.field1.Text?)
    && (wide.field2.Text? ==> narrow.field2.Text?)
  }

  lemma {:induction false} ForgetFields(wide: Schema, narrow: Schema, authority: seq<byte>, fs: Fields)
    requires Forgets(wide, narrow) && AllAdmissible(wide, fs)
    ensures AllAdmissible(narrow, fs)
    ensures KeepsText(wide, narrow) ==> Meaning(narrow, authority, fs) == Meaning(wide, authority, fs)
    ensures !narrow.field1.Text? && !narrow.field2.Text? ==> Meaning(narrow, authority, fs) == authority
    decreases fs
  {
    hide IsEmptyMessage;
    if fs.Then? {
      ForgetFields(wide, narrow, authority, fs.tail);
      if StoresText(wide, fs.head) {
        ForgetFields(wide, narrow, fs.head.payload, fs.tail);
      }
    }
  }

  /** Dropping declarations never rejects what was accepted; what is still declared keeps its value. */
  lemma Forgetting(wide: Schema, narrow: Schema, authority: seq<byte>, s: Buffer)
    requires Forgets(wide, narrow) && Unmarshal(wide, authority, s).error.None?
    ensures Unmarshal(narrow, authority, s).error.None?
    ensures KeepsText(wide, narrow) ==> Unmarshal(narrow, authority, s) == Unmarshal(wide, authority, s)
    ensures !narrow.field1.Text? && !narrow.field2.Text?
        ==> Unmarshal(narrow, authority, s) == Outcome(authority, None)
  {
    hide DecodeFrom, AllWellFormed, AllAdmissible, Meaning, PrintAll;
    var fs := DecodeSound(wide, authority, s, 0);
    ForgetFields(wide, narrow, authority, fs);
    assert Denotes(narrow, authority, s[0..], fs, Meaning(narrow, authority, fs));
    DecodeIff(narrow, authority, s, 0, Meaning(narrow, authority, fs));
  }

  /** A declared field adds a demand on the records that carry its number, and no other demand. */
  ghost predicate SuitsParams(f: Field) {
    FieldNumber(f.tag) == 2 ==> f.Bytes? && IsEmptyMessage(f.payload)
  }

  ghost predicate AllSuitParams(fs: Fields) {
    fs.Then? ==> SuitsParams(fs.head) && AllSuitParams(fs.tail)
  }

  lemma {:induction false} SuitsIff(fs: Fields)
    ensures AllAdmissible(MSG_UPDATE_PARAMS, fs) <==> AllAdmissible(MODULE, fs) && AllSuitParams(fs)
  {
    if fs.Then? {
      SuitsIff(fs.tail);
    }
  }

  /** The input is a run of complete fields whose records numbered 2 are all well-formed Params. */
  ghost predicate ParamsSuit(s: seq<byte>) {
    exists fs :: AllWellFormed(fs) && AllSuitParams(fs) && PrintAll(fs) == s
  }

  /** On any input, MsgUpdateParams accepts what Module accepts exactly when every record numbered 2 is
      a length-delimited, well-formed Params; both then store the same authority. */
  lemma ModuleToMsg(authority: seq<byte>, s: Buffer)
    ensures Unmarshal(MSG_UPDATE_PARAMS, authority, s).error.None?
       <==> Unmarshal(MODULE, authority, s).error.None? && ParamsSuit(s)
    ensures Unmarshal(MSG_UPDATE_PARAMS, authority, s).error.None?
        ==> Unmarshal(MSG_UPDATE_PARAMS, authority, s) == Unmarshal(MODULE, authority, s)
  {
    hide DecodeFrom, AllWellFormed, AllAdmissible, AllSuitParams, PrintAll, Meaning;
    assert s[0..] == s;
    if Unmarshal(MSG_UPDATE_PARAMS, authority, s).error.None? {
      Forgetting(MSG_UPDATE_PARAMS, MODULE, authority, s);
      var fs := DecodeSound(MSG_UPDATE_PARAMS, authority, s, 0);
      SuitsIff(fs);
      assert ParamsSuit(s);
    }
    if Unmarshal(MODULE, authority, s).error.None? && ParamsSuit(s) {
      var fs :| AllWellFormed(fs) && AllSuitParams(fs) && PrintAll(fs) == s;
      AcceptsTree(MODULE, authority, s, fs);
      SuitsIff(fs);
      AcceptsTree(MSG_UPDATE_PARAMS, authority, s, fs);
    }
  }

  // ---------- what is written is read back ----------

  /** One-byte tags of the declared fields: number 1 or 2, length-delimited. */
  lemma DeclaredTag(tag: byte)
    requires tag == 0x0a || tag == 0x12
    ensures IsTag([tag], 2) && FieldNumber([tag]) == if tag == 0x0a then 1 else 2
  {
    assert Value([tag]) == Low7(tag) + 128 * Value([]);
  }

  lemma ReadText(sch: Schema, authority: seq<byte>, text: seq<byte>)
    requires sch.field1.Text? && |EncodeText(text)| <= MAX_INT64
    ensures Unmarshal(sch, authority, EncodeText(text)) == Outcome(if text == [] then authority else text, None)
  {
    if text == [] {
      DecodeAtEnd(sch, authority, []);
    } else {
      DeclaredTag(0x0a);
      EncodeIsVarint(|text|);
      OneField(sch, authority, Bytes([0x0a], Encode(|text|), text));
    }
  }

  lemma ReadParamsField(sch: Schema, authority: seq<byte>, tag: byte)
    requires tag == 0x0a || tag == 0x12
    requires !sch.KindOf(if tag == 0x0a then 1 else 2).Text?
    ensures Unmarshal(sch, authority, EncodeParamsField(tag)) == Outcome(authority, None)
  {
    DeclaredTag(tag);
    EncodeIsVarint(0);
    assert AllWellFormed(NoFields) && AllPositive(NoFields) && PrintAll(NoFields) == PARAMS_BYTES;
    OneField(sch, authority, Bytes([tag], Encode(0), PARAMS_BYTES));
  }

  /** Round trip, into any message and under both schemas that know field 1: an empty authority is
      not written, so it leaves the target's authority alone. */
  lemma MsgRoundTrip(target: seq<byte>, authority: seq<byte>)
    requires |EncodeMsg(authority)| <= MAX_INT64
    ensures var merged := if authority == [] then target else authority;
      && Unmarshal(MSG_UPDATE_PARAMS, target, EncodeMsg(authority)) == Outcome(merged, None)
      && Unmarshal(MODULE, target, EncodeMsg(authority)) == Outcome(merged, None)
      && Unmarshal(EMPTY, target, EncodeMsg(authority)) == Outcome(target, None)
  {
    hide DecodeFrom;
    var merged := if authority == [] then target else authority;
    ReadText(MSG_UPDATE_PARAMS, target, authority);
    ReadParamsField(MSG_UPDATE_PARAMS, merged, 0x12);
    Concatenation(MSG_UPDATE_PARAMS, target, EncodeText(authority), EncodeParamsField(0x12));
    Forgetting(MSG_UPDATE_PARAMS, MODULE, target, EncodeMsg(authority));
    Forgetting(MSG_UPDATE_PARAMS, EMPTY, target, EncodeMsg(authority));
  }

  /** Marshalling one message and parsing the bytes into another never fails and merges the two. */
  method Transmit(m: MsgUpdateParams, into: MsgUpdateParams) returns (error: Option<Error>)
    requires m.Size() <= MAX_INT64
    modifies into
    ensures error.None?
    ensures into.authority == old(if m.authority == [] then into.authority else m.authority)
  {
    m.SizeIsExact();
    MsgRoundTrip(into.authority, m.authority);
    var wire := m.Marshal();
    error := into.Unmarshal(wire);
  }

  /** Module's bytes are read back by Module, by the wider MsgUpdateParams, and skipped by Params. */
  lemma ModuleRoundTrip(target: seq<byte>, authority: seq<byte>)
    requires |EncodeText(authority)| <= MAX_INT64
    ensures var merged := if authority == [] then target else authority;
      && Unmarshal(MODULE, target, EncodeText(authority)) == Outcome(merged, None)
      && Unmarshal(MSG_UPDATE_PARAMS, target, EncodeText(authority)) == Outcome(merged, None)
      && Unmarshal(EMPTY, target, EncodeText(authority)) == Outcome(target, None)
  {
    hide DecodeFrom;
    ReadText(MODULE, target, authority);
    ReadText(MSG_UPDATE_PARAMS, target, authority);
    Forgetting(MODULE, EMPTY, target, EncodeText(authority));
  }

  /** GenesisState and QueryParamsResponse. */
  lemma HolderRoundTrip(target: seq<byte>)
    ensures Unmarshal(PARAMS_HOLDER, target, EncodeParamsField(0x0a)) == Outcome(target, None)
  {
    ReadParamsField(PARAMS_HOLDER, target, 0x0a);
  }

  /** Two written messages, one after the other, read as their merge: the last written authority wins. */
  lemma LastOneWins(a: seq<byte>, b: seq<byte>)
    requires |EncodeMsg(a)| + |EncodeMsg(b)| <= MAX_INT64
    ensures Unmarshal(MSG_UPDATE_PARAMS, [], EncodeMsg(a) + EncodeMsg(b))
         == Outcome(if b == [] then a else b, None)
  {
    hide DecodeFrom, EncodeMsg;
    MsgRoundTrip([], a);
    MsgRoundTrip(a, b);
    Concatenation(MSG_UPDATE_PARAMS, [], EncodeMsg(a), EncodeMsg(b));
  }

  // ---------- where the parser is laxer than the format ----------

  /** The bytes can be read as fields whose groups all close with their own number. */
  ghost predicate GroupsClose(s: seq<byte>) {
    exists gs :: AllWellFormed(gs) && AllEndsMatch(gs) && PrintAll(gs) == s
  }

  /** Whether an input keeps the encoding guide's rule on group end tags is read off its fields. */
  lemma GroupsCloseIff(s: Buffer, fs: Fields)
    requires AllWellFormed(fs) && PrintAll(fs) == s
    ensures GroupsClose(s) <==> AllEndsMatch(fs)
  {
    hide AllWellFormed, AllEndsMatch, PrintAll;
    if GroupsClose(s) {
      var gs :| AllWellFormed(gs) && AllEndsMatch(gs) && PrintAll(gs) == s;
      Unambiguous(fs, gs);
    }
  }

  /** The rule of the guide inside a record too: a nested message keeps it in its payload. */
  ghost predicate Conforms(sch: Schema, f: Field) {
    EndsMatch(f) && (sch.KindOf(FieldNumber(f.tag)).Nested? && f.Bytes? ==> GroupsClose(f.payload))
  }

  ghost predicate AllConform(sch: Schema, fs: Fields) {
    fs.Then? ==> Conforms(sch, fs.head) && AllConform(sch, fs.tail)
  }

  /** What a parser accepts that also keeps the guide's rule on group end tags. */
  ghost predicate StrictlyAccepts(sch: Schema, s: seq<byte>) {
    exists gs :: AllWellFormed(gs) && AllAdmissible(sch, gs) && AllConform(sch, gs) && PrintAll(gs) == s
  }

  /** The strict parser accepts exactly the accepted inputs in whose one reading every group, at any
      depth or inside a nested message, closes with the number it was opened with. */
  lemma StrictlyAcceptsIff(sch: Schema, authority: seq<byte>, s: Buffer, fs: Fields)
    requires AllWellFormed(fs) && PrintAll(fs) == s
    ensures StrictlyAccepts(sch, s) <==> Unmarshal(sch, authority, s).error.None? && AllConform(sch, fs)
  {
    hide DecodeFrom, AllWellFormed, AllAdmissible, AllConform, PrintAll;
    AcceptsTree(sch, authority, s, fs);
    if StrictlyAccepts(sch, s) {
      var gs :| AllWellFormed(gs) && AllAdmissible(sch, gs) && AllConform(sch, gs) && PrintAll(gs) == s;
      Unambiguous(fs, gs);
    }
  }

  /** An accepted input breaks the rule exactly when it has a reading that does. */
  lemma LaxIff(sch: Schema, authority: seq<byte>, s: Buffer)
    requires Unmarshal(sch, authority, s).error.None?
    ensures !StrictlyAccepts(sch, s)
       <==> exists fs :: AllWellFormed(fs) && PrintAll(fs) == s && !AllConform(sch, fs)
  {
    hide DecodeFrom, AllWellFormed, AllAdmissible, AllConform, PrintAll, StrictlyAccepts;
    var fs := DecodeSound(sch, authority, s, 0);
    assert s[0..] == s;
    StrictlyAcceptsIff(sch, authority, s, fs);
    forall gs | AllWellFormed(gs) && PrintAll(gs) == s && !AllConform(sch, gs)
      ensures !StrictlyAccepts(sch, s)
    {
      StrictlyAcceptsIff(sch, authority, s, gs);
    }
  }

  lemma MismatchedGroup() returns (f: Field)
    ensures WellFormed(f) && FieldNumber(f.tag) == 3 && !EndsMatch(f) && !f.Bytes?
    ensures Print(f) == [0x1b, 0x24] && f.tag == [0x1b] && f.Group? && f.end == [0x24] && FieldNumber(f.end) == 4
  {
    assert Value([0x1b]) == 0x1b + 128 * Value([]);
    assert Value([0x24]) == 0x24 + 128 * Value([]);
    f := Group([0x1b], NoFields, [0x24]);
    assert Print(f) == [0x1b] + ([] + [0x24]);
  }

  /** A witness: a group that starts as field 3 and ends as field 4 is accepted, and breaks the rule. */
  lemma GroupNumbersIgnored(authority: seq<byte>)
    ensures FieldNumber([0x1b]) == 3 && FieldNumber([0x24]) == 4
    ensures Unmarshal(MSG_UPDATE_PARAMS, authority, [0x1b, 0x24]) == Outcome(authority, None)
    ensures !StrictlyAccepts(MSG_UPDATE_PARAMS, [0x1b, 0x24])
  {
    hide WellFormed, FieldNumber, EndsMatch, DecodeFrom, Print, StrictlyAccepts;
    var f := MismatchedGroup();
    OneField(MSG_UPDATE_PARAMS, authority, f);
    var fs := Then(f, NoFields);
    assert PrintAll(fs) == Print(f) + [] == Print(f);
    StrictlyAcceptsIff(MSG_UPDATE_PARAMS, authority, Print(f), fs);
  }
}
