/** `Unmarshal`, once for every message of the module: what it stores and what it rejects. */
module Decoder {
  import opened Machine
  import opened Options
  import opened Results
  import opened Varint
  import opened Grammar
  import opened Skip

  /** What a message's `switch` does with a field number. */
  datatype Kind = Unknown | Text | Nested

  /** The messages declare at most the fields 1 and 2. */
  datatype Schema = Schema(field1: Kind, field2: Kind) {
    function KindOf(fieldNum: int): Kind {
      if fieldNum == 1 then field1 else if fieldNum == 2 then field2 else Unknown
    }
  }

  const MSG_UPDATE_PARAMS := Schema(Text, Nested)
  const MODULE := Schema(Text, Unknown)
  /** GenesisState and QueryParamsResponse: one nested Params. */
  const PARAMS_HOLDER := Schema(Nested, Unknown)
  /** Params, MsgUpdateParamsResponse and QueryParamsRequest: no fields. */
  const EMPTY := Schema(Unknown, Unknown)

  /** The message after the call, also when the call fails half-way. */
  datatype Outcome = Outcome(authority: seq<byte>, error: Option<Error>)

  /** One accepted record: the string it stores, if any, and where it ends. */
  datatype Record = Record(text: Option<seq<byte>>, next: nat)

  // ---------- the parser as a function ----------

  /** A length-delimited window: where its contents begin and end. */
  function Window(s: Buffer, i: nat): (r: Result<(nat, nat)>)
    requires i <= |s|
    ensures r.Ok? ==> i < r.value.0 <= r.value.1 <= |s|
  {
    match ReadAt(s, i)
    case Err(e) => Err(e)
    case Ok((n, k)) =>
      if ToInt64(n) < 0 then Err(InvalidLength)
      else
        var post := Add64(k, ToInt64(n));
        if post < 0 then Err(InvalidLength)
        else if post > |s| then Err(UnexpectedEOF)
        else Ok((k, post))
  }

  /** Passing over an unknown field that starts at `i`. */
  function SkipAt(s: Buffer, i: nat): (r: Result<nat>)
    requires i <= |s|
    ensures r.Ok? ==> i < r.value <= |s|
  {
    match SkipFrom(s[i..], 0, 0)
    case Err(e) => Err(e)
    case Ok(n) =>
      if Add64(i, n) < 0 then Err(InvalidLength)
      else if Add64(i, n) > |s| then Err(UnexpectedEOF)
      else Ok(i + n)
  }

  /** A record's tag: its field number, its wire type and where it ends. */
  function TagAt(s: Buffer, i: nat): (r: Result<(int, int, nat)>)
    requires i < |s|
    ensures r.Ok? ==> i < r.value.2 <= |s|
  {
    match ReadAt(s, i)
    case Err(e) => Err(e)
    case Ok((wire, j)) =>
      var fieldNum, wireType := ToInt32(wire / 8), wire % 8;
      if wireType == 4 then Err(EndGroupForNonGroup)
      else if fieldNum <= 0 then Err(IllegalTag(fieldNum, wire))
      else Ok((fieldNum, wireType, j))
  }

  /** The contents of a nested Params field, once its tag is read. */
  function ParamsAt(s: Buffer, j: nat, fieldNum: int, wireType: int): (r: Result<nat>)
    requires j <= |s|
    ensures r.Ok? ==> j < r.value <= |s|
    decreases |s|, |s| - j, 0
  {
    if wireType != 2 then Err(WrongWireType(fieldNum, wireType))
    else
      match Window(s, j)
      case Err(e) => Err(e)
      case Ok((k, post)) =>
        match DecodeFrom(EMPTY, [], s[k..post], 0).error
        case Some(e) => Err(e)
        case None => Ok(post)
  }

  function DecodeRecord(sch: Schema, s: Buffer, i: nat): (r: Result<Record>)
    requires i < |s|
    ensures r.Ok? ==> i < r.value.next <= |s|
    decreases |s|, |s| - i, 0
  {
    match TagAt(s, i)
    case Err(e) => Err(e)
    case Ok((fieldNum, wireType, j)) =>
      match sch.KindOf(fieldNum)
      case Unknown => (
        match SkipAt(s, i)
        case Err(e) => Err(e)
        case Ok(next) => Ok(Record(None, next)))
      case Text =>
        if wireType != 2 then Err(WrongWireType(fieldNum, wireType))
        else (
          match Window(s, j)
          case Err(e) => Err(e)
          case Ok((k, post)) => Ok(Record(Some(s[k..post]), post)))
      case Nested =>
        match ParamsAt(s, j, fieldNum, wireType)
        case Err(e) => Err(e)
        case Ok(post) => Ok(Record(None, post))
  }

  function DecodeFrom(sch: Schema, authority: seq<byte>, s: Buffer, i: nat): Outcome
    requires i <= |s|
    decreases |s|, |s| - i, 1
  {
    if i == |s| then Outcome(authority, None)
    else
      match DecodeRecord(sch, s, i)
      case Err(e) => Outcome(authority, Some(e))
      case Ok(r) => DecodeFrom(sch, if r.text.Some? then r.text.value else authority, s, r.next)
  }

  function Unmarshal(sch: Schema, authority: seq<byte>, s: Buffer): Outcome {
    DecodeFrom(sch, authority, s, 0)
  }

  // ---------- the meaning, on trees ----------

  ghost predicate IsEmptyMessage(payload: seq<byte>) {
    exists fs :: AllWellFormed(fs) && AllPositive(fs) && PrintAll(fs) == payload
  }

  predicate AllPositive(fs: Fields) {
    fs.Then? ==> FieldNumber(fs.head.tag) > 0 && AllPositive(fs.tail)
  }

  /** Field numbers must be positive, and declared fields must have the declared shape. */
  ghost predicate Admissible(sch: Schema, f: Field) {
    && FieldNumber(f.tag) > 0
    && match sch.KindOf(FieldNumber(f.tag))
       case Unknown => true
       case Text => f.Bytes?
       case Nested => f.Bytes? && IsEmptyMessage(f.payload)
  }

  ghost predicate AllAdmissible(sch: Schema, fs: Fields) {
    fs.Then? ==> Admissible(sch, fs.head) && AllAdmissible(sch, fs.tail)
  }

  predicate StoresText(sch: Schema, f: Field) {
    f.Bytes? && sch.KindOf(FieldNumber(f.tag)).Text?
  }

  /** The last stored string wins; everything else leaves the message as it was. */
  function Meaning(sch: Schema, authority: seq<byte>, fs: Fields): seq<byte>
    decreases fs
  {
    if fs.NoFields? then authority
    else Meaning(sch, if StoresText(sch, fs.head) then fs.head.payload else authority, fs.tail)
  }

  lemma {:induction false} EmptyAdmitsPositive(fs: Fields)
    ensures AllAdmissible(EMPTY, fs) <==> AllPositive(fs)
  {
    if fs.Then? {
      EmptyAdmitsPositive(fs.tail);
    }
  }

  // ---------- one record ----------

  /** The bytes of a field after its tag. */
  function AfterTag(f: Field): seq<byte> {
    match f
    case Number(_, payload) => payload
    case Fixed64(_, payload) => payload
    case Bytes(_, length, payload) => length + payload
    case Group(_, body, end) => PrintAll(body) + end
    case Fixed32(_, payload) => payload
  }

  function TypeOf(f: Field): int {
    match f
    case Number(_, _) => 0
    case Fixed64(_, _) => 1
    case Bytes(_, _, _) => 2
    case Group(_, _, _) => 3
    case Fixed32(_, _) => 5
  }

  /** The parser reads a field's tag as that tag, whatever follows. */
  lemma TagIsRead(s: Buffer, i: nat, f: Field)
    requires WellFormed(f) && At(s, i, Print(f))
    ensures IsVarint(f.tag) && WireType(f.tag) == TypeOf(f)
    ensures At(s, i, f.tag) && At(s, i + |f.tag|, AfterTag(f)) && i < |s|
    ensures ReadAt(s, i) == Ok((Decode(f.tag), i + |f.tag|))
  {
    AtConcat(s, i, f.tag, AfterTag(f));
    ReadIff(s, i, Decode(f.tag), i + |f.tag|);
  }

  /** The checks on wrapped sums reject exactly what the true sums exceed: a length is invalid if it,
      or the end it leads to, does not fit in 63 bits, and too long if the end lies beyond the input. */
  lemma WindowErrorIff(s: Buffer, i: nat)
    requires i <= |s| && ReadAt(s, i).Ok?
    ensures var (n, k) := ReadAt(s, i).value;
      && (Window(s, i) == Err(InvalidLength) <==> n > MAX_INT64 || k + n > MAX_INT64)
      && (Window(s, i) == Err(UnexpectedEOF) <==> |s| < k + n <= MAX_INT64)
      && (Window(s, i) == Ok((k, k + n)) <==> k + n <= |s|)
  {
    var (n, k) := ReadAt(s, i).value;
    ReadIff(s, i, n, k);
  }

  /** The caller's checks on a skipped length, in true sums. */
  lemma SkipAtErrorIff(s: Buffer, i: nat)
    requires i <= |s| && SkipFrom(s[i..], 0, 0).Ok?
    ensures var n := SkipFrom(s[i..], 0, 0).value;
      && (SkipAt(s, i) == Err(InvalidLength) <==> i + n > MAX_INT64)
      && (SkipAt(s, i) == Err(UnexpectedEOF) <==> |s| < i + n <= MAX_INT64)
      && (SkipAt(s, i) == Ok(i + n) <==> i + n <= |s|)
  {
    hide SkipFrom;
  }

  lemma WindowComplete(s: Buffer, i: nat, length: seq<byte>, payload: seq<byte>)
    requires IsVarint(length) && |payload| == ToInt64(Decode(length))
    requires At(s, i, length + payload)
    ensures Window(s, i) == Ok((i + |length|, i + |length| + |payload|))
    ensures s[i + |length|..i + |length| + |payload|] == payload
  {
    AtConcat(s, i, length, payload);
    ReadIff(s, i, Decode(length), i + |length|);
  }

  lemma WindowSound(s: Buffer, i: nat)
    requires i <= |s| && Window(s, i).Ok?
    ensures var (k, post) := Window(s, i).value;
      && IsVarint(s[i..k])
      && post - k == ToInt64(Decode(s[i..k]))
      && s[i..post] == s[i..k] + s[k..post]
  {
    var (n, k) := ReadAt(s, i).value;
    ReadIff(s, i, n, k);
  }

  lemma SkipAtComplete(s: Buffer, i: nat, f: Field)
    requires WellFormed(f) && At(s, i, Print(f))
    ensures SkipAt(s, i) == Ok(i + |Print(f)|)
  {
    hide SkipFrom, WellFormed, Print;
    assert s[i..][0..|Print(f)|] == s[i..i + |Print(f)|];
    FieldComplete(s[i..], 0, 0, f);
  }

  lemma SkipAtSound(s: Buffer, i: nat) returns (f: Field)
    requires i <= |s| && SkipAt(s, i).Ok?
    ensures WellFormed(f) && s[i..SkipAt(s, i).value] == Print(f)
  {
    hide SkipFrom, WellFormed, Print;
    var n := SkipAt(s, i).value - i;
    f := FieldSound(s[i..], n);
    assert s[i..][..n] == s[i..i + n];
  }

  lemma {:induction false} RecordComplete(sch: Schema, s: Buffer, i: nat, f: Field)
    requires WellFormed(f) && Admissible(sch, f) && At(s, i, Print(f))
    ensures i < |s|
    ensures DecodeRecord(sch, s, i)
         == Ok(Record(if StoresText(sch, f) then Some(f.payload) else None, i + |Print(f)|))
    decreases |s|, |s| - i, 0
  {
    hide SkipAt, Window, IsVarint, ParamsAt;
    TagIsRead(s, i, f);
    assert TagAt(s, i) == Ok((FieldNumber(f.tag), WireType(f.tag), i + |f.tag|));
    hide ReadAt, TagAt, Decode;
    if sch.KindOf(FieldNumber(f.tag)).Unknown? {
      SkipAtComplete(s, i, f);
    } else if sch.KindOf(FieldNumber(f.tag)).Nested? {
      ParamsComplete(s, i + |f.tag|, FieldNumber(f.tag), f.length, f.payload);
    } else {
      WindowComplete(s, i + |f.tag|, f.length, f.payload);
    }
  }

  lemma {:induction false} ParamsComplete(s: Buffer, j: nat, fieldNum: int, length: seq<byte>, payload: seq<byte>)
    requires IsVarint(length) && |payload| == ToInt64(Decode(length)) && IsEmptyMessage(payload)
    requires j > 0 && At(s, j, length + payload)
    ensures ParamsAt(s, j, fieldNum, 2) == Ok(j + |length| + |payload|)
    decreases |s|, |s| - j, 0
  {
    hide Window, IsVarint, Decode, AllWellFormed, DecodeFrom;
    WindowComplete(s, j, length, payload);
    var fs :| AllWellFormed(fs) && AllPositive(fs) && PrintAll(fs) == payload;
    EmptyAdmitsPositive(fs);
    assert payload[0..|payload|] == payload;
    DecodeComplete(EMPTY, [], payload, 0, fs);
    DecodeAtEnd(EMPTY, Meaning(EMPTY, [], fs), payload);
  }

  /** Reading a well-formed, admissible run of fields takes the parser from its start to its end. */
  lemma {:induction false} DecodeComplete(sch: Schema, authority: seq<byte>, s: Buffer, i: nat, fs: Fields)
    requires AllWellFormed(fs) && AllAdmissible(sch, fs) && At(s, i, PrintAll(fs))
    ensures DecodeFrom(sch, authority, s, i)
         == DecodeFrom(sch, Meaning(sch, authority, fs), s, i + |PrintAll(fs)|)
    decreases |s|, |s| - i, 1
  {
    hide DecodeRecord, WellFormed, Admissible, Print;
    if fs.Then? {
      AtConcat(s, i, Print(fs.head), PrintAll(fs.tail));
      RecordComplete(sch, s, i, fs.head);
      var authority' := if StoresText(sch, fs.head) then fs.head.payload else authority;
      DecodeComplete(sch, authority', s, i + |Print(fs.head)|, fs.tail);
    }
  }

  lemma {:induction false} RecordSound(sch: Schema, s: Buffer, i: nat) returns (f: Field)
    requires i < |s| && DecodeRecord(sch, s, i).Ok?
    ensures WellFormed(f) && Admissible(sch, f)
    ensures s[i..DecodeRecord(sch, s, i).value.next] == Print(f)
    ensures DecodeRecord(sch, s, i).value.text == if StoresText(sch, f) then Some(f.payload) else None
    decreases |s|, |s| - i, 0
  {
    hide SkipAt, Window, IsVarint, ReadAt, DecodeFrom, IsEmptyMessage;
    var (wire, j) := ReadAt(s, i).value;
    ReadIff(s, i, wire, j);
    var fieldNum := ToInt32(wire / 8);
    if sch.KindOf(fieldNum).Unknown? {
      f := SkipAtSound(s, i);
      TagIsRead(s, i, f);
    } else {
      WindowSound(s, j);
      var (k, post) := Window(s, j).value;
      assert j < k <= post <= |s|;
      var payload: Buffer := s[k..post];
      if sch.KindOf(fieldNum).Nested? {
        PayloadSound(payload, s);
      }
      f := Bytes(s[i..j], s[j..k], payload);
      assert s[i..post] == s[i..j] + s[j..post];
    }
  }

  lemma {:induction false} PayloadSound(payload: Buffer, s: Buffer)
    requires |payload| < |s| && DecodeFrom(EMPTY, [], payload, 0).error.None?
    ensures IsEmptyMessage(payload)
    decreases |s|, 0, 0
  {
    hide DecodeFrom, AllWellFormed, PrintAll;
    var fs := DecodeSound(EMPTY, [], payload, 0);
    EmptyAdmitsPositive(fs);
    assert payload[0..] == payload;
  }

  /** Whatever the parser accepts is a run of well-formed, admissible fields, and what it stores
      is their meaning. */
  lemma {:induction false} DecodeSound(sch: Schema, authority: seq<byte>, s: Buffer, i: nat) returns (fs: Fields)
    requires i <= |s| && DecodeFrom(sch, authority, s, i).error.None?
    ensures AllWellFormed(fs) && AllAdmissible(sch, fs) && PrintAll(fs) == s[i..]
    ensures DecodeFrom(sch, authority, s, i).authority == Meaning(sch, authority, fs)
    decreases |s|, |s| - i, 1
  {
    hide DecodeRecord, WellFormed, Admissible, Print;
    if i == |s| {
      fs := NoFields;
    } else {
      var r := DecodeRecord(sch, s, i).value;
      var f := RecordSound(sch, s, i);
      var authority' := if r.text.Some? then r.text.value else authority;
      var rest := DecodeSound(sch, authority', s, r.next);
      fs := Then(f, rest);
      assert s[i..] == s[i..r.next] + s[r.next..];
    }
  }

  /** A byte string with its reading as a message. */
  ghost predicate Denotes(sch: Schema, authority: seq<byte>, s: seq<byte>, fs: Fields, result: seq<byte>) {
    && AllWellFormed(fs) && AllAdmissible(sch, fs)
    && PrintAll(fs) == s && result == Meaning(sch, authority, fs)
  }

  /** The parser is the grammar: it ends without error and with `result` exactly when the whole
      input is the printing of admissible fields that mean `result`. */
  lemma DecodeIff(sch: Schema, authority: seq<byte>, s: Buffer, i: nat, result: seq<byte>)
    requires i <= |s|
    ensures DecodeFrom(sch, authority, s, i) == Outcome(result, None)
       <==> exists fs :: Denotes(sch, authority, s[i..], fs, result)
  {
    hide DecodeFrom, AllWellFormed, AllAdmissible, Meaning, PrintAll;
    if DecodeFrom(sch, authority, s, i) == Outcome(result, None) {
      var fs := DecodeSound(sch, authority, s, i);
      assert Denotes(sch, authority, s[i..], fs, result);
    }
    forall fs | Denotes(sch, authority, s[i..], fs, result)
      ensures DecodeFrom(sch, authority, s, i) == Outcome(result, None)
    {
      assert s[i..i + |PrintAll(fs)|] == s[i..];
      DecodeComplete(sch, authority, s, i, fs);
      DecodeAtEnd(sch, result, s);
    }
  }

  lemma DecodeAtEnd(sch: Schema, authority: seq<byte>, s: Buffer)
    ensures DecodeFrom(sch, authority, s, |s|) == Outcome(authority, None)
  {
  }

  // ---------- what a failing parse leaves ----------

  /** Up to `at` the input is a run of admissible fields, whose meaning is stored; there a record fails. */
  ghost predicate FailsAt(
    sch: Schema, authority: seq<byte>, s: Buffer, i: nat, o: Outcome, fs: Fields, at: nat)
    requires i <= |s|
  {
    && AllWellFormed(fs) && AllAdmissible(sch, fs)
    && i <= at < |s| && PrintAll(fs) == s[i..at]
    && o.authority == Meaning(sch, authority, fs)
    && o.error.Some? && DecodeRecord(sch, s, at) == Err(o.error.value)
  }

  lemma {:induction false} FailureSound(sch: Schema, authority: seq<byte>, s: Buffer, i: nat)
    returns (fs: Fields, at: nat)
    requires i <= |s| && DecodeFrom(sch, authority, s, i).error.Some?
    ensures FailsAt(sch, authority, s, i, DecodeFrom(sch, authority, s, i), fs, at)
    decreases |s| - i
  {
    hide DecodeRecord, WellFormed, Admissible, Print;
    if DecodeRecord(sch, s, i).Err? {
      fs, at := NoFields, i;
    } else {
      var r := DecodeRecord(sch, s, i).value;
      var f := RecordSound(sch, s, i);
      var rest;
      rest, at := FailureSound(sch, if r.text.Some? then r.text.value else authority, s, r.next);
      fs := Then(f, rest);
      assert s[i..at] == s[i..r.next] + s[r.next..at];
    }
  }

  lemma FailureComplete(
    sch: Schema, authority: seq<byte>, s: Buffer, i: nat, o: Outcome, fs: Fields, at: nat)
    requires i <= |s| && FailsAt(sch, authority, s, i, o, fs, at)
    ensures DecodeFrom(sch, authority, s, i) == o
  {
    hide DecodeRecord, WellFormed, Admissible, Print;
    assert s[i..i + |PrintAll(fs)|] == PrintAll(fs);
    DecodeComplete(sch, authority, s, i, fs);
    hide AllWellFormed, AllAdmissible, Meaning, PrintAll;
    assert i + |PrintAll(fs)| == at;
  }

  /** The parser fails with an error exactly when some record after a run of admissible fields fails
      with it; what it leaves behind is the meaning of that run. */
  lemma DecodeErrorIff(sch: Schema, authority: seq<byte>, s: Buffer, i: nat, o: Outcome)
    requires i <= |s| && o.error.Some?
    ensures DecodeFrom(sch, authority, s, i) == o
       <==> exists fs, at :: FailsAt(sch, authority, s, i, o, fs, at)
  {
    hide DecodeFrom, FailsAt;
    if DecodeFrom(sch, authority, s, i) == o {
      var fs, at := FailureSound(sch, authority, s, i);
    }
    forall fs, at | FailsAt(sch, authority, s, i, o, fs, at)
      ensures DecodeFrom(sch, authority, s, i) == o
    {
      FailureComplete(sch, authority, s, i, o, fs, at);
    }
  }

  // ---------- the same bytes at a later position ----------

  /** Further on in a buffer the same bytes fail alike, but that a length may overflow the index
      before it overruns the input. */
  predicate Later(near: Error, far: Error) {
    far == near || (near == UnexpectedEOF && far == InvalidLength)
  }

  /** The outcome at a later position: same message, same verdict, same error up to `Later`. */
  predicate Follows(far: Outcome, near: Outcome) {
    && far.authority == near.authority
    && (far.error.Some? <==> near.error.Some?)
    && (near.error.Some? ==> Later(near.error.value, far.error.value))
  }

  predicate SameRest(s: Buffer, i: nat, t: Buffer, j: nat) {
    i <= j && i <= |s| && j <= |t| && s[i..] == t[j..]
  }

  lemma RestAt(s: Buffer, i: nat, t: Buffer, j: nat, n: nat)
    requires SameRest(s, i, t, j) && i + n <= |s|
    ensures SameRest(s, i + n, t, j + n) && s[i..i + n] == t[j..j + n]
  {
    assert s[i + n..] == s[i..][n..] == t[j..][n..] == t[j + n..];
    assert s[i..i + n] == s[i..][..n] == t[j..][..n] == t[j..j + n];
  }

  lemma {:induction false} SameContinuations(s: Buffer, i: nat, t: Buffer, j: nat)
    requires SameRest(s, i, t, j)
    ensures |s| - i == |t| - j && Continuations(s, i) == Continuations(t, j)
    decreases |s| - i
  {
    assert |s[i..]| == |t[j..]|;
    if i < |s| {
      assert s[i] == s[i..][0] == t[j..][0] == t[j];
      RestAt(s, i, t, j, 1);
      SameContinuations(s, i + 1, t, j + 1);
    }
  }

  lemma ReadLater(s: Buffer, i: nat, t: Buffer, j: nat)
    requires SameRest(s, i, t, j)
    ensures match ReadAt(s, i)
      case Err(e) => ReadAt(t, j) == Err(e)
      case Ok((v, n)) => i < n <= |s| && ReadAt(t, j) == Ok((v, j + n - i))
  {
    hide Decode;
    SameContinuations(s, i, t, j);
    var c := Continuations(s, i);
    if i + c < |s| {
      RestAt(s, i, t, j, c + 1);
    }
  }

  /** A result with an end: the same end seen from the later position. */
  predicate EndLater(near: Result<nat>, far: Result<nat>, shift: nat) {
    match near
    case Err(e) => far.Err? && Later(e, far.error)
    case Ok(n) => far == Ok(n + shift)
  }

  lemma WindowLater(s: Buffer, i: nat, t: Buffer, j: nat)
    requires SameRest(s, i, t, j)
    ensures match Window(s, i)
      case Err(e) => Window(t, j).Err? && Later(e, Window(t, j).error)
      case Ok((k, post)) =>
        Window(t, j) == Ok((k + j - i, post + j - i)) && s[k..post] == t[k + j - i..post + j - i]
  {
    assert |s[i..]| == |t[j..]|;
    ReadLater(s, i, t, j);
    hide ReadAt;
    if ReadAt(s, i).Ok? {
      WindowErrorIff(s, i);
      WindowErrorIff(t, j);
      if Window(s, i).Ok? {
        var (k, post) := Window(s, i).value;
        RestAt(s, i, t, j, k - i);
        RestAt(s, k, t, j + k - i, post - k);
      }
    }
  }

  lemma SkipLater(s: Buffer, i: nat, t: Buffer, j: nat)
    requires SameRest(s, i, t, j)
    ensures EndLater(SkipAt(s, i), SkipAt(t, j), j - i)
  {
    hide SkipFrom;
    assert |s[i..]| == |t[j..]|;
  }

  lemma ParamsLater(s: Buffer, i: nat, t: Buffer, j: nat, fieldNum: int, wireType: int)
    requires SameRest(s, i, t, j)
    ensures EndLater(ParamsAt(s, i, fieldNum, wireType), ParamsAt(t, j, fieldNum, wireType), j - i)
  {
    hide Window, DecodeFrom;
    WindowLater(s, i, t, j);
  }

  lemma TagLater(s: Buffer, i: nat, t: Buffer, j: nat)
    requires SameRest(s, i, t, j) && i < |s|
    ensures j < |t|
    ensures match TagAt(s, i)
      case Err(e) => TagAt(t, j) == Err(e)
      case Ok((fieldNum, wireType, k)) => TagAt(t, j) == Ok((fieldNum, wireType, k + j - i))
  {
    assert |s[i..]| == |t[j..]|;
    ReadLater(s, i, t, j);
  }

  lemma RecordLater(sch: Schema, s: Buffer, i: nat, t: Buffer, j: nat)
    requires SameRest(s, i, t, j) && i < |s|
    ensures j < |t|
    ensures match DecodeRecord(sch, s, i)
      case Err(e) => DecodeRecord(sch, t, j).Err? && Later(e, DecodeRecord(sch, t, j).error)
      case Ok(r) => DecodeRecord(sch, t, j) == Ok(Record(r.text, r.next + j - i))
  {
    hide SkipAt, Window, ParamsAt, TagAt;
    TagLater(s, i, t, j);
    SkipLater(s, i, t, j);
    if TagAt(s, i).Ok? {
      var (fieldNum, wireType, k) := TagAt(s, i).value;
      RestAt(s, i, t, j, k - i);
      WindowLater(s, k, t, j + k - i);
      ParamsLater(s, k, t, j + k - i, fieldNum, wireType);
    }
  }

  /** Parsing the same rest from a later position of another buffer: the outcome follows. */
  lemma {:induction false} DecodeLater(sch: Schema, authority: seq<byte>, s: Buffer, i: nat, t: Buffer, j: nat)
    requires SameRest(s, i, t, j)
    ensures Follows(DecodeFrom(sch, authority, t, j), DecodeFrom(sch, authority, s, i))
    decreases |s| - i
  {
    hide DecodeRecord;
    assert |s[i..]| == |t[j..]|;
    if i < |s| {
      RecordLater(sch, s, i, t, j);
      if DecodeRecord(sch, s, i).Ok? {
        var r := DecodeRecord(sch, s, i).value;
        RestAt(s, i, t, j, r.next - i);
        DecodeLater(sch, if r.text.Some? then r.text.value else authority, s, r.next, t, r.next + j - i);
      }
    }
  }
}
