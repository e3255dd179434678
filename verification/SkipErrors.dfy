/** Why `skip*` fails, in terms of the grammar. */
module SkipErrors {
  import opened Machine
  import opened Results
  import opened Varint
  import opened Grammar
  import opened Skip

  /** What the loop has read when groups are open: for each of them, innermost last, its start tag and
      the complete fields after it. */
  datatype Prefix = Outside | Inside(outer: Prefix, start: seq<byte>, body: Fields)

  predicate PrefixWellFormed(p: Prefix) {
    p.Inside? ==> PrefixWellFormed(p.outer) && IsTag(p.start, 3) && AllWellFormed(p.body)
  }

  function Nesting(p: Prefix): nat {
    if p.Outside? then 0 else 1 + Nesting(p.outer)
  }

  function PrintPrefix(p: Prefix): seq<byte> {
    if p.Outside? then [] else PrintPrefix(p.outer) + p.start + PrintAll(p.body)
  }

  function Snoc(fs: Fields, f: Field): Fields {
    if fs.NoFields? then Then(f, NoFields) else Then(fs.head, Snoc(fs.tail, f))
  }

  lemma {:induction false} SnocPrint(fs: Fields, f: Field)
    ensures PrintAll(Snoc(fs, f)) == PrintAll(fs) + Print(f)
    ensures AllWellFormed(Snoc(fs, f)) <==> AllWellFormed(fs) && WellFormed(f)
  {
    hide Print, WellFormed;
    if fs.Then? {
      SnocPrint(fs.tail, f);
    } else {
      assert PrintAll(Snoc(fs, f)) == Print(f) + PrintAll(NoFields) == Print(f);
    }
  }

  // ---------- the turn that fails ----------

  /** `n` bytes from `k`: too many for an index, or, inside a group, more than there are. */
  predicate Overruns(s: Buffer, k: nat, n: nat, depth: nat, e: Error) {
    if n > MAX_INT64 || k + n > MAX_INT64 then e == InvalidLength
    else k + n > |s| && depth > 0 && e == UnexpectedEOF
  }

  /** Why the turn at `at` fails with `depth` groups open: nothing is left; the tag, number or length
      cannot be read; an end tag has no group to end; the wire type does not exist; or a payload
      overruns. */
  predicate TurnFails(s: Buffer, at: nat, depth: nat, e: Error)
    requires at <= |s|
  {
    if at == |s| then e == UnexpectedEOF
    else
      match ReadAt(s, at)
      case Err(unread) => e == unread
      case Ok((wire, j)) =>
        if j > |s| then false
        else
          match wire % 8
          case 0 => ReadAt(s, j) == Err(e)
          case 1 => Overruns(s, j, 8, depth, e)
          case 2 => (
            match ReadAt(s, j)
            case Err(unread) => e == unread
            case Ok((n, k)) => Overruns(s, k, n, depth, e))
          case 3 => false
          case 4 => depth == 0 && e == UnexpectedEndOfGroup
          case 5 => Overruns(s, j, 4, depth, e)
          case wireType => e == IllegalWireType(wireType)
  }

  lemma ReadEnds(s: Buffer, i: nat)
    requires i <= |s| && ReadAt(s, i).Ok?
    ensures i < ReadAt(s, i).value.1 <= |s|
  {
  }

  /** The turn at `at` fails, or it is one token and the loop goes on inside the buffer. */
  predicate GoesOn(s: Buffer, at: nat, depth: nat, e: Error)
    requires at <= |s|
  {
    && at < |s| && NextToken(s, at).Ok?
    && var t := NextToken(s, at).value;
       && at < t.next <= |s| && depth + t.delta > 0
       && SkipFrom(s, t.next, depth + t.delta) == Err(e)
  }

  lemma TurnIff(s: Buffer, at: nat, depth: nat, e: Error)
    requires at <= |s|
    ensures SkipFrom(s, at, depth) == Err(e) <==> TurnFails(s, at, depth, e) || GoesOn(s, at, depth, e)
  {
    if at < |s| && ReadAt(s, at).Ok? {
      var (wire, j) := ReadAt(s, at).value;
      ReadEnds(s, at);
      if (wire % 8 == 0 || wire % 8 == 2) && ReadAt(s, j).Ok? {
        ReadEnds(s, j);
      }
    }
  }

  /** What a first byte below 128 decides by itself, whatever follows. */
  lemma FirstByteDecides(s: Buffer)
    requires s != [] && s[0] < 128
    ensures var wireType := s[0] as int % 8;
      && (wireType == 1 ==> SkipFrom(s, 0, 0) == Ok(9))
      && (wireType == 4 ==> SkipFrom(s, 0, 0) == Err(UnexpectedEndOfGroup))
      && (wireType == 5 ==> SkipFrom(s, 0, 0) == Ok(5))
      && (wireType >= 6 ==> SkipFrom(s, 0, 0) == Err(IllegalWireType(wireType)))
  {
    var tag := s[0..1];
    assert tag == [s[0]];
    assert Value(tag) == Low7(s[0]) + 128 * Value([]) == s[0] as int;
    assert Decode(tag) == s[0] as int;
    ReadIff(s, 0, Decode(tag), 1);
    assert ReadAt(s, 0) == Ok((Decode(tag), 1));
    hide ReadAt, Decode, Value, IsVarint;
  }

  // ---------- up to that turn ----------

  lemma {:induction false} PrefixComplete(s: Buffer, p: Prefix)
    requires PrefixWellFormed(p) && At(s, 0, PrintPrefix(p))
    ensures SkipFrom(s, 0, 0) == SkipFrom(s, |PrintPrefix(p)|, Nesting(p))
  {
    hide SkipFrom, IsTag;
    if p.Inside? {
      var i := |PrintPrefix(p.outer)|;
      var j := i + |p.start|;
      AtConcat(s, 0, PrintPrefix(p.outer) + p.start, PrintAll(p.body));
      AtConcat(s, 0, PrintPrefix(p.outer), p.start);
      PrefixComplete(s, p.outer);
      StartTag(s, i, Nesting(p.outer), p.start);
      BodyComplete(s, j, Nesting(p), p.body);
    }
  }

  /** Reading one more token. */
  lemma Extend(s: Buffer, i: nat, p: Prefix) returns (q: Prefix)
    requires i < |s| && PrefixWellFormed(p) && PrintPrefix(p) == s[..i]
    requires NextToken(s, i).Ok?
    requires var t := NextToken(s, i).value; i < t.next <= |s| && Nesting(p) + t.delta > 0
    ensures var t := NextToken(s, i).value;
      && PrefixWellFormed(q) && PrintPrefix(q) == s[..t.next] && Nesting(q) == Nesting(p) + t.delta
  {
    var t := NextToken(s, i).value;
    assert s[..t.next] == s[..i] + s[i..t.next];
    if t.delta == 0 {
      var f := ScalarSound(s, i);
      q := AddField(p, f);
    } else {
      GroupTagSound(s, i);
      hide NextToken;
      if t.delta == 1 {
        q := Inside(p, s[i..t.next], NoFields);
        assert PrintPrefix(q) == PrintPrefix(p) + s[i..t.next] + [];
      } else {
        q := CloseGroup(p, s[i..t.next]);
      }
    }
  }

  lemma AddField(p: Prefix, f: Field) returns (q: Prefix)
    requires p.Inside? && PrefixWellFormed(p) && WellFormed(f)
    ensures PrefixWellFormed(q) && PrintPrefix(q) == PrintPrefix(p) + Print(f) && Nesting(q) == Nesting(p)
  {
    q := Inside(p.outer, p.start, Snoc(p.body, f));
    SnocPrint(p.body, f);
    assert PrintPrefix(p.outer) + p.start + (PrintAll(p.body) + Print(f)) == PrintPrefix(p) + Print(f);
  }

  lemma CloseGroup(p: Prefix, end: seq<byte>) returns (q: Prefix)
    requires p.Inside? && p.outer.Inside? && PrefixWellFormed(p) && IsTag(end, 4)
    ensures PrefixWellFormed(q) && PrintPrefix(q) == PrintPrefix(p) + end && Nesting(q) == Nesting(p) - 1
  {
    var g := Group(p.start, p.body, end);
    q := AddField(p.outer, g);
    assert PrintPrefix(p.outer) + (p.start + (PrintAll(p.body) + end)) == PrintPrefix(p) + end;
  }

  lemma {:induction false} FailureFound(s: Buffer, i: nat, p: Prefix, e: Error) returns (q: Prefix)
    requires i <= |s| && PrefixWellFormed(p) && PrintPrefix(p) == s[..i]
    requires SkipFrom(s, i, Nesting(p)) == Err(e)
    ensures FailsAfter(s, q, e)
    decreases |s| - i
  {
    hide SkipFrom, NextToken, TurnFails;
    TurnIff(s, i, Nesting(p), e);
    if TurnFails(s, i, Nesting(p), e) {
      q := p;
      assert s[0..i] == s[..i];
    } else {
      var t := NextToken(s, i).value;
      var p' := Extend(s, i, p);
      q := FailureFound(s, t.next, p', e);
    }
  }

  /** The input begins with `p`, and the turn after it fails. */
  predicate FailsAfter(s: Buffer, p: Prefix, e: Error) {
    && PrefixWellFormed(p) && At(s, 0, PrintPrefix(p))
    && TurnFails(s, |PrintPrefix(p)|, Nesting(p), e)
  }

  /** The loop fails with an error exactly when, after some groups were opened and complete fields read
      in them, the next turn fails with it. */
  lemma SkipErrorIff(s: Buffer, e: Error)
    ensures SkipFrom(s, 0, 0) == Err(e) <==> exists p :: FailsAfter(s, p, e)
  {
    hide SkipFrom, NextToken, TurnFails;
    if SkipFrom(s, 0, 0) == Err(e) {
      var p := FailureFound(s, 0, Outside, e);
    }
    forall p | FailsAfter(s, p, e)
      ensures SkipFrom(s, 0, 0) == Err(e)
    {
      PrefixComplete(s, p);
      TurnIff(s, |PrintPrefix(p)|, Nesting(p), e);
    }
  }
}
