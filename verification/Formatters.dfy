/** The dashboard's number printers and what undoes them. */
module Formatters {
  import opened Options

  // ---------- decimal numerals ----------

  predicate IsDigit(c: char) {
    '0' <= c <= '9'
  }

  predicate AllDigits(s: string) {
    forall k :: 0 <= k < |s| ==> IsDigit(s[k])
  }

  function DigitValue(c: char): nat
    requires IsDigit(c)
  {
    (c - '0') as int
  }

  function Digit(d: nat): char
    requires d < 10
  {
    '0' + d as char
  }

  /** `toString` of a non-negative integer. */
  function Decimal(n: nat): (s: string)
    ensures |s| > 0 && AllDigits(s)
  {
    if n < 10 then [Digit(n)] else Decimal(n / 10) + [Digit(n % 10)]
  }

  function ToString(n: int): string {
    if n < 0 then "-" + Decimal(-n) else Decimal(n)
  }

  function NatOf(s: string): nat
    requires AllDigits(s)
  {
    if s == [] then 0 else 10 * NatOf(s[..|s| - 1]) + DigitValue(s[|s| - 1])
  }

  lemma {:induction false} NatOfDecimal(n: nat)
    ensures NatOf(Decimal(n)) == n
  {
    if n < 10 {
      assert [Digit(n)][..0] == [];
    } else {
      NatOfDecimal(n / 10);
      assert Decimal(n)[..|Decimal(n)| - 1] == Decimal(n / 10);
    }
  }

  // ---------- thousands grouping ----------

  /** The comma after the digit that has `remaining` digits left, itself included. */
  function Comma(remaining: nat): string {
    if remaining > 1 && remaining % 3 == 1 then "," else ""
  }

  function Group(raw: string): string {
    if raw == [] then [] else [raw[0]] + Comma(|raw|) + Group(raw[1..])
  }

  lemma GroupFrom(raw: string, index: nat, buffer: string)
    requires index < |raw|
    ensures var remaining, copied := |raw| - index, buffer + [raw[index]];
      buffer + Group(raw[index..])
      == (if remaining > 1 && remaining % 3 == 1 then copied + "," else copied) + Group(raw[index + 1..])
  {
    assert raw[index..][1..] == raw[index + 1..];
  }

  lemma GroupEnds(raw: string, buffer: string)
    ensures buffer + Group(raw[|raw|..]) == buffer
  {
  }

  /** `round()`: to the closest integer, and away from zero if there are two. */
  function Round(x: real): int {
    if x >= 0.0 then (x + 0.5).Floor else -((-x + 0.5).Floor)
  }

  lemma RoundIff(x: real, n: int)
    ensures n == Round(x)
       <==> if x >= 0.0 then n as real - 0.5 <= x < n as real + 0.5 else n as real - 0.5 < x <= n as real + 0.5
  {
  }

  method FormatInt(value: Option<real>) returns (out: string)
    ensures out == if value.None? then "N/A" else Group(ToString(Round(value.value)))
  {
    if value.None? {
      return "N/A";
    }
    hide Group;
    var raw := ToString(Round(value.value));
    var buffer := "";
    assert raw[0..] == raw;
    var index := 0;
    while index < |raw|
      invariant 0 <= index <= |raw|
      invariant buffer + Group(raw[index..]) == Group(raw)
    {
      var remaining := |raw| - index;
      GroupFrom(raw, index, buffer);
      buffer := buffer + [raw[index]];
      if remaining > 1 && remaining % 3 == 1 {
        buffer := buffer + ",";
      }
      index := index + 1;
    }
    GroupEnds(raw, buffer);
    return buffer;
  }

  function RemoveCommas(s: string): string {
    if s == [] then [] else (if s[0] == ',' then [] else [s[0]]) + RemoveCommas(s[1..])
  }

  /** Commas stand exactly at every fourth place from the right, and not in front. */
  predicate Grouped(g: string) {
    && (g != [] ==> g[0] != ',')
    && forall k :: 0 <= k < |g| ==> (g[k] == ',' <==> (|g| - 1 - k) % 4 == 3)
  }

  lemma {:induction false} GroupLength(raw: string)
    requires raw != []
    ensures |Group(raw)| == |raw| + (|raw| - 1) / 3
  {
    if |raw| > 1 {
      GroupLength(raw[1..]);
    }
  }

  /** The comma that is due in front of `places` printed places: every fourth from the right. */
  function Due(places: nat): (comma: string)
    ensures comma == "" || comma == ","
  {
    if places % 4 == 3 then "," else ""
  }

  lemma ThreesAndFours(q: nat, r: nat)
    requires r < 3
    ensures (3 * q + r + 2) % 3 == 1 <==> r == 2
    ensures (4 * q + r + 1) % 4 == 3 <==> r == 2
  {
  }

  /** Whether a comma is due can be read off the digits or off what is printed for them. */
  lemma CommaIsDue(raw: string)
    ensures Comma(|raw| + 1) == Due(|Group(raw)|)
  {
    if raw != [] {
      GroupLength(raw);
      hide Group;
      var q, r := (|raw| - 1) / 3, (|raw| - 1) % 3;
      ThreesAndFours(q, r);
      assert |raw| + 1 == 3 * q + r + 2 && |Group(raw)| == 4 * q + r + 1;
    }
  }

  lemma PrependGrouped(c: char, rest: string)
    requires c != ',' && Grouped(rest)
    ensures Grouped([c] + Due(|rest|) + rest)
  {
    var d := |Due(|rest|)|;
    var g := [c] + Due(|rest|) + rest;
    forall k | 0 <= k < |g|
      ensures g[k] == ',' <==> (|g| - 1 - k) % 4 == 3
    {
      if k > d {
        assert g[k] == rest[k - d - 1];
        assert |g| - 1 - k == |rest| - 1 - (k - d - 1);
      } else if k == 0 {
        assert g[k] == c;
        NoCommaInFront(|rest|);
      } else {
        assert g[k] == ',' && |g| - 1 - k == |rest|;
      }
    }
  }

  lemma NoCommaInFront(places: nat)
    ensures (places + |Due(places)|) % 4 != 3
  {
  }

  lemma RemovedDigit(c: char, t: string)
    requires c != ','
    ensures RemoveCommas([c] + t) == [c] + RemoveCommas(t)
  {
    assert ([c] + t)[1..] == t;
  }

  lemma RemovedComma(t: string)
    ensures RemoveCommas("," + t) == RemoveCommas(t)
  {
    assert ("," + t)[1..] == t;
  }

  lemma PrependRemoved(c: char, comma: string, rest: string)
    requires c != ',' && (comma == "" || comma == ",")
    ensures RemoveCommas([c] + comma + rest) == [c] + RemoveCommas(rest)
  {
    hide RemoveCommas;
    RemovedDigit(c, comma + rest);
    assert [c] + (comma + rest) == [c] + comma + rest;
    if comma == "" {
      assert comma + rest == rest;
    } else {
      RemovedComma(rest);
    }
  }

  lemma {:induction false} GroupIsGrouped(raw: string)
    requires ',' !in raw
    ensures Grouped(Group(raw)) && RemoveCommas(Group(raw)) == raw
  {
    hide Grouped, Comma, Due;
    if raw == [] {
      NothingIsGrouped();
    } else {
      assert raw[0] in raw;
      assert forall c :: c in raw[1..] ==> c in raw;
      GroupIsGrouped(raw[1..]);
      CommaIsDue(raw[1..]);
      PrependGrouped(raw[0], Group(raw[1..]));
      PrependRemoved(raw[0], Due(|Group(raw[1..])|), Group(raw[1..]));
    }
  }

  lemma NothingIsGrouped()
    ensures Grouped([])
  {
  }

  lemma SuffixGrouped(g: string, skip: nat)
    requires Grouped(g) && skip <= |g| && (skip < |g| ==> g[skip] != ',')
    ensures Grouped(g[skip..])
  {
    var rest := g[skip..];
    forall k | 0 <= k < |rest|
      ensures rest[k] == ',' <==> (|rest| - 1 - k) % 4 == 3
    {
      assert rest[k] == g[k + skip] && |rest| - 1 - k == |g| - 1 - (k + skip);
    }
  }

  /** A grouped text is a digit, the comma that is due, and a grouped text. */
  lemma SplitGrouped(g: string) returns (rest: string)
    requires Grouped(g) && g != []
    ensures g[0] != ',' && g == [g[0]] + Due(|rest|) + rest && Grouped(rest) && |rest| < |g|
  {
    var skip := if |g| > 1 && g[1] == ',' then 2 else 1;
    rest := g[skip..];
    if |g| > 1 {
      assert g[1] == ',' <==> (|g| - 2) % 4 == 3;
    }
    if skip == 2 && |g| > 2 {
      assert g[2] != ',' by {
        assert (|g| - 2) % 4 == 3 && (|g| - 3) % 4 == 2;
      }
    }
    assert skip == 1 ==> |rest| == |g| - 1 && |rest| % 4 != 3;
    SuffixGrouped(g, skip);
    assert g[1..skip] == Due(|rest|);
    assert g == [g[0]] + g[1..skip] + rest;
  }

  lemma {:induction false} GroupedIsGroup(g: string)
    requires Grouped(g)
    ensures g == Group(RemoveCommas(g))
    decreases |g|
  {
    hide Grouped, Comma, Due;
    if g != [] {
      var rest := SplitGrouped(g);
      GroupedIsGroup(rest);
      PrependRemoved(g[0], Due(|rest|), rest);
      CommaIsDue(RemoveCommas(rest));
      assert RemoveCommas(g)[1..] == RemoveCommas(rest);
    }
  }

  /** Grouping is the one way to put commas at every third digit: a string is the grouping of `raw`
      exactly when it is so punctuated and gives `raw` back without its commas. */
  lemma GroupIff(g: string, raw: string)
    requires ',' !in raw
    ensures g == Group(raw) <==> Grouped(g) && RemoveCommas(g) == raw
  {
    GroupIsGrouped(raw);
    if Grouped(g) && RemoveCommas(g) == raw {
      GroupedIsGroup(g);
    }
  }

  predicate IsInteger(s: string) {
    AllDigits(s) || (s != [] && s[0] == '-' && AllDigits(s[1..]))
  }

  function IntOf(s: string): int
    requires IsInteger(s)
  {
    if AllDigits(s) then NatOf(s) else 0 - NatOf(s[1..])
  }

  lemma IntOfToString(n: int)
    ensures IsInteger(ToString(n)) && IntOf(ToString(n)) == n && ',' !in ToString(n)
  {
    var digits := Decimal(if n < 0 then -n else n);
    NatOfDecimal(if n < 0 then -n else n);
    hide Decimal, NatOf;
    assert ("-" + digits)[1..] == digits && !IsDigit('-');
    assert ("-" + digits)[0] == '-';
  }

  predicate NoLeadingZero(s: string) {
    s != [] && (|s| > 1 ==> s[0] != '0')
  }

  /** An integer's one numeral: a minus sign exactly for negative numbers, and no redundant zero. */
  predicate Canonical(s: string) {
    && IsInteger(s)
    && (!AllDigits(s) <==> IntOf(s) < 0)
    && NoLeadingZero(if AllDigits(s) then s else s[1..])
  }

  lemma {:induction false} DecimalLeads(n: nat)
    ensures NoLeadingZero(Decimal(n)) && (n > 0 ==> Decimal(n)[0] != '0')
  {
    if n >= 10 {
      DecimalLeads(n / 10);
    }
  }

  /** `toString` prints exactly the canonical numeral. */
  lemma ToStringIff(n: int, s: string)
    ensures s == ToString(n) <==> Canonical(s) && IntOf(s) == n
  {
    IntOfToString(n);
    var digits := Decimal(if n < 0 then -n else n);
    DecimalLeads(if n < 0 then -n else n);
    NatOfDecimal(if n < 0 then -n else n);
    assert ToString(n) == if n < 0 then "-" + digits else digits;
    hide Decimal, NatOf, ToString;
    assert ("-" + digits)[0] == '-' && ("-" + digits)[1..] == digits && !IsDigit('-');
    if Canonical(s) && IntOf(s) == n {
      if AllDigits(s) {
        NatOfInjective(s, digits);
      } else {
        NatOfInjective(s[1..], digits);
        assert s == "-" + s[1..];
      }
    }
  }

  /** What is printed for a number is the one text with commas at every third place that, without
      them, is the canonical numeral of the rounded number. */
  lemma PrintedIff(x: real, out: string)
    ensures out == Group(ToString(Round(x)))
       <==> Grouped(out) && Canonical(RemoveCommas(out)) && IntOf(RemoveCommas(out)) == Round(x)
  {
    hide Group, Grouped, RemoveCommas, ToString, Round, IsInteger, IntOf, Canonical;
    IntOfToString(Round(x));
    GroupIff(out, ToString(Round(x)));
    ToStringIff(Round(x), RemoveCommas(out));
    CanonicalIsInteger(RemoveCommas(out));
  }

  lemma CanonicalIsInteger(s: string)
    ensures Canonical(s) ==> IsInteger(s)
  {
  }

  /** The rounded number is recovered from what is printed for any number: drop the commas, read it. */
  lemma FormatIntInverse(x: real)
    ensures var out := Group(ToString(Round(x)));
      && Grouped(out) && RemoveCommas(out) == ToString(Round(x))
      && IsInteger(RemoveCommas(out)) && IntOf(RemoveCommas(out)) == Round(x)
  {
    hide Group, Grouped, RemoveCommas, ToString, Round, IsInteger, IntOf;
    IntOfToString(Round(x));
    GroupIsGrouped(ToString(Round(x)));
  }

  lemma SignThenDigits(digits: string)
    ensures Group("-" + digits) == "-" + Comma(|digits| + 1) + Group(digits)
  {
    hide Comma;
    assert ("-" + digits)[1..] == digits;
  }

  /** The sign takes part in the grouping: a negative number prints as the sign and the grouped
      absolute value exactly when its digits are not a multiple of three. */
  lemma NegativeGrouping(n: int)
    requires n > 0
    ensures Group(ToString(-n)) == "-" + Group(Decimal(n)) <==> |Decimal(n)| % 3 != 0
  {
    hide Group, Decimal;
    var digits, grouped := Decimal(n), Group(Decimal(n));
    SignThenDigits(digits);
    assert Comma(|digits| + 1) == if |digits| % 3 == 0 then "," else "";
    hide Comma;
    assert |"-" + "," + grouped| == 1 + |"-" + grouped|;
    assert "-" + "" + grouped == "-" + grouped;
  }

  lemma MinusHundred()
    ensures Group(ToString(-100)) == "-,100"
  {
    assert Decimal(1) == "1" && Decimal(10) == "10" && Decimal(100) == "100";
    assert "-100"[1..] == "100" && "100"[1..] == "00" && "00"[1..] == "0" && "0"[1..] == "";
    assert Group("0") == "0" && Group("00") == "00" && Group("100") == "100";
  }

  // ---------- trimming zeros ----------

  predicate AllZeros(s: string) {
    forall k :: 0 <= k < |s| ==> s[k] == '0'
  }

  /** An optional point and at least one zero, from `p` to the end of the text. */
  predicate TailMatches(s: string, p: nat)
    requires p < |s|
  {
    var q := if s[p] == '.' then p + 1 else p;
    q < |s| && AllZeros(s[q..])
  }

  /** Where the leftmost such tail begins; the length of the text if there is none. */
  function FirstTail(s: string, p: nat): (end: nat)
    requires p <= |s|
    ensures p <= end <= |s|
    decreases |s| - p
  {
    if p == |s| || TailMatches(s, p) then p else FirstTail(s, p + 1)
  }

  function Trim(value: string): string {
    if '.' !in value then value else value[..FirstTail(value, 0)]
  }

  function StripZeros(f: string): string {
    if f != [] && f[|f| - 1] == '0' then StripZeros(f[..|f| - 1]) else f
  }

  /** A numeral with a point, and one without when nothing follows it. */
  function Join(whole: string, fraction: string): string {
    if fraction == [] then whole else whole + "." + fraction
  }

  lemma {:induction false} StripZerosMeaning(f: string)
    ensures var g := StripZeros(f);
      && |g| <= |f| && f[..|g|] == g && AllZeros(f[|g|..])
      && (g != [] ==> g[|g| - 1] != '0')
  {
    if f != [] && f[|f| - 1] == '0' {
      StripZerosMeaning(f[..|f| - 1]);
    }
  }

  lemma {:induction false} FirstTailIs(s: string, p: nat, end: nat)
    requires p <= end <= |s|
    requires forall q :: p <= q < end ==> !TailMatches(s, q)
    requires end < |s| ==> TailMatches(s, end)
    ensures FirstTail(s, p) == end
    decreases end - p
  {
    if p < end {
      FirstTailIs(s, p + 1, end);
    }
  }

  /** Before the point nothing matches: the point itself is in the way. */
  lemma NoTailInWhole(whole: string, fraction: string, q: nat)
    requires '.' !in whole && q < |whole|
    ensures !TailMatches(whole + "." + fraction, q)
  {
    var s := whole + "." + fraction;
    assert s[q] == whole[q] != '.';
    assert s[q..][|whole| - q] == '.';
  }

  /** Up to the last digit that counts nothing matches. */
  lemma NoTailInFraction(s: string, q: nat, last: nat)
    requires q <= last < |s| && s[last] != '0' && (s[q] == '.' ==> q < last)
    ensures !TailMatches(s, q)
  {
    var from := if s[q] == '.' then q + 1 else q;
    assert s[from..][last - from] == s[last];
  }

  /** On a text with a point, the pattern takes off the trailing zeros of the fraction, and the point
      if nothing is left of it. */
  lemma TrimMeaning(whole: string, fraction: string)
    requires '.' !in whole && fraction != [] && AllDigits(fraction)
    ensures Trim(whole + "." + fraction) == Join(whole, StripZeros(fraction))
  {
    hide StripZeros, FirstTail;
    var s, g := whole + "." + fraction, StripZeros(fraction);
    StripZerosMeaning(fraction);
    assert s[|whole|] == '.';
    var end := if g == [] then |whole| else |whole| + 1 + |g|;
    forall q | 0 <= q < end
      ensures !TailMatches(s, q)
    {
      if q < |whole| {
        NoTailInWhole(whole, fraction, q);
      } else {
        assert s[|whole| + |g|] == fraction[|g| - 1] == g[|g| - 1];
        NoTailInFraction(s, q, |whole| + |g|);
      }
    }
    if end < |s| {
      assert s[|whole| + 1 + |g|..] == fraction[|g|..];
      assert g != [] ==> s[end] == fraction[|g|];
    }
    FirstTailIs(s, 0, end);
    assert s[..end] == Join(whole, g);
  }

  /** A text that the pattern covers whole. */
  predicate IsTail(t: string) {
    (t != [] && AllZeros(t)) || (|t| > 1 && t[0] == '.' && AllZeros(t[1..]))
  }

  lemma TailMatchesIff(s: string, p: nat)
    requires p < |s|
    ensures TailMatches(s, p) <==> IsTail(s[p..])
  {
    if s[p] == '.' {
      assert s[p..][1..] == s[p + 1..];
    }
  }

  lemma {:induction false} FirstTailLeast(s: string, p: nat)
    requires p <= |s|
    ensures forall q :: p <= q < FirstTail(s, p) ==> !TailMatches(s, q)
    ensures FirstTail(s, p) < |s| ==> TailMatches(s, FirstTail(s, p))
    decreases |s| - p
  {
    if p < |s| && !TailMatches(s, p) {
      FirstTailLeast(s, p + 1);
    }
  }

  /** On any text: one without a point stays, and from one with a point the longest end that the
      pattern covers is cut off. */
  lemma TrimCutsTail(value: string)
    ensures '.' !in value ==> Trim(value) == value
    ensures '.' in value
        ==> var t := Trim(value);
            && t <= value && (t == value || IsTail(value[|t|..]))
            && forall q :: 0 <= q < |t| ==> !IsTail(value[q..])
  {
    FirstTailLeast(value, 0);
    forall q | 0 <= q < |value|
      ensures TailMatches(value, q) <==> IsTail(value[q..])
    {
      TailMatchesIff(value, q);
    }
  }

  // ---------- the value of a fixed-point numeral ----------

  function FractionOf(f: string): real
    requires AllDigits(f)
  {
    if f == [] then 0.0 else (DigitValue(f[0]) as real + FractionOf(f[1..])) / 10.0
  }

  lemma {:induction false} FractionBound(f: string)
    requires AllDigits(f)
    ensures 0.0 <= FractionOf(f) < 1.0
    ensures f != [] && f[|f| - 1] != '0' ==> FractionOf(f) > 0.0
  {
    if f != [] {
      assert f[1..] != [] ==> f[1..][|f| - 2] == f[|f| - 1];
      FractionBound(f[1..]);
    }
  }

  lemma {:induction false} FractionZeros(g: string, z: string)
    requires AllDigits(g) && AllZeros(z)
    ensures AllDigits(g + z) && FractionOf(g + z) == FractionOf(g)
    decreases |g| + |z|
  {
    if g != [] {
      assert (g + z)[1..] == g[1..] + z;
      FractionZeros(g[1..], z);
    } else if z != [] {
      assert g + z == z;
      assert [] + z[1..] == z[1..];
      FractionZeros([], z[1..]);
    }
  }

  lemma StripKeepsValue(f: string)
    requires AllDigits(f)
    ensures AllDigits(StripZeros(f)) && FractionOf(StripZeros(f)) == FractionOf(f)
  {
    StripZerosMeaning(f);
    var g := StripZeros(f);
    assert forall k :: 0 <= k < |g| ==> g[k] == f[k];
    FractionZeros(g, f[|g|..]);
    assert f == g + f[|g|..];
  }

  // ---------- signed numerals, with or without a point ----------

  /** A fixed-point numeral: an optional minus sign, digits, and an optional point with digits. */
  datatype Numeral = Numeral(negative: bool, whole: string, fraction: string) {
    predicate Valid() {
      AllDigits(whole) && AllDigits(fraction)
    }

    function Signed(): string {
      (if negative then "-" else "") + whole
    }

    function Text(): string {
      Join(Signed(), fraction)
    }

    function Magnitude(): real
      requires Valid()
    {
      NatOf(whole) as real + FractionOf(fraction)
    }

    function Value(): real
      requires Valid()
    {
      if negative then -Magnitude() else Magnitude()
    }

    /** The numeral without the zeros that end its fraction. */
    function Stripped(): Numeral {
      this.(fraction := StripZeros(fraction))
    }
  }

  lemma NoPointInSigned(n: Numeral)
    requires n.Valid()
    ensures '.' !in n.Signed()
  {
  }

  lemma StripTwice(f: string)
    ensures StripZeros(StripZeros(f)) == StripZeros(f)
  {
    StripZerosMeaning(f);
  }

  lemma TrimText(n: Numeral)
    requires n.Valid()
    ensures Trim(n.Text()) == n.Stripped().Text()
  {
    NoPointInSigned(n);
    if n.fraction != [] {
      TrimMeaning(n.Signed(), n.fraction);
    }
  }

  /** Trimming any fixed-point numeral yields the text of a numeral of the same value, and trimming
      again changes nothing. */
  lemma TrimKeepsValue(n: Numeral)
    requires n.Valid()
    ensures n.Stripped().Valid() && n.Stripped().Value() == n.Value()
    ensures Trim(n.Text()) == n.Stripped().Text()
    ensures Trim(Trim(n.Text())) == Trim(n.Text())
  {
    hide Trim, Numeral.Text;
    StripKeepsValue(n.fraction);
    TrimText(n);
    StripTwice(n.fraction);
    TrimText(n.Stripped());
  }

  lemma {:induction false} NatPositive(s: string)
    requires AllDigits(s) && s != [] && s[0] != '0'
    ensures NatOf(s) > 0
  {
    if |s| > 1 {
      NatPositive(s[..|s| - 1]);
    }
  }

  lemma LastDigit(x: nat, d: nat, y: nat, e: nat)
    requires d < 10 && e < 10 && 10 * x + d == 10 * y + e
    ensures x == y && d == e
  {
  }

  lemma {:induction false} NatOfInjective(a: string, b: string)
    requires AllDigits(a) && AllDigits(b) && NoLeadingZero(a) && NoLeadingZero(b) && NatOf(a) == NatOf(b)
    ensures a == b
    decreases |a|
  {
    var a', b' := a[..|a| - 1], b[..|b| - 1];
    LastDigit(NatOf(a'), DigitValue(a[|a| - 1]), NatOf(b'), DigitValue(b[|b| - 1]));
    if a' != [] {
      NatPositive(a');
    }
    if b' != [] {
      NatPositive(b');
    }
    if a' != [] && b' != [] {
      NatOfInjective(a', b');
    }
    assert a == a' + [a[|a| - 1]] && b == b' + [b[|b| - 1]];
  }

  lemma WholeAndFraction(m: int, n: int, x: real, y: real)
    requires 0.0 <= x < 1.0 && 0.0 <= y < 1.0 && m as real + x == n as real + y
    ensures m == n && x == y
  {
  }

  lemma {:induction false} FractionInjective(f: string, g: string)
    requires AllDigits(f) && AllDigits(g) && FractionOf(f) == FractionOf(g)
    requires (f != [] ==> f[|f| - 1] != '0') && (g != [] ==> g[|g| - 1] != '0')
    ensures f == g
    decreases |f|
  {
    FractionBound(f);
    FractionBound(g);
    if f != [] && g != [] {
      var f', g' := f[1..], g[1..];
      FractionBound(f');
      FractionBound(g');
      WholeAndFraction(DigitValue(f[0]), DigitValue(g[0]), FractionOf(f'), FractionOf(g'));
      FractionInjective(f', g');
      assert f == [f[0]] + f' && g == [g[0]] + g';
    }
  }

  lemma StrippedInjective(n: Numeral, m: Numeral)
    requires n.Valid() && m.Valid() && NoLeadingZero(n.whole) && NoLeadingZero(m.whole)
    requires n.Magnitude() == m.Magnitude()
    ensures n.whole == m.whole && StripZeros(n.fraction) == StripZeros(m.fraction)
  {
    var g, h := StripZeros(n.fraction), StripZeros(m.fraction);
    StripKeepsValue(n.fraction);
    StripKeepsValue(m.fraction);
    StripZerosMeaning(n.fraction);
    StripZerosMeaning(m.fraction);
    hide StripZeros, FractionOf, NatOf;
    FractionBound(g);
    FractionBound(h);
    WholeAndFraction(NatOf(n.whole), NatOf(m.whole), FractionOf(g), FractionOf(h));
    NatOfInjective(n.whole, m.whole);
    FractionInjective(g, h);
  }

  lemma TextInjective(n: Numeral, m: Numeral)
    requires n.Valid() && m.Valid() && n.whole != [] && m.whole != [] && n.Text() == m.Text()
    ensures n == m
  {
    NoPointInSigned(n);
    NoPointInSigned(m);
    JoinInjective(n.Signed(), n.fraction, m.Signed(), m.fraction);
    hide Numeral.Text, Join;
    var u, v := n.Signed(), m.Signed();
    assert !IsDigit('-');
    assert u[0] == if n.negative then '-' else n.whole[0];
    assert v[0] == if m.negative then '-' else m.whole[0];
    assert n.negative == m.negative;
    assert n.whole == u[if n.negative then 1 else 0..] && m.whole == v[if m.negative then 1 else 0..];
  }

  /** Numerals trim to the same text exactly when they have the same sign and the same value, with or
      without a point and however many zeros end their fractions. */
  lemma TrimIsCanonical(n: Numeral, m: Numeral)
    requires n.Valid() && m.Valid() && NoLeadingZero(n.whole) && NoLeadingZero(m.whole)
    ensures Trim(n.Text()) == Trim(m.Text()) <==> n.negative == m.negative && n.Value() == m.Value()
  {
    hide Trim, Numeral.Text, StripZeros, NatOf, FractionOf;
    TrimKeepsValue(n);
    TrimKeepsValue(m);
    if Trim(n.Text()) == Trim(m.Text()) {
      TextInjective(n.Stripped(), m.Stripped());
    }
    if n.negative == m.negative && n.Value() == m.Value() {
      StrippedInjective(n, m);
    }
  }

  /** Numerals of equal value trim alike unless they are zeros of different sign. */
  lemma EqualValuesTrimAlike(n: Numeral, m: Numeral)
    requires n.Valid() && m.Valid() && NoLeadingZero(n.whole) && NoLeadingZero(m.whole)
    requires n.Value() == m.Value()
    ensures Trim(n.Text()) == Trim(m.Text()) <==> n.negative == m.negative
    ensures n.negative != m.negative ==> n.Value() == 0.0
  {
    TrimIsCanonical(n, m);
    FractionBound(n.fraction);
    FractionBound(m.fraction);
  }

  /** A rounded negative amount trims to "-0", a zero to "0". */
  lemma NegativeZero()
    ensures Trim("-0.00") == "-0" && Trim("0.00") == "0"
  {
    var n, m := Numeral(true, "0", "00"), Numeral(false, "0", "00");
    assert "00"[..1] == "0" && "0"[..0] == "";
    assert n.Text() == "-0.00" && m.Text() == "0.00";
    TrimText(n);
    TrimText(m);
  }

  lemma JoinInjective(whole: string, g: string, whole': string, g': string)
    requires '.' !in whole && '.' !in whole' && Join(whole, g) == Join(whole', g')
    ensures whole == whole' && g == g'
  {
    var s := Join(whole, g);
    assert forall k :: 0 <= k < |whole| ==> s[k] == whole[k];
    assert forall k :: 0 <= k < |whole'| ==> s[k] == whole'[k];
    assert g != [] ==> s[|whole|] == '.' && s[|whole| + 1..] == g;
    assert g' != [] ==> s[|whole'|] == '.' && s[|whole'| + 1..] == g';
    assert s[..|whole|] == whole && s[..|whole'|] == whole';
  }
}
