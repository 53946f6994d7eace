// Reading and writing ChronosTime values as text.
//
// The parser is strict: it accepts `H[:.]M`, `H[:.]M[:.]S` or
// `H[:.]M[:.]S[:.]F`, where H, M and S have one or two digits and the
// fraction F has one or more digits. The fraction is right-padded with
// zeros to six digits and anything past the sixth digit is dropped, never
// rounded. Hours above 23 and minutes or seconds above 59 are rejected
// rather than clamped. The formatter renders the tokens H, i, s and u and
// copies every other character.

module ChronosTimeText {
  import opened Wrappers
  import opened Decimal
  import opened ChronosTime

  /** Both failures surface as one "invalid argument" error in the library. */
  datatype ParseError = InvalidFormat(text: string) | OutOfRange(text: string)

  predicate IsSeparator(c: char) {
    c == ':' || c == '.'
  }

  predicate NoSeparator(g: string) {
    forall i :: 0 <= i < |g| ==> !IsSeparator(g[i])
  }

  predicate AllSeparators(seps: string) {
    forall i :: 0 <= i < |seps| ==> IsSeparator(seps[i])
  }

  /** The separator characters of s, in order. */
  function Separators(s: string): (seps: string)
    ensures AllSeparators(seps) && |seps| <= |s|
  {
    if s == [] then []
    else if IsSeparator(s[0]) then [s[0]] + Separators(s[1..])
    else Separators(s[1..])
  }

  /** The groups of s between separators; there is always one more group than separators. */
  function Split(s: string): (groups: seq<string>)
    ensures |groups| == |Separators(s)| + 1
    ensures forall i :: 0 <= i < |groups| ==> NoSeparator(groups[i])
  {
    if s == [] then [[]]
    else
      var rest := Split(s[1..]);
      if IsSeparator(s[0]) then [[]] + rest
      else [[s[0]] + rest[0]] + rest[1..]
  }

  /** The groups interleaved with the separators: the inverse of Split. */
  function Join(groups: seq<string>, seps: string): (s: string)
    requires |groups| == |seps| + 1
    decreases |seps|
  {
    if seps == [] then groups[0] else groups[0] + [seps[0]] + Join(groups[1..], seps[1..])
  }

  lemma {:induction false} SplitNoSeparator(g: string)
    requires NoSeparator(g)
    ensures Split(g) == [g]
    decreases |g|
  {
    if g != [] {
      SplitNoSeparator(g[1..]);
      assert [g[0]] + g[1..] == g;
    }
  }

  lemma {:induction false} SplitGroup(g: string, c: char, rest: string)
    requires NoSeparator(g) && IsSeparator(c)
    ensures Split(g + [c] + rest) == [g] + Split(rest)
    decreases |g|
  {
    var s := g + [c] + rest;
    if g == [] {
      assert s[1..] == rest;
    } else {
      assert s[1..] == g[1..] + [c] + rest;
      SplitGroup(g[1..], c, rest);
      assert [g[0]] + g[1..] == g;
    }
  }

  /** Splitting a joined text gives back its groups. */
  lemma {:induction false} SplitJoin(groups: seq<string>, seps: string)
    requires |groups| == |seps| + 1 && AllSeparators(seps)
    requires forall i :: 0 <= i < |groups| ==> NoSeparator(groups[i])
    ensures Split(Join(groups, seps)) == groups
    decreases |seps|
  {
    if seps == [] {
      SplitNoSeparator(groups[0]);
    } else {
      SplitGroup(groups[0], seps[0], Join(groups[1..], seps[1..]));
      SplitJoin(groups[1..], seps[1..]);
    }
  }

  /** Joining the groups of a text with its own separators gives back the text. */
  lemma {:induction false} JoinSplit(s: string)
    ensures Join(Split(s), Separators(s)) == s
    decreases |s|
  {
    if s != [] {
      JoinSplit(s[1..]);
      var rest, seps := Split(s[1..]), Separators(s[1..]);
      if IsSeparator(s[0]) {
        assert Split(s)[1..] == rest;
      } else {
        var g := Split(s);
        assert g[1..] == rest[1..] && g[0] == [s[0]] + rest[0];
        if seps != [] {
          assert Join(rest, seps) == rest[0] + [seps[0]] + Join(rest[1..], seps[1..]);
        }
      }
    }
  }

  /** The accepted shapes: two to four non-empty digit groups, the first three of at most two digits. */
  predicate WellFormed(groups: seq<string>) {
    && 2 <= |groups| <= 4
    && (forall i :: 0 <= i < |groups| ==> 1 <= |groups[i]| && AllDigits(groups[i]))
    && (forall i :: 0 <= i < |groups| && i < 3 ==> |groups[i]| <= 2)
  }

  /** The fraction group as microseconds: right-padded to six digits, then cut to six. */
  function Fraction(f: string): (us: nat)
    requires AllDigits(f)
    ensures us < MICROS_PER_SECOND
    ensures |f| >= 6 ==> us == Value(f[..6])
    ensures |f| <= 6 ==> us == Value(f) * Pow10(6 - |f|)
  {
    var padded := f + Zeros(6);
    var cut := padded[..6];
    ValueBound(cut);
    assert Pow10(6) == MICROS_PER_SECOND;
    if |f| >= 6 then
      assert cut == f[..6];
      Value(cut)
    else
      assert cut == f + Zeros(6 - |f|);
      ValueAppend(f, Zeros(6 - |f|));
      ValueZeros(6 - |f|);
      Value(cut)
  }

  /** The value of the i-th group, zero when the group is missing. */
  function GroupValue(groups: seq<string>, i: nat): nat
    requires WellFormed(groups)
  {
    if i < |groups| then Value(groups[i]) else 0
  }

  predicate InRange(groups: seq<string>)
    requires WellFormed(groups)
  {
    GroupValue(groups, 0) <= 23 && GroupValue(groups, 1) <= 59 && GroupValue(groups, 2) <= 59
  }

  /**
   * Parse a time string. Succeeds exactly when the text has an accepted
   * shape and hour, minute and second are in range; missing seconds and
   * fraction are zero.
   */
  function Parse(text: string): (r: Result<Time, ParseError>)
    ensures r.Success? <==> WellFormed(Split(text)) && InRange(Split(text))
    ensures r.Success? ==> Valid(r.value)
    ensures r.Success? ==>
      var g := Split(text);
      && r.value.hours == Value(g[0])
      && r.value.minutes == Value(g[1])
      && r.value.seconds == GroupValue(g, 2)
      && r.value.microseconds == (if |g| == 4 then Fraction(g[3]) else 0)
  {
    var g := Split(text);
    if !WellFormed(g) then Failure(InvalidFormat(text))
    else if !InRange(g) then Failure(OutOfRange(text))
    else
      var us := if |g| == 4 then Fraction(g[3]) else 0;
      Success(Time(Value(g[0]), Value(g[1]), GroupValue(g, 2), us))
  }

  /** Digit groups contain no separator. */
  lemma DigitsHaveNoSeparator(g: seq<string>)
    requires forall i :: 0 <= i < |g| ==> AllDigits(g[i])
    ensures forall i :: 0 <= i < |g| ==> NoSeparator(g[i])
  {
  }

  /** A text of accepted shape with in-range fields parses to exactly those fields. */
  lemma ParseAccepts(g: seq<string>, seps: string)
    requires |g| == |seps| + 1 && AllSeparators(seps)
    requires WellFormed(g) && InRange(g)
    ensures Parse(Join(g, seps))
         == Success(Time(Value(g[0]), Value(g[1]), GroupValue(g, 2), if |g| == 4 then Fraction(g[3]) else 0))
  {
    DigitsHaveNoSeparator(g);
    SplitJoin(g, seps);
  }

  /** Digit groups of a rejected shape (a lone number, five groups, a three-digit hour, an empty group) fail to parse. */
  lemma ParseRejectsShape(g: seq<string>, seps: string)
    requires |g| == |seps| + 1 && AllSeparators(seps)
    requires forall i :: 0 <= i < |g| ==> NoSeparator(g[i])
    requires !WellFormed(g)
    ensures Parse(Join(g, seps)) == Failure(InvalidFormat(Join(g, seps)))
  {
    SplitJoin(g, seps);
  }

  /** A well-shaped text with an hour above 23, or a minute or second above 59, is rejected, not clamped. */
  lemma ParseRejectsRange(g: seq<string>, seps: string)
    requires |g| == |seps| + 1 && AllSeparators(seps)
    requires WellFormed(g) && !InRange(g)
    ensures Parse(Join(g, seps)) == Failure(OutOfRange(Join(g, seps)))
  {
    DigitsHaveNoSeparator(g);
    SplitJoin(g, seps);
  }

  /** Either separator may stand in any position: the parse does not depend on which is used. */
  lemma SeparatorsInterchangeable(g: seq<string>, seps: string, seps': string)
    requires |g| == |seps| + 1 && |seps'| == |seps| && AllSeparators(seps) && AllSeparators(seps')
    requires forall i :: 0 <= i < |g| ==> NoSeparator(g[i])
    ensures Parse(Join(g, seps)).Success? <==> Parse(Join(g, seps')).Success?
    ensures Parse(Join(g, seps)).Success? ==> Parse(Join(g, seps)).value == Parse(Join(g, seps')).value
  {
    SplitJoin(g, seps);
    SplitJoin(g, seps');
  }

  // ---- formatting ----

  predicate IsToken(c: char) {
    c == 'H' || c == 'i' || c == 's' || c == 'u'
  }

  /** One pattern character: a field for H, i, s, u, otherwise the character itself. */
  function FormatChar(t: Time, c: char): (r: string)
    requires Valid(t)
    ensures !IsToken(c) ==> r == [c]
    ensures IsToken(c) ==> AllDigits(r) && |r| == (if c == 'u' then 6 else 2)
    ensures c == 'H' ==> Value(r) == t.hours
    ensures c == 'i' ==> Value(r) == t.minutes
    ensures c == 's' ==> Value(r) == t.seconds
    ensures c == 'u' ==> Value(r) == t.microseconds
  {
    assert Pow10(2) == 100 && Pow10(6) == MICROS_PER_SECOND;
    match c
    case 'H' => PadLeft(t.hours, 2)
    case 'i' => PadLeft(t.minutes, 2)
    case 's' => PadLeft(t.seconds, 2)
    case 'u' => PadLeft(t.microseconds, 6)
    case _ => [c]
  }

  /** Render t by a pattern, token by token. */
  function Format(t: Time, pattern: string): (r: string)
    requires Valid(t)
    ensures (forall i :: 0 <= i < |pattern| ==> !IsToken(pattern[i])) ==> r == pattern
    decreases |pattern|
  {
    if pattern == [] then [] else FormatChar(t, pattern[0]) + Format(t, pattern[1..])
  }

  lemma {:induction false} FormatAppend(t: Time, p: string, q: string)
    requires Valid(t)
    ensures Format(t, p + q) == Format(t, p) + Format(t, q)
    decreases |p|
  {
    if p == [] {
      assert p + q == q;
    } else {
      assert (p + q)[0] == p[0];
      assert (p + q)[1..] == p[1..] + q;
      FormatAppend(t, p[1..], q);
    }
  }

  lemma FormatCons(t: Time, c: char, rest: string)
    requires Valid(t)
    ensures Format(t, [c] + rest) == FormatChar(t, c) + Format(t, rest)
  {
    assert ([c] + rest)[1..] == rest;
  }

  /** A four-group join, written out. */
  lemma JoinFour(a: string, b: string, c: string, d: string, x: char, y: char, z: char)
    ensures Join([a, b, c, d], [x, y, z]) == a + ([x] + (b + ([y] + (c + ([z] + d)))))
  {
    assert [a, b, c, d][1..] == [b, c, d];
    assert [b, c, d][1..] == [c, d];
    assert [c, d][1..] == [d];
    assert [x, y, z][1..] == [y, z];
    assert [y, z][1..] == [z];
    assert [z][1..] == [];
    assert Join([d], []) == d;
    assert Join([c, d], [z]) == c + ([z] + d);
    assert Join([b, c, d], [y, z]) == b + ([y] + (c + ([z] + d)));
  }

  /** The canonical rendering `H:i:s.u`, field by field. */
  lemma FormatCanonical(t: Time)
    requires Valid(t)
    ensures Format(t, "H:i:s.u")
         == Join([PadLeft(t.hours, 2), PadLeft(t.minutes, 2), PadLeft(t.seconds, 2), PadLeft(t.microseconds, 6)], "::.")
  {
    var h, m, sec, us := PadLeft(t.hours, 2), PadLeft(t.minutes, 2), PadLeft(t.seconds, 2), PadLeft(t.microseconds, 6);
    FormatMinutesOnward(t);
    FormatCons(t, ':', "i:s.u");
    FormatCons(t, 'H', ":i:s.u");
    JoinFour(h, m, sec, us, ':', ':', '.');
  }

  lemma FormatMinutesOnward(t: Time)
    requires Valid(t)
    ensures Format(t, "i:s.u") == PadLeft(t.minutes, 2) + ([':'] + (PadLeft(t.seconds, 2) + (['.'] + PadLeft(t.microseconds, 6))))
  {
    FormatSecondsOnward(t);
    FormatCons(t, ':', "s.u");
    FormatCons(t, 'i', ":s.u");
  }

  lemma FormatSecondsOnward(t: Time)
    requires Valid(t)
    ensures Format(t, "s.u") == PadLeft(t.seconds, 2) + (['.'] + PadLeft(t.microseconds, 6))
  {
    FormatCons(t, 'u', []);
    FormatCons(t, '.', "u");
    FormatCons(t, 's', ".u");
  }

  /** Formatting with `H:i:s.u` and parsing the result gives back the same time. */
  lemma ParseFormat(t: Time)
    requires Valid(t)
    ensures Parse(Format(t, "H:i:s.u")) == Success(t)
  {
    var g := [PadLeft(t.hours, 2), PadLeft(t.minutes, 2), PadLeft(t.seconds, 2), PadLeft(t.microseconds, 6)];
    var text := Format(t, "H:i:s.u");
    CanonicalGroups(t);
    FormatCanonical(t);
    SplitJoin(g, "::.");
    assert Split(text) == g;
    assert Fraction(g[3]) == t.microseconds;
    var r := Parse(text);
    assert r.Success?;
    assert r.value == t;
  }

  /** The four rendered fields form a well-formed group list holding exactly t's fields. */
  lemma CanonicalGroups(t: Time)
    requires Valid(t)
    ensures var g := [PadLeft(t.hours, 2), PadLeft(t.minutes, 2), PadLeft(t.seconds, 2), PadLeft(t.microseconds, 6)];
      && WellFormed(g) && InRange(g)
      && (forall i :: 0 <= i < 4 ==> NoSeparator(g[i]))
      && Value(g[0]) == t.hours && Value(g[1]) == t.minutes && Value(g[2]) == t.seconds
      && |g[3]| == 6 && Value(g[3]) == t.microseconds
  {
    assert Pow10(2) == 100 && Pow10(6) == MICROS_PER_SECOND;
  }

  /** A text in canonical form: `HH:MM:SS.ffffff` with hour, minute and second in range. */
  predicate Canonical(s: string) {
    && |s| == 15
    && s[2] == ':' && s[5] == ':' && s[8] == '.'
    && AllDigits(s[..2]) && AllDigits(s[3..5]) && AllDigits(s[6..8]) && AllDigits(s[9..])
    && Value(s[..2]) <= 23 && Value(s[3..5]) <= 59 && Value(s[6..8]) <= 59
  }

  /** Parsing a canonical text and formatting it with `H:i:s.u` reproduces the text. */
  lemma FormatParse(s: string)
    requires Canonical(s)
    ensures Parse(s).Success?
    ensures Format(Parse(s).value, "H:i:s.u") == s
  {
    var g := [s[..2], s[3..5], s[6..8], s[9..]];
    assert s == Join(g, "::.");
    SplitJoin(g, "::.");
    assert WellFormed(g);
    var t := Parse(s).value;
    FormatCanonical(t);
    PadLeftOfValue(s[..2]);
    PadLeftOfValue(s[3..5]);
    PadLeftOfValue(s[6..8]);
    PadLeftOfValue(s[9..]);
  }

  /** Construction from another time-bearing value: its fields are rendered as `H:i:s.u` and parsed back. */
  function FromInstance(source: Time): (t: Time)
    requires Valid(source)
    ensures t == source
  {
    ParseFormat(source);
    Parse(Format(source, "H:i:s.u")).value
  }

  /** The current time of day, read from an explicit clock value instead of the process-wide test clock. */
  function Now(clock: Time): (t: Time)
    requires Valid(clock)
    ensures t == clock
  {
    FromInstance(clock)
  }
}
