/** The line protocol that edits the configuration: `name=value` lines whose
    name is resolved against the members by prefix, with per-member minimum
    lengths and first match winning; the library helpers it uses
    (`String::trim`, `indexOf`, `toInt`, `toupper`); and the meaning of a whole
    editing session as a function of the lines the user enters. */
module FieldEditor {
  import opened Wrappers
  import opened CTypes
  import opened CString
  import opened ConfigRecord

  /** The ASCII codes of '!', '#' and '='. */
  const BANG: byte := 33
  const HASH: byte := 35
  const EQUALS: byte := 61

  /** `String::toFloat`, a library parse the model does not look into: it
      maps the text to the bit pattern of a `float`. */
  type FloatParser = seq<byte> -> u32

  // ------------------------------------------------------------------
  // Prefix matching

  /** The member-name test: `strncmp` of the identifier with the name, over
      the longer of the name's length and `minMatchLen`, returns 0. */
  predicate MemberMatch(identifier: seq<byte>, name: seq<byte>, minMatchLen: nat)
  {
    StrNCmpEq(identifier + [NUL], name + [NUL], Max(|name|, minMatchLen))
  }

  /** The matching rule: a name matches when it is a prefix of the identifier
      and at least `minMatchLen` long, or is the identifier itself. A name
      longer than the identifier never matches. */
  lemma MemberMatchIff(identifier: seq<byte>, name: seq<byte>, minMatchLen: nat)
    requires NoNul(identifier) && NoNul(name)
    ensures MemberMatch(identifier, name, minMatchLen) <==>
      name <= identifier && (|name| >= minMatchLen || name == identifier)
  {
    var n := Max(|name|, minMatchLen);
    StrNCmpEqTerminated(identifier, name, n);
    assert name[..Min(|name|, n)] == name;
  }

  /** The spelling of a member's identifier, as the stringising macro gives it. */
  function Identifier(f: Field): (id: seq<byte>)
    ensures NUL !in id && |id| > 0
  {
    match f
    case Ssid => [115, 115, 105, 100]  // "ssid"
    case Psk => [112, 115, 107]  // "psk"
    case Hostname => [104, 111, 115, 116, 110, 97, 109, 101]  // "hostname"
    case Fahrenheit => [102, 97, 104, 114, 101, 110, 104, 101, 105, 116]  // "fahrenheit"
    case UpdatePeriodS => [117, 112, 100, 97, 116, 101, 95, 112, 101, 114, 105, 111, 100, 95, 115]  // "update_period_s"
    case TempOffsetC => [116, 101, 109, 112, 95, 111, 102, 102, 115, 101, 116, 95, 67]  // "temp_offset_C"
    case Url => [117, 114, 108]  // "url"
    case Org => [111, 114, 103]  // "org"
    case Token => [116, 111, 107, 101, 110]  // "token"
    case Bucket => [98, 117, 99, 107, 101, 116]  // "bucket"
    case Location => [108, 111, 99, 97, 116, 105, 111, 110]  // "location"
  }

  /** The minimum match length `edit` gives each member. */
  function MinMatchLen(f: Field): (m: nat)
    ensures 1 <= m <= |Identifier(f)|
  {
    match f
    case Ssid => 2
    case Url => 2
    case Token => 2
    case TempOffsetC => 2
    case UpdatePeriodS => 2
    case _ => 1
  }

  /** The order in which `edit` tries the members. */
  const CANDIDATES: seq<Field> :=
    [Ssid, Psk, Hostname, Url, Org, Token, Bucket, Location, TempOffsetC, UpdatePeriodS, Fahrenheit]

  lemma CandidatesComplete(f: Field)
    ensures f in CANDIDATES
  {
  }

  predicate Matches(f: Field, name: seq<byte>)
  {
    MemberMatch(Identifier(f), name, MinMatchLen(f))
  }

  /** The matching rule specialised to the table: every minimum length is
      within its identifier, so a name matches exactly when it is a prefix of
      the identifier at least the minimum long. */
  lemma MatchesIff(f: Field, name: seq<byte>)
    requires NoNul(name)
    ensures Matches(f, name) <==> name <= Identifier(f) && |name| >= MinMatchLen(f)
  {
    assert NoNul(Identifier(f));
    MemberMatchIff(Identifier(f), name, MinMatchLen(f));
  }

  /** The position of the first candidate that matches (`|cands|` if none). */
  function FirstMatchIndex(name: seq<byte>, cands: seq<Field>): (i: nat)
    ensures i <= |cands|
    ensures forall j | 0 <= j < i :: !Matches(cands[j], name)
    ensures i < |cands| ==> Matches(cands[i], name)
  {
    if cands == [] then 0
    else if Matches(cands[0], name) then 0
    else 1 + FirstMatchIndex(name, cands[1..])
  }

  /** The member a name designates: the first candidate that matches. */
  function Resolve(name: seq<byte>): (r: Option<Field>)
    ensures r.Some? ==> Matches(r.value, name)
    ensures r.None? <==> forall f :: !Matches(f, name)
  {
    var i := FirstMatchIndex(name, CANDIDATES);
    if i < |CANDIDATES| then Some(CANDIDATES[i])
    else
      assert forall f :: !Matches(f, name) by {
        forall f ensures !Matches(f, name) { CandidatesComplete(f); }
      }
      None
  }

  /** No name matches two members: the minimum lengths keep every prefix
      unambiguous, so the order of the candidates does not matter. */
  lemma AtMostOneMatch(name: seq<byte>, f: Field, g: Field)
    requires NoNul(name)
    requires Matches(f, name) && Matches(g, name)
    ensures f == g
  {
    MatchesIff(f, name);
    MatchesIff(g, name);
    assert name[0] == Identifier(f)[0] == Identifier(g)[0];
    if MinMatchLen(f) == 2 && MinMatchLen(g) == 2 {
      assert name[1] == Identifier(f)[1] == Identifier(g)[1];
    }
  }

  /** A name resolves to a member exactly when it matches that member. */
  lemma ResolveIff(name: seq<byte>, f: Field)
    requires NoNul(name)
    ensures Resolve(name) == Some(f) <==> Matches(f, name)
  {
    if Matches(f, name) {
      AtMostOneMatch(name, f, Resolve(name).value);
    }
  }

  /** A name resolves to member `f` when it is a prefix of `f`'s identifier
      at least `f`'s minimum long. */
  lemma ResolvesTo(name: seq<byte>, f: Field)
    requires NoNul(name) && name <= Identifier(f) && |name| >= MinMatchLen(f)
    ensures Resolve(name) == Some(f)
  {
    MatchesIff(f, name);
    ResolveIff(name, f);
  }

  /** Names and the member they designate: the shortest prefixes that tell
      apart the members sharing a first letter ("ss", "ur", "up", "to", "te"),
      and "h", "ho" and "hostname". */
  const RESOLVED_EXAMPLES: seq<(seq<byte>, Field)> := [
    ([115, 115], Ssid), ([117, 114], Url), ([117, 112], UpdatePeriodS),
    ([116, 111], Token), ([116, 101], TempOffsetC), ([104], Hostname),
    ([104, 111], Hostname),
    ([104, 111, 115, 116, 110, 97, 109, 101], Hostname)]

  lemma ResolvedExamples(i: nat)
    requires i < |RESOLVED_EXAMPLES|
    ensures Resolve(RESOLVED_EXAMPLES[i].0) == Some(RESOLVED_EXAMPLES[i].1)
  {
    ResolvesTo(RESOLVED_EXAMPLES[i].0, RESOLVED_EXAMPLES[i].1);
  }

  /** Names that designate nothing: a single letter two members share ("s",
      "u", "t"), a letter no member starts with ("x"), a name longer than its
      identifier ("ssidx"). */
  const UNRESOLVED_EXAMPLES: seq<seq<byte>> := [
    [115], [117], [116], [120], [115, 115, 105, 100, 120]]

  lemma UnresolvedExamples(i: nat)
    requires i < |UNRESOLVED_EXAMPLES|
    ensures Resolve(UNRESOLVED_EXAMPLES[i]) == None
  {
    var name := UNRESOLVED_EXAMPLES[i];
    forall f ensures !Matches(f, name) {
      MatchesIff(f, name);
    }
  }

  // ------------------------------------------------------------------
  // Library helpers on Arduino `String`s

  /** `isspace` in the C locale. */
  predicate IsSpace(c: byte) { c == 32 || 9 <= c <= 13 }

  predicate AllSpace(s: seq<byte>) { forall i | 0 <= i < |s| :: IsSpace(s[i]) }

  /** The number of white-space bytes `s` starts with. */
  function LeadingSpaces(s: seq<byte>): (n: nat)
    ensures n <= |s|
    ensures forall i | 0 <= i < n :: IsSpace(s[i])
    ensures n < |s| ==> !IsSpace(s[n])
  {
    if s != [] && IsSpace(s[0]) then 1 + LeadingSpaces(s[1..]) else 0
  }

  /** The number of white-space bytes `s` ends with. */
  function TrailingSpaces(s: seq<byte>): (n: nat)
    ensures n <= |s|
    ensures forall i | |s| - n <= i < |s| :: IsSpace(s[i])
    ensures n < |s| ==> !IsSpace(s[|s| - n - 1])
  {
    if s != [] && IsSpace(s[|s| - 1]) then 1 + TrailingSpaces(s[..|s| - 1]) else 0
  }

  /** `s` without its leading white space (as `strtol` skips it). */
  function TrimStart(s: seq<byte>): (r: seq<byte>)
    ensures |r| <= |s|
    ensures r != [] ==> !IsSpace(r[0])
  {
    s[LeadingSpaces(s)..]
  }

  /** `String::trim`: drop leading and trailing white space. */
  function Trim(s: seq<byte>): (r: seq<byte>)
    ensures |r| <= |s|
  {
    var t := s[LeadingSpaces(s)..];
    t[..|t| - TrailingSpaces(t)]
  }

  /** A trimmed line is the line less white space at both ends. */
  lemma TrimIsInfix(s: seq<byte>)
    ensures exists a, b :: a + Trim(s) + b == s && AllSpace(a) && AllSpace(b)
  {
    var i, j := TrimBounds(s);
    SplitThree(s, i, j);
  }

  /** Where the trimmed line sits in the line. */
  lemma TrimBounds(s: seq<byte>) returns (i: nat, j: nat)
    ensures i <= j <= |s| && Trim(s) == s[i..j]
    ensures AllSpace(s[..i]) && AllSpace(s[j..])
  {
    i := LeadingSpaces(s);
    var t := s[i..];
    j := i + |t| - TrailingSpaces(t);
    assert forall k | j <= k < |s| :: s[k] == t[k - i];
  }

  lemma SplitThree(s: seq<byte>, i: nat, j: nat)
    requires i <= j <= |s|
    ensures s[..i] + s[i..j] + s[j..] == s
  {
    assert s[..i] + s[i..j] == s[..j];
  }

  /** A trimmed line neither starts nor ends with white space, and it is empty
      exactly when the line is all white space. */
  lemma TrimStripsSpace(s: seq<byte>)
    ensures var r := Trim(s);
      && (r != [] ==> !IsSpace(r[0]) && !IsSpace(r[|r| - 1]))
      && (r == [] <==> AllSpace(s))
  {
    var start := LeadingSpaces(s);
    var t := s[start..];
    var r := Trim(s);
    if start < |s| {
      assert t[0] == s[start];
      assert !AllSpace(s);
      assert r != [];
    }
  }

  /** The lines `getLineFromUser` returns for the raw lines the user types. */
  function TrimLines(raw: seq<seq<byte>>): (lines: seq<seq<byte>>)
    ensures |lines| == |raw|
    ensures forall k | 0 <= k < |raw| :: lines[k] == Trim(raw[k])
  {
    if raw == [] then [] else [Trim(raw[0])] + TrimLines(raw[1..])
  }

  /** `String::indexOf(c)`: the position of the first `c`, or -1. */
  function IndexOf(s: seq<byte>, c: byte): (i: int)
    ensures -1 <= i < |s|
    ensures i == -1 <==> c !in s
    ensures i >= 0 ==> s[i] == c && c !in s[..i]
  {
    if s == [] then -1
    else if s[0] == c then 0
    else
      var k := IndexOf(s[1..], c);
      if k < 0 then -1
      else
        assert s[..k + 1] == [s[0]] + s[1..][..k];
        k + 1
  }

  /** An ASCII decimal digit, '0' (48) to '9' (57). */
  predicate IsDigit(c: byte) { 48 <= c <= 57 }

  /** The number of leading decimal digits. */
  function DigitCount(s: seq<byte>): (n: nat)
    ensures n <= |s|
    ensures forall i | 0 <= i < n :: IsDigit(s[i])
    ensures n < |s| ==> !IsDigit(s[n])
  {
    if s != [] && IsDigit(s[0]) then 1 + DigitCount(s[1..]) else 0
  }

  /** The value of a string of decimal digits. */
  function DecimalValue(ds: seq<byte>): nat
    requires forall i | 0 <= i < |ds| :: IsDigit(ds[i])
  {
    if ds == [] then 0
    else
      var last := ds[|ds| - 1];
      assert IsDigit(last);
      DecimalValue(ds[..|ds| - 1]) * 10 + (last as int - 48)
  }

  /** `strtol` reports a value outside `long` as the nearest bound. */
  function ClampLong(v: int): (r: int)
    ensures LONG_MIN <= r <= LONG_MAX
    ensures LONG_MIN <= v <= LONG_MAX ==> r == v
  {
    if v < LONG_MIN then LONG_MIN else if v > LONG_MAX then LONG_MAX else v
  }

  /** `String::toInt` (`atol`): skip white space, read an optional sign and
      the decimal digits that follow; 0 when there are none. */
  function ToInt(s: seq<byte>): (v: int)
    ensures LONG_MIN <= v <= LONG_MAX
  {
    var t := TrimStart(s);
    var negative := t != [] && t[0] == 45;  // '-'
    var digits := if t != [] && (t[0] == 45 || t[0] == 43) then t[1..] else t;  // '-' or '+'
    var magnitude: int := DecimalValue(digits[..DigitCount(digits)]);
    ClampLong(if negative then -magnitude else magnitude)
  }

  /** `toupper` in the C locale: 'a' (97) to 'z' (122) move down by 32. */
  function ToUpper(c: byte): byte
  {
    if 97 <= c <= 122 then c - 32 else c
  }

  /** The first byte of a value's C string: NUL for the empty string. */
  function FirstChar(s: seq<byte>): byte { if s == [] then NUL else s[0] }

  /** The rule `edit` reads `fahrenheit` by: "y…", "t…" in either case, or a
      non-zero number. */
  predicate Truthy(value: seq<byte>)
  {
    var firstChar := ToUpper(FirstChar(value));
    firstChar == 89 /* 'Y' */ || firstChar == 84 /* 'T' */ || ToInt(value) != 0
  }

  // ------------------------------------------------------------------
  // Assigning a member

  /** `strncpy` of at most capacity - 1 bytes of `value` into text member `f`. */
  function SetText(r: Record, f: Field, value: seq<byte>): (r': Record)
    requires r.WellSized() && f.IsText()
    ensures r'.WellSized()
    ensures forall g :: g != f ==> Agree(r, r', g)
    ensures r.Terminated() ==> r'.Terminated()
  {
    TextSize(r, f);
    var t := StrNCpy(r.Text(f), value, f.Capacity() - 1);
    assert t[f.Capacity() - 1..] == r.Text(f)[f.Capacity() - 1..];
    r.WithText(f, t)
  }

  /** Give member `f` what `edit` makes of `value`: a `strncpy` of at most
      capacity - 1 bytes for text, a parse for the offset, a positive integer
      for the period (anything else keeps the old period), the truthiness rule
      for the flag. */
  function SetField(r: Record, f: Field, value: seq<byte>, toFloat: FloatParser): (r': Record)
    requires r.WellSized()
    ensures r'.WellSized()
    ensures r.Terminated() ==> r'.Terminated()
    ensures r'.updatePeriodS == r.updatePeriodS || r'.updatePeriodS > 0
  {
    match f
    case TempOffsetC => r.(tempOffsetC := toFloat(value))
    case UpdatePeriodS =>
      var v := ToInt(value);
      if v > 0 then r.(updatePeriodS := v as u32) else r
    case Fahrenheit => r.(fahrenheit := Truthy(value))
    case _ =>
      var r' := SetText(r, f, value);
      assert Agree(r, r', UpdatePeriodS);
      r'
  }

  /** An assignment to `f` leaves every other member as it was. */
  lemma SetFieldLeavesOthers(r: Record, f: Field, value: seq<byte>, toFloat: FloatParser)
    requires r.WellSized()
    ensures forall g :: g != f ==> Agree(r, SetField(r, f, value, toFloat), g)
  {
    if f.IsText() {
      assert SetField(r, f, value, toFloat) == SetText(r, f, value);
    }
  }

  /** What a text assignment leaves in a NUL-terminated member: the value's
      first `min(length, capacity - 1)` bytes, NUL up to the end, and the
      last byte still NUL. */
  lemma SetTextField(r: Record, f: Field, value: seq<byte>, toFloat: FloatParser)
    requires r.Terminated() && f.IsText()
    ensures var t := SetField(r, f, value, toFloat).Text(f);
      && CStr(t) == CStr(value)[..Min(StrLen(value), f.Capacity() - 1)]
      && forall i | StrLen(t) <= i < f.Capacity() :: t[i] == NUL
  {
    TextSize(r, f);
    var t := StrNCpy(r.Text(f), value, f.Capacity() - 1);
    assert SetField(r, f, value, toFloat) == SetText(r, f, value);
    assert SetText(r, f, value).Text(f) == t;
    StrNCpyContents(r.Text(f), value);
  }

  /** The period changes only to a positive value read from the text. */
  lemma SetPeriodField(r: Record, value: seq<byte>, toFloat: FloatParser)
    requires r.WellSized()
    ensures var p := SetField(r, UpdatePeriodS, value, toFloat).updatePeriodS;
      ToInt(value) > 0 ==> p as int == ToInt(value)
    ensures ToInt(value) <= 0 ==> SetField(r, UpdatePeriodS, value, toFloat) == r
  {
  }

  /** The flag becomes true exactly by the truthiness rule. */
  lemma SetFahrenheitField(r: Record, value: seq<byte>, toFloat: FloatParser)
    requires r.WellSized()
    ensures SetField(r, Fahrenheit, value, toFloat).fahrenheit <==>
      (FirstChar(value) in {89, 121, 84, 116} /* "YyTt" */ || ToInt(value) != 0)
  {
  }

  /** The chain of `MEMBER_STRING_SET` / `MEMBER_MATCH` tests in `edit`: the
      first candidate that matches `name` is assigned, and when none does
      nothing changes. */
  function AssignFirst(r: Record, name: seq<byte>, value: seq<byte>, toFloat: FloatParser, cands: seq<Field>): (r': Record)
    requires r.WellSized()
    ensures r'.WellSized()
    ensures r.Terminated() ==> r'.Terminated()
    ensures r.updatePeriodS > 0 ==> r'.updatePeriodS > 0
  {
    if cands == [] then r
    else if Matches(cands[0], name) then SetField(r, cands[0], value, toFloat)
    else AssignFirst(r, name, value, toFloat, cands[1..])
  }

  /** The chain assigns the member at the first matching position. */
  lemma {:induction false} AssignFirstAtFirstMatch(r: Record, name: seq<byte>, value: seq<byte>, toFloat: FloatParser, cands: seq<Field>)
    requires r.WellSized()
    ensures var k := FirstMatchIndex(name, cands);
      AssignFirst(r, name, value, toFloat, cands) == if k < |cands| then SetField(r, cands[k], value, toFloat) else r
  {
    if cands != [] && !Matches(cands[0], name) {
      AssignFirstAtFirstMatch(r, name, value, toFloat, cands[1..]);
    }
  }

  /** What `edit` does with `name=value`: try the members in order. */
  function Assign(r: Record, name: seq<byte>, value: seq<byte>, toFloat: FloatParser): (r': Record)
    requires r.WellSized()
    ensures r'.WellSized()
    ensures r.Terminated() ==> r'.Terminated()
    ensures r.updatePeriodS > 0 ==> r'.updatePeriodS > 0
  {
    AssignFirst(r, name, value, toFloat, CANDIDATES)
  }

  /** The chain assigns the member the name resolves to; an unrecognised
      name changes nothing. */
  lemma AssignResolves(r: Record, name: seq<byte>, value: seq<byte>, toFloat: FloatParser)
    requires r.WellSized()
    ensures Resolve(name).None? ==> Assign(r, name, value, toFloat) == r
    ensures Resolve(name).Some? ==> Assign(r, name, value, toFloat) == SetField(r, Resolve(name).value, value, toFloat)
  {
    AssignFirstAtFirstMatch(r, name, value, toFloat, CANDIDATES);
  }

  // ------------------------------------------------------------------
  // The editing session

  /** A line `getLineFromUser` returned that asks to leave the editor: its
      first byte is `!` (an empty `String` reads as NUL there). */
  predicate IsExitCommand(line: seq<byte>) { |line| > 0 && line[0] == BANG }

  /** A line the editor skips: empty, or a `#` comment. */
  predicate IsIgnored(line: seq<byte>) { |line| == 0 || line[0] == HASH }

  datatype StepResult = Exit | Continue(config: Record)

  /** One pass of `edit`'s loop on one line `getLineFromUser` returned (the
      user's input up to the newline, already trimmed by `Trim`). The first
      byte and the emptiness test look at the whole `String`; `indexOf` and
      `substring` work on its C string, so they stop at an embedded NUL. */
  function Step(r: Record, line: seq<byte>, toFloat: FloatParser): (s: StepResult)
    requires r.WellSized()
    ensures s.Continue? ==> s.config.WellSized()
    ensures s.Exit? ==> IsExitCommand(line) && MinimallyConfigured(r)
    ensures s.Continue? && r.Terminated() ==> s.config.Terminated()
    ensures s.Continue? && r.updatePeriodS > 0 ==> s.config.updatePeriodS > 0
  {
    if IsExitCommand(line) && MinimallyConfigured(r) then Exit
    else if IsIgnored(line) then Continue(r)
    else
      var text := CStr(line);
      var equals := IndexOf(text, EQUALS);
      if equals == -1 then Continue(r)
      else Continue(Assign(r, text[..equals], text[equals + 1..], toFloat))
  }

  /** An exit request is honoured exactly when the configuration is
      minimally configured. */
  lemma StepExit(r: Record, line: seq<byte>, toFloat: FloatParser)
    requires r.WellSized()
    ensures Step(r, line, toFloat).Exit? <==> IsExitCommand(line) && MinimallyConfigured(r)
  {
  }

  /** Blank lines, comments, and lines without `=` (a refused exit request
      among them) change nothing. */
  lemma StepSkips(r: Record, line: seq<byte>, toFloat: FloatParser)
    requires r.WellSized()
    requires IsIgnored(line) || (EQUALS !in CStr(line) && !(IsExitCommand(line) && MinimallyConfigured(r)))
    ensures Step(r, line, toFloat) == Continue(r)
  {
    if IsIgnored(line) && |line| > 0 {
      assert line[0] != BANG;
    }
  }

  /** Any other line is split at the first `=` of its C string: the name
      holds no `=`, the value may, and neither holds a NUL. */
  lemma StepSplitsAtFirstEquals(r: Record, line: seq<byte>, toFloat: FloatParser)
    requires r.WellSized()
    requires !IsIgnored(line) && EQUALS in CStr(line) && !(IsExitCommand(line) && MinimallyConfigured(r))
    ensures exists name, value ::
      && EQUALS !in name && CStr(line) == name + [EQUALS] + value
      && NoNul(name) && NoNul(value)
      && Step(r, line, toFloat) == Continue(Assign(r, name, value, toFloat))
  {
    var text := CStr(line);
    var equals := IndexOf(text, EQUALS);
    assert text == text[..equals] + [EQUALS] + text[equals + 1..];
    assert NoNul(text[..equals]) && NoNul(text[equals + 1..]);
  }

  /** A NUL byte hides what follows it: `ssid<NUL>=x` holds no `=` in its
      C string, so it changes nothing. */
  lemma StepStopsAtNul(r: Record, toFloat: FloatParser)
    requires r.WellSized()
    ensures Step(r, [115, 115, 105, 100, 0, 61, 120], toFloat) == Continue(r)
  {
    var line: seq<byte> := [115, 115, 105, 100, 0, 61, 120];
    StrLenAt(line, 4);
    assert CStr(line) == [115, 115, 105, 100];
  }

  /** The outcome of an editing session: the configuration it leaves, whether
      it ended with an accepted exit command, and how many lines it read. */
  datatype Session = Session(config: Record, exited: bool, consumed: nat)

  /** `edit` over the lines the user enters, from line `i` on, until one is an
      accepted exit command; when the lines run out first, the session has
      not ended. `consumed` counts from the first line. */
  function Run(r: Record, lines: seq<seq<byte>>, i: nat, toFloat: FloatParser): (s: Session)
    requires r.WellSized() && i <= |lines|
    ensures s.config.WellSized()
    ensures i <= s.consumed <= |lines|
    ensures s.exited ==> i < s.consumed
    ensures !s.exited ==> s.consumed == |lines|
    decreases |lines| - i
  {
    if i == |lines| then Session(r, false, i)
    else
      match Step(r, lines[i], toFloat)
      case Exit => Session(r, true, i + 1)
      case Continue(r') => Run(r', lines, i + 1, toFloat)
  }

  /** A session ends only on an exit command entered while the configuration
      it leaves is minimally configured; the exit line is the last one read. */
  lemma {:induction false} RunExitsOnlyWhenConfigured(r: Record, lines: seq<seq<byte>>, i: nat, toFloat: FloatParser)
    requires r.WellSized() && i <= |lines|
    ensures Run(r, lines, i, toFloat).exited ==>
      && IsExitCommand(lines[Run(r, lines, i, toFloat).consumed - 1])
      && MinimallyConfigured(Run(r, lines, i, toFloat).config)
    decreases |lines| - i
  {
    if i < |lines| {
      var step := Step(r, lines[i], toFloat);
      if step.Continue? {
        RunExitsOnlyWhenConfigured(step.config, lines, i + 1, toFloat);
        assert Run(r, lines, i, toFloat) == Run(step.config, lines, i + 1, toFloat);
      } else {
        assert Run(r, lines, i, toFloat) == Session(r, true, i + 1);
      }
    }
  }

  /** An exit command entered while minimally configured ends the session at
      once: nothing after it is read and the configuration is what it was. */
  lemma RunStopsAtAcceptedExit(r: Record, lines: seq<seq<byte>>, i: nat, toFloat: FloatParser)
    requires r.WellSized() && i < |lines|
    requires IsExitCommand(lines[i]) && MinimallyConfigured(r)
    ensures Run(r, lines, i, toFloat) == Session(r, true, i + 1)
  {
  }

  /** Any other line moves the session on to the next line, from the
      configuration that line leaves. */
  lemma RunContinues(r: Record, lines: seq<seq<byte>>, i: nat, toFloat: FloatParser)
    requires r.WellSized() && i < |lines|
    requires !(IsExitCommand(lines[i]) && MinimallyConfigured(r))
    ensures Step(r, lines[i], toFloat).Continue?
    ensures Run(r, lines, i, toFloat) == Run(Step(r, lines[i], toFloat).config, lines, i + 1, toFloat)
  {
  }

  /** Every member stays NUL-terminated within its capacity through a session. */
  lemma {:induction false} RunPreservesTermination(r: Record, lines: seq<seq<byte>>, i: nat, toFloat: FloatParser)
    requires r.Terminated() && i <= |lines|
    ensures Run(r, lines, i, toFloat).config.Terminated()
    decreases |lines| - i
  {
    if i < |lines| {
      var step := Step(r, lines[i], toFloat);
      if step.Continue? {
        RunPreservesTermination(step.config, lines, i + 1, toFloat);
      }
    }
  }

  /** A session never makes a positive period non-positive. */
  lemma {:induction false} RunKeepsPeriodPositive(r: Record, lines: seq<seq<byte>>, i: nat, toFloat: FloatParser)
    requires r.WellSized() && r.updatePeriodS > 0 && i <= |lines|
    ensures Run(r, lines, i, toFloat).config.updatePeriodS > 0
    decreases |lines| - i
  {
    if i < |lines| {
      var step := Step(r, lines[i], toFloat);
      if step.Continue? {
        RunKeepsPeriodPositive(step.config, lines, i + 1, toFloat);
      }
    }
  }
}
