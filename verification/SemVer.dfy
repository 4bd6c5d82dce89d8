/** Version comparison for update checks, desktop/diagnostics.go, against section 11 of Semantic Versioning 2.0.0. */
module SemVer {
  import opened Prelude
  import opened GoStrings

  /** A parsed version; no identifiers means it is not a pre-release. */
  datatype Version = Version(major: nat, minor: nat, patch: nat, prerelease: seq<string>)

  // ---------- parsing ----------

  function NormalizeVersion(value: string): string {
    TrimPrefix(TrimSpace(ToLower(value)), "v")
  }

  /** The part before the first c. */
  function Before(s: string, c: char): string {
    s[..IndexOf(s, c)]
  }

  function ParseCore(parts: seq<string>): Option<seq<nat>> {
    if parts == [] then Some([])
    else
      match ParseCore(parts[..|parts| - 1])
      case None => None
      case Some(front) =>
        var n := Atoi(parts[|parts| - 1]);
        if n.Some? && n.value >= 0 then Some(front + [n.value]) else None
  }

  function ParseCoreVersion(core: string, prerelease: seq<string>): Option<Version> {
    var parts := Split(core, '.');
    if |parts| != 3 then None
    else match ParseCore(parts)
      case Some(numbers) =>
        if |numbers| == 3 then Some(Version(numbers[0], numbers[1], numbers[2], prerelease)) else None
      case None => None
  }

  function ParseNormalized(normalized: string): Option<Version> {
    if normalized == "" then None
    else
      var dash := IndexOf(normalized, '-');
      if dash == |normalized| then ParseCoreVersion(normalized, [])
      else if TrimSpace(normalized[dash + 1..]) == "" then None
      else ParseCoreVersion(normalized[..dash], Split(normalized[dash + 1..], '.'))
  }

  /** None for what the code calls invalid. */
  function Parse(value: string): Option<Version> {
    ParseNormalized(Before(NormalizeVersion(value), '+'))
  }

  lemma {:induction false} ParseCoreLength(parts: seq<string>)
    requires ParseCore(parts).Some?
    ensures |ParseCore(parts).value| == |parts|
  {
    if parts != [] {
      ParseCoreLength(parts[..|parts| - 1]);
    }
  }

  lemma {:induction false} ParseCorePrefix(parts: seq<string>, n: nat)
    requires n <= |parts| && ParseCore(parts[..n]) == None
    ensures ParseCore(parts) == None
    decreases |parts|
  {
    if n == |parts| {
      assert parts[..n] == parts;
    } else {
      assert parts[..|parts| - 1][..n] == parts[..n];
      ParseCorePrefix(parts[..|parts| - 1], n);
    }
  }

  method ParseSemanticVersion(value: string) returns (v: Option<Version>)
    ensures v == Parse(value)
  {
    var normalized := Before(NormalizeVersion(value), '+');
    if normalized == "" {
      return None;
    }
    var core := normalized;
    var prerelease: seq<string> := [];
    var dash := IndexOf(normalized, '-');
    if dash < |normalized| {
      core := normalized[..dash];
      if TrimSpace(normalized[dash + 1..]) == "" {
        return None;
      }
      prerelease := Split(normalized[dash + 1..], '.');
    }
    var coreParts := Split(core, '.');
    if |coreParts| != 3 {
      return None;
    }
    var numbers := ParseNumbers(coreParts);
    if numbers == None {
      return None;
    }
    ParseCoreLength(coreParts);
    return Some(Version(numbers.value[0], numbers.value[1], numbers.value[2], prerelease));
  }

  method ParseNumbers(coreParts: seq<string>) returns (r: Option<seq<nat>>)
    ensures r == ParseCore(coreParts)
  {
    var numbers: seq<nat> := [];
    for index := 0 to |coreParts|
      invariant ParseCore(coreParts[..index]) == Some(numbers)
    {
      assert coreParts[..index + 1][..index] == coreParts[..index];
      var number := Atoi(coreParts[index]);
      if number == None || number.value < 0 {
        ParseCorePrefix(coreParts, index + 1);
        return None;
      }
      numbers := numbers + [number.value];
    }
    assert coreParts[..|coreParts|] == coreParts;
    return Some(numbers);
  }

  // ---------- what parsing is for ----------

  predicate IdentifierChar(c: char) {
    '0' <= c <= '9' || 'a' <= c <= 'z' || c == '-'
  }

  predicate CoreChar(c: char) {
    IsDigit(c) || c == '.'
  }

  /** Numbers that fit an int and non-empty lower-case identifiers. */
  predicate WellFormed(v: Version) {
    && v.major <= MAX_INT && v.minor <= MAX_INT && v.patch <= MAX_INT
    && forall i :: 0 <= i < |v.prerelease| ==>
         v.prerelease[i] != "" && forall c :: c in v.prerelease[i] ==> IdentifierChar(c)
  }

  function RenderCore(v: Version): string {
    Join([Decimal(v.major), Decimal(v.minor), Decimal(v.patch)], '.')
  }

  function Render(v: Version): string {
    RenderCore(v) + if v.prerelease == [] then "" else "-" + Join(v.prerelease, '.')
  }

  lemma {:induction false} JoinChars(parts: seq<string>, c: char)
    requires |parts| > 0
    ensures forall x :: x in Join(parts, c) ==> x == c || exists i :: 0 <= i < |parts| && x in parts[i]
    ensures parts[0] != "" ==> Join(parts, c) != "" && Join(parts, c)[0] == parts[0][0]
  {
    if |parts| > 1 {
      JoinChars(parts[1..], c);
      forall x | x in Join(parts, c)
        ensures x == c || exists i :: 0 <= i < |parts| && x in parts[i]
      {
        if x in Join(parts[1..], c) && x != c {
          var i :| 0 <= i < |parts[1..]| && x in parts[1..][i];
          assert x in parts[i + 1];
        }
      }
    }
  }

  /** Digits that fit an int. */
  predicate IntDigits(s: string) {
    s != "" && AllDigits(s) && DigitsValue(s) <= MAX_INT
  }

  /** What may follow the core: nothing, or a dash and something that is not blank. */
  predicate PrereleaseTail(tail: string) {
    tail == "" || (tail[0] == '-' && TrimSpace(tail[1..]) != "")
  }

  /** The text is the core a.b.c and a tail. */
  predicate Reads(text: string, a: string, b: string, c: string, tail: string) {
    && IntDigits(a) && IntDigits(b) && IntDigits(c) && PrereleaseTail(tail)
    && text == Join([a, b, c], '.') + tail
  }

  lemma {:induction false} CoreNumbers(parts: seq<string>)
    requires forall i :: 0 <= i < |parts| ==> IntDigits(parts[i])
    ensures ParseCore(parts).Some? && |ParseCore(parts).value| == |parts|
    ensures forall i :: 0 <= i < |parts| ==> IntDigits(parts[i]) && ParseCore(parts).value[i] == DigitsValue(parts[i])
  {
    if parts != [] {
      var last := parts[|parts| - 1];
      CoreNumbers(parts[..|parts| - 1]);
      assert IsDigit(last[0]);
    }
  }

  lemma DigitsOnly(s: string, c: char)
    requires AllDigits(s) && !IsDigit(c)
    ensures c !in s
  {
  }

  lemma CoreSplits(a: string, b: string, c: string)
    requires AllDigits(a) && AllDigits(b) && AllDigits(c)
    ensures Split(Join([a, b, c], '.'), '.') == [a, b, c]
  {
    DigitsOnly(a, '.');
    DigitsOnly(b, '.');
    DigitsOnly(c, '.');
    SplitJoined([a, b, c], '.');
  }

  lemma CoreEndsAtDash(a: string, b: string, c: string, tail: string)
    requires IntDigits(a) && AllDigits(b) && AllDigits(c) && PrereleaseTail(tail)
    ensures var core := Join([a, b, c], '.'); core != "" && IndexOf(core + tail, '-') == |core|
  {
    var core := Join([a, b, c], '.');
    JoinChars([a, b, c], '.');
    forall i | 0 <= i < |core|
      ensures core[i] != '-'
    {
      assert core[i] in core;
    }
    IndexOfFirst(core + tail, '-', |core|);
  }

  lemma CoreParses(a: string, b: string, c: string, prerelease: seq<string>)
    requires IntDigits(a) && IntDigits(b) && IntDigits(c)
    ensures ParseCoreVersion(Join([a, b, c], '.'), prerelease) ==
      Some(Version(DigitsValue(a), DigitsValue(b), DigitsValue(c), prerelease))
  {
    var parts := [a, b, c];
    CoreNumbers(parts);
    CoreSplits(a, b, c);
    assert DigitsValue(parts[0]) == DigitsValue(a) && DigitsValue(parts[1]) == DigitsValue(b)
      && DigitsValue(parts[2]) == DigitsValue(c);
  }

  function TailIdentifiers(tail: string): seq<string> {
    if tail == "" then [] else Split(tail[1..], '.')
  }

  lemma NormalizedIsCoreAndTail(core: string, tail: string)
    requires core != "" && IndexOf(core + tail, '-') == |core| && PrereleaseTail(tail)
    ensures ParseNormalized(core + tail) == ParseCoreVersion(core, TailIdentifiers(tail))
  {
    var text := core + tail;
    assert text[..|core|] == core;
    if tail == "" {
      assert text == core;
    } else {
      assert text[|core| + 1..] == tail[1..];
    }
  }

  /** Such text parses, to the numbers of its core and the identifiers of its tail. */
  lemma ReadsParses(text: string, a: string, b: string, c: string, tail: string)
    requires Reads(text, a, b, c, tail)
    ensures ParseNormalized(text)
      == Some(Version(DigitsValue(a), DigitsValue(b), DigitsValue(c), TailIdentifiers(tail)))
  {
    CoreEndsAtDash(a, b, c, tail);
    NormalizedIsCoreAndTail(Join([a, b, c], '.'), tail);
    CoreParses(a, b, c, TailIdentifiers(tail));
  }

  lemma {:induction false} ParsedPart(parts: seq<string>, i: nat)
    requires ParseCore(parts).Some? && i < |parts|
    ensures Atoi(parts[i]).Some? && Atoi(parts[i]).value >= 0
  {
    if i < |parts| - 1 {
      ParsedPart(parts[..|parts| - 1], i);
    }
  }

  lemma ParsedPartIsDigits(core: string, i: nat)
    requires ParseCore(Split(core, '.')).Some? && i < |Split(core, '.')|
    requires '+' !in core && '-' !in core
    ensures IntDigits(Split(core, '.')[i])
  {
    var part := Split(core, '.')[i];
    ParsedPart(Split(core, '.'), i);
    PartsOfSplit(core, '.', i, part[0]);
  }

  lemma CoreReads(core: string) returns (a: string, b: string, c: string)
    requires ParseCoreVersion(core, []).Some? && '+' !in core && '-' !in core
    ensures IntDigits(a) && IntDigits(b) && IntDigits(c) && core == Join([a, b, c], '.')
  {
    var parts := Split(core, '.');
    ParsedPartIsDigits(core, 0);
    ParsedPartIsDigits(core, 1);
    ParsedPartIsDigits(core, 2);
    JoinOfSplit(core, '.');
    a, b, c := parts[0], parts[1], parts[2];
    assert parts == [a, b, c];
  }

  lemma NormalizedParts(text: string) returns (core: string, tail: string)
    requires ParseNormalized(text).Some?
    ensures text == core + tail && '-' !in core && PrereleaseTail(tail)
    ensures ParseCoreVersion(core, TailIdentifiers(tail)).Some?
  {
    var dash := IndexOf(text, '-');
    core, tail := text[..dash], text[dash..];
    assert text == core + tail;
    if dash == |text| {
      assert text == core && tail == "";
    } else {
      assert tail[0] == '-' && tail[1..] == text[dash + 1..];
    }
  }

  lemma ParsesReads(text: string) returns (a: string, b: string, c: string, tail: string)
    requires ParseNormalized(text).Some? && '+' !in text
    ensures Reads(text, a, b, c, tail)
  {
    var core;
    core, tail := NormalizedParts(text);
    assert '+' !in core by {
      assert forall x :: x in core ==> x in text;
    }
    a, b, c := CoreReads(core);
  }

  /** A version is accepted if and only if, lower-cased, trimmed and without a leading v and what follows a plus, it
      is three digit strings that fit an int, joined by dots, and then nothing or a dash and a non-blank rest. */
  lemma AcceptedIff(value: string)
    ensures Parse(value).Some? <==> exists a, b, c, tail :: Reads(Before(NormalizeVersion(value), '+'), a, b, c, tail)
  {
    var text := Before(NormalizeVersion(value), '+');
    if Parse(value).Some? {
      var a, b, c, tail := ParsesReads(text);
    }
    if a, b, c, tail :| Reads(text, a, b, c, tail) {
      ReadsParses(text, a, b, c, tail);
    }
  }

  lemma CoreRenders(v: Version)
    requires WellFormed(v)
    ensures RenderCore(v) != "" && IsDigit(RenderCore(v)[0])
    ensures forall c :: c in RenderCore(v) ==> CoreChar(c)
  {
    JoinChars([Decimal(v.major), Decimal(v.minor), Decimal(v.patch)], '.');
  }

  lemma RenderedChars(v: Version)
    requires WellFormed(v)
    ensures Render(v) != "" && IsDigit(Render(v)[0]) && !IsSpace(Render(v)[|Render(v)| - 1])
    ensures forall c :: c in Render(v) ==> CoreChar(c) || IdentifierChar(c)
  {
    CoreRenders(v);
    if v.prerelease != [] {
      JoinChars(v.prerelease, '.');
      assert Render(v) == RenderCore(v) + ("-" + Join(v.prerelease, '.'));
    }
    assert Render(v)[|Render(v)| - 1] in Render(v);
  }

  lemma LowerKeeps(text: string, build: string)
    requires forall c :: c in text ==> !('A' <= c <= 'Z')
    ensures ToLower(text + build) == text + ToLower(build)
  {
    forall i | 0 <= i < |text|
      ensures ToLowerChar(text[i]) == text[i]
    {
      assert text[i] in text;
    }
  }

  lemma TrimKeeps(text: string, build: string)
    requires text != "" && !IsSpace(text[0]) && !IsSpace(text[|text| - 1])
    requires build == "" || build[0] == '+'
    ensures TrimSpace(text + build) == text + TrimRight(build)
    ensures TrimRight(build) == "" || TrimRight(build)[0] == '+'
  {
    assert (text + build)[0] == text[0];
    TrimRightKeeps(text, build);
  }

  lemma BeforeKeeps(r: string, tail: string)
    requires '+' !in r && (tail == "" || tail[0] == '+')
    ensures Before(r + tail, '+') == r
  {
    forall i | 0 <= i < |r|
      ensures (r + tail)[i] != '+'
    {
      assert r[i] in r;
    }
    IndexOfFirst(r + tail, '+', |r|);
  }

  lemma LoweredAndTrimmed(text: string, build: string)
    requires text != "" && !IsSpace(text[0]) && !IsSpace(text[|text| - 1])
    requires forall c :: c in text ==> !('A' <= c <= 'Z')
    requires build == "" || build[0] == '+'
    ensures TrimSpace(ToLower(text + build)) == text + TrimRight(ToLower(build))
    ensures TrimRight(ToLower(build)) == "" || TrimRight(ToLower(build))[0] == '+'
  {
    LowerKeeps(text, build);
    TrimKeeps(text, ToLower(build));
  }

  lemma PrefixDropped(r: string, prefix: string, tail: string)
    requires r != "" && IsDigit(r[0]) && (prefix == "" || prefix == "v")
    ensures TrimPrefix(prefix + r + tail, "v") == r + tail
  {
    if prefix == "v" {
      assert prefix + r + tail == "v" + (r + tail);
    } else {
      assert prefix + r + tail == r + tail;
      assert (r + tail)[0] == r[0] != "v"[0];
    }
  }

  /** A leading v and build metadata are dropped. */
  lemma NormalizingKeeps(r: string, prefix: string, build: string)
    requires r != "" && IsDigit(r[0]) && !IsSpace(r[|r| - 1]) && '+' !in r
    requires forall c :: c in r ==> !('A' <= c <= 'Z')
    requires prefix == "" || prefix == "v"
    requires build == "" || build[0] == '+'
    ensures Before(NormalizeVersion(prefix + r + build), '+') == r
  {
    var text := prefix + r;
    assert text[|text| - 1] == r[|r| - 1] && text[0] == if prefix == "v" then 'v' else r[0];
    LoweredAndTrimmed(text, build);
    PrefixDropped(r, prefix, TrimRight(ToLower(build)));
    BeforeKeeps(r, TrimRight(ToLower(build)));
  }

  lemma IdentifiersParse(v: Version)
    requires WellFormed(v) && v.prerelease != []
    ensures var joined := Join(v.prerelease, '.');
      TrimSpace(joined) != "" && Split(joined, '.') == v.prerelease
  {
    var joined := Join(v.prerelease, '.');
    JoinChars(v.prerelease, '.');
    assert joined[0] in v.prerelease[0];
    assert [] + joined == joined;
    TrimRightKeeps([], joined);
    SplitJoined(v.prerelease, '.');
  }

  lemma ParseNormalizedRender(v: Version)
    requires WellFormed(v)
    ensures ParseNormalized(Render(v)) == Some(v)
  {
    var tail := if v.prerelease == [] then "" else "-" + Join(v.prerelease, '.');
    if v.prerelease != [] {
      IdentifiersParse(v);
      assert tail[1..] == Join(v.prerelease, '.');
    }
    ReadsParses(Render(v), Decimal(v.major), Decimal(v.minor), Decimal(v.patch), tail);
  }

  /** Every well-formed version, with or without a leading v and build metadata, parses to itself. */
  lemma ParseRendered(v: Version, prefix: string, build: string)
    requires WellFormed(v)
    requires prefix == "" || prefix == "v"
    requires build == "" || build[0] == '+'
    ensures Parse(prefix + Render(v) + build) == Some(v)
  {
    RenderedChars(v);
    NormalizingKeeps(Render(v), prefix, build);
    ParseNormalizedRender(v);
  }

  lemma NormalizedIs(written: string, before: string, after: string, r: string)
    requires ToLower(written) == r && r != "" && IsDigit(r[0]) && !IsSpace(r[|r| - 1])
    requires forall i :: 0 <= i < |before| ==> IsSpace(ToLowerChar(before[i]))
    requires forall i :: 0 <= i < |after| ==> IsSpace(ToLowerChar(after[i]))
    ensures NormalizeVersion(before + written + after) == r
  {
    assert ToLower(before + written + after) == ToLower(before) + r + ToLower(after);
    TrimmedIs(ToLower(before), r, ToLower(after));
    assert r[0] != 'v';
  }

  /** So does one in capitals or with space around it. */
  lemma ParsesWithSpaceAndCapitals(v: Version, written: string, before: string, after: string)
    requires WellFormed(v) && ToLower(written) == Render(v)
    requires forall i :: 0 <= i < |before| ==> IsSpace(ToLowerChar(before[i]))
    requires forall i :: 0 <= i < |after| ==> IsSpace(ToLowerChar(after[i]))
    ensures Parse(before + written + after) == Some(v)
  {
    var r := Render(v);
    RenderedChars(v);
    NormalizedIs(written, before, after, r);
    assert Before(r, '+') == r by {
      BeforeKeeps(r, "");
      assert r + "" == r;
    }
    ParseNormalizedRender(v);
  }

  // ---------- comparison ----------

  /** A pre-release identifier is numeric when it is all digits and fits an int. */
  datatype Identifier = Numeric(n: nat) | Alphanumeric(s: string)

  function Kind(value: string): Identifier {
    if value != "" && AllDigits(value) && Atoi(value).Some? then Numeric(DigitsValue(value)) else Alphanumeric(value)
  }

  function ComparePrereleaseIdentifier(left: string, right: string): int {
    match (Kind(left), Kind(right))
    case (Numeric(l), Numeric(r)) => if l > r then 1 else if l < r then -1 else 0
    case (Numeric(_), Alphanumeric(_)) => -1
    case (Alphanumeric(_), Numeric(_)) => 1
    case (Alphanumeric(_), Alphanumeric(_)) => Compare(left, right)
  }

  /** The walk over two non-empty lists. */
  function CompareLists(left: seq<string>, right: seq<string>): int {
    if left == [] && right == [] then 0
    else if left == [] then -1
    else if right == [] then 1
    else
      var c := ComparePrereleaseIdentifier(left[0], right[0]);
      if c != 0 then c else CompareLists(left[1..], right[1..])
  }

  function ComparePrereleases(left: seq<string>, right: seq<string>): int {
    if left == [] && right == [] then 0
    else if left == [] then 1
    else if right == [] then -1
    else CompareLists(left, right)
  }

  lemma {:induction false} EqualPrefixSkips(left: seq<string>, right: seq<string>, n: nat)
    requires n <= |left| && n <= |right|
    requires forall i :: 0 <= i < n ==> ComparePrereleaseIdentifier(left[i], right[i]) == 0
    ensures CompareLists(left, right) == CompareLists(left[n..], right[n..])
  {
    if n == 0 {
      assert left[0..] == left && right[0..] == right;
    } else {
      EqualPrefixSkips(left[1..], right[1..], n - 1);
      assert left[1..][n - 1..] == left[n..] && right[1..][n - 1..] == right[n..];
    }
  }

  method ComparePrereleaseIdentifiers(left: seq<string>, right: seq<string>) returns (c: int)
    ensures c == ComparePrereleases(left, right)
  {
    if |left| == 0 && |right| == 0 {
      return 0;
    }
    if |left| == 0 {
      return 1;
    }
    if |right| == 0 {
      return -1;
    }
    var index := 0;
    while index < |left| && index < |right|
      invariant index <= |left| && index <= |right|
      invariant forall i :: 0 <= i < index ==> ComparePrereleaseIdentifier(left[i], right[i]) == 0
    {
      var comparison := ComparePrereleaseIdentifier(left[index], right[index]);
      if comparison != 0 {
        EqualPrefixSkips(left, right, index);
        return comparison;
      }
      index := index + 1;
    }
    EqualPrefixSkips(left, right, index);
    return if |left| > |right| then 1 else if |left| < |right| then -1 else 0;
  }

  function CompareNumber(l: nat, r: nat): int {
    if l > r then 1 else if l < r then -1 else 0
  }

  function CompareVersions(l: Version, r: Version): int {
    if l.major != r.major then CompareNumber(l.major, r.major)
    else if l.minor != r.minor then CompareNumber(l.minor, r.minor)
    else if l.patch != r.patch then CompareNumber(l.patch, r.patch)
    else ComparePrereleases(l.prerelease, r.prerelease)
  }

  function CompareSemanticVersions(left: string, right: string): int {
    match (Parse(left), Parse(right))
    case (Some(l), Some(r)) => CompareVersions(l, r)
    case _ => 0
  }

  function IsUpdateAvailable(current: string, latest: string): bool {
    CompareSemanticVersions(latest, current) > 0
  }

  // ---------- section 11, said declaratively ----------

  /** Section 9: an identifier of digits only is numeric, however long. */
  function StandardKind(value: string): Identifier {
    if value != "" && AllDigits(value) then Numeric(DigitsValue(value)) else Alphanumeric(value)
  }

  /** Items 11.4.1 to 11.4.3: numeric identifiers numerically, alphanumeric ones in ASCII order, numeric ones lower. */
  ghost predicate IdentifierPrecedes(a: string, b: string) {
    match (StandardKind(a), StandardKind(b))
    case (Numeric(m), Numeric(n)) => m < n
    case (Numeric(_), Alphanumeric(_)) => true
    case (Alphanumeric(_), Numeric(_)) => false
    case (Alphanumeric(s), Alphanumeric(t)) => LexLess(s, t)
  }

  ghost predicate SameIdentifier(a: string, b: string) {
    StandardKind(a) == StandardKind(b)
  }

  /** Item 11.4: the first difference decides, and a longer list wins when there is none. */
  ghost predicate ListPrecedes(a: seq<string>, b: seq<string>) {
    exists k: nat :: AgreeUpTo(a, b, k) && k < |b| && (k == |a| || IdentifierPrecedes(a[k], b[k]))
  }

  ghost predicate AgreeUpTo(a: seq<string>, b: seq<string>, k: nat) {
    k <= |a| && k <= |b| && forall i :: 0 <= i < k ==> SameIdentifier(a[i], b[i])
  }

  /** Items 11.2 and 11.3: major, minor, patch, and a pre-release before the release. */
  ghost predicate Precedes(a: Version, b: Version) {
    || a.major < b.major
    || (a.major == b.major && a.minor < b.minor)
    || (a.major == b.major && a.minor == b.minor && a.patch < b.patch)
    || (a.major == b.major && a.minor == b.minor && a.patch == b.patch && a.prerelease != [] &&
        (b.prerelease == [] || ListPrecedes(a.prerelease, b.prerelease)))
  }

  /** An identifier of digits that do not fit an int: the code takes it for an alphanumeric one. */
  predicate Oversized(s: string) {
    s != "" && AllDigits(s) && DigitsValue(s) > MAX_INT
  }

  /** The code orders these two identifiers as the standard does. */
  ghost predicate FollowsStandard(a: string, b: string) {
    && (ComparePrereleaseIdentifier(a, b) < 0 <==> IdentifierPrecedes(a, b))
    && (ComparePrereleaseIdentifier(a, b) > 0 <==> IdentifierPrecedes(b, a))
    && (ComparePrereleaseIdentifier(a, b) == 0 <==> SameIdentifier(a, b))
  }

  lemma IdentifierComparison(a: string, b: string)
    ensures ComparePrereleaseIdentifier(a, b) in {-1, 0, 1}
    ensures ComparePrereleaseIdentifier(b, a) == -ComparePrereleaseIdentifier(a, b)
    ensures !Oversized(a) && !Oversized(b) ==> FollowsStandard(a, b)
  {
    CompareIsLexicographic(a, b);
    CompareIsLexicographic(b, a);
    CompareAntisymmetric(a, b);
    FitsIffNotOversized(a);
    FitsIffNotOversized(b);
  }

  lemma FitsIffNotOversized(s: string)
    ensures Kind(s) == if Oversized(s) then Alphanumeric(s) else StandardKind(s)
  {
    if s != "" && AllDigits(s) {
      assert IsDigit(s[0]);
    }
  }

  /** When alphabetical order does for an oversized identifier what the standard asks. Beside an alphanumeric one it
      must come first; beside another oversized one, with as many leading zeros, it must have as many digits, or the
      shorter must come first; with different leading zeros, the one with more of them must be smaller. */
  ghost predicate TextOrderServes(a: string, b: string) {
    if Oversized(a) && Oversized(b) then
      var sa, sb := Significant(a), Significant(b);
      if LeadingZeros(a) == LeadingZeros(b) then |sa| == |sb| || (|sa| < |sb| <==> LexLess(sa, sb))
      else if LeadingZeros(a) > LeadingZeros(b) then MagnitudeLess(a, b)
      else MagnitudeLess(b, a)
    else if Oversized(a) then StandardKind(b).Numeric? || LexLess(a, b)
    else if Oversized(b) then StandardKind(a).Numeric? || LexLess(b, a)
    else true
  }

  lemma OversizedPair(a: string, b: string)
    requires Oversized(a) && Oversized(b)
    ensures FollowsStandard(a, b) <==> TextOrderServes(a, b)
  {
    var sa, sb := Significant(a), Significant(b);
    FitsIffNotOversized(a);
    FitsIffNotOversized(b);
    SignificantValue(a);
    SignificantValue(b);
    MagnitudeIsValue(a, b);
    MagnitudeIsValue(b, a);
    CompareDigits(a, b);
    CompareIsLexicographic(sa, sb);
    CompareIsLexicographic(sb, sa);
    CompareAntisymmetric(sa, sb);
  }

  /** The code follows the standard on two identifiers if and only if neither is oversized or alphabetical order
      happens to serve. */
  lemma FollowsStandardIff(a: string, b: string)
    ensures FollowsStandard(a, b) <==> TextOrderServes(a, b)
  {
    if Oversized(a) && Oversized(b) {
      OversizedPair(a, b);
    } else {
      FitsIffNotOversized(a);
      FitsIffNotOversized(b);
      CompareIsLexicographic(a, b);
      CompareIsLexicographic(b, a);
      CompareAntisymmetric(a, b);
    }
  }

  lemma IdentifierTransitive(a: string, b: string, c: string)
    requires ComparePrereleaseIdentifier(a, b) <= 0 && ComparePrereleaseIdentifier(b, c) <= 0
    ensures ComparePrereleaseIdentifier(a, c) <= 0
    ensures ComparePrereleaseIdentifier(a, c) == 0 ==>
      ComparePrereleaseIdentifier(a, b) == 0 && ComparePrereleaseIdentifier(b, c) == 0
  {
    if Kind(a).Alphanumeric? && Kind(b).Alphanumeric? && Kind(c).Alphanumeric? {
      CompareTransitive(a, b, c);
    }
  }

  predicate AllFit(list: seq<string>) {
    forall i :: 0 <= i < |list| ==> !Oversized(list[i])
  }

  lemma {:induction false} ListComparison(a: seq<string>, b: seq<string>)
    ensures CompareLists(a, b) in {-1, 0, 1}
    ensures CompareLists(b, a) == -CompareLists(a, b)
    ensures AllFit(a) && AllFit(b) ==> (CompareLists(a, b) < 0 <==> ListPrecedes(a, b))
  {
    if a == [] || b == [] {
      if a == [] && b != [] {
        assert AgreeUpTo(a, b, 0);
      }
    } else {
      IdentifierComparison(a[0], b[0]);
      ListComparison(a[1..], b[1..]);
      if SameIdentifier(a[0], b[0]) {
        TailPrecedes(a, b);
      } else {
        HeadPrecedes(a, b);
      }
    }
  }

  lemma TailPrecedes(a: seq<string>, b: seq<string>)
    requires a != [] && b != [] && SameIdentifier(a[0], b[0])
    ensures ListPrecedes(a, b) <==> ListPrecedes(a[1..], b[1..])
  {
    if ListPrecedes(a, b) {
      var k: nat :| AgreeUpTo(a, b, k) && k < |b| && (k == |a| || IdentifierPrecedes(a[k], b[k]));
      CompareIsLexicographic(a[0], b[0]);
      assert k > 0 && AgreeUpTo(a[1..], b[1..], k - 1);
    }
    if ListPrecedes(a[1..], b[1..]) {
      var k: nat :| AgreeUpTo(a[1..], b[1..], k) && k < |b[1..]|
        && (k == |a[1..]| || IdentifierPrecedes(a[1..][k], b[1..][k]));
      assert AgreeUpTo(a, b, k + 1) by {
        forall i | 0 <= i < k + 1
          ensures SameIdentifier(a[i], b[i])
        {
          assert i > 0 ==> a[i] == a[1..][i - 1] && b[i] == b[1..][i - 1];
        }
      }
    }
  }

  lemma HeadPrecedes(a: seq<string>, b: seq<string>)
    requires a != [] && b != [] && !SameIdentifier(a[0], b[0])
    ensures ListPrecedes(a, b) <==> IdentifierPrecedes(a[0], b[0])
  {
    assert AgreeUpTo(a, b, 0);
    assert forall k: nat :: AgreeUpTo(a, b, k) ==> k == 0;
  }

  lemma {:induction false} ListTransitive(a: seq<string>, b: seq<string>, c: seq<string>)
    requires CompareLists(a, b) <= 0 && CompareLists(b, c) <= 0
    ensures CompareLists(a, c) <= 0 && (CompareLists(a, c) == 0 ==> CompareLists(a, b) == 0 && CompareLists(b, c) == 0)
  {
    if a != [] && b != [] && c != [] {
      IdentifierTransitive(a[0], b[0], c[0]);
      if ComparePrereleaseIdentifier(a[0], c[0]) == 0 {
        ListTransitive(a[1..], b[1..], c[1..]);
      }
    }
  }

  lemma VersionComparison(l: Version, r: Version)
    ensures CompareVersions(l, r) in {-1, 0, 1}
    ensures CompareVersions(r, l) == -CompareVersions(l, r)
    ensures AllFit(l.prerelease) && AllFit(r.prerelease) ==> (CompareVersions(l, r) < 0 <==> Precedes(l, r))
  {
    ListComparison(l.prerelease, r.prerelease);
  }

  lemma ComparisonSigns(left: string, right: string)
    ensures CompareSemanticVersions(left, right) in {-1, 0, 1}
    ensures CompareSemanticVersions(right, left) == -CompareSemanticVersions(left, right)
    ensures CompareSemanticVersions(left, right) != 0 ==> Parse(left).Some? && Parse(right).Some?
  {
    if Parse(left).Some? && Parse(right).Some? {
      VersionComparison(Parse(left).value, Parse(right).value);
    }
  }

  predicate ParsesAndFits(value: string) {
    Parse(value).Some? && AllFit(Parse(value).value.prerelease)
  }

  /** On versions that parse and whose numeric identifiers fit an int, comparison is the order of section 11 on the
      lower-cased text; what does not parse compares equal to everything. */
  lemma ComparisonFollowsSection11(left: string, right: string)
    ensures ParsesAndFits(left) && ParsesAndFits(right) ==>
      && (CompareSemanticVersions(left, right) < 0 <==> Precedes(Parse(left).value, Parse(right).value))
      && (CompareSemanticVersions(left, right) > 0 <==> Precedes(Parse(right).value, Parse(left).value))
    ensures Parse(left) == None || Parse(right) == None ==> CompareSemanticVersions(left, right) == 0
  {
    if Parse(left).Some? && Parse(right).Some? {
      VersionComparison(Parse(left).value, Parse(right).value);
      VersionComparison(Parse(right).value, Parse(left).value);
    }
  }

  /** Comparison does not see case. */
  lemma CaseIsIgnored(left: string, right: string)
    requires ToLower(left) == ToLower(right)
    ensures Parse(left) == Parse(right) && CompareSemanticVersions(left, right) == 0
  {
    ComparisonSigns(left, right);
  }

  /** In section 11 RC comes before rc, in the code they are the same. */
  lemma CaseCanMatter()
    ensures IdentifierPrecedes("RC", "rc") && CompareSemanticVersions("1.0.0-RC", "1.0.0-rc") == 0
  {
    assert FirstDifference("RC", "rc", 0) && !IsDigit("RC"[0]) && !IsDigit("rc"[0]);
    assert ToLower("1.0.0-RC") == "1.0.0-rc" == ToLower("1.0.0-rc");
    CaseIsIgnored("1.0.0-RC", "1.0.0-rc");
  }

  lemma OneRenders(identifier: string)
    ensures Render(Version(1, 0, 0, [identifier])) == "1.0.0-" + identifier
  {
    assert Decimal(1) == "1" && Decimal(0) == "0";
    JoinCons("0", ["0"], '.');
    JoinCons("1", ["0", "0"], '.');
    assert ["1"] + ["0", "0"] == ["1", "0", "0"] && ["0"] + ["0"] == ["0", "0"];
    assert Join(["1", "0", "0"], '.') == "1.0.0";
  }

  lemma ParsesToPrerelease(identifier: string)
    requires identifier != "" && forall c :: c in identifier ==> IdentifierChar(c)
    ensures Parse("1.0.0-" + identifier) == Some(Version(1, 0, 0, [identifier]))
  {
    var v := Version(1, 0, 0, [identifier]);
    OneRenders(identifier);
    assert "" + Render(v) + "" == Render(v);
    ParseRendered(v, "", "");
  }

  /** An identifier that starts with a capital, and one that starts with an earlier letter in lower case. */
  predicate CapitalAfter(x: string, y: string) {
    && x != "" && y != "" && 'A' <= x[0] <= 'Z' && 'a' <= y[0] < ToLowerChar(x[0])
    && (forall i :: 0 <= i < |x| ==> IdentifierChar(ToLowerChar(x[i])))
    && (forall i :: 0 <= i < |y| ==> IdentifierChar(y[i]))
  }

  lemma CapitalReverses(x: string, y: string)
    requires CapitalAfter(x, y)
    ensures IdentifierPrecedes(x, y) && ComparePrereleaseIdentifier(ToLower(x), y) > 0
  {
    assert FirstDifference(x, y, 0) && !IsDigit(x[0]) && !IsDigit(y[0]) && !IsDigit(ToLower(x)[0]);
  }

  /** In section 11 the capital comes first; the code offers it as an update of the other. */
  lemma CaseCanReverse(x: string, y: string)
    requires CapitalAfter(x, y)
    ensures IdentifierPrecedes(x, y) && IsUpdateAvailable("1.0.0-" + y, "1.0.0-" + x)
  {
    CapitalReverses(x, y);
    ParsesToPrerelease(ToLower(x));
    ParsesToPrerelease(y);
    CaseOfPrefixed(x);
    CaseIsIgnored("1.0.0-" + x, "1.0.0-" + ToLower(x));
  }

  lemma CaseOfPrefixed(x: string)
    ensures ToLower("1.0.0-" + x) == ToLower("1.0.0-" + ToLower(x))
  {
  }

  /** RC and alpha, for one. */
  lemma RcComesAfterAlpha()
    ensures CapitalAfter("RC", "alpha")
  {
  }

  /** The code, which sees the identifiers lower-cased, orders them as the standard orders them as written. */
  ghost predicate FollowsAsWritten(a: string, b: string) {
    var c := ComparePrereleaseIdentifier(ToLower(a), ToLower(b));
    && (c < 0 <==> IdentifierPrecedes(a, b))
    && (c > 0 <==> IdentifierPrecedes(b, a))
    && (c == 0 <==> SameIdentifier(a, b))
  }

  /** Two alphanumeric identifiers must keep their order when lower-cased; otherwise case does not matter, and only
      overflow does. */
  ghost predicate AsWrittenServes(a: string, b: string) {
    if StandardKind(a).Alphanumeric? && StandardKind(b).Alphanumeric? then CaseServes(a, b)
    else TextOrderServes(ToLower(a), ToLower(b))
  }

  lemma AlphanumericAsWritten(a: string, b: string)
    requires StandardKind(a).Alphanumeric? && StandardKind(b).Alphanumeric?
    ensures FollowsAsWritten(a, b) <==> CaseServes(a, b)
  {
    LowerKeepsDigits(a);
    LowerKeepsDigits(b);
    FitsIffNotOversized(ToLower(a));
    FitsIffNotOversized(ToLower(b));
    CaseServesIff(a, b);
    CompareIsLexicographic(a, b);
    CompareIsLexicographic(b, a);
    CompareAntisymmetric(a, b);
    CompareIsLexicographic(ToLower(a), ToLower(b));
  }

  /** On any two identifiers as written, capitals and all: the code follows items 11.4.1 to 11.4.3 if and only if
      lower-casing and the treatment of oversized numbers happen to serve. */
  lemma FollowsAsWrittenIff(a: string, b: string)
    ensures FollowsAsWritten(a, b) <==> AsWrittenServes(a, b)
  {
    if StandardKind(a).Alphanumeric? && StandardKind(b).Alphanumeric? {
      AlphanumericAsWritten(a, b);
    } else {
      LowerKeepsDigits(a);
      LowerKeepsDigits(b);
      FollowsStandardIff(ToLower(a), ToLower(b));
    }
  }

  /** Reading a version without lower-casing it first. */
  function ParseAsWritten(value: string): Option<Version> {
    ParseNormalized(Before(TrimPrefix(TrimSpace(value), "v"), '+'))
  }

  /** Versions without capitals and without oversized numbers are ordered as section 11 orders them as written. */
  lemma WithoutCapitalsAsWritten(left: string, right: string)
    requires NoCapitals(left) && NoCapitals(right) && ParsesAndFits(left) && ParsesAndFits(right)
    ensures ParseAsWritten(left).Some? && ParseAsWritten(right).Some?
    ensures var l, r := ParseAsWritten(left).value, ParseAsWritten(right).value;
      && (CompareSemanticVersions(left, right) < 0 <==> Precedes(l, r))
      && (CompareSemanticVersions(left, right) > 0 <==> Precedes(r, l))
  {
    LowerIsSame(left);
    LowerIsSame(right);
    ComparisonFollowsSection11(left, right);
  }

  /** A longer oversized identifier with a smaller first digit: greater in section 11, less in the code. */
  lemma OversizedMisorder(x: string, y: string)
    requires AllDigits(x) && AllDigits(y) && 20 <= |y| < |x| && '0' < x[0] < y[0]
    ensures IdentifierPrecedes(y, x) && ComparePrereleaseIdentifier(y, x) > 0
  {
    TwentyDigitsOverflow(x);
    TwentyDigitsOverflow(y);
    MoreDigitsAreMore(y, x);
    FitsIffNotOversized(x);
    FitsIffNotOversized(y);
  }

  /** The code offers a version as an update that section 11 puts before the current one. */
  lemma DowngradeOffered(x: string, y: string)
    requires AllDigits(x) && AllDigits(y) && 20 <= |y| < |x| && '0' < x[0] < y[0]
    ensures var current, latest := Version(1, 0, 0, [x]), Version(1, 0, 0, [y]);
      Precedes(latest, current) && IsUpdateAvailable(Render(current), Render(latest))
  {
    var current, latest := Version(1, 0, 0, [x]), Version(1, 0, 0, [y]);
    OversizedMisorder(x, y);
    assert AgreeUpTo([y], [x], 0);
    assert "" + Render(current) + "" == Render(current) && "" + Render(latest) + "" == Render(latest);
    ParseRendered(current, "", "");
    ParseRendered(latest, "", "");
  }

  /** 10^20 in place of twenty nines, for one. */
  lemma DowngradeToTwentyNines()
    ensures var x, y := "100000000000000000000", "99999999999999999999";
      IsUpdateAvailable(Render(Version(1, 0, 0, [x])), Render(Version(1, 0, 0, [y])))
  {
    DowngradeOffered("100000000000000000000", "99999999999999999999");
  }

  lemma VersionTransitive(a: Version, b: Version, c: Version)
    requires CompareVersions(a, b) <= 0 && CompareVersions(b, c) <= 0
    ensures CompareVersions(a, c) <= 0
    ensures CompareVersions(a, c) == 0 ==> CompareVersions(a, b) == 0 && CompareVersions(b, c) == 0
  {
    if a.prerelease != [] && b.prerelease != [] && c.prerelease != []
      && CompareLists(a.prerelease, b.prerelease) <= 0 && CompareLists(b.prerelease, c.prerelease) <= 0 {
      ListTransitive(a.prerelease, b.prerelease, c.prerelease);
    }
  }

  /** On valid versions comparison is a total preorder. */
  lemma ValidVersionsAreTotallyPreordered(a: string, b: string, c: string)
    requires Parse(a).Some? && Parse(b).Some? && Parse(c).Some?
    ensures CompareSemanticVersions(a, a) == 0
    ensures CompareSemanticVersions(a, b) <= 0 || CompareSemanticVersions(b, a) <= 0
    ensures CompareSemanticVersions(a, b) <= 0 && CompareSemanticVersions(b, c) <= 0 ==>
      CompareSemanticVersions(a, c) <= 0
  {
    ComparisonSigns(a, a);
    ComparisonSigns(a, b);
    if CompareSemanticVersions(a, b) <= 0 && CompareSemanticVersions(b, c) <= 0 {
      VersionTransitive(Parse(a).value, Parse(b).value, Parse(c).value);
    }
  }

  /** Being an update is irreflexive and transitive on all strings. */
  lemma UpdatesAreTransitive(a: string, b: string, c: string)
    requires IsUpdateAvailable(a, b) && IsUpdateAvailable(b, c)
    ensures IsUpdateAvailable(a, c) && a != c
  {
    ComparisonSigns(a, b);
    ComparisonSigns(b, c);
    ComparisonSigns(a, c);
    ComparisonSigns(a, a);
    VersionTransitive(Parse(a).value, Parse(b).value, Parse(c).value);
  }

  /** A chain of updates never comes back: its end is an update of its start. */
  lemma {:induction false} NoUpdateCycles(chain: seq<string>)
    requires |chain| >= 2
    requires forall i :: 0 <= i < |chain| - 1 ==> IsUpdateAvailable(chain[i], chain[i + 1])
    ensures IsUpdateAvailable(chain[0], chain[|chain| - 1]) && chain[0] != chain[|chain| - 1]
  {
    var last := |chain| - 1;
    if last == 1 {
      ComparisonSigns(chain[0], chain[0]);
    } else {
      NoUpdateCycles(chain[..last]);
      UpdatesAreTransitive(chain[0], chain[last - 1], chain[last]);
    }
  }

  predicate NeitherUpdates(a: string, b: string) {
    !IsUpdateAvailable(a, b) && !IsUpdateAvailable(b, a)
  }

  lemma NeitherUpdatesThroughValid(a: string, b: string, c: string)
    requires NeitherUpdates(a, b) && NeitherUpdates(b, c) && Parse(b).Some?
    ensures NeitherUpdates(a, c)
  {
    ComparisonSigns(a, b);
    ComparisonSigns(b, c);
    ComparisonSigns(a, c);
    if Parse(a).Some? && Parse(c).Some? {
      VersionTransitive(Parse(a).value, Parse(b).value, Parse(c).value);
      VersionTransitive(Parse(c).value, Parse(b).value, Parse(a).value);
    }
  }

  ghost predicate TransitiveThrough(b: string) {
    forall a, c :: NeitherUpdates(a, b) && NeitherUpdates(b, c) ==> NeitherUpdates(a, c)
  }

  /** "Neither updates the other" is transitive through a version exactly when that version parses: being an
      update is a strict weak order on the valid versions and on no larger set. */
  lemma NeitherUpdatesIsTransitiveIffValid(b: string)
    ensures TransitiveThrough(b) <==> Parse(b).Some?
  {
    if Parse(b).Some? {
      forall a, c | NeitherUpdates(a, b) && NeitherUpdates(b, c)
        ensures NeitherUpdates(a, c)
      {
        NeitherUpdatesThroughValid(a, b, c);
      }
    } else {
      InvalidIsNotTransitive(b);
    }
  }

  lemma InvalidIsNotTransitive(b: string)
    requires Parse(b) == None
    ensures !TransitiveThrough(b)
  {
    var a, c := OrderedVersions();
    InvalidIsNeither(a, b);
    InvalidIsNeither(c, b);
    assert !NeitherUpdates(a, c);
  }

  lemma InvalidIsNeither(a: string, b: string)
    requires Parse(b) == None
    ensures NeitherUpdates(a, b) && NeitherUpdates(b, a)
  {
  }

  lemma OrderedVersions() returns (a: string, c: string)
    ensures IsUpdateAvailable(a, c)
  {
    var one, two := Version(1, 0, 0, []), Version(2, 0, 0, []);
    a := "" + Render(one) + "";
    c := "" + Render(two) + "";
    ParseRendered(one, "", "");
    ParseRendered(two, "", "");
  }
}
