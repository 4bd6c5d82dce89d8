/** The few functions of packages strings and strconv that version parsing uses. Lower-casing covers the ASCII
    letters. */
module GoStrings {
  import opened Prelude

  function ToLowerChar(c: char): char {
    if 'A' <= c <= 'Z' then (c as int + 32) as char else c
  }

  function ToLower(s: string): (r: string)
    ensures |r| == |s|
  {
    seq(|s|, i requires 0 <= i < |s| => ToLowerChar(s[i]))
  }

  predicate IsSpace(c: char) {
    || '\t' <= c <= '\r' || c == ' ' || c == '\U{85}' || c == '\U{A0}' || c == '\U{1680}'
    || '\U{2000}' <= c <= '\U{200A}' || c in {'\U{2028}', '\U{2029}', '\U{202F}', '\U{205F}', '\U{3000}'}
  }

  function TrimLeft(s: string): string {
    if s != [] && IsSpace(s[0]) then TrimLeft(s[1..]) else s
  }

  function TrimRight(s: string): string {
    if s != [] && IsSpace(s[|s| - 1]) then TrimRight(s[..|s| - 1]) else s
  }

  function TrimSpace(s: string): string {
    TrimRight(TrimLeft(s))
  }

  function TrimPrefix(s: string, prefix: string): string {
    if prefix <= s then s[|prefix|..] else s
  }

  /** The position of the first c, or the length when there is none. */
  function IndexOf(s: string, c: char): (k: nat)
    ensures k <= |s|
    ensures forall i :: 0 <= i < k ==> s[i] != c
    ensures k < |s| ==> s[k] == c
  {
    if s == [] || s[0] == c then 0 else 1 + IndexOf(s[1..], c)
  }

  function Split(s: string, c: char): (parts: seq<string>)
    ensures |parts| > 0
    decreases |s|
  {
    var k := IndexOf(s, c);
    if k == |s| then [s] else [s[..k]] + Split(s[k + 1..], c)
  }

  function Join(parts: seq<string>, c: char): string
    requires |parts| > 0
  {
    if |parts| == 1 then parts[0] else parts[0] + [c] + Join(parts[1..], c)
  }

  lemma IndexOfFirst(s: string, c: char, k: nat)
    requires k <= |s| && (forall i :: 0 <= i < k ==> s[i] != c) && (k < |s| ==> s[k] == c)
    ensures IndexOf(s, c) == k
  {
  }

  lemma {:induction false} SplitJoined(parts: seq<string>, c: char)
    requires |parts| > 0 && forall i :: 0 <= i < |parts| ==> c !in parts[i]
    ensures Split(Join(parts, c), c) == parts
  {
    var s := Join(parts, c);
    if |parts| == 1 {
      IndexOfFirst(s, c, |s|);
    } else {
      IndexOfFirst(s, c, |parts[0]|);
      assert s[..|parts[0]|] == parts[0] && s[|parts[0]| + 1..] == Join(parts[1..], c);
      SplitJoined(parts[1..], c);
    }
  }

  lemma JoinCons(part: string, rest: seq<string>, c: char)
    requires |rest| > 0
    ensures Join([part] + rest, c) == part + [c] + Join(rest, c)
  {
    assert ([part] + rest)[1..] == rest;
  }

  /** Splitting loses nothing. */
  lemma {:induction false} JoinOfSplit(s: string, c: char)
    ensures Join(Split(s, c), c) == s
    decreases |s|
  {
    var k := IndexOf(s, c);
    if k < |s| {
      JoinOfSplit(s[k + 1..], c);
      JoinCons(s[..k], Split(s[k + 1..], c), c);
    }
  }

  /** No part holds the separator, or anything else that is not in the text. */
  lemma {:induction false} PartsOfSplit(s: string, c: char, i: nat, x: char)
    requires i < |Split(s, c)| && x in Split(s, c)[i]
    ensures x != c && x in s
    decreases |s|
  {
    var k := IndexOf(s, c);
    if k < |s| && i > 0 {
      PartsOfSplit(s[k + 1..], c, i - 1, x);
    }
  }

  predicate IsDigit(c: char) {
    '0' <= c <= '9'
  }

  predicate AllDigits(s: string) {
    forall i :: 0 <= i < |s| ==> IsDigit(s[i])
  }

  function DigitsValue(s: string): nat
    requires AllDigits(s)
  {
    if s == [] then 0 else 10 * DigitsValue(s[..|s| - 1]) + (s[|s| - 1] as int - '0' as int)
  }

  const MAX_INT: int := 0x7FFF_FFFF_FFFF_FFFF

  /** strconv.Atoi for a 64-bit int: an optional sign and decimal digits, within range. */
  function Atoi(s: string): Option<int> {
    if s == [] then None
    else
      var signed := s[0] == '+' || s[0] == '-';
      var digits := if signed then s[1..] else s;
      if digits == [] || !AllDigits(digits) then None
      else
        var value: int := DigitsValue(digits);
        var n := if s[0] == '-' then 0 - value else value;
        if -MAX_INT - 1 <= n <= MAX_INT then Some(n) else None
  }

  /** Decimal without leading zeros. */
  function Decimal(n: nat): (s: string)
    ensures |s| > 0 && AllDigits(s) && DigitsValue(s) == n
  {
    var last := ('0' as int + n % 10) as char;
    if n < 10 then [last]
    else
      var front := Decimal(n / 10);
      assert (front + [last])[..|front|] == front;
      front + [last]
  }

  function Compare(a: string, b: string): int {
    if a == [] && b == [] then 0
    else if a == [] then -1
    else if b == [] then 1
    else if a[0] < b[0] then -1
    else if a[0] > b[0] then 1
    else Compare(a[1..], b[1..])
  }

  /** Lexicographic order, said without recursion. */
  ghost predicate LexLess(a: string, b: string) {
    exists k: nat :: FirstDifference(a, b, k) && (k == |a| || a[k] < b[k])
  }

  predicate FirstDifference(a: string, b: string, k: nat) {
    k <= |a| && k < |b| && a[..k] == b[..k]
  }

  lemma {:induction false} CompareIsLexicographic(a: string, b: string)
    ensures Compare(a, b) in {-1, 0, 1}
    ensures Compare(a, b) < 0 <==> LexLess(a, b)
    ensures Compare(a, b) == 0 <==> a == b
  {
    if a == [] {
      if b != [] {
        assert FirstDifference(a, b, 0);
      }
    } else if b == [] {
    } else if a[0] != b[0] {
      assert FirstDifference(a, b, 0);
      forall k: nat | 0 < k <= |a| && k < |b|
        ensures !FirstDifference(a, b, k)
      {
        assert a[..k][0] == a[0] && b[..k][0] == b[0];
      }
    } else {
      CompareIsLexicographic(a[1..], b[1..]);
      assert a == [a[0]] + a[1..] && b == [b[0]] + b[1..];
      if LexLess(a, b) {
        var k: nat :| FirstDifference(a, b, k) && (k == |a| || a[k] < b[k]);
        assert k > 0;
        assert a[1..][..k - 1] == a[..k][1..] && b[1..][..k - 1] == b[..k][1..];
        assert FirstDifference(a[1..], b[1..], k - 1);
      }
      if LexLess(a[1..], b[1..]) {
        var k: nat :| FirstDifference(a[1..], b[1..], k) && (k == |a[1..]| || a[1..][k] < b[1..][k]);
        assert a[..k + 1] == [a[0]] + a[1..][..k] && b[..k + 1] == [b[0]] + b[1..][..k];
        assert FirstDifference(a, b, k + 1);
      }
    }
  }

  lemma {:induction false} CompareAntisymmetric(a: string, b: string)
    ensures Compare(b, a) == -Compare(a, b)
  {
    if a != [] && b != [] {
      CompareAntisymmetric(a[1..], b[1..]);
    }
  }

  lemma {:induction false} CompareTransitive(a: string, b: string, c: string)
    requires Compare(a, b) <= 0 && Compare(b, c) <= 0
    ensures Compare(a, c) <= 0 && (Compare(a, c) == 0 ==> Compare(a, b) == 0 && Compare(b, c) == 0)
  {
    if a != [] && b != [] && c != [] && a[0] == b[0] == c[0] {
      CompareTransitive(a[1..], b[1..], c[1..]);
    }
  }

  // ---------- what the library functions do, by table ----------

  lemma LowerAlphabet()
    ensures ToLower("ABCDEFGHIJKLMNOPQRSTUVWXYZ") == "abcdefghijklmnopqrstuvwxyz"
  {
  }

  /** Everything but the 26 capitals stays as it is. */
  lemma OnlyCapitalsChange(c: char)
    ensures c !in "ABCDEFGHIJKLMNOPQRSTUVWXYZ" ==> ToLowerChar(c) == c
  {
    if 'A' <= c <= 'Z' {
      var capitals := "ABCDEFGHIJKLMNOPQRSTUVWXYZ";
      assert capitals[c as int - 65] == c;
    }
  }

  /** The characters unicode.IsSpace knows, one by one. */
  lemma SpacesAre(c: char)
    ensures IsSpace(c) <==> c as int in {9, 10, 11, 12, 13, 32, 0x85, 0xA0, 0x1680, 0x2000, 0x2001, 0x2002, 0x2003,
                                         0x2004, 0x2005, 0x2006, 0x2007, 0x2008, 0x2009, 0x200A, 0x2028, 0x2029,
                                         0x202F, 0x205F, 0x3000}
  {
  }

  /** Digits within the range of an int are read, with a sign or without; others are not. */
  lemma AtoiReads(digits: string)
    requires digits != "" && AllDigits(digits)
    ensures Atoi(digits) == if DigitsValue(digits) <= 9223372036854775807 then Some(DigitsValue(digits)) else None
    ensures Atoi(['+'] + digits) == Atoi(digits)
  {
    assert IsDigit(digits[0]);
    assert (['+'] + digits)[1..] == digits;
  }

  lemma AtoiReadsNegative(digits: string)
    requires digits != "" && AllDigits(digits)
    ensures var n: int := DigitsValue(digits);
      Atoi(['-'] + digits) == if n <= 9223372036854775808 then Some(0 - n) else None
  {
    assert (['-'] + digits)[1..] == digits;
  }

  /** Space around a text that has none at its ends is taken off. */
  lemma {:induction false} TrimmedIs(before: string, text: string, after: string)
    requires forall i :: 0 <= i < |before| ==> IsSpace(before[i])
    requires forall i :: 0 <= i < |after| ==> IsSpace(after[i])
    requires text != "" && !IsSpace(text[0]) && !IsSpace(text[|text| - 1])
    ensures TrimSpace(before + text + after) == text
    decreases |before|
  {
    if before == "" {
      assert before + text + after == text + after;
      TrimRightIs(text, after);
    } else {
      assert (before + text + after)[1..] == before[1..] + text + after;
      TrimmedIs(before[1..], text, after);
    }
  }

  lemma {:induction false} TrimRightIs(text: string, after: string)
    requires forall i :: 0 <= i < |after| ==> IsSpace(after[i])
    requires text != "" && !IsSpace(text[|text| - 1])
    ensures TrimRight(text + after) == text
    decreases |after|
  {
    if after == "" {
      assert text + after == text;
    } else {
      assert (text + after)[..|text + after| - 1] == text + after[..|after| - 1];
      TrimRightIs(text, after[..|after| - 1]);
    }
  }

  // ---------- lower-casing and order ----------

  /** When lower-casing keeps the order of two texts. Where they first differ, the two characters must order alike
      lower-cased; if they differ in case only, what follows must order that way. */
  ghost predicate CaseServes(a: string, b: string) {
    if a == [] || b == [] then true
    else if a[0] == b[0] then CaseServes(a[1..], b[1..])
    else if ToLowerChar(a[0]) == ToLowerChar(b[0]) then
      Compare(ToLower(a[1..]), ToLower(b[1..])) == if a[0] < b[0] then -1 else 1
    else a[0] < b[0] <==> ToLowerChar(a[0]) < ToLowerChar(b[0])
  }

  lemma {:induction false} CaseServesIff(a: string, b: string)
    ensures Compare(ToLower(a), ToLower(b)) == Compare(a, b) <==> CaseServes(a, b)
  {
    if a != [] && b != [] {
      assert ToLower(a)[1..] == ToLower(a[1..]) && ToLower(b)[1..] == ToLower(b[1..]);
      CaseServesIff(a[1..], b[1..]);
    }
  }

  predicate NoCapitals(s: string) {
    forall i :: 0 <= i < |s| ==> !('A' <= s[i] <= 'Z')
  }

  lemma LowerIsSame(s: string)
    requires NoCapitals(s)
    ensures ToLower(s) == s
  {
  }

  /** Digits have no case, and nothing else becomes a digit. */
  lemma LowerKeepsDigits(s: string)
    ensures AllDigits(ToLower(s)) <==> AllDigits(s)
    ensures AllDigits(s) ==> ToLower(s) == s
  {
    if AllDigits(ToLower(s)) {
      forall i | 0 <= i < |s|
        ensures IsDigit(s[i])
      {
        assert IsDigit(ToLower(s)[i]);
      }
    }
  }

  // ---------- digits as text and as numbers ----------

  /** The digits from the first one that is not 0. */
  function Significant(s: string): (r: string)
    ensures |r| <= |s| && (AllDigits(s) ==> AllDigits(r)) && (r != [] ==> r[0] != '0')
  {
    if s != [] && s[0] == '0' then Significant(s[1..]) else s
  }

  function LeadingZeros(s: string): nat {
    |s| - |Significant(s)|
  }

  lemma {:induction false} LeadingZeroIsNothing(s: string)
    requires AllDigits(s) && s != [] && s[0] == '0'
    ensures DigitsValue(s) == DigitsValue(s[1..])
  {
    if |s| > 1 {
      LeadingZeroIsNothing(s[..|s| - 1]);
      assert s[..|s| - 1][1..] == s[1..][..|s[1..]| - 1];
    }
  }

  lemma {:induction false} SignificantValue(s: string)
    requires AllDigits(s)
    ensures DigitsValue(Significant(s)) == DigitsValue(s)
  {
    if s != [] && s[0] == '0' {
      LeadingZeroIsNothing(s);
      SignificantValue(s[1..]);
    }
  }

  lemma LexOfEqualLengths(a: string, b: string)
    requires |a| == |b| > 0
    ensures var n := |a| - 1; LexLess(a, b) <==> LexLess(a[..n], b[..n]) || (a[..n] == b[..n] && a[n] < b[n])
  {
    var n := |a| - 1;
    if LexLess(a, b) {
      var k: nat :| FirstDifference(a, b, k) && (k == |a| || a[k] < b[k]);
      if k < n {
        assert a[..n][..k] == a[..k] && b[..n][..k] == b[..k];
        assert FirstDifference(a[..n], b[..n], k);
      }
    }
    if LexLess(a[..n], b[..n]) {
      var k: nat :| FirstDifference(a[..n], b[..n], k) && (k == n || a[..n][k] < b[..n][k]);
      assert a[..n][..k] == a[..k] && b[..n][..k] == b[..k];
      assert FirstDifference(a, b, k);
    }
    if a[..n] == b[..n] && a[n] < b[n] {
      assert FirstDifference(a, b, n);
    }
  }

  lemma AppendedDigit(va: nat, vb: nat, x: char, y: char)
    requires IsDigit(x) && IsDigit(y)
    ensures var m, n := 10 * va + (x as int - '0' as int), 10 * vb + (y as int - '0' as int);
      && (m < n <==> va < vb || (va == vb && x < y))
      && (m == n <==> va == vb && x == y)
  {
  }

  lemma EqualByLast(a: string, b: string)
    requires |a| == |b| > 0
    ensures a == b <==> a[..|a| - 1] == b[..|a| - 1] && a[|a| - 1] == b[|a| - 1]
  {
    assert a == a[..|a| - 1] + [a[|a| - 1]] && b == b[..|a| - 1] + [b[|a| - 1]];
  }

  /** Digit strings of one length order as text just as they do as numbers. */
  lemma {:induction false} EqualLengthsOrderAsText(a: string, b: string)
    requires AllDigits(a) && AllDigits(b) && |a| == |b|
    ensures DigitsValue(a) < DigitsValue(b) <==> LexLess(a, b)
    ensures DigitsValue(a) == DigitsValue(b) <==> a == b
  {
    if a != [] {
      var n := |a| - 1;
      var front, front' := a[..n], b[..n];
      EqualLengthsOrderAsText(front, front');
      LexOfEqualLengths(a, b);
      AppendedDigit(DigitsValue(front), DigitsValue(front'), a[n], b[n]);
      EqualByLast(a, b);
    }
  }

  lemma {:induction false} MoreDigitsAreMore(a: string, b: string)
    requires AllDigits(a) && AllDigits(b) && |a| < |b| && b[0] != '0'
    ensures DigitsValue(a) < DigitsValue(b)
    decreases |b|
  {
    var m := |b| - 1;
    if a != [] {
      MoreDigitsAreMore(a[..|a| - 1], b[..m]);
    } else if m > 0 {
      MoreDigitsAreMore([], b[..m]);
    }
  }

  /** Smaller as a number, read off the text: fewer significant digits, or as many and earlier in the alphabet. */
  ghost predicate MagnitudeLess(a: string, b: string) {
    var sa, sb := Significant(a), Significant(b);
    |sa| < |sb| || (|sa| == |sb| && LexLess(sa, sb))
  }

  lemma MagnitudeIsValue(a: string, b: string)
    requires AllDigits(a) && AllDigits(b)
    ensures DigitsValue(a) < DigitsValue(b) <==> MagnitudeLess(a, b)
    ensures DigitsValue(a) == DigitsValue(b) <==> Significant(a) == Significant(b)
  {
    var sa, sb := Significant(a), Significant(b);
    SignificantValue(a);
    SignificantValue(b);
    if |sa| == |sb| {
      EqualLengthsOrderAsText(sa, sb);
    } else if |sa| < |sb| {
      MoreDigitsAreMore(sa, sb);
    } else {
      MoreDigitsAreMore(sb, sa);
    }
  }

  /** As text, positive digit strings order by leading zeros first. */
  lemma {:induction false} CompareDigits(a: string, b: string)
    requires AllDigits(a) && AllDigits(b) && Significant(a) != "" && Significant(b) != ""
    ensures Compare(a, b) ==
      if LeadingZeros(a) > LeadingZeros(b) then -1
      else if LeadingZeros(a) < LeadingZeros(b) then 1
      else Compare(Significant(a), Significant(b))
  {
    if a[0] == '0' && b[0] == '0' {
      CompareDigits(a[1..], b[1..]);
      assert Compare(a, b) == Compare(a[1..], b[1..]);
    } else {
      assert IsDigit(a[0]) && IsDigit(b[0]);
      assert a[0] == '0' ==> Significant(a) == Significant(a[1..]);
      assert b[0] == '0' ==> Significant(b) == Significant(b[1..]);
    }
  }

  function Pow10(n: nat): nat {
    if n == 0 then 1 else 10 * Pow10(n - 1)
  }

  lemma {:induction false} DigitsReach(s: string)
    requires AllDigits(s) && s != "" && s[0] != '0'
    ensures DigitsValue(s) >= Pow10(|s| - 1)
  {
    if |s| > 1 {
      DigitsReach(s[..|s| - 1]);
    } else {
      assert IsDigit(s[0]);
    }
  }

  /** Twenty digits do not fit an int. */
  lemma TwentyDigitsOverflow(s: string)
    requires AllDigits(s) && |s| >= 20 && s[0] != '0'
    ensures DigitsValue(s) > MAX_INT
  {
    assert s[..20][0] == s[0];
    DigitsReach(s[..20]);
    assert Pow10(5) == 100000;
    assert Pow10(10) == 10000000000;
    assert Pow10(15) == 1000000000000000;
    assert Pow10(19) == 10000000000000000000;
    if |s| > 20 {
      MoreDigitsAreMore(s[..20], s);
    } else {
      assert s[..20] == s;
    }
  }

  /** Text whose first character is not a space keeps that character when trimmed on the right. */
  lemma {:induction false} TrimRightKeeps(front: string, back: string)
    requires if back == [] then front != [] && !IsSpace(front[|front| - 1]) else !IsSpace(back[0])
    ensures TrimRight(front + back) == front + TrimRight(back)
    ensures back != [] ==> TrimRight(back) != [] && TrimRight(back)[0] == back[0]
    decreases |back|
  {
    if back == [] {
      assert front + back == front;
    } else if IsSpace(back[|back| - 1]) {
      var shorter := back[..|back| - 1];
      assert (front + back)[..|front + back| - 1] == front + shorter;
      TrimRightKeeps(front, shorter);
    }
  }
}
