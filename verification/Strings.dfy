/** The string operations of the source that the models need: trimming, ASCII case, splitting, decimal digits. */
module Strings {
  import opened Characters

  predicate IsDigit(c: char) {
    '0' <= c <= '9'
  }

  function StripLeft(s: string): (r: string)
    ensures r == "" || !IsSpace(r[0])
    ensures s == "" || !IsSpace(s[0]) ==> r == s
  {
    if s != "" && IsSpace(s[0]) then StripLeft(s[1..]) else s
  }

  function StripRight(s: string): (r: string)
    ensures r == "" || !IsSpace(r[|r| - 1])
    ensures s == "" || !IsSpace(s[|s| - 1]) ==> r == s
    ensures r == "" || (s != "" && r[0] == s[0])
  {
    if s != "" && IsSpace(s[|s| - 1]) then StripRight(s[..|s| - 1]) else s
  }

  /** No white space at either end. */
  predicate Trimmed(s: string) {
    s == "" || (!IsSpace(s[0]) && !IsSpace(s[|s| - 1]))
  }

  function Strip(s: string): (r: string)
    ensures Trimmed(r)
    ensures Trimmed(s) ==> r == s
  {
    StripRight(StripLeft(s))
  }

  predicate AllSpace(s: string) {
    forall i :: 0 <= i < |s| ==> IsSpace(s[i])
  }

  lemma {:induction false} StripLeftCut(s: string) returns (cut: string)
    ensures s == cut + StripLeft(s) && AllSpace(cut)
  {
    if s != "" && IsSpace(s[0]) {
      var rest := StripLeftCut(s[1..]);
      cut := [s[0]] + rest;
    } else {
      cut := "";
    }
  }

  lemma {:induction false} StripRightCut(s: string) returns (cut: string)
    ensures s == StripRight(s) + cut && AllSpace(cut)
  {
    if s != "" && IsSpace(s[|s| - 1]) {
      var rest := StripRightCut(s[..|s| - 1]);
      cut := rest + [s[|s| - 1]];
    } else {
      cut := "";
    }
  }

  /** Trimming takes white space away at either end, and nothing else. */
  lemma StripCut(s: string) returns (before: string, after: string)
    ensures s == before + Strip(s) + after && AllSpace(before) && AllSpace(after)
  {
    hide StripLeft, StripRight;
    before := StripLeftCut(s);
    after := StripRightCut(StripLeft(s));
  }

  lemma {:induction false} BlankExactly(s: string)
    ensures Strip(s) == "" <==> AllSpace(s)
  {
    hide Strip;
    var before, after := StripCut(s);
    if Strip(s) != "" {
      assert s[|before|] == Strip(s)[0];
    }
  }

  lemma {:induction false} StripLeftSpace(before: string, s: string)
    requires AllSpace(before)
    ensures StripLeft(before + s) == StripLeft(s)
  {
    if before == "" {
      assert before + s == s;
    } else {
      assert (before + s)[1..] == before[1..] + s;
      StripLeftSpace(before[1..], s);
    }
  }

  lemma {:induction false} StripRightSpace(s: string, after: string)
    requires AllSpace(after)
    ensures StripRight(s + after) == StripRight(s)
  {
    if after == "" {
      assert s + after == s;
    } else {
      var n := |after| - 1;
      assert (s + after)[..|s + after| - 1] == s + after[..n] && (s + after)[|s + after| - 1] == after[n];
      StripRightSpace(s, after[..n]);
    }
  }

  /** White space around a text that neither begins nor ends with some is what trimming takes away. */
  lemma StripSpaces(before: string, s: string, after: string)
    requires AllSpace(before) && AllSpace(after) && Trimmed(s) && s != ""
    ensures Strip(before + s + after) == s
  {
    assert before + s + after == before + (s + after);
    StripLeftSpace(before, s + after);
    StripRightSpace(s, after);
    hide StripRight;
    assert (s + after)[0] == s[0];
  }

  lemma StripKeepsOut(s: string, c: char)
    requires c !in s
    ensures c !in StripLeft(s) && c !in Strip(s)
  {
    hide Strip, StripLeft;
    var cut := StripLeftCut(s);
    var before, after := StripCut(s);
  }

  /** Lower case as far as comparisons with ASCII words go: of the characters beyond ASCII only the Kelvin sign becomes an
      ASCII letter. (U+0130 becomes an `i` and a combining dot, which no such word contains.) */
  function LowerChar(c: char): (r: char)
    ensures LowerCased(r)
    ensures LowerCased(c) ==> r == c
  {
    if 'A' <= c <= 'Z' then c - 'A' + 'a' else if c == '\U{212A}' then 'k' else c
  }

  predicate LowerCased(c: char) {
    !('A' <= c <= 'Z') && c != '\U{212A}'
  }

  function Lower(s: string): (r: string)
    ensures |r| == |s|
    ensures forall i :: 0 <= i < |s| ==> r[i] == LowerChar(s[i])
    ensures (forall i :: 0 <= i < |s| ==> LowerCased(s[i])) ==> r == s
  {
    seq(|s|, i requires 0 <= i < |s| => LowerChar(s[i]))
  }

  /** The ASCII letter that a case-insensitive regular expression takes a character for. */
  function Fold(c: char): char {
    if 'A' <= c <= 'Z' then c - 'A' + 'a'
    else if c == '\U{130}' || c == '\U{131}' then 'i'
    else if c == '\U{17F}' then 's'
    else if c == '\U{212A}' then 'k'
    else c
  }

  function FoldAll(s: string): (r: string)
    ensures |r| == |s| && forall i :: 0 <= i < |s| ==> r[i] == Fold(s[i])
  {
    seq(|s|, i requires 0 <= i < |s| => Fold(s[i]))
  }

  /** Capitals become the letters at the same place of the alphabet, and other ASCII characters stay. */
  lemma LetterCase(k: int, c: char)
    requires 0 <= k < 26 && c <= '\U{7F}' && !('A' <= c <= 'Z')
    ensures var capital, small := (0x41 + k) as char, (0x61 + k) as char;
            LowerChar(capital) == Fold(capital) == small
    ensures LowerChar(c) == Fold(c) == c
  {
  }

  /** `s.index(c)`. */
  function IndexOf(s: string, c: char): (i: nat)
    requires c in s
    ensures i < |s| && s[i] == c && forall j :: 0 <= j < i ==> s[j] != c
  {
    if s[0] == c then 0 else 1 + IndexOf(s[1..], c)
  }

  /** `s.split(c)`: always at least one part. */
  function Split(s: string, c: char): (parts: seq<string>)
    ensures parts != []
    ensures c !in s ==> parts == [s]
    decreases |s|
  {
    if c !in s then [s] else [s[..IndexOf(s, c)]] + Split(s[IndexOf(s, c) + 1..], c)
  }

  /** `c.join(parts)`. */
  function Join(parts: seq<string>, c: char): string {
    if parts == [] then "" else if |parts| == 1 then parts[0] else parts[0] + [c] + Join(parts[1..], c)
  }

  /** The parts hold no separator, and joined by it they are the text. */
  lemma {:induction false} SplitJoins(s: string, c: char)
    ensures Join(Split(s, c), c) == s
    ensures forall part :: part in Split(s, c) ==> c !in part
    decreases |s|
  {
    hide Join, Split, IndexOf;
    if c in s {
      var i := IndexOf(s, c);
      SplitAt(s, c);
      CutAtFirst(s, c, i);
      SplitJoins(s[i + 1..], c);
      JoinCons(s[..i], Split(s[i + 1..], c), c);
    } else {
      JoinOne(s, c);
    }
  }

  lemma SplitAt(s: string, c: char)
    requires c in s
    ensures Split(s, c) == [s[..IndexOf(s, c)]] + Split(s[IndexOf(s, c) + 1..], c)
  {
    hide IndexOf;
  }

  lemma CutAtFirst(s: string, c: char, i: nat)
    requires i < |s| && s[i] == c && forall j :: 0 <= j < i ==> s[j] != c
    ensures c !in s[..i] && s == s[..i] + [c] + s[i + 1..]
  {
  }

  lemma JoinOne(part: string, c: char)
    ensures Join([part], c) == part
  {
  }

  lemma JoinCons(part: string, parts: seq<string>, c: char)
    requires parts != []
    ensures Join([part] + parts, c) == part + [c] + Join(parts, c)
  {
    assert ([part] + parts)[1..] == parts;
  }

  /** The first separator of `first + [c] + rest` is the one written out. */
  lemma {:induction false} IndexAfter(first: string, c: char, rest: string)
    requires c !in first
    ensures var s := first + [c] + rest; c in s && IndexOf(s, c) == |first|
  {
    var s := first + [c] + rest;
    assert s[|first|] == c;
    assert forall i :: 0 <= i < |first| ==> s[i] == first[i] && first[i] in first;
  }

  lemma {:induction false} SplitCons(first: string, c: char, rest: string)
    requires c !in first
    ensures Split(first + [c] + rest, c) == [first] + Split(rest, c)
  {
    hide IndexOf;
    var s := first + [c] + rest;
    IndexAfter(first, c, rest);
    CutAfter(first, c, rest);
    assert Split(s, c) == [s[..|first|]] + Split(s[|first| + 1..], c);
  }

  lemma CutAfter(first: string, c: char, rest: string)
    ensures var s := first + [c] + rest; s[..|first|] == first && s[|first| + 1..] == rest
  {
  }

  /** A number as the source prints it. */
  predicate IsDigits(s: string) {
    s != "" && forall i :: 0 <= i < |s| ==> IsDigit(s[i])
  }

  /** `\d`: a decimal digit of any script. */
  predicate IsDecimal(c: char) {
    DigitOf(c).DecimalDigit?
  }

  function DigitValue(c: char): (d: int)
    requires IsDecimal(c)
    ensures 0 <= d <= 9
    ensures IsDigit(c) ==> d == c as int - '0' as int
  {
    DigitOf(c).value
  }

  /** `\d*`. */
  predicate AllDecimal(s: string) {
    forall i :: 0 <= i < |s| ==> IsDecimal(s[i])
  }

  /** The value of decimal digits of any scripts. */
  function ParseNat(s: string): nat
    requires s != "" && AllDecimal(s)
  {
    var d := DigitValue(s[|s| - 1]);
    if |s| == 1 then d else ParseNat(s[..|s| - 1]) * 10 + d
  }

  /** `str.isdigit`: decimal digits and others, such as superscripts. */
  predicate IsNumeric(s: string) {
    s != "" && forall i :: 0 <= i < |s| ==> !DigitOf(s[i]).NoDigit?
  }

  /** The error that `int` raises. */
  datatype ValueError = ValueError

  /** The interpreter's limit on the digits of a number that is converted from text. */
  const MAX_INT_DIGITS := 4300

  /** `int(s)` gives a number for a text of decimal digits that is not too long. */
  predicate IsInt(s: string) {
    s != "" && AllDecimal(s) && |s| <= MAX_INT_DIGITS
  }

  /** `int(s)` raises a value error although `s.isdigit()` holds. */
  predicate Unreadable(s: string) {
    IsNumeric(s) && !IsInt(s)
  }

  lemma IntNumeric(s: string)
    ensures IsInt(s) ==> IsNumeric(s)
  {
  }

  /** More digits than the limit are no number. */
  lemma TooLongUnreadable(s: string)
    requires AllDecimal(s) && |s| > MAX_INT_DIGITS
    ensures Unreadable(s)
  {
  }

  lemma SuperscriptUnreadable()
    ensures Unreadable("\U{B2}")
  {
    assert !IsDecimal("\U{B2}"[0]);
  }

  function Decimal(n: nat): (s: string)
    ensures IsDigits(s)
  {
    var d := [(n % 10 + '0' as int) as char];
    if n < 10 then d else Decimal(n / 10) + d
  }

  /** Reading back a printed number gives the number. */
  lemma {:induction false} ParseDecimal(n: nat)
    ensures AllDecimal(Decimal(n)) && ParseNat(Decimal(n)) == n
  {
    if n >= 10 {
      ParseDecimal(n / 10);
      assert Decimal(n)[..|Decimal(n)| - 1] == Decimal(n / 10);
    }
  }

  /** A number never prints longer than the text that it was read from. */
  lemma {:induction false} PrintedShorter(s: string)
    requires s != "" && AllDecimal(s)
    ensures |Decimal(ParseNat(s))| <= |s|
    decreases |s|
  {
    if |s| > 1 {
      PrintedShorter(s[..|s| - 1]);
      var n, d := ParseNat(s[..|s| - 1]), DigitValue(s[|s| - 1]);
      assert ParseNat(s) / 10 == n && ParseNat(s) % 10 == d;
      ShortNumber(n);
    }
  }

  lemma ShortNumber(n: nat)
    ensures n < 10 ==> |Decimal(n)| == 1
  {
  }

  lemma DigitsTrimmed(s: string)
    requires IsDigits(s)
    ensures Trimmed(s)
  {
    assert IsDigit(s[0]) && IsDigit(s[|s| - 1]);
  }

  /** Persian and Arabic digits as ASCII digits. */
  function EnglishDigit(c: char): (r: char)
    ensures IsDigit(c) || c == '/' || c == ',' ==> r == c
  {
    if '\U{6F0}' <= c <= '\U{6F9}' then (c as int - 0x6F0 + '0' as int) as char
    else if '\U{660}' <= c <= '\U{669}' then (c as int - 0x660 + '0' as int) as char
    else c
  }

  /** The digits of the three scripts that people write, each for the same number; any other character stays. */
  lemma ThreeScripts(k: int, c: char)
    requires 0 <= k <= 9 && !('\U{660}' <= c <= '\U{669}') && !('\U{6F0}' <= c <= '\U{6F9}')
    ensures EnglishDigit((0x6F0 + k) as char) == EnglishDigit((0x660 + k) as char) == (0x30 + k) as char
    ensures DigitValue((0x30 + k) as char) == k
    ensures EnglishDigit(c) == c
  {
  }

  function EnglishDigits(s: string): (r: string)
    ensures |r| == |s| && forall i :: 0 <= i < |s| ==> r[i] == EnglishDigit(s[i])
  {
    seq(|s|, i requires 0 <= i < |s| => EnglishDigit(s[i]))
  }

  /** `s.replace(a, b)` for single characters. */
  function Replace(s: string, a: char, b: char): (r: string)
    ensures |r| == |s| && forall i :: 0 <= i < |s| ==> r[i] == (if s[i] == a then b else s[i])
  {
    seq(|s|, i requires 0 <= i < |s| => if s[i] == a then b else s[i])
  }

  /** `{n:02d}`. */
  function TwoDigits(n: nat): (s: string)
    requires n < 100
    ensures IsDigits(s) && |s| == 2 && s[0] as int == n / 10 + '0' as int && s[1] as int == n % 10 + '0' as int
  {
    if n < 10 then ['0'] + Decimal(n)
    else
      assert n / 10 < 10 && |Decimal(n / 10)| == 1;
      Decimal(n)
  }

  lemma TwoDigitsRead(n: nat)
    requires n < 100
    ensures AllDecimal(TwoDigits(n)) && ParseNat(TwoDigits(n)) == n
  {
    ParseDecimal(n);
    if n < 10 {
      assert TwoDigits(n)[..1] == ['0'];
    }
  }

  // ---------- numbers of fixed width compare as text ----------

  lemma FourParts(n: nat)
    requires 1000 <= n < 10000
    ensures 100 <= n / 10 < 1000 && 10 <= n / 10 / 10 < 100
    ensures n / 100 == n / 10 / 10
    ensures n % 100 / 10 == n / 10 % 10 && n % 100 % 10 == n % 10
  {
  }

  lemma {:induction false} FourDigits(n: nat)
    requires 1000 <= n < 10000
    ensures Decimal(n) == TwoDigits(n / 100) + TwoDigits(n % 100)
  {
    FourParts(n);
    Tens(n);
    Tens(n / 10);
    assert TwoDigits(n / 10 / 10) == Decimal(n / 10 / 10);
    hide Decimal, TwoDigits;
  }

  lemma {:induction false} Tens(n: nat)
    ensures Decimal(n) == (if n < 10 then "" else Decimal(n / 10)) + [(n % 10 + '0' as int) as char]
  {
  }

  /** The order of strings of one length. */
  predicate TextBefore(a: string, b: string)
    requires |a| == |b|
  {
    a != "" && (a[0] < b[0] || (a[0] == b[0] && TextBefore(a[1..], b[1..])))
  }

  lemma {:induction false} TextBeforeAppend(a: string, b: string, c: string, d: string)
    requires |a| == |b| && |c| == |d|
    ensures TextBefore(a + c, b + d) <==> TextBefore(a, b) || (a == b && TextBefore(c, d))
  {
    if a == "" {
      assert a + c == c && b + d == d;
    } else {
      TextBeforeAppend(a[1..], b[1..], c, d);
      assert (a + c)[1..] == a[1..] + c && (b + d)[1..] == b[1..] + d;
      assert a == [a[0]] + a[1..] && b == [b[0]] + b[1..];
    }
  }

  lemma {:induction false} TextBeforeTwo(a: string, b: string)
    requires |a| == |b| == 2
    ensures TextBefore(a, b) <==> a[0] < b[0] || (a[0] == b[0] && a[1] < b[1])
  {
    assert a[1..][1..] == "" && b[1..][1..] == "";
    assert !TextBefore("", "");
  }

  lemma TwoDigitsOrdered(m: nat, n: nat)
    requires m < 100 && n < 100
    ensures TextBefore(TwoDigits(m), TwoDigits(n)) <==> m < n
    ensures TwoDigits(m) == TwoDigits(n) <==> m == n
  {
    hide TwoDigits, TextBefore;
    TextBeforeTwo(TwoDigits(m), TwoDigits(n));
    assert m == m / 10 * 10 + m % 10 && n == n / 10 * 10 + n % 10;
  }

  lemma {:induction false} FourDigitsOrdered(m: nat, n: nat)
    requires 1000 <= m < 10000 && 1000 <= n < 10000
    ensures |Decimal(m)| == |Decimal(n)| == 4
    ensures TextBefore(Decimal(m), Decimal(n)) <==> m < n
    ensures Decimal(m) == Decimal(n) <==> m == n
  {
    hide Decimal, TwoDigits, TextBefore;
    FourDigits(m);
    FourDigits(n);
    TwoDigitsOrdered(m / 100, n / 100);
    TwoDigitsOrdered(m % 100, n % 100);
    TextBeforeAppend(TwoDigits(m / 100), TwoDigits(n / 100), TwoDigits(m % 100), TwoDigits(n % 100));
    ParseDecimal(m);
    ParseDecimal(n);
  }

  lemma {:induction false} TextBeforeSlash(a: string, b: string)
    requires |a| == |b|
    ensures TextBefore(['/'] + a, ['/'] + b) <==> TextBefore(a, b)
  {
    assert (['/'] + a)[1..] == a && (['/'] + b)[1..] == b;
  }
}
