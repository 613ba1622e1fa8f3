/** Check digits of card numbers and IBANs, for digits of any script (backend/app/core/bank_rules.py). */
module BankChecks {
  // Cards use the Luhn check (Annex B of ISO/IEC 7812-1), IBANs the MOD 97-10 check (ISO/IEC 7064, used by ISO
  // 13616-1). The detection properties are proved for digit strings of any length and carried over to the two
  // validators.

  import opened Strings

  // ---------- Luhn ----------

  function Weigh(d: int, doubled: bool): int {
    if !doubled then d else if 2 * d > 9 then 2 * d - 9 else 2 * d
  }

  /** The Luhn sum: every second digit from the right, starting with the second, is doubled. */
  function LuhnSum(s: string): int
    requires AllDecimal(s)
  {
    if s == "" then 0 else Weigh(DigitValue(s[0]), |s| % 2 == 0) + LuhnSum(s[1..])
  }

  method IsValidCard(card: string) returns (valid: bool)
    ensures valid <==> CardAccepted(card)
  {
    if |card| != 16 || !AllDecimal(card) {
      return false;
    }
    var total := 0;
    for i := 0 to |card|
      invariant total == LuhnSum(card[|card| - i..])
    {
      var d := DigitValue(card[|card| - 1 - i]);
      if i % 2 == 1 {
        d := d * 2;
        if d > 9 {
          d := d - 9;
        }
      }
      total := total + d;
      assert card[|card| - 1 - i..][1..] == card[|card| - i..];
    }
    assert card[0..] == card;
    valid := total % 10 == 0;
  }

  /** Read from the left in pairs: of each the first digit counts twice, less nine when that has two digits, and the second
      once. */
  lemma {:induction false} LuhnPairs(s: string)
    requires AllDecimal(s) && |s| % 2 == 0 && s != ""
    ensures var d := DigitValue(s[0]);
            LuhnSum(s) == (if d < 5 then 2 * d else 2 * d - 9) + DigitValue(s[1]) + LuhnSum(s[2..])
    ensures LuhnSum("") == 0
  {
    assert s[1..][1..] == s[2..];
  }

  lemma {:induction false} LuhnUpdate(s: string, i: nat, c: char)
    requires AllDecimal(s) && i < |s| && IsDecimal(c)
    ensures LuhnSum(s[i := c]) == LuhnSum(s) - Weigh(DigitValue(s[i]), (|s| - i) % 2 == 0) + Weigh(DigitValue(c), (|s| - i) % 2 == 0)
  {
    if i == 0 {
      assert s[0 := c][1..] == s[1..];
    } else {
      LuhnUpdate(s[1..], i - 1, c);
      assert s[i := c][1..] == s[1..][i - 1 := c];
    }
  }

  lemma WeighInjective(a: int, b: int, doubled: bool)
    requires 0 <= a <= 9 && 0 <= b <= 9 && a != b
    ensures 0 < Weigh(a, doubled) - Weigh(b, doubled) <= 9 || 0 < Weigh(b, doubled) - Weigh(a, doubled) <= 9
  {
  }

  /** A single changed digit changes the check exactly when its value changes. */
  lemma LuhnDetectsChange(s: string, i: nat, c: char)
    requires AllDecimal(s) && i < |s| && IsDecimal(c)
    ensures AllDecimal(s[i := c])
    ensures LuhnSum(s[i := c]) % 10 == LuhnSum(s) % 10 <==> DigitValue(c) == DigitValue(s[i])
  {
    hide LuhnSum, Weigh, DigitValue;
    LuhnUpdate(s, i, c);
    if DigitValue(c) != DigitValue(s[i]) {
      WeighInjective(DigitValue(s[i]), DigitValue(c), (|s| - i) % 2 == 0);
    }
  }

  function Swap(s: string, i: nat): (r: string)
    requires i + 1 < |s|
    ensures |r| == |s|
  {
    s[i := s[i + 1]][i + 1 := s[i]]
  }

  /** A neighbour pair that the Luhn check cannot tell from its exchange. */
  predicate LuhnBlind(a: char, b: char)
    requires IsDecimal(a) && IsDecimal(b)
  {
    var x, y := DigitValue(a), DigitValue(b);
    x == y || (x == 0 && y == 9) || (x == 9 && y == 0)
  }

  lemma WeighSwap(a: int, b: int, doubled: bool)
    requires 0 <= a <= 9 && 0 <= b <= 9
    ensures (Weigh(b, doubled) - Weigh(a, doubled) + Weigh(a, !doubled) - Weigh(b, !doubled)) % 10 == 0
       <==> a == b || (a == 0 && b == 9) || (a == 9 && b == 0)
  {
  }

  lemma Parity(n: int)
    ensures ((n - 1) % 2 == 0) == !(n % 2 == 0)
  {
  }

  lemma {:induction false} LuhnSwapped(s: string, i: nat)
    requires AllDecimal(s) && i + 1 < |s|
    ensures AllDecimal(Swap(s, i))
    ensures
      var a, b, doubled := DigitValue(s[i]), DigitValue(s[i + 1]), (|s| - i) % 2 == 0;
      LuhnSum(Swap(s, i))
      == LuhnSum(s) + (Weigh(b, doubled) - Weigh(a, doubled) + Weigh(a, !doubled) - Weigh(b, !doubled))
  {
    hide LuhnSum, Weigh, DigitValue;
    var once, doubled := s[i := s[i + 1]], (|s| - i) % 2 == 0;
    Parity(|s| - i);
    LuhnUpdate(s, i, s[i + 1]);
    assert AllDecimal(once) && |once| == |s| && once[i + 1] == s[i + 1];
    LuhnUpdate(once, i + 1, s[i]);
    assert |once| - (i + 1) == |s| - i - 1;
    assert Swap(s, i) == once[i + 1 := s[i]];
    assert LuhnSum(once)
        == LuhnSum(s) - Weigh(DigitValue(s[i]), doubled) + Weigh(DigitValue(s[i + 1]), doubled);
    assert LuhnSum(Swap(s, i))
        == LuhnSum(once) - Weigh(DigitValue(s[i + 1]), !doubled) + Weigh(DigitValue(s[i]), !doubled);
  }

  lemma SameResidue(x: int, d: int)
    ensures (x + d) % 10 == x % 10 <==> d % 10 == 0
  {
  }

  /** Two exchanged neighbours change the check exactly when they differ and are not 0 and 9. */
  lemma {:induction false} LuhnDetectsSwap(s: string, i: nat)
    requires AllDecimal(s) && i + 1 < |s|
    ensures AllDecimal(Swap(s, i))
    ensures LuhnSum(Swap(s, i)) % 10 == LuhnSum(s) % 10 <==> LuhnBlind(s[i], s[i + 1])
  {
    hide LuhnSum, Weigh, Swap;
    var a, b, doubled := DigitValue(s[i]), DigitValue(s[i + 1]), (|s| - i) % 2 == 0;
    LuhnSwapped(s, i);
    WeighSwap(a, b, doubled);
    SameResidue(LuhnSum(s), Weigh(b, doubled) - Weigh(a, doubled) + Weigh(a, !doubled) - Weigh(b, !doubled));
  }

  predicate CardAccepted(card: string) {
    |card| == 16 && AllDecimal(card) && LuhnSum(card) % 10 == 0
  }

  /** The same digit, perhaps of another script. */
  predicate SameDigit(a: char, b: char) {
    a == b || (IsDecimal(a) && IsDecimal(b) && DigitValue(a) == DigitValue(b))
  }

  /** One changed character of a valid card number passes exactly when it is a digit of the same value, which only a digit
      of another script can be. */
  lemma CardChangeCaught(card: string, i: nat, c: char)
    requires CardAccepted(card) && i < 16
    ensures CardAccepted(card[i := c]) <==> SameDigit(c, card[i])
  {
    hide LuhnSum;
    if IsDecimal(c) {
      LuhnDetectsChange(card, i, c);
    } else {
      assert card[i := c][i] == c;
    }
  }

  /** Two exchanged neighbours of a valid card number pass exactly when they have the same value or are 0 and 9. */
  lemma CardSwapCaught(card: string, i: nat)
    requires CardAccepted(card) && i + 1 < 16
    ensures CardAccepted(Swap(card, i)) <==> LuhnBlind(card[i], card[i + 1])
  {
    hide LuhnSum;
    LuhnDetectsSwap(card, i);
  }

  lemma {:induction false} ZeroesCountNothing(s: string, k: nat)
    requires k <= |s| && AllDecimal(s) && forall i :: 0 <= i < k ==> s[i] == '0'
    ensures LuhnSum(s) == LuhnSum(s[k..])
  {
    if k > 0 {
      ZeroesCountNothing(s[1..], k - 1);
      assert s[1..][k - 1..] == s[k..];
    } else {
      assert s[0..] == s;
    }
  }

  lemma FiveAndFive()
    ensures AllDecimal("505") && LuhnSum("505") == 10
  {
    assert "505"[1..] == "05" && "05"[1..] == "5" && "5"[1..] == "";
  }

  /** A valid card number that stays accepted when its last digit, a five, is replaced by the Devanagari five. */
  lemma OtherScriptAccepted()
    ensures CardAccepted("0000000000000505") && CardAccepted("0000000000000505"[15 := '\U{96B}'])
  {
    hide LuhnSum;
    var card := "0000000000000505";
    FiveAndFive();
    assert card[13..] == "505";
    ZeroesCountNothing(card, 13);
    CardChangeCaught(card, 15, '\U{96B}');
  }

  lemma {:induction false} LuhnCheckDigit(prefix: string, c: char)
    requires AllDecimal(prefix) && IsDecimal(c)
    ensures AllDecimal(prefix + [c]) && LuhnSum(prefix + [c]) == LuhnSum(prefix + ['0']) + DigitValue(c)
  {
    LuhnUpdate(prefix + ['0'], |prefix|, c);
    assert (prefix + ['0'])[|prefix| := c] == prefix + [c];
  }

  /** Every prefix has exactly one check digit. */
  lemma LuhnCheckDigitUnique(prefix: string) returns (check: int)
    requires AllDecimal(prefix)
    ensures 0 <= check <= 9
    ensures forall c :: IsDecimal(c) ==> (LuhnSum(prefix + [c]) % 10 == 0 <==> DigitValue(c) == check)
  {
    var sum := LuhnSum(prefix + ['0']);
    check := (10 - sum % 10) % 10;
    hide LuhnSum;
    forall c | IsDecimal(c)
      ensures LuhnSum(prefix + [c]) % 10 == 0 <==> DigitValue(c) == check
    {
      LuhnCheckDigit(prefix, c);
      CheckDigit(sum, DigitValue(c));
    }
  }

  lemma CheckDigit(sum: int, d: int)
    requires 0 <= d <= 9
    ensures (sum + d) % 10 == 0 <==> d == (10 - sum % 10) % 10
  {
  }

  // ---------- MOD 97-10 ----------

  function Pow10(k: nat): int {
    if k == 0 then 1 else 10 * Pow10(k - 1)
  }

  lemma {:induction false} NoFactor97(d: int, k: nat)
    requires d % 97 != 0
    ensures d * Pow10(k) % 97 != 0
  {
    if k > 0 {
      NoFactor97(d, k - 1);
      var x := d * Pow10(k - 1);
      assert d * Pow10(k) == 10 * x;
      TenTimes(x);
    }
  }

  lemma TenTimes(x: int)
    requires x % 97 != 0
    ensures 10 * x % 97 != 0
  {
  }

  lemma {:induction false} Numeral(s: string)
    requires s != "" && AllDecimal(s)
    ensures |s| == 1 ==> ParseNat(s) == DigitValue(s[0])
    ensures |s| > 1 ==> AllDecimal(s[..|s| - 1]) && ParseNat(s) == 10 * ParseNat(s[..|s| - 1]) + DigitValue(s[|s| - 1])
  {
  }

  lemma ScaledStep(p: int, q: int, x: int, t: int, d: int)
    requires q == p + x * t
    ensures 10 * q + d == 10 * p + d + x * (10 * t)
  {
  }

  /** Changing a digit moves the number by a multiple of a power of ten. */
  lemma {:induction false} NumberUpdate(s: string, i: nat, c: char)
    requires s != "" && AllDecimal(s) && i < |s| && IsDecimal(c)
    ensures AllDecimal(s[i := c])
    ensures ParseNat(s[i := c]) == ParseNat(s) + (DigitValue(c) - DigitValue(s[i])) * Pow10(|s| - 1 - i)
    decreases |s|
  {
    hide ParseNat;
    var t := s[i := c];
    Numeral(s);
    Numeral(t);
    if i == |s| - 1 {
      if |s| > 1 {
        assert t[..|s| - 1] == s[..|s| - 1];
      }
    } else {
      NumberUpdate(s[..|s| - 1], i, c);
      assert t[..|s| - 1] == s[..|s| - 1][i := c];
      ScaledStep(ParseNat(s[..|s| - 1]), ParseNat(t[..|s| - 1]), DigitValue(c) - DigitValue(s[i]), Pow10(|s| - 2 - i),
                 DigitValue(s[|s| - 1]));
    }
  }

  lemma Residues(a: int, b: int)
    requires (a - b) % 97 != 0
    ensures a % 97 != b % 97
  {
  }

  /** A single changed digit changes the residue exactly when its value changes. */
  lemma Mod97DetectsChange(s: string, i: nat, c: char)
    requires AllDecimal(s) && i < |s| && IsDecimal(c)
    ensures AllDecimal(s[i := c])
    ensures ParseNat(s[i := c]) % 97 == ParseNat(s) % 97 <==> DigitValue(c) == DigitValue(s[i])
  {
    hide ParseNat, Pow10, DigitValue;
    NumberUpdate(s, i, c);
    var x, p := DigitValue(c) - DigitValue(s[i]), Pow10(|s| - 1 - i);
    if x == 0 {
      assert x * p == 0;
    } else {
      NoFactor97(x, |s| - 1 - i);
      Residues(ParseNat(s[i := c]), ParseNat(s));
    }
  }

  lemma NumberSwapped(s: string, i: nat)
    requires s != "" && AllDecimal(s) && i + 1 < |s|
    ensures AllDecimal(Swap(s, i))
    ensures ParseNat(Swap(s, i)) == ParseNat(s) + 9 * (DigitValue(s[i + 1]) - DigitValue(s[i])) * Pow10(|s| - 2 - i)
  {
    var a, b, k, once := DigitValue(s[i]), DigitValue(s[i + 1]), |s| - 2 - i, s[i := s[i + 1]];
    assert Pow10(k + 1) == 10 * Pow10(k);
    hide ParseNat, Pow10;
    NumberUpdate(s, i, s[i + 1]);
    NumberUpdate(once, i + 1, s[i]);
    assert once[i + 1] == s[i + 1];
    SwapDistance(a, b, Pow10(k));
  }

  /** Two exchanged neighbours change the residue exactly when they differ in value. */
  lemma {:induction false} Mod97DetectsSwap(s: string, i: nat)
    requires AllDecimal(s) && i + 1 < |s|
    ensures AllDecimal(Swap(s, i))
    ensures ParseNat(Swap(s, i)) % 97 == ParseNat(s) % 97 <==> DigitValue(s[i]) == DigitValue(s[i + 1])
  {
    hide ParseNat, Pow10, Swap, DigitValue;
    var a, b, k := DigitValue(s[i]), DigitValue(s[i + 1]), |s| - 2 - i;
    NumberSwapped(s, i);
    if a != b {
      NoFactor97(9 * (b - a), k);
      Residues(ParseNat(Swap(s, i)), ParseNat(s));
    } else {
      assert 9 * (b - a) * Pow10(k) == 0;
    }
  }

  lemma SwapDistance(a: int, b: int, p: int)
    ensures (b - a) * (10 * p) + (a - b) * p == 9 * (b - a) * p
  {
  }

  // ---------- IBANs of Iran ----------

  predicate ShebaForm(s: string) {
    |s| == 26 && s[0] == 'I' && s[1] == 'R' && AllDecimal(s[2..])
  }

  predicate Alphanumeric(s: string) {
    forall i :: 0 <= i < |s| ==> IsDecimal(s[i]) || 'A' <= s[i] <= 'Z'
  }

  /** `int(c, 36)`: digits keep their value, letters count from ten. */
  function Base36(c: char): (d: nat)
    requires IsDecimal(c) || 'A' <= c <= 'Z'
    ensures IsDecimal(c) ==> d <= 9
  {
    if IsDecimal(c) then DigitValue(c) else c as int - 'A' as int + 10
  }

  /** Each character as its number. */
  function Expand(s: string): string
    requires Alphanumeric(s)
  {
    if s == "" then "" else Decimal(Base36(s[0])) + Expand(s[1..])
  }

  /** A digit of any script as an ASCII digit. */
  function Plain(c: char): (p: char)
    requires IsDecimal(c)
    ensures IsDecimal(p) && DigitValue(p) == DigitValue(c)
  {
    (DigitValue(c) + '0' as int) as char
  }

  function AllPlain(s: string): (p: string)
    requires AllDecimal(s)
    ensures |p| == |s| && forall i :: 0 <= i < |s| ==> p[i] == Plain(s[i])
  {
    seq(|s|, i requires 0 <= i < |s| => Plain(s[i]))
  }

  /** The number that is checked: the first four characters moved to the end, letters expanded. */
  function Checked(s: string): string
    requires ShebaForm(s)
  {
    ShebaDigits(s);
    AllPlain(s[4..]) + "1827" + AllPlain(s[2..4])
  }

  lemma ShebaDigits(s: string)
    requires ShebaForm(s)
    ensures AllDecimal(s[4..]) && AllDecimal(s[2..4])
  {
    assert s[4..] == s[2..][2..] && s[2..4] == s[2..][..2];
  }

  lemma {:induction false} ExpandOne(c: char, rest: string)
    requires IsDecimal(c) || 'A' <= c <= 'Z'
    requires Alphanumeric(rest)
    ensures Alphanumeric([c] + rest) && Expand([c] + rest) == Decimal(Base36(c)) + Expand(rest)
  {
    hide Decimal;
    assert ([c] + rest)[1..] == rest;
  }

  lemma PlainDigit(c: char)
    requires IsDecimal(c)
    ensures Decimal(Base36(c)) == [Plain(c)]
  {
  }

  lemma {:induction false} ExpandDigits(a: string, b: string)
    requires AllDecimal(a) && Alphanumeric(b)
    ensures Alphanumeric(a + b) && Expand(a + b) == AllPlain(a) + Expand(b)
  {
    hide Decimal, Base36, Plain, Expand;
    if a == "" {
      assert a + b == b && AllPlain(a) + Expand(b) == Expand(b);
    } else {
      ExpandDigits(a[1..], b);
      ExpandOne(a[0], a[1..] + b);
      PlainDigit(a[0]);
      assert a + b == [a[0]] + (a[1..] + b);
      assert AllPlain(a) == [Plain(a[0])] + AllPlain(a[1..]);
    }
  }

  lemma CountryLetters()
    ensures Decimal(Base36('I')) == "18" && Decimal(Base36('R')) == "27"
  {
    assert Decimal(18) == "18" && Decimal(27) == "27";
  }

  lemma {:induction false} ExpandHead(check: string)
    requires AllDecimal(check)
    ensures Alphanumeric("IR" + check) && Expand("IR" + check) == "1827" + AllPlain(check)
  {
    hide Decimal, Base36, Expand, AllPlain;
    ExpandDigits(check, "");
    ExpandNothing();
    assert check + "" == check && AllPlain(check) + "" == AllPlain(check);
    ExpandOne('R', check);
    ExpandOne('I', ['R'] + check);
    CountryLetters();
    assert "IR" + check == ['I'] + (['R'] + check);
    assert "18" + ("27" + AllPlain(check)) == "1827" + AllPlain(check);
  }

  lemma {:induction false} ExpandWhole(tail: string, check: string)
    requires AllDecimal(tail) && AllDecimal(check)
    ensures Alphanumeric(tail + ("IR" + check))
    ensures Expand(tail + ("IR" + check)) == AllPlain(tail) + "1827" + AllPlain(check)
  {
    ExpandHead(check);
    ExpandDigits(tail, "IR" + check);
    hide *;
    assert AllPlain(tail) + ("1827" + AllPlain(check)) == AllPlain(tail) + "1827" + AllPlain(check);
  }

  lemma FirstFour(s: string)
    requires ShebaForm(s)
    ensures s[..4] == "IR" + s[2..4]
  {
  }

  /** The rearranged IBAN, expanded, is the checked number. */
  lemma {:induction false} CheckedNumber(s: string)
    requires ShebaForm(s)
    ensures Alphanumeric(s[4..] + s[..4]) && Expand(s[4..] + s[..4]) == Checked(s)
    ensures AllDecimal(Checked(s))
  {
    ShebaDigits(s);
    CheckedDecimal(s);
    FirstFour(s);
    hide Expand, AllPlain, Alphanumeric;
    ExpandWhole(s[4..], s[2..4]);
  }

  lemma CheckedDecimal(s: string)
    requires ShebaForm(s)
    ensures AllDecimal(Checked(s))
  {
    hide Plain;
    ShebaDigits(s);
    assert AllDecimal(AllPlain(s[4..])) && AllDecimal(AllPlain(s[2..4])) && AllDecimal("1827");
  }

  lemma ExpandNothing()
    ensures Alphanumeric("") && Expand("") == ""
  {
  }

  function IsValidSheba(s: string): bool {
    ShebaForm(s) && (CheckedNumber(s); ParseNat(Expand(s[4..] + s[..4])) % 97 == 1)
  }

  /** Where a character of the IBAN stands in the checked number. */
  function Position(i: nat): nat {
    if i >= 4 then i - 4 else i + 24
  }

  lemma CheckedAt(s: string, i: nat)
    requires ShebaForm(s) && 2 <= i < 26
    ensures |Checked(s)| == 28 && IsDecimal(s[i]) && Checked(s)[Position(i)] == Plain(s[i])
  {
    ShebaDigits(s);
    assert s[i] == s[2..][i - 2];
    if i >= 4 {
      assert s[4..][i - 4] == s[i];
    } else {
      assert s[2..4][i - 2] == s[i];
    }
  }

  lemma {:induction false} NumberAppend(s: string, t: string)
    requires s != "" && AllDecimal(s) && AllDecimal(t)
    ensures AllDecimal(s + t) && (t != "" ==> ParseNat(s + t) == ParseNat(s) * Pow10(|t|) + ParseNat(t))
  {
    hide ParseNat, DigitValue;
    if t == "" {
      assert s + t == s;
    } else {
      var n := |t| - 1;
      var init := t[..n];
      NumberAppend(s, init);
      assert (s + t)[..|s + t| - 1] == s + init;
      Numeral(s + t);
      Numeral(t);
      if n == 0 {
        assert s + init == s;
        assert Pow10(1) == 10 by { assert Pow10(0) == 1; }
      } else {
        ScaledStep(ParseNat(init), ParseNat(s + init), ParseNat(s), Pow10(n), DigitValue(t[n]));
      }
    }
  }

  lemma SameForm(s: string, i: nat, c: char)
    requires ShebaForm(s) && 2 <= i < 26 && IsDecimal(c)
    ensures ShebaForm(s[i := c]) && Checked(s[i := c]) == Checked(s)[Position(i) := Plain(c)]
  {
    hide Plain;
    var t := s[i := c];
    assert forall k :: 0 <= k < 24 ==> t[2..][k] == t[2 + k];
    assert forall k :: 0 <= k < 24 ==> s[2..][k] == s[2 + k];
    assert ShebaForm(t);
    var x, y := Checked(t), Checked(s)[Position(i) := Plain(c)];
    assert |x| == |y| == 28;
    forall k | 0 <= k < 28
      ensures x[k] == y[k]
    {
      if k < 22 {
        CheckedAt(s, k + 4);
        CheckedAt(t, k + 4);
      } else if k >= 26 {
        CheckedAt(s, k - 24);
        CheckedAt(t, k - 24);
      }
    }
  }

  /** One changed character of a valid IBAN passes exactly when it is a digit of the same value; so a wrong digit is always
      caught, among the check digits as in the account part. */
  lemma ShebaChangeCaught(s: string, i: nat, c: char)
    requires IsValidSheba(s) && i < 26
    ensures IsValidSheba(s[i := c]) <==> SameDigit(c, s[i])
  {
    hide ParseNat, Expand, Plain, Checked;
    var t := s[i := c];
    if c == s[i] {
      assert t == s;
    } else if i >= 2 && IsDecimal(c) {
      CheckedNumber(s);
      SameForm(s, i, c);
      CheckedNumber(t);
      CheckedAt(s, i);
      Mod97DetectsChange(Checked(s), Position(i), Plain(c));
    } else {
      assert t[i] == c;
      if i >= 2 {
        assert t[2..][i - 2] == c;
        assert !ShebaForm(t);
      } else {
        assert !ShebaForm(t);
        NotBothDigits(s[i]);
      }
    }
  }

  lemma NotBothDigits(c: char)
    requires c == 'I' || c == 'R'
    ensures !IsDecimal(c)
  {
  }

  // ---------- exchanged neighbours of an IBAN ----------

  lemma {:induction false} NextThousand(k: nat)
    ensures Pow10(k + 3) == 1000 * Pow10(k)
  {
    assert Pow10(k + 1) == 10 * Pow10(k);
    assert Pow10(k + 2) == 10 * Pow10(k + 1);
  }

  lemma {:induction false} TenToThe27()
    ensures Pow10(27) == 1_000_000_000_000_000_000_000_000_000
  {
    assert Pow10(0) == 1;
    hide Pow10;
    NextThousand(0);
    NextThousand(3);
    NextThousand(6);
    NextThousand(9);
    NextThousand(12);
    NextThousand(15);
    NextThousand(18);
    NextThousand(21);
    NextThousand(24);
  }

  lemma EndsDistance(x: int, p: int)
    ensures x * p + -x * 1 == x * (p - 1)
  {
  }

  lemma {:induction false} Factor97(x: int, m: int)
    requires -9 <= x <= 9 && x != 0 && m % 97 == 18
    ensures x * m % 97 != 0
  {
    var q := m / 97;
    assert x * m == 97 * (x * q) + 18 * x by {
      assert m == 97 * q + 18;
      assert x * (97 * q + 18) == 97 * (x * q) + 18 * x;
    }
    ShiftedResidue(x * q, 18 * x);
    assert 18 * x % 97 != 0;
  }

  lemma EndsNumber(n: string, a: char, b: char)
    requires |n| == 28 && AllDecimal(n) && IsDecimal(a) && IsDecimal(b)
    requires DigitValue(n[0]) == DigitValue(b) && DigitValue(n[27]) == DigitValue(a)
    ensures AllDecimal(n[0 := a][27 := b])
    ensures ParseNat(n[0 := a][27 := b]) == ParseNat(n) + (DigitValue(a) - DigitValue(b)) * (Pow10(27) - 1)
  {
    assert Pow10(0) == 1;
    hide ParseNat, Pow10, DigitValue;
    NumberUpdate(n, 0, a);
    NumberUpdate(n[0 := a], 27, b);
    EndsDistance(DigitValue(a) - DigitValue(b), Pow10(27));
  }

  /** The last check digit and the first digit of the account part stand at the two ends of the checked number. */
  lemma EndsExchanged(n: string, a: char, b: char)
    requires |n| == 28 && AllDecimal(n) && IsDecimal(a) && IsDecimal(b)
    requires DigitValue(n[0]) == DigitValue(b) && DigitValue(n[27]) == DigitValue(a)
    ensures AllDecimal(n[0 := a][27 := b])
    ensures ParseNat(n[0 := a][27 := b]) % 97 == ParseNat(n) % 97 <==> DigitValue(a) == DigitValue(b)
  {
    hide ParseNat, Pow10, DigitValue;
    TenToThe27();
    EndsNumber(n, a, b);
    var x, m := DigitValue(a) - DigitValue(b), Pow10(27) - 1;
    if x != 0 {
      Factor97(x, m);
      Residues(ParseNat(n[0 := a][27 := b]), ParseNat(n));
    } else {
      assert x * m == 0;
    }
  }

  lemma InnerExchanged(s: string, i: nat)
    requires ShebaForm(s) && (i == 2 || 4 <= i < 25)
    ensures ShebaForm(Swap(s, i)) && Checked(Swap(s, i)) == Swap(Checked(s), Position(i))
  {
    hide Checked, Plain;
    CheckedAt(s, i);
    CheckedAt(s, i + 1);
    SameForm(s, i, s[i + 1]);
    SameForm(s[i := s[i + 1]], i + 1, s[i]);
  }

  lemma BorderExchanged(s: string)
    requires ShebaForm(s)
    ensures IsDecimal(s[3]) && IsDecimal(s[4])
    ensures ShebaForm(Swap(s, 3)) && Checked(Swap(s, 3)) == Checked(s)[0 := Plain(s[3])][27 := Plain(s[4])]
  {
    hide Checked, Plain;
    CheckedAt(s, 3);
    CheckedAt(s, 4);
    SameForm(s, 4, s[3]);
    SameForm(s[4 := s[3]], 3, s[4]);
    assert Swap(s, 3) == s[4 := s[3]][3 := s[4]];
  }

  /** Exchanged neighbours of a valid IBAN pass exactly when they are the same digit: in the account part, among the check
      digits, across the border of the two, and where a letter is one of them. */
  lemma ShebaSwapCaught(s: string, i: nat)
    requires IsValidSheba(s) && i < 25
    ensures IsValidSheba(Swap(s, i)) <==> SameDigit(s[i], s[i + 1])
  {
    hide ParseNat, Expand, Plain, Checked;
    var t := Swap(s, i);
    CheckedNumber(s);
    if i < 2 {
      assert t[i] == s[i + 1];
      NotBothDigits(s[i]);
      if i == 1 {
        CheckedAt(s, 2);
        NotBothDigits('R');
      }
    } else {
      CheckedAt(s, i);
      CheckedAt(s, i + 1);
      if i == 3 {
        BorderExchanged(s);
        CheckedNumber(t);
        EndsExchanged(Checked(s), Plain(s[3]), Plain(s[4]));
      } else {
        InnerExchanged(s, i);
        CheckedNumber(t);
        Mod97DetectsSwap(Checked(s), Position(i));
      }
    }
  }

  // ---------- which check digits an account part has ----------

  /** The two check digits of an account part that the standard prescribes: 98 minus the residue, from 02 to 98. */
  function StandardCheck(account: string): (check: int)
    requires AllDecimal(account)
    ensures 2 <= check <= 98
  {
    98 - ParseNat(account + "182700") % 97
  }

  /** The number `n` in the check place passes where the standard writes `standard`. */
  predicate CheckAccepted(standard: int, n: int) {
    || n == standard
    || (n == 99 && standard == 2)
    || (n == 0 && standard == 97)
    || (n == 1 && standard == 98)
  }

  function Sheba(account: string, check: string): string {
    "IR" + check + account
  }

  lemma {:induction false} SameNumber(s: string)
    requires s != "" && AllDecimal(s)
    ensures AllDecimal(AllPlain(s)) && ParseNat(AllPlain(s)) == ParseNat(s)
    decreases |s|
  {
    hide ParseNat, Plain;
    Numeral(s);
    Numeral(AllPlain(s));
    if |s| > 1 {
      SameNumber(s[..|s| - 1]);
      assert AllPlain(s)[..|s| - 1] == AllPlain(s[..|s| - 1]);
    }
  }

  /** An account part is accepted with exactly the check digits congruent to the standard ones. So 00, 01 and 99 are
      accepted where the standard writes 97, 98 and 02: the code does not restrict the range of the check digits. */
  lemma {:induction false} ShebaCheckDigits(account: string, check: string)
    requires |account| == 22 && AllDecimal(account) && |check| == 2 && AllDecimal(check)
    ensures IsValidSheba(Sheba(account, check)) <==> CheckAccepted(StandardCheck(account), ParseNat(check))
  {
    hide ParseNat, Pow10, Expand, Plain;
    var s := Sheba(account, check);
    var front := account + "1827";
    ShebaParts(account, check);
    CheckedNumber(s);
    SameNumber(Checked(s));
    SameNumber(front + check);
    PlainTwice(account, check);
    NumberAppend(front, check);
    NumberAppend(front, "00");
    assert front + "00" == account + "182700";
    TwoDigitsSmall(check);
    Hundred();
    CheckResidue(ParseNat(front), ParseNat(check));
  }

  lemma PlainAgain()
    ensures forall c :: IsDecimal(c) ==> Plain(Plain(c)) == Plain(c)
    ensures AllPlain("1827") == "1827"
  {
  }

  lemma PlainTwice(account: string, check: string)
    requires AllDecimal(account) && AllDecimal(check)
    ensures AllPlain(AllPlain(account) + "1827" + AllPlain(check)) == AllPlain(account + "1827" + check)
  {
    PlainAgain();
    hide Plain;
    PlainConcat(account, "1827");
    PlainConcat(account + "1827", check);
    PlainConcat(AllPlain(account), "1827");
    PlainConcat(AllPlain(account) + "1827", AllPlain(check));
    assert AllPlain(AllPlain(account)) == AllPlain(account);
    assert AllPlain(AllPlain(check)) == AllPlain(check);
  }

  lemma PlainConcat(a: string, b: string)
    requires AllDecimal(a) && AllDecimal(b)
    ensures AllDecimal(a + b) && AllPlain(a + b) == AllPlain(a) + AllPlain(b)
  {
    hide Plain;
  }

  lemma ShebaParts(account: string, check: string)
    requires |account| == 22 && AllDecimal(account) && |check| == 2 && AllDecimal(check)
    ensures var s := Sheba(account, check); ShebaForm(s) && Checked(s) == AllPlain(account) + "1827" + AllPlain(check)
  {
    hide Plain;
    var s := Sheba(account, check);
    assert s[2..] == check + account;
    assert s[4..] == account && s[2..4] == check;
  }

  lemma TwoDigitsSmall(s: string)
    requires |s| == 2 && AllDecimal(s)
    ensures 0 <= ParseNat(s) <= 99
  {
    Numeral(s);
    Numeral(s[..1]);
  }

  lemma {:induction false} Hundred()
    ensures Pow10(2) == 100 && AllDecimal("00") && ParseNat("00") == 0
  {
    assert Pow10(0) == 1 && Pow10(1) == 10;
    Numeral("00");
    assert "00"[..1] == "0";
    Numeral("0");
  }

  lemma {:induction false} LeadingZeroes(s: string, k: nat)
    requires k < |s| && AllDecimal(s) && forall i :: 0 <= i < k ==> s[i] == '0'
    ensures ParseNat(s) == ParseNat(s[k..])
    decreases |s|
  {
    hide ParseNat;
    Numeral(s);
    Numeral(s[k..]);
    if k < |s| - 1 {
      LeadingZeroes(s[..|s| - 1], k);
      assert s[..|s| - 1][k..] == s[k..][..|s[k..]| - 1];
    } else if k > 0 {
      AllZero(s[..k]);
    }
  }

  lemma {:induction false} AllZero(s: string)
    requires s != "" && AllDecimal(s) && forall i :: 0 <= i < |s| ==> s[i] == '0'
    ensures ParseNat(s) == 0
    decreases |s|
  {
    if |s| > 1 {
      AllZero(s[..|s| - 1]);
    }
  }

  lemma CheckResidue(x: int, n: int)
    requires 0 <= n <= 99
    ensures (x * 100 + n) % 97 == 1 <==> CheckAccepted(98 - x * 100 % 97, n)
  {
    var q, r := x * 100 / 97, x * 100 % 97;
    ShiftedResidue(q, r + n);
    SmallResidue(r + n);
  }

  lemma ShiftedResidue(q: int, d: int)
    ensures (97 * q + d) % 97 == d % 97
  {
  }

  lemma SmallResidue(d: int)
    requires 0 <= d <= 195
    ensures d % 97 == 1 <==> d == 1 || d == 98 || d == 195
  {
  }

  const ZEROES := "00000000000000000000"

  lemma {:induction false} SmallAccount(last: string)
    requires |last| == 2 && AllDecimal(last)
    ensures AllDecimal(ZEROES + last)
    ensures StandardCheck(ZEROES + last) == 98 - (ParseNat(last) * 1_000_000 + 182_700) % 97
  {
    assert Pow10(0) == 1;
    CountryAndZeroes();
    hide ParseNat, Pow10;
    NextThousand(0);
    NextThousand(3);
    var n := ZEROES + last + "182700";
    assert n[20..] == last + "182700";
    LeadingZeroes(n, 20);
    NumberAppend(last, "182700");
  }

  lemma {:induction false} CountryAndZeroes()
    ensures AllDecimal("182700") && ParseNat("182700") == 182_700
  {
    TwoDigitsRead(18);
    TwoDigitsRead(27);
    assert TwoDigits(18) == "18" && TwoDigits(27) == "27";
    Hundred();
    hide ParseNat, Pow10;
    NumberAppend("18", "27");
    NumberAppend("1827", "00");
    assert "18" + "27" == "1827" && "1827" + "00" == "182700";
  }

  lemma {:induction false} Pairs()
    ensures AllDecimal("09") && ParseNat("09") == 9 && AllDecimal("88") && ParseNat("88") == 88
    ensures AllDecimal("70") && ParseNat("70") == 70 && AllDecimal("00") && ParseNat("00") == 0
    ensures AllDecimal("01") && ParseNat("01") == 1 && AllDecimal("99") && ParseNat("99") == 99
  {
    TwoDigitsRead(9);
    TwoDigitsRead(88);
    TwoDigitsRead(70);
    TwoDigitsRead(0);
    TwoDigitsRead(1);
    TwoDigitsRead(99);
    assert TwoDigits(9) == "09" && TwoDigits(88) == "88" && TwoDigits(70) == "70";
    assert TwoDigits(0) == "00" && TwoDigits(1) == "01" && TwoDigits(99) == "99";
  }

  /** Three IBANs that are accepted with check digits that the standard never writes. */
  lemma AliasesAccepted()
    ensures IsValidSheba(Sheba(ZEROES + "09", "00"))
    ensures IsValidSheba(Sheba(ZEROES + "88", "01"))
    ensures IsValidSheba(Sheba(ZEROES + "70", "99"))
  {
    hide ParseNat, IsValidSheba, StandardCheck;
    Pairs();
    SmallAccount("09");
    SmallAccount("88");
    SmallAccount("70");
    ShebaCheckDigits(ZEROES + "09", "00");
    ShebaCheckDigits(ZEROES + "88", "01");
    ShebaCheckDigits(ZEROES + "70", "99");
  }
}
