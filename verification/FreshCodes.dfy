/** The unbounded searches for an unused employee code and an unused role code. */
module FreshCodes {
  import opened Prelude

  // ----- decimal numerals

  function Digit(d: nat): char
    requires d < 10
  {
    "0123456789"[d]
  }

  function DigitValue(c: char): nat {
    if '0' <= c <= '9' then (c - '0') as nat else 0
  }

  function Digits(n: nat): (s: string)
    ensures s != [] && forall c :: c in s ==> '0' <= c <= '9'
  {
    if n < 10 then [Digit(n)] else Digits(n / 10) + [Digit(n % 10)]
  }

  function ValueOf(s: string): nat {
    if s == [] then 0 else 10 * ValueOf(s[..|s| - 1]) + DigitValue(s[|s| - 1])
  }

  lemma {:induction false} ValueOfDigits(n: nat)
    ensures ValueOf(Digits(n)) == n
  {
    if n < 10 {
      assert Digits(n)[..0] == [];
    } else {
      ValueOfDigits(n / 10);
      assert Digits(n)[..|Digits(n)| - 1] == Digits(n / 10);
    }
  }

  function Zeros(n: nat): string {
    if n == 0 then "" else ['0'] + Zeros(n - 1)
  }

  function Padded(s: string, width: nat): string {
    if |s| >= width then s else Zeros(width - |s|) + s
  }

  lemma {:induction false} LeadingZeroKeepsValue(s: string)
    ensures ValueOf(['0'] + s) == ValueOf(s)
  {
    if s == [] {
      assert (['0'] + s)[..0] == [];
    } else {
      LeadingZeroKeepsValue(s[..|s| - 1]);
      assert (['0'] + s)[..|s|] == ['0'] + s[..|s| - 1];
    }
  }

  lemma {:induction false} ZerosKeepValue(n: nat, s: string)
    ensures ValueOf(Zeros(n) + s) == ValueOf(s)
  {
    if n == 0 {
      assert Zeros(n) + s == s;
    } else {
      var rest := Zeros(n - 1) + s;
      assert ValueOf(rest) == ValueOf(s) by {
        ZerosKeepValue(n - 1, s);
      }
      assert Zeros(n) + s == ['0'] + rest;
      LeadingZeroKeepsValue(rest);
    }
  }

  lemma ValueOfPadded(n: nat, width: nat)
    ensures ValueOf(Padded(Digits(n), width)) == n
  {
    var digits := Digits(n);
    ValueOfDigits(n);
    if |digits| < width {
      ZerosKeepValue(width - |digits|, digits);
    }
  }

  // ----- employee codes

  function EmployeeCode(counter: nat): string {
    "EMP" + Padded(Digits(counter), 3)
  }

  /** Different counters give different codes, also past 999 where the padding ends. */
  lemma EmployeeCodesDiffer(m: nat, n: nat)
    requires EmployeeCode(m) == EmployeeCode(n)
    ensures m == n
  {
    var p, q := Padded(Digits(m), 3), Padded(Digits(n), 3);
    assert p == ("EMP" + p)[3..] && q == ("EMP" + q)[3..];
    ValueOfPadded(m, 3);
    ValueOfPadded(n, 3);
  }

  /** If the codes of the first `k` counters are all used, there are at least `k` used codes. */
  lemma UsedCountersAreFew(used: set<string>, k: nat)
    requires forall m :: 1 <= m <= k ==> EmployeeCode(m) in used
    ensures k <= |used|
  {
    var codes := seq(k, i requires 0 <= i < k => EmployeeCode(i + 1));
    forall i, j | 0 <= i < j < |codes|
      ensures codes[i] != codes[j]
    {
      if codes[i] == codes[j] {
        EmployeeCodesDiffer(i + 1, j + 1);
      }
    }
    DistinctWithinBound(codes, used);
  }

  /** The search ends, with the code of the least unused counter. */
  method NextEmployeeCode(used: set<string>) returns (code: string)
    ensures code !in used
    ensures exists n :: && 1 <= n <= |used| + 1 && code == EmployeeCode(n)
                        && forall m :: 1 <= m < n ==> EmployeeCode(m) in used
  {
    var counter := 1;
    while true
      invariant 1 <= counter && forall m :: 1 <= m < counter ==> EmployeeCode(m) in used
      invariant counter <= |used| + 1
      decreases |used| + 1 - counter
    {
      code := EmployeeCode(counter);
      if code !in used {
        return;
      }
      UsedCountersAreFew(used, counter);
      counter := counter + 1;
    }
  }

  // ----- role codes

  /** `s[:n]` with a negative bound counting from the end. */
  function Prefix(s: string, n: int): string {
    if n >= |s| then s
    else if n >= 0 then s[..n]
    else if -n >= |s| then ""
    else s[..|s| + n]
  }

  function Suffix(index: nat): string {
    "_" + Digits(index)
  }

  function RoleCode(base: string, index: nat): string {
    Prefix(base, 120 - |Suffix(index)|) + Suffix(index)
  }

  function BaseCode(prefix: string, slug: string): string {
    Prefix(prefix + "_" + (if slug == "" then "ROLE" else slug), 100)
  }

  function AfterLastUnderscore(s: string): string {
    if s == [] || s[|s| - 1] == '_' then "" else AfterLastUnderscore(s[..|s| - 1]) + [s[|s| - 1]]
  }

  lemma {:induction false} SuffixIsRecovered(s: string, digits: string)
    requires forall c :: c in digits ==> c != '_'
    ensures AfterLastUnderscore(s + "_" + digits) == digits
    decreases |digits|
  {
    var all := s + "_" + digits;
    if digits != [] {
      var shorter := digits[..|digits| - 1];
      forall c | c in shorter
        ensures c != '_'
      {
        assert c in digits;
      }
      SuffixIsRecovered(s, shorter);
      assert all[..|all| - 1] == s + "_" + shorter;
      assert all[|all| - 1] == digits[|digits| - 1];
      assert digits[|digits| - 1] in digits;
    }
  }

  /** Different counters give different codes, whatever the truncation cuts off. */
  lemma RoleCodesDiffer(base: string, m: nat, n: nat)
    requires RoleCode(base, m) == RoleCode(base, n)
    ensures m == n
  {
    var p, q := Prefix(base, 120 - |Suffix(m)|), Prefix(base, 120 - |Suffix(n)|);
    assert RoleCode(base, m) == p + "_" + Digits(m);
    assert RoleCode(base, n) == q + "_" + Digits(n);
    SuffixIsRecovered(p, Digits(m));
    SuffixIsRecovered(q, Digits(n));
    ValueOfDigits(m);
    ValueOfDigits(n);
  }

  lemma UsedIndicesAreFew(base: string, used: set<string>, k: nat)
    requires forall m :: 2 <= m < k + 2 ==> RoleCode(base, m) in used
    ensures k <= |used|
  {
    var codes := seq(k, i requires 0 <= i < k => RoleCode(base, i + 2));
    forall i, j | 0 <= i < j < |codes|
      ensures codes[i] != codes[j]
    {
      if codes[i] == codes[j] {
        RoleCodesDiffer(base, i + 2, j + 2);
      }
    }
    DistinctWithinBound(codes, used);
  }

  function PowerOfTen(k: nat): nat {
    if k == 0 then 1 else 10 * PowerOfTen(k - 1)
  }

  lemma {:induction false} DigitsAreFew(n: nat, k: nat)
    requires k > 0 && n < PowerOfTen(k)
    ensures |Digits(n)| <= k
    decreases k
  {
    if n >= 10 {
      assert k > 1 by {
        assert PowerOfTen(1) == 10 * PowerOfTen(0);
      }
      DigitsAreFew(n / 10, k - 1);
    }
  }

  /**
   The search ends with an unused code: the base if it is free, and otherwise the base with the
   least unused number. The code fits the 120 characters of its column as long as fewer than
   10^119 - 2 codes are in use.
   */
  method BuildUniqueCode(prefix: string, slug: string, used: set<string>) returns (candidate: string)
    ensures candidate !in used
    ensures BaseCode(prefix, slug) !in used ==> candidate == BaseCode(prefix, slug)
    ensures BaseCode(prefix, slug) in used ==>
              exists n :: && 2 <= n <= |used| + 2 && candidate == RoleCode(BaseCode(prefix, slug), n)
                          && forall m :: 2 <= m < n ==> RoleCode(BaseCode(prefix, slug), m) in used
    ensures |used| + 2 < PowerOfTen(119) ==> |candidate| <= 120
  {
    var base := BaseCode(prefix, slug);
    candidate := base;
    var index := 2;
    while candidate in used
      invariant index == 2 ==> candidate == base
      invariant index > 2 ==> base in used && candidate == RoleCode(base, index - 1)
      invariant 2 <= index <= |used| + 3 && forall m :: 2 <= m < index - 1 ==> RoleCode(base, m) in used
      decreases |used| + 3 - index
    {
      if index > 2 {
        UsedIndicesAreFew(base, used, index - 2);
      }
      candidate := RoleCode(base, index);
      index := index + 1;
    }
    if index > 2 && |used| + 2 < PowerOfTen(119) {
      DigitsAreFew(index - 1, 119);
    }
  }

  // ----- what the codes look like

  lemma {:induction false} DigitsHaveLength(n: nat, k: nat)
    requires k > 0
    ensures |Digits(n)| <= k <==> n < PowerOfTen(k)
    decreases k
  {
    if n >= 10 {
      if k == 1 {
        assert PowerOfTen(1) == 10 * PowerOfTen(0);
        assert |Digits(n / 10)| >= 1;
      } else {
        DigitsHaveLength(n / 10, k - 1);
      }
    } else {
      PowersArePositive(k - 1);
    }
  }

  lemma {:induction false} PowersArePositive(k: nat)
    ensures PowerOfTen(k) >= 1
  {
    if k > 0 {
      PowersArePositive(k - 1);
    }
  }

  lemma {:induction false} ZerosAreZeros(n: nat)
    ensures |Zeros(n)| == n && forall i :: 0 <= i < n ==> Zeros(n)[i] == '0'
  {
    if n > 0 {
      ZerosAreZeros(n - 1);
    }
  }

  lemma ThreeDigits(counter: nat)
    ensures |Digits(counter)| <= 3 <==> counter < 1000
  {
    assert PowerOfTen(1) == 10 * PowerOfTen(0) && PowerOfTen(2) == 10 * PowerOfTen(1);
    assert PowerOfTen(3) == 10 * PowerOfTen(2);
    DigitsHaveLength(counter, 3);
  }

  lemma PaddedToThree(counter: nat)
    ensures var padded := Padded(Digits(counter), 3);
            && |padded| >= 3 && (forall i :: 0 <= i < |padded| ==> '0' <= padded[i] <= '9')
            && (counter < 1000 ==> |padded| == 3) && (counter >= 1000 ==> padded == Digits(counter))
  {
    var digits := Digits(counter);
    ThreeDigits(counter);
    assert forall i :: 0 <= i < |digits| ==> digits[i] in digits;
    if |digits| < 3 {
      ZerosAreZeros(3 - |digits|);
    }
  }

  /** "EMP" and the counter in at least three digits, with zeros in front only where they are needed. */
  lemma EmployeeCodeFormat(counter: nat)
    ensures var code := EmployeeCode(counter);
            && |code| >= 6 && code[..3] == "EMP"
            && (forall i :: 3 <= i < |code| ==> '0' <= code[i] <= '9')
            && ValueOf(code[3..]) == counter
            && (counter < 1000 ==> |code| == 6)
            && (counter >= 1000 ==> code[3..] == Digits(counter))
  {
    var padded := Padded(Digits(counter), 3);
    PaddedToThree(counter);
    ValueOfPadded(counter, 3);
    assert EmployeeCode(counter)[3..] == padded && EmployeeCode(counter)[..3] == "EMP";
  }

  /** The base, an underscore and the number; the base is cut, if at all, so that the code has 120 characters. */
  lemma RoleCodeFormat(base: string, index: nat)
    ensures var (code, suffix) := (RoleCode(base, index), "_" + Digits(index));
            && (|base| + |suffix| <= 120 ==> code == base + suffix)
            && (|base| + |suffix| > 120 && |suffix| <= 120 ==>
                  |code| == 120 && code == base[..120 - |suffix|] + suffix)
  {
  }

  /** The name of the role, or "ROLE" without one, after the prefix, cut to 100 characters. */
  lemma BaseCodeFormat(prefix: string, slug: string)
    ensures var full := prefix + "_" + slug;
            && (slug != [] && |full| <= 100 ==> BaseCode(prefix, slug) == full)
            && (slug != [] && |full| > 100 ==> BaseCode(prefix, slug) == full[..100])
    ensures BaseCode(prefix, "") == BaseCode(prefix, "ROLE")
  {
  }
}
