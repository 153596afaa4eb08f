/** The object ids that the migration formats: decimal numbers and workspace names. */
module Naming {

  function DigitChar(d: int): char
    requires 0 <= d < 10
  {
    '0' + d as char
  }

  function Digits(n: nat): string {
    if n < 10 then [DigitChar(n)] else Digits(n / 10) + [DigitChar(n % 10)]
  }

  /** strconv.FormatInt(n, 10) and fmt's %d */
  function Decimal(n: int): string {
    if n < 0 then "-" + Digits(-n) else Digits(n)
  }

  function RootId(org: int): string { Decimal(org) + "_root" }

  function UngroupedId(org: int): string { RootId(org) + "/ungrouped" }

  function DigitValue(c: char): int { c as int - '0' as int }

  function Value(s: string): int {
    if s == [] then 0 else 10 * Value(s[..|s| - 1]) + DigitValue(s[|s| - 1])
  }

  /** Reading the digits back gives the number, and none of them is a sign. */
  lemma {:induction false} ValueOfDigits(n: nat)
    ensures Value(Digits(n)) == n
    ensures Digits(n) != [] && Digits(n)[0] != '-'
    decreases n
  {
    if n >= 10 {
      ValueOfDigits(n / 10);
      assert Digits(n)[..|Digits(n)| - 1] == Digits(n / 10);
    }
  }

  lemma DecimalExamples()
    ensures Decimal(0) == "0" && Decimal(7) == "7" && Decimal(1024) == "1024" && Decimal(-120) == "-120"
  {
    assert Digits(120) == Digits(12) + "0";
    assert Digits(1024) == Digits(102) + "4" && Digits(102) == Digits(10) + "2";
  }

  /** Different numbers have different decimal forms. */
  lemma DecimalInjective(a: int, b: int)
    requires Decimal(a) == Decimal(b)
    ensures a == b
  {
    ValueOfDigits(if a < 0 then -a else a);
    ValueOfDigits(if b < 0 then -b else b);
    if a < 0 && b < 0 {
      assert Digits(-a) == Decimal(a)[1..] && Digits(-b) == Decimal(b)[1..];
    } else {
      assert Decimal(a)[0] == '-' <==> a < 0;
      assert Decimal(b)[0] == '-' <==> b < 0;
    }
  }

  /** Workspace names are told apart by their organization and by their level. */
  lemma WorkspaceNamesDistinct(a: int, b: int)
    ensures RootId(a) == RootId(b) ==> a == b
    ensures UngroupedId(a) == UngroupedId(b) ==> a == b
    ensures RootId(a) != UngroupedId(b)
  {
    if RootId(a) == RootId(b) {
      assert Decimal(a) == RootId(a)[..|RootId(a)| - 5] && Decimal(b) == RootId(b)[..|RootId(b)| - 5];
      DecimalInjective(a, b);
    }
    if UngroupedId(a) == UngroupedId(b) {
      assert RootId(a) == UngroupedId(a)[..|UngroupedId(a)| - 10];
      assert RootId(b) == UngroupedId(b)[..|UngroupedId(b)| - 10];
      assert Decimal(a) == RootId(a)[..|RootId(a)| - 5] && Decimal(b) == RootId(b)[..|RootId(b)| - 5];
      DecimalInjective(a, b);
    }
    assert RootId(a)[|RootId(a)| - 1] == 't';
    assert UngroupedId(b)[|UngroupedId(b)| - 1] == 'd';
  }
}
