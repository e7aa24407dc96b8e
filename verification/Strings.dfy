/** Strings in the order of std::string::compare. */
module Strings {
  import opened Sequences

  /** Negative, zero or positive as a comes before b, equals it, or comes after it. */
  function CompareStrings(a: string, b: string): (r: int)
    ensures r == 0 <==> a == b
  {
    if a == b then 0
    else if a == [] then -1
    else if b == [] then 1
    else if a[0] < b[0] then -1
    else if a[0] > b[0] then 1
    else
      assert a == [a[0]] + a[1..] && b == [b[0]] + b[1..];
      CompareStrings(a[1..], b[1..])
  }

  predicate StringLe(a: string, b: string) {
    CompareStrings(a, b) <= 0
  }

  lemma {:induction false} CompareMirrors(a: string, b: string)
    ensures CompareStrings(a, b) < 0 <==> CompareStrings(b, a) > 0
  {
    if a != b && a != [] && b != [] && a[0] == b[0] {
      assert a == [a[0]] + a[1..] && b == [b[0]] + b[1..];
      CompareMirrors(a[1..], b[1..]);
    }
  }

  lemma {:induction false} StringLeTransitive(a: string, b: string, c: string)
    requires StringLe(a, b) && StringLe(b, c)
    ensures StringLe(a, c)
  {
    if a != b && b != c && a != [] && b != [] && c != [] && a[0] == b[0] == c[0] {
      assert b == [b[0]] + b[1..];
      StringLeTransitive(a[1..], b[1..], c[1..]);
    }
  }

  lemma StringLeIsTotal()
    ensures TotalOrder(StringLe)
  {
    forall a, b ensures StringLe(a, b) || StringLe(b, a) {
      CompareMirrors(a, b);
    }
    forall a, b | StringLe(a, b) && StringLe(b, a) ensures a == b {
      CompareMirrors(a, b);
    }
    forall a, b, c | StringLe(a, b) && StringLe(b, c) ensures StringLe(a, c) {
      StringLeTransitive(a, b, c);
    }
  }

  /** a is a proper beginning of b, or has the smaller character where they first differ. */
  ghost predicate Precedes(a: string, b: string) {
    exists k :: 0 <= k <= |a| && k <= |b| && a[..k] == b[..k] && IsSmallerAt(a, b, k)
  }

  ghost predicate IsSmallerAt(a: string, b: string, k: nat) {
    k < |b| && (k == |a| || (k < |a| && a[k] < b[k]))
  }

  /** Strings are compared character by character. */
  lemma {:induction false} CompareIsLexicographic(a: string, b: string)
    ensures CompareStrings(a, b) < 0 <==> Precedes(a, b)
  {
    if a != b && a != [] && b != [] && a[0] == b[0] {
      CompareIsLexicographic(a[1..], b[1..]);
      if Precedes(a[1..], b[1..]) {
        var k :| 0 <= k <= |a[1..]| && k <= |b[1..]| && a[1..][..k] == b[1..][..k] && IsSmallerAt(a[1..], b[1..], k);
        assert a[..k + 1] == [a[0]] + a[1..][..k] && b[..k + 1] == [b[0]] + b[1..][..k];
        assert IsSmallerAt(a, b, k + 1);
      }
      if Precedes(a, b) {
        var k :| 0 <= k <= |a| && k <= |b| && a[..k] == b[..k] && IsSmallerAt(a, b, k);
        assert k > 0 && a[1..][..k - 1] == a[..k][1..] && b[1..][..k - 1] == b[..k][1..];
        assert IsSmallerAt(a[1..], b[1..], k - 1);
      }
    } else if a != b {
      assert a[..0] == b[..0];
      assert IsSmallerAt(a, b, 0) <==> CompareStrings(a, b) < 0;
      forall k | 0 < k <= |a| && k <= |b| ensures a[..k] != b[..k] {
        assert a[..k][0] == a[0] && b[..k][0] == b[0];
      }
    }
  }

  /** What std::to_string makes of a number. */
  function Decimal(n: nat): string {
    var digit := ['0', '1', '2', '3', '4', '5', '6', '7', '8', '9'][n % 10];
    if n < 10 then [digit] else Decimal(n / 10) + [digit]
  }

  function ReadDecimal(digits: string): int {
    if digits == [] then 0
    else 10 * ReadDecimal(digits[..|digits| - 1]) + (digits[|digits| - 1] as int - '0' as int)
  }

  lemma {:induction false} DecimalReads(n: nat)
    ensures ReadDecimal(Decimal(n)) == n
    ensures forall k :: 0 <= k < |Decimal(n)| ==> '0' <= Decimal(n)[k] <= '9'
  {
    var digits := ['0', '1', '2', '3', '4', '5', '6', '7', '8', '9'];
    assert digits[n % 10] as int - '0' as int == n % 10;
    if n >= 10 {
      DecimalReads(n / 10);
      assert Decimal(n)[..|Decimal(n)| - 1] == Decimal(n / 10);
    }
  }

  /** A symbol's key orders by path, then by name. */
  datatype SymbolKey = SymbolKey(path: string, name: string) {
    function Compare(other: SymbolKey): (r: int)
      ensures r == 0 <==> this == other
    {
      var result := CompareStrings(path, other.path);
      if result != 0 then result else CompareStrings(name, other.name)
    }
  }

  lemma KeyCompareMirrors(a: SymbolKey, b: SymbolKey)
    ensures a.Compare(b) < 0 <==> b.Compare(a) > 0
  {
    CompareMirrors(a.path, b.path);
    CompareMirrors(b.path, a.path);
    CompareMirrors(a.name, b.name);
  }

  /** Symbol keys are compared by path, and by name where the paths are the same. */
  lemma KeyCompareIsLexicographic(a: SymbolKey, b: SymbolKey)
    ensures a.Compare(b) < 0 <==> Precedes(a.path, b.path) || (a.path == b.path && Precedes(a.name, b.name))
  {
    CompareIsLexicographic(a.path, b.path);
    CompareIsLexicographic(a.name, b.name);
  }

  /** Symbol keys are totally ordered, so a std::map has one order of iteration. */
  lemma KeyCompareTransitive(a: SymbolKey, b: SymbolKey, c: SymbolKey)
    requires a.Compare(b) < 0 && b.Compare(c) < 0
    ensures a.Compare(c) < 0
  {
    StringLeTransitive(a.path, b.path, c.path);
    if a.path == c.path {
      CompareMirrors(a.path, b.path);
      StringLeTransitive(a.name, b.name, c.name);
      CompareMirrors(a.name, b.name);
    }
  }
}
