/** String helpers shared by the service and the form: the whitespace test behind
    `trim()`, substring search behind `includes`, decimal rendering of indices
    and counts, and the `${field}_${index}` keys. */
module Text {

  /** The characters `String.prototype.trim` strips, restricted to a fixed set. */
  predicate IsWhitespace(c: char) {
    c == ' ' || c == '\t' || c == '\n' || c == '\r' || c == '\U{0B}' || c == '\U{0C}'
    || c == '\U{A0}' || c == '\U{FEFF}'
  }

  /** `!s.trim()`: the string is empty once surrounding whitespace is removed. */
  predicate IsBlank(s: string) {
    forall i :: 0 <= i < |s| ==> IsWhitespace(s[i])
  }

  /** `s.includes(sub)`. */
  predicate Contains(s: string, sub: string) {
    exists i | 0 <= i <= |s| - |sub| :: OccursAt(s, sub, i)
  }

  predicate OccursAt(s: string, sub: string, i: int) {
    0 <= i <= |s| - |sub| && s[i..i + |sub|] == sub
  }

  predicate IsDigit(c: char) {
    '0' <= c <= '9'
  }

  function Digit(d: nat): (c: char)
    requires d < 10
    ensures IsDigit(c)
  {
    (48 + d) as char
  }

  /** Decimal rendering of a natural number, as a template literal prints it. */
  function NatToString(n: nat): (s: string)
    ensures |s| >= 1
    ensures forall i :: 0 <= i < |s| ==> IsDigit(s[i])
    ensures n < 10 <==> |s| == 1
    decreases n
  {
    if n < 10 then [Digit(n)] else NatToString(n / 10) + [Digit(n % 10)]
  }

  /** Distinct numbers render differently. */
  lemma {:induction false} NatToStringInjective(a: nat, b: nat)
    requires NatToString(a) == NatToString(b)
    ensures a == b
  {
    if a >= 10 && b >= 10 {
      var sa, sb := NatToString(a), NatToString(b);
      assert sa[|sa| - 1] == Digit(a % 10) && sb[|sb| - 1] == Digit(b % 10);
      assert NatToString(a / 10) == sa[..|sa| - 1] == sb[..|sb| - 1] == NatToString(b / 10);
      NatToStringInjective(a / 10, b / 10);
    }
  }

  /** The number a string of decimal digits denotes, most significant digit first. */
  function DecimalValue(s: string): nat
    requires forall i :: 0 <= i < |s| ==> IsDigit(s[i])
  {
    if s == [] then 0
    else
      assert IsDigit(s[|s| - 1]);
      10 * DecimalValue(s[..|s| - 1]) + (s[|s| - 1] as int - 48)
  }

  /** Reading the rendered digits back gives the number that was rendered. */
  lemma {:induction false} NatToStringValue(n: nat)
    ensures DecimalValue(NatToString(n)) == n
  {
    var s := NatToString(n);
    if n >= 10 {
      assert s[..|s| - 1] == NatToString(n / 10);
      NatToStringValue(n / 10);
    }
  }

  predicate NoUnderscore(s: string) {
    forall i :: 0 <= i < |s| ==> s[i] != '_'
  }

  /** The key `${field}_${index}` under which an error of one batch row is reported. */
  function IndexedKey(field: string, index: nat): (k: string)
    ensures |k| == |field| + 1 + |NatToString(index)|
    ensures k[..|field|] == field && k[|field|] == '_'
  {
    field + "_" + NatToString(index)
  }

  /** A key determines its field and its index, as long as field names carry no underscore. */
  lemma IndexedKeyInjective(f1: string, i1: nat, f2: string, i2: nat)
    requires NoUnderscore(f1) && NoUnderscore(f2)
    requires IndexedKey(f1, i1) == IndexedKey(f2, i2)
    ensures f1 == f2 && i1 == i2
  {
    var k := IndexedKey(f1, i1);
    assert f1 == k[..|f1|] == f2;
    assert NatToString(i1) == k[|f1| + 1..] == NatToString(i2);
    NatToStringInjective(i1, i2);
  }

  /** For single-digit indices the test `key.includes(`_${index}`)` picks out exactly
      the keys of that index. */
  lemma IndexedKeyContainsIndex(field: string, i: nat, index: nat)
    requires NoUnderscore(field) && i < 10 && index < 10
    ensures Contains(IndexedKey(field, i), "_" + NatToString(index)) <==> i == index
  {
    var k, sub := IndexedKey(field, i), "_" + NatToString(index);
    assert |k| == |field| + 2 && |sub| == 2;
    if i == index {
      assert OccursAt(k, sub, |field|);
    }
    if Contains(k, sub) {
      var p :| OccursAt(k, sub, p);
      OccurrenceFixesIndex(field, i, index, p);
    }
  }

  lemma OccurrenceFixesIndex(field: string, i: nat, index: nat, p: int)
    requires NoUnderscore(field) && i < 10 && index < 10
    requires OccursAt(IndexedKey(field, i), "_" + NatToString(index), p)
    ensures i == index
  {
    var k, sub := IndexedKey(field, i), "_" + NatToString(index);
    assert k[p] == sub[0] == '_';
    UnderscoreOnlyAfterField(field, i, p);
    assert k[p + 1] == sub[1];
  }

  lemma UnderscoreOnlyAfterField(field: string, i: nat, p: nat)
    requires NoUnderscore(field) && p < |IndexedKey(field, i)| && IndexedKey(field, i)[p] == '_'
    ensures p == |field|
  {
    var k, digits := IndexedKey(field, i), NatToString(i);
    assert forall q :: 0 <= q < |field| ==> k[q] == field[q];
    assert forall q :: |field| < q < |k| ==> k[q] == digits[q - |field| - 1];
  }
}
