/** Store and cache keys: an epoch and a position, printed and joined by a plus sign. */
module Keys {

  const DIGITS: string := "0123456789ABCDEF"

  /** Prints a number, most significant digit first. */
  function Numeral(num: nat, base: nat): (s: string)
    requires 2 <= base <= 16
    ensures s != []
  {
    var rest := num / base;
    var left := num % base;
    (if rest > 0 then Numeral(rest, base) else []) + [DIGITS[left]]
  }

  function DecIntToHexStr(num: nat): string {
    Numeral(num, 16)
  }

  function ToDecimal(num: nat): string {
    Numeral(num, 10)
  }

  function GetChunkDataKey(epoch: nat, pos: nat): string {
    DecIntToHexStr(epoch) + "+" + DecIntToHexStr(pos)
  }

  function CacheKey(epoch: nat, pos: nat): string {
    ToDecimal(epoch) + "+" + ToDecimal(pos)
  }

  // ----- reading a numeral back

  function DigitOf(c: char): nat {
    if '0' <= c <= '9' then c as int - '0' as int
    else if 'A' <= c <= 'F' then c as int - 'A' as int + 10
    else 0
  }

  function Value(s: string, base: nat): nat {
    if s == [] then 0 else Value(s[..|s| - 1], base) * base + DigitOf(s[|s| - 1])
  }

  lemma NumeralStep(num: nat, base: nat)
    requires 2 <= base <= 16
    ensures num % base < base <= |DIGITS| && num == num / base * base + num % base
    ensures num / base > 0 ==> num / base < num
    ensures Numeral(num, base) == (if num / base > 0 then Numeral(num / base, base) else []) + [DIGITS[num % base]]
  {
    assert num / base > 0 ==> num / base * 2 <= num / base * base;
  }

  /** Ten decimal digits, then upper-case letters. */
  lemma DigitPrinted(left: nat)
    requires left < 16
    ensures DIGITS[left] as int == if left < 10 then '0' as int + left else 'A' as int + left - 10
    ensures DigitOf(DIGITS[left]) == left && DIGITS[left] != '+' && (DIGITS[left] == '0' <==> left == 0)
  {
  }

  lemma {:induction false} NumeralValue(num: nat, base: nat)
    requires 2 <= base <= 16
    ensures Value(Numeral(num, base), base) == num
  {
    hide Numeral, DigitOf;
    NumeralStep(num, base);
    DigitPrinted(num % base);
    var s, rest := Numeral(num, base), num / base;
    if rest > 0 {
      NumeralValue(rest, base);
      assert s[..|s| - 1] == Numeral(rest, base);
    } else {
      assert s[..|s| - 1] == [];
    }
  }

  /** A numeral has no plus sign and no leading zero, but for zero itself. */
  lemma {:induction false} NumeralShape(num: nat, base: nat)
    requires 2 <= base <= 16
    ensures '+' !in Numeral(num, base)
    ensures if num == 0 then Numeral(num, base) == "0" else Numeral(num, base)[0] != '0'
  {
    hide Numeral;
    NumeralStep(num, base);
    DigitPrinted(num % base);
    DigitPrinted(0);
    if num / base > 0 {
      NumeralShape(num / base, base);
    }
  }

  lemma SplitAtPlus(a: string, b: string, c: string, d: string)
    requires a + "+" + b == c + "+" + d && '+' !in a && '+' !in c
    ensures a == c && b == d
  {
    var s := a + "+" + b;
    assert s[|a|] == '+' && s[|c|] == '+';
    assert forall i :: 0 <= i < |a| ==> s[i] == a[i] && s[i] != '+';
    assert forall i :: 0 <= i < |c| ==> s[i] == c[i] && s[i] != '+';
    assert a == s[..|a|] && c == s[..|c|];
    assert b == s[|a| + 1..] && d == s[|c| + 1..];
  }

  lemma PlusKeysInjective(e: nat, p: nat, e': nat, p': nat, base: nat)
    requires 2 <= base <= 16
    requires Numeral(e, base) + "+" + Numeral(p, base) == Numeral(e', base) + "+" + Numeral(p', base)
    ensures e == e' && p == p'
  {
    hide Numeral;
    NumeralShape(e, base);
    NumeralShape(e', base);
    SplitAtPlus(Numeral(e, base), Numeral(p, base), Numeral(e', base), Numeral(p', base));
    NumeralValue(e, base);
    NumeralValue(e', base);
    NumeralValue(p, base);
    NumeralValue(p', base);
  }

  /** Different chunks never share a store key or a cache key. */
  lemma KeysInjective(e: nat, p: nat, e': nat, p': nat)
    ensures GetChunkDataKey(e, p) == GetChunkDataKey(e', p') <==> e == e' && p == p'
    ensures CacheKey(e, p) == CacheKey(e', p') <==> e == e' && p == p'
  {
    hide Numeral;
    if GetChunkDataKey(e, p) == GetChunkDataKey(e', p') {
      PlusKeysInjective(e, p, e', p', 16);
    }
    if CacheKey(e, p) == CacheKey(e', p') {
      PlusKeysInjective(e, p, e', p', 10);
    }
  }

  /** Where the first plus sign of a joined pair stands. */
  lemma FirstPlus(a: string, b: string, i: nat)
    requires '+' !in a
    ensures var s := a + "+" + b;
      i < |s| && s[i] == '+' && (forall j :: 0 <= j < i ==> s[j] != '+') <==> i == |a|
    ensures var s := a + "+" + b; s[..|a|] == a && s[|a| + 1..] == b
  {
    var s := a + "+" + b;
    assert s[|a|] == '+';
    assert forall j :: 0 <= j < |a| ==> s[j] == a[j] && s[j] != '+';
  }

  /**
   What stands before the first plus sign of a store key is the epoch in base 16, what stands behind it the
   position.
   */
  lemma DataKeyReadsBack(epoch: nat, pos: nat)
    ensures '+' in GetChunkDataKey(epoch, pos)
    ensures var s := GetChunkDataKey(epoch, pos);
      forall i :: 0 <= i < |s| && s[i] == '+' && (forall j :: 0 <= j < i ==> s[j] != '+') ==>
        Value(s[..i], 16) == epoch && Value(s[i + 1..], 16) == pos
  {
    hide Numeral, Value;
    PlusKeyReadsBack(epoch, pos, 16);
  }

  /** The same for a cache key, in base 10. */
  lemma CacheKeyReadsBack(epoch: nat, pos: nat)
    ensures '+' in CacheKey(epoch, pos)
    ensures var s := CacheKey(epoch, pos);
      forall i :: 0 <= i < |s| && s[i] == '+' && (forall j :: 0 <= j < i ==> s[j] != '+') ==>
        Value(s[..i], 10) == epoch && Value(s[i + 1..], 10) == pos
  {
    hide Numeral, Value;
    PlusKeyReadsBack(epoch, pos, 10);
  }

  lemma PlusKeyReadsBack(e: nat, p: nat, base: nat)
    requires 2 <= base <= 16
    ensures '+' in Numeral(e, base) + "+" + Numeral(p, base)
    ensures var s := Numeral(e, base) + "+" + Numeral(p, base);
      forall i :: 0 <= i < |s| && s[i] == '+' && (forall j :: 0 <= j < i ==> s[j] != '+') ==>
        Value(s[..i], base) == e && Value(s[i + 1..], base) == p
  {
    hide Numeral, Value;
    var a, b := Numeral(e, base), Numeral(p, base);
    var s := a + "+" + b;
    NumeralShape(e, base);
    NumeralValue(e, base);
    NumeralValue(p, base);
    FirstPlus(a, b, |a|);
    assert s[|a|] == '+';
    forall i | 0 <= i < |s| && s[i] == '+' && (forall j :: 0 <= j < i ==> s[j] != '+')
      ensures Value(s[..i], base) == e && Value(s[i + 1..], base) == p
    {
      FirstPlus(a, b, i);
    }
  }

  // ----- block numbers

  /** Division rounds toward zero. */
  function Quotient(a: int, b: nat): int
    requires b >= 1
  {
    if a >= 0 then a / b else -(-a / b)
  }

  /**
   Blocks are numbered from 1; k of them make an epoch.  A number below 1 names no block: its position
   comes out negative, or zero in an epoch below zero.
   */
  function ComputeChunkPosition(blockNumber: int, k: nat): (r: (int, int))
    requires k >= 1
    ensures blockNumber == r.0 * k + r.1 + 1
    ensures blockNumber >= 1 ==> 0 <= r.0 && 0 <= r.1 < k && r == ((blockNumber - 1) / k, (blockNumber - 1) % k)
    ensures blockNumber < 1 ==> r.0 <= 0 && r.1 <= 0 < r.1 + k && (r.0 < 0 || r.1 < 0)
  {
    var epoch := Quotient(blockNumber - 1, k);
    (epoch, blockNumber - 1 - epoch * k)
  }

  /** Different block numbers have different keys in the store. */
  lemma BlockKeysInjective(b: nat, b': nat, k: nat)
    requires b >= 1 && b' >= 1 && k >= 1
    ensures var x, y := ComputeChunkPosition(b, k), ComputeChunkPosition(b', k);
      GetChunkDataKey(x.0, x.1) == GetChunkDataKey(y.0, y.1) <==> b == b'
  {
    hide DecIntToHexStr, GetChunkDataKey;
    var x, y := ComputeChunkPosition(b, k), ComputeChunkPosition(b', k);
    KeysInjective(x.0, x.1, y.0, y.1);
  }
}
