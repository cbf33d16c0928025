/** Serial number arithmetic with wrap-around: serial.py, after sections 3.1 and 3.2 of RFC 1982. */
module SerialNumbers {
  import opened Powers

  datatype Serial = Serial(value: int, bits: nat)

  datatype Sum = Sum(result: Serial) | InvalidOperation

  /** __add__: a serial number may only be incremented by less than half the range. */
  function Plus(s: Serial, n: int): Sum
    requires s.bits > 0
  {
    if n > Pow2(s.bits - 1) - 1 then InvalidOperation else Sum(Serial((s.value + n) % Pow2(s.bits), s.bits))
  }

  /** __eq__. */
  predicate Equal(s: Serial, n: Serial) {
    s.bits == n.bits && s.value == n.value
  }

  /** __lt__. */
  predicate Less(s: Serial, n: Serial)
    requires s.bits > 0
  {
    var lv, rv := s.value, n.value;
    (lv < rv && rv - lv < Pow2(s.bits - 1)) || (lv > rv && lv - rv > Pow2(s.bits - 1))
  }

  /** __gt__, which is the negation of __lt__ and therefore also holds of equal numbers. */
  predicate Greater(s: Serial, n: Serial)
    requires s.bits > 0
  {
    !Less(s, n)
  }

  /** The serial number that stands for an unbounded number. */
  function Of(k: int, bits: nat): Serial {
    Serial(k % Pow2(bits), bits)
  }

  lemma RemainderUnique(c: int, d: nat, h: int, r: int)
    requires 0 <= r < d && c == d * h + r
    ensures c % d == r
  {
    var e := c / d - h;
    assert d * e == d * (c / d) - d * h;
    assert d * e == r - c % d;
    assert e >= 1 ==> d * e >= d;
    assert e <= -1 ==> d * e <= -(d as int);
  }

  /** The difference of two numbers and that of their remainders agree up to one turn. */
  lemma DifferenceOfRemainders(k: int, n: int, m: nat)
    requires m > 0
    ensures (n - k) % m == if n % m >= k % m then n % m - k % m else n % m - k % m + m
  {
    var v, w := k % m, n % m;
    var h := n / m - k / m;
    assert n - k == m * h + (w - v) by {
      assert m * h == m * (n / m) - m * (k / m);
    }
    if w >= v {
      RemainderUnique(n - k, m, h, w - v);
    } else {
      assert m * h == m * (h - 1) + m;
      RemainderUnique(n - k, m, h - 1, w - v + m);
    }
  }

  /** Equality and order of serial numbers in terms of the unbounded numbers they stand for, without any restriction:
      the order only sees the distance modulo the range. */
  lemma OrderIsModular(k: int, n: int, bits: nat)
    requires bits > 0
    ensures Equal(Of(k, bits), Of(n, bits)) <==> (n - k) % Pow2(bits) == 0
    ensures Less(Of(k, bits), Of(n, bits)) <==> 1 <= (n - k) % Pow2(bits) < Pow2(bits - 1)
  {
    DifferenceOfRemainders(k, n, Pow2(bits));
  }

  /** Within half the range of each other serial numbers compare like the numbers they stand for. */
  lemma OrderInWindow(k: int, n: int, bits: nat)
    requires bits > 0 && n - Pow2(bits - 1) < k <= n + Pow2(bits - 1)
    ensures Equal(Of(k, bits), Of(n, bits)) <==> k == n
    ensures Less(Of(k, bits), Of(n, bits)) <==> k < n
    ensures Greater(Of(k, bits), Of(n, bits)) <==> k >= n
  {
    OrderIsModular(k, n, bits);
    var m := Pow2(bits);
    if k <= n {
      RemainderUnique(n - k, m, 0, n - k);
    } else {
      RemainderUnique(n - k, m, -1, n - k + m);
    }
  }

  /** Numbers less than one turn apart have the same serial number only when they are equal. */
  lemma EqualWithinTurn(k: int, n: int, bits: nat)
    requires n - Pow2(bits) < k < n + Pow2(bits)
    ensures Equal(Of(k, bits), Of(n, bits)) <==> k == n
  {
    var m := Pow2(bits);
    DifferenceOfRemainders(k, n, m);
    if k <= n {
      RemainderUnique(n - k, m, 0, n - k);
    } else {
      RemainderUnique(n - k, m, -1, n - k + m);
    }
  }

  lemma RemainderOfSum(k: int, n: int, m: nat)
    requires m > 0
    ensures (k % m + n) % m == (k + n) % m
  {
    var rest := k % m + n;
    var h := k / m + rest / m;
    assert m * h == m * (k / m) + m * (rest / m);
    RemainderUnique(k + n, m, h, rest % m);
  }

  /** Adding n to the serial number of k gives that of k + n, across any number of wraps, unless n is half the range or
      more, which is refused. */
  lemma PlusIs(k: int, n: int, bits: nat)
    requires bits > 0
    ensures Plus(Of(k, bits), n) == if n < Pow2(bits - 1) then Sum(Of(k + n, bits)) else InvalidOperation
  {
    RemainderOfSum(k, n, Pow2(bits));
  }

  /** Adding one to the serial number of n gives that of n + 1, across the wrap-around too. */
  lemma PlusOne(n: int, bits: nat)
    requires bits > 1
    ensures Plus(Of(n, bits), 1) == Sum(Of(n + 1, bits))
  {
    PlusIs(n, 1, bits);
  }

  lemma OppositeDifference(k: int, n: int, m: nat)
    requires m > 0
    ensures (k - n) % m == if (n - k) % m == 0 then 0 else m - (n - k) % m
  {
    DifferenceOfRemainders(k, n, m);
    DifferenceOfRemainders(n, k, m);
  }

  /** Two serial numbers are each greater than the other exactly when they are equal or half the range apart. */
  lemma HalfRangeIsAmbiguous(k: int, n: int, bits: nat)
    requires bits > 0
    ensures Greater(Of(k, bits), Of(n, bits)) && Greater(Of(n, bits), Of(k, bits)) <==>
      Equal(Of(k, bits), Of(n, bits)) || (n - k) % Pow2(bits) == Pow2(bits - 1)
  {
    OrderIsModular(k, n, bits);
    OrderIsModular(n, k, bits);
    OppositeDifference(k, n, Pow2(bits));
  }

  lemma NegativeRemainder(a: nat, m: nat)
    requires 0 < a < m
    ensures -(a as int) % m == m - a
  {
    RemainderUnique(-(a as int), m, -1, m - a);
  }

  /** The window within which the order is right cannot be larger: one beyond its end seems to lie behind, and one
      before its beginning ahead. */
  lemma WindowIsTight(n: int, bits: nat)
    requires bits > 1
    ensures Less(Of(n + Pow2(bits - 1) + 1, bits), Of(n, bits))
    ensures var k := n - Pow2(bits - 1); Greater(Of(k, bits), Of(n, bits)) && !Equal(Of(k, bits), Of(n, bits))
  {
    var h, m := Pow2(bits - 1), Pow2(bits);
    assert h == 2 * Pow2(bits - 2) && m == 2 * h;
    OrderIsModular(n + h + 1, n, bits);
    NegativeRemainder(h + 1, m);
    OrderIsModular(n - h, n, bits);
    RemainderUnique(h, m, 0, h);
  }
}
