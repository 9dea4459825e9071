/** The slice of java.lang the codec leans on: `Integer.toString` and
    `Integer.toBinaryString` of a non-negative value, `Integer.parseInt` in radix
    2 and 10, the `(char)` narrowing cast, and `String.split` on a one-character
    separator. Each is stated the way the JDK documents it. */
module JavaText {

  datatype Option<+T> = None | Some(value: T)

  const INT_MIN: int := -0x8000_0000
  const INT_MAX: int := 0x7fff_ffff

  function Pow(base: nat, exp: nat): nat
  {
    if exp == 0 then 1 else base * Pow(base, exp - 1)
  }

  // ---------------------------------------------------------------------------
  // Digits

  predicate IsDigitOf(c: char, radix: nat)
  {
    '0' <= c <= '9' && (c as int) - ('0' as int) < radix
  }

  predicate AllDigitsOf(s: string, radix: nat)
  {
    forall i :: 0 <= i < |s| ==> IsDigitOf(s[i], radix)
  }

  function DigitChar(d: nat): (c: char)
    requires d < 10
    ensures IsDigitOf(c, d + 1) && (c as int) - ('0' as int) == d
  {
    (('0' as int) + d) as char
  }

  /** The value of a string of digits, most significant first. */
  function DigitsValue(s: string, radix: nat): nat
    requires AllDigitsOf(s, radix)
  {
    if s == [] then 0
    else DigitsValue(s[..|s| - 1], radix) * radix + ((s[|s| - 1] as int) - ('0' as int))
  }

  /** `Integer.toString(n, radix)` for n >= 0: the digits of n without leading zeros
      (`Integer.toBinaryString` is radix 2). */
  function Digits(n: nat, radix: nat): (s: string)
    requires 2 <= radix <= 10
    ensures |s| > 0 && AllDigitsOf(s, radix)
    ensures DigitsValue(s, radix) == n
    ensures n > 0 ==> s[0] != '0'
    decreases n
  {
    if n < radix then [DigitChar(n)]
    else
      var q, low := n / radix, n % radix;
      DivMod(n, radix);
      var high := Digits(q, radix);
      DigitsValueSnoc(high, low, radix);
      high + [DigitChar(low)]
  }

  /** Appending a digit multiplies the value by the radix and adds the digit. */
  lemma DigitsValueSnoc(s: string, d: nat, radix: nat)
    requires 2 <= radix <= 10 && d < radix && AllDigitsOf(s, radix)
    ensures AllDigitsOf(s + [DigitChar(d)], radix)
    ensures DigitsValue(s + [DigitChar(d)], radix) == DigitsValue(s, radix) * radix + d
  {
    var t := s + [DigitChar(d)];
    assert t[..|t| - 1] == s;
  }

  lemma MulStep(v: nat, d: nat, radix: nat, p: nat)
    requires v < p && d < radix
    ensures v * radix + d < p * radix
  {
    MulMonotone(v + 1, p, radix);
  }

  lemma {:induction false} DigitsValueBelow(s: string, radix: nat)
    requires radix >= 1 && AllDigitsOf(s, radix)
    ensures DigitsValue(s, radix) < Pow(radix, |s|)
    decreases |s|
  {
    if s != [] {
      var p := s[..|s| - 1];
      DigitsValueBelow(p, radix);
      MulStep(DigitsValue(p, radix), (s[|s| - 1] as int) - ('0' as int), radix, Pow(radix, |p|));
    }
  }

  lemma DigitsValueAtLeast(s: string)
    requires |s| > 0 && AllDigitsOf(s, 2) && s[0] != '0'
    ensures DigitsValue(s, 2) >= Pow(2, |s| - 1)
    decreases |s|
  {
    if |s| > 1 {
      var p := s[..|s| - 1];
      DigitsValueAtLeast(p);
    }
  }

  lemma DivMod(n: nat, radix: nat)
    requires radix > 0
    ensures (n / radix) * radix + n % radix == n && n % radix < radix
    ensures radix >= 2 && n >= radix ==> 0 < n / radix < n
  {
    var q, r := n / radix, n % radix;
    assert q * radix + r == n;
    if radix >= 2 && n >= radix {
      MulMonotone(2, radix, q);
      assert radix * q == q * radix;
    }
  }

  lemma MulMonotone(a: nat, b: nat, c: nat)
    requires a <= b
    ensures a * c <= b * c
  {
    assert b * c == a * c + (b - a) * c;
  }

  lemma PowMonotone(base: nat, i: nat, j: nat)
    requires base >= 1 && i <= j
    ensures Pow(base, i) <= Pow(base, j)
    decreases j
  {
    if i < j {
      PowMonotone(base, i, j - 1);
      MulMonotone(1, base, Pow(base, j - 1));
    }
  }

  // ---------------------------------------------------------------------------
  // Integer.parseInt(s, radix)

  /** `Integer.parseInt(s, radix)`: an optional '+' or '-' sign followed by at least
      one digit; None where Java throws NumberFormatException (empty input, a lone
      sign, a non-digit, a value outside the 32-bit range). */
  function ParseInt(s: string, radix: nat): (r: Option<int>)
    requires 2 <= radix <= 10
    ensures r.Some? ==> INT_MIN <= r.value <= INT_MAX
    ensures r.Some? ==> -(Pow(radix, |s|) as int) < r.value < Pow(radix, |s|)
    ensures |s| == 0 ==> r.None?
    ensures |s| == 1 && (s[0] == '-' || s[0] == '+') ==> r.None?
    ensures 0 < |s| && s[0] != '-' && s[0] != '+' && !IsDigitOf(s[0], radix) ==> r.None?
    ensures (exists i :: 0 < i < |s| && !IsDigitOf(s[i], radix)) ==> r.None?
    ensures AllDigitsOf(s, radix) && |s| > 0 ==>
              r == if DigitsValue(s, radix) <= INT_MAX then Some(DigitsValue(s, radix)) else None
    ensures 1 < |s| && s[0] == '+' && AllDigitsOf(s[1..], radix) ==>
              r == if DigitsValue(s[1..], radix) <= INT_MAX then Some(DigitsValue(s[1..], radix)) else None
    ensures 1 < |s| && s[0] == '-' && AllDigitsOf(s[1..], radix) ==>
              r == if DigitsValue(s[1..], radix) <= -INT_MIN then Some(-(DigitsValue(s[1..], radix) as int)) else None
  {
    if |s| == 0 then None
    else
      var signed := s[0] == '-' || s[0] == '+';
      var ds := if signed then s[1..] else s;
      if |ds| == 0 || !AllDigitsOf(ds, radix) then None
      else
        var magnitude := DigitsValue(ds, radix);
        var v := if s[0] == '-' then -(magnitude as int) else magnitude;
        if v < INT_MIN || v > INT_MAX then None
        else
          DigitsValueBelow(ds, radix);
          PowMonotone(radix, |ds|, |s|);
          Some(v)
  }

  /** `Integer.toString(v)` (and `StringBuilder.append(int)`): a '-' for a
      negative value, then the decimal digits of its magnitude. */
  function IntToString(v: int): (s: string)
    ensures |s| > 0 && forall i :: 0 <= i < |s| ==> s[i] == '-' || IsDigitOf(s[i], 10)
    ensures ',' !in s && '|' !in s
  {
    if v < 0 then "-" + Digits(-v, 10) else Digits(v, 10)
  }

  /** `Integer.parseInt` reads back what `Integer.toString` writes. */
  lemma ParseIntToString(v: int)
    requires INT_MIN <= v <= INT_MAX
    ensures ParseInt(IntToString(v), 10) == Some(v)
  {
    if v < 0 {
      var s := IntToString(v);
      assert s[1..] == Digits(-v, 10);
    }
  }

  // ---------------------------------------------------------------------------
  // The (char) cast

  /** `(char) v`: Java keeps the low 16 bits of the int. Only values whose low
      16 bits are not a surrogate code are Dafny characters; the codec narrows
      values in (-256, 256) only. */
  function NarrowToChar(v: int): (c: char)
    requires -256 < v < 256
    ensures c as int == v % 0x1_0000
  {
    if v >= 0 then v as char else (v + 0x1_0000) as char
  }

  // ---------------------------------------------------------------------------
  // String.split on a single separator character

  /** `s.indexOf(c)`, with |s| for "absent". */
  function IndexOf(s: string, c: char): (k: nat)
    ensures k <= |s|
    ensures k < |s| ==> s[k] == c
    ensures forall i :: 0 <= i < k ==> s[i] != c
  {
    if s == [] then 0
    else if s[0] == c then 0
    else 1 + IndexOf(s[1..], c)
  }

  /** Every field between separators, including empty ones. */
  function Fields(s: string, c: char): (fs: seq<string>)
    ensures |fs| > 0
    decreases |s|
  {
    var k := IndexOf(s, c);
    if k == |s| then [s] else [s[..k]] + Fields(s[k + 1..], c)
  }

  function DropTrailingEmpty(fs: seq<string>): (r: seq<string>)
    ensures |r| <= |fs| && r == fs[..|r|]
    ensures |r| > 0 ==> r[|r| - 1] != []
    ensures forall i :: |r| <= i < |fs| ==> fs[i] == []
  {
    if |fs| > 0 && fs[|fs| - 1] == [] then DropTrailingEmpty(fs[..|fs| - 1]) else fs
  }

  /** `s.split(regex)` with `regex` one escaped character and limit 0: when the
      separator does not occur the whole string is the one field (even ""),
      otherwise trailing empty fields are removed. */
  function Split(s: string, c: char): (parts: seq<string>)
    ensures c !in s ==> parts == [s]
  {
    if c !in s then [s] else DropTrailingEmpty(Fields(s, c))
  }

  /** Each token followed by the separator, as a StringBuilder loop writes them. */
  function JoinTerminated(ts: seq<string>, c: char): string
  {
    if ts == [] then [] else ts[0] + [c] + JoinTerminated(ts[1..], c)
  }

  lemma {:induction false} JoinTerminatedAppend(ts: seq<string>, t: string, c: char)
    ensures JoinTerminated(ts + [t], c) == JoinTerminated(ts, c) + t + [c]
    decreases |ts|
  {
    if ts == [] {
      assert ts + [t] == [t];
    } else {
      assert (ts + [t])[1..] == ts[1..] + [t];
      JoinTerminatedAppend(ts[1..], t, c);
    }
  }

  lemma {:induction false} JoinTerminatedLacks(ts: seq<string>, c: char, d: char)
    requires c != d
    requires forall i :: 0 <= i < |ts| ==> d !in ts[i]
    ensures d !in JoinTerminated(ts, c)
    decreases |ts|
  {
    if ts != [] {
      JoinTerminatedLacks(ts[1..], c, d);
    }
  }

  lemma {:induction false} FieldsAfterField(t: string, c: char, rest: string)
    requires c !in t
    ensures Fields(t + [c] + rest, c) == [t] + Fields(rest, c)
  {
    var s := t + [c] + rest;
    var k := IndexOf(s, c);
    assert s[|t|] == c;
    assert forall i :: 0 <= i < |t| ==> s[i] == t[i];
    assert k == |t|;
    assert s[..k] == t && s[k + 1..] == rest;
  }

  lemma {:induction false} FieldsOfJoin(ts: seq<string>, c: char)
    requires forall i :: 0 <= i < |ts| ==> c !in ts[i]
    ensures Fields(JoinTerminated(ts, c), c) == ts + [[]]
    decreases |ts|
  {
    if ts == [] {
      assert IndexOf([], c) == 0;
    } else {
      assert forall i :: 0 <= i < |ts[1..]| ==> ts[1..][i] == ts[i + 1];
      FieldsOfJoin(ts[1..], c);
      FieldsOfJoinCons(ts, c);
    }
  }

  lemma FieldsOfJoinCons(ts: seq<string>, c: char)
    requires |ts| > 0 && c !in ts[0]
    requires Fields(JoinTerminated(ts[1..], c), c) == ts[1..] + [[]]
    ensures Fields(JoinTerminated(ts, c), c) == ts + [[]]
  {
    var rest := JoinTerminated(ts[1..], c);
    assert JoinTerminated(ts, c) == ts[0] + [c] + rest;
    FieldsAfterField(ts[0], c, rest);
    var tail: seq<string> := [[]];
    assert ts == [ts[0]] + ts[1..];
    assert ([ts[0]] + ts[1..]) + tail == [ts[0]] + (ts[1..] + tail);
  }

  /** Splitting what JoinTerminated wrote gives the tokens back, provided there is
      at least one, none is empty, and none holds the separator. */
  lemma SplitJoinTerminated(ts: seq<string>, c: char)
    requires |ts| > 0
    requires forall i :: 0 <= i < |ts| ==> ts[i] != [] && c !in ts[i]
    ensures Split(JoinTerminated(ts, c), c) == ts
  {
    var s := JoinTerminated(ts, c);
    assert s == ts[0] + [c] + JoinTerminated(ts[1..], c);
    assert s[|ts[0]|] == c;
    FieldsOfJoin(ts, c);
    var fs := ts + [[]];
    assert DropTrailingEmpty(fs) == DropTrailingEmpty(fs[..|fs| - 1]);
    assert fs[..|fs| - 1] == ts;
  }

  /** A string made of a head, the separator and a tail splits into the two when
      neither holds the separator and the tail is not empty. */
  lemma SplitPair(head: string, c: char, tail: string)
    ensures c !in head && c !in tail && tail != [] ==> Split(head + [c] + tail, c) == [head, tail]
  {
    if c !in head && c !in tail && tail != [] {
      var s := head + [c] + tail;
      assert s[|head|] == c;
      FieldsAfterField(head, c, tail);
      assert Fields(tail, c) == [tail];
    }
  }

  /** A separator with nothing else splits into no field at all. */
  lemma SplitSeparatorOnly(c: char)
    ensures Split([c], c) == []
  {
    FieldsAfterField([], c, []);
    assert [] + [c] + [] == [c];
    assert Fields([], c) == [[]];
  }
}
