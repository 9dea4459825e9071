/** The four transcoders of `DNAEncryption`: text to 8-bit groups, bit pairs to
    bases under the table A=00, T=01, C=10, G=11, and back. A Java exception
    (a substring running past the end, a failed `parseInt`) is `None`. */
module Transcoder {
  import opened JavaText

  predicate IsBit(c: char) { c == '0' || c == '1' }

  predicate IsBits(s: string)
  {
    forall i :: 0 <= i < |s| ==> IsBit(s[i])
  }

  predicate IsBase(c: char) { c == 'A' || c == 'T' || c == 'C' || c == 'G' }

  predicate IsDna(s: string)
  {
    forall i :: 0 <= i < |s| ==> IsBase(s[i])
  }

  /** Every character has a code that fits in 8 bits. */
  predicate IsSingleByte(t: string)
  {
    forall i :: 0 <= i < |t| ==> t[i] as int < 256
  }

  function Zeros(n: nat): (z: string)
    ensures |z| == n && forall i :: 0 <= i < n ==> z[i] == '0'
  {
    if n == 0 then [] else Zeros(n - 1) + ['0']
  }

  // ---------------------------------------------------------------------------
  // textToBinary / binaryToText

  /** `String.format("%8s", Integer.toBinaryString(c)).replace(' ', '0')`: the
      binary digits of the code, left-padded with '0' to at least 8. */
  function CharBits(c: char): (b: string)
    ensures |b| >= 8 && IsBits(b)
  {
    var d := Digits(c as int, 2);
    if |d| >= 8 then d else Zeros(8 - |d|) + d
  }

  /** `textToBinary`: the groups of every character, in order. */
  function TextToBinary(t: string): (b: string)
    ensures |b| >= 8 * |t| && IsBits(b)
  {
    if t == [] then [] else CharBits(t[0]) + TextToBinary(t[1..])
  }

  lemma {:induction false} ZerosPrefixValue(k: nat, d: string)
    requires AllDigitsOf(d, 2)
    ensures AllDigitsOf(Zeros(k) + d, 2)
    ensures DigitsValue(Zeros(k) + d, 2) == DigitsValue(d, 2)
    decreases k + |d|
  {
    var s := Zeros(k) + d;
    if d == [] {
      assert s == Zeros(k);
      if k > 0 {
        assert s[..|s| - 1] == Zeros(k - 1) + [];
        ZerosPrefixValue(k - 1, []);
      }
    } else {
      assert s[..|s| - 1] == Zeros(k) + d[..|d| - 1];
      ZerosPrefixValue(k, d[..|d| - 1]);
    }
  }

  /** `Integer.toBinaryString(n)` has at most 8 digits exactly when n < 256. */
  lemma BinaryDigitsLength(n: nat)
    ensures |Digits(n, 2)| <= 8 <==> n < 256
  {
    var d := Digits(n, 2);
    assert Pow(2, 8) == 256;
    if |d| > 8 {
      DigitsValueAtLeast(d);
      PowMonotone(2, 8, |d| - 1);
    } else {
      DigitsValueBelow(d, 2);
      PowMonotone(2, |d|, 8);
    }
  }

  /** A code below 256 yields exactly 8 bits whose value is the code. */
  lemma CharBitsOfByte(c: char)
    requires c as int < 256
    ensures |CharBits(c)| == 8
    ensures AllDigitsOf(CharBits(c), 2) && DigitsValue(CharBits(c), 2) == c as int
  {
    var d := Digits(c as int, 2);
    BinaryDigitsLength(c as int);
    if |d| < 8 {
      ZerosPrefixValue(8 - |d|, d);
    }
  }

  /** A code of 256 or more yields more than 8 bits, so the 8-bit grouping of the
      rest of the pipeline no longer lines up. */
  lemma CharBitsOfWideChar(c: char)
    requires c as int >= 256
    ensures |CharBits(c)| > 8
  {
    BinaryDigitsLength(c as int);
  }

  lemma {:induction false} TextToBinaryLength(t: string)
    ensures IsSingleByte(t) ==> |TextToBinary(t)| == 8 * |t|
    decreases |t|
  {
    if t != [] && IsSingleByte(t) {
      CharBitsOfByte(t[0]);
      TextToBinaryLength(t[1..]);
    }
  }

  /** `binaryToText`: one character per 8-bit group, read with
      `Integer.parseInt(group, 2)` and narrowed with `(char)`. None where Java
      throws: a final group shorter than 8, or a group that does not parse. */
  function BinaryToText(b: string): (r: Option<string>)
    ensures r.Some? ==> |b| % 8 == 0 && |r.value| == |b| / 8
    decreases |b|
  {
    if |b| == 0 then Some([])
    else if |b| < 8 then None
    else
      match ParseInt(b[..8], 2)
      case None => None
      case Some(code) =>
        assert Pow(2, 8) == 256;
        match BinaryToText(b[8..])
        case None => None
        case Some(rest) => Some([NarrowToChar(code)] + rest)
  }

  /** A single-byte character's group parses back to its code, and narrowing the
      code gives the character. */
  lemma GroupDecodes(c: char)
    requires c as int < 256
    ensures ParseInt(CharBits(c), 2) == Some(c as int)
    ensures NarrowToChar(c as int) == c
  {
    CharBitsOfByte(c);
    assert Pow(2, 8) == 256;
  }

  /** binaryToText reads one leading group that parses to a byte code. */
  lemma BinaryToTextStep(g: string, rest: string, c: char)
    requires |g| == 8 && c as int < 256 && ParseInt(g, 2) == Some(c as int) && NarrowToChar(c as int) == c
    ensures BinaryToText(g + rest) ==
              if BinaryToText(rest).Some? then Some([c] + BinaryToText(rest).value) else None
  {
    var b := g + rest;
    assert b[..8] == g && b[8..] == rest;
  }

  /** binaryToText undoes textToBinary on single-byte text. */
  lemma {:induction false} TextRoundTrip(t: string)
    requires IsSingleByte(t)
    ensures BinaryToText(TextToBinary(t)) == Some(t)
    decreases |t|
  {
    if t != [] {
      CharBitsOfByte(t[0]);
      GroupDecodes(t[0]);
      BinaryToTextStep(CharBits(t[0]), TextToBinary(t[1..]), t[0]);
      TextRoundTrip(t[1..]);
      assert [t[0]] + t[1..] == t;
    }
  }

  // ---------------------------------------------------------------------------
  // binaryToDNA / dnaToBinary

  /** The `switch` on one pair: the table, and nothing for any other pair. */
  function PairToBase(p: string): (r: string)
    requires |p| == 2
    ensures |r| <= 1
    ensures IsBits(p) ==> |r| == 1 && IsBase(r[0])
  {
    if p == "00" then "A"
    else if p == "01" then "T"
    else if p == "10" then "C"
    else if p == "11" then "G"
    else []
  }

  /** The `switch` on one base: the table, and nothing for any other character. */
  function BaseToPair(c: char): (r: string)
    ensures IsBase(c) ==> |r| == 2 && IsBits(r) && PairToBase(r) == [c]
  {
    match c
    case 'A' => "00"
    case 'T' => "01"
    case 'C' => "10"
    case 'G' => "11"
    case _ => []
  }

  /** The pair loop of `binaryToDNA`: at most one base per pair, exactly one
      when every character is a bit. */
  function PairsToDna(b: string): (r: string)
    requires |b| % 2 == 0
    ensures |r| <= |b| / 2
    ensures IsBits(b) ==> |r| == |b| / 2 && IsDna(r)
  {
    if b == [] then [] else PairToBase(b[..2]) + PairsToDna(b[2..])
  }

  /** `binaryToDNA`: None when the length is odd (the last `substring(i, i + 2)`
      throws). */
  function BinaryToDna(b: string): (r: Option<string>)
    ensures r.Some? <==> |b| % 2 == 0
  {
    if |b| % 2 == 1 then None else Some(PairsToDna(b))
  }

  /** `dnaToBinary`: two bits per base, nothing for any other character. */
  function DnaToBinary(s: string): (b: string)
    ensures |b| <= 2 * |s| && IsBits(b)
  {
    if s == [] then [] else BaseToPair(s[0]) + DnaToBinary(s[1..])
  }

  /** A bit pair maps to one base, which maps back to the pair. */
  lemma PairRoundTrip(p: string)
    requires |p| == 2 && IsBits(p)
    ensures |PairToBase(p)| == 1 && BaseToPair(PairToBase(p)[0]) == p
  {
    assert p == [p[0], p[1]];
    if p == "00" {} else if p == "01" {} else if p == "10" {} else {}
  }

  /** On bits of even length, binaryToDNA gives one base per pair, and
      dnaToBinary gives the bits back. */
  lemma {:induction false} BitsRoundTrip(b: string)
    requires IsBits(b) && |b| % 2 == 0
    ensures BinaryToDna(b).Some?
    ensures var s := BinaryToDna(b).value; |s| == |b| / 2 && IsDna(s) && DnaToBinary(s) == b
    decreases |b|
  {
    if b != [] {
      var p, rest := b[..2], b[2..];
      PairRoundTrip(p);
      BitsRoundTrip(rest);
      var s := PairsToDna(b);
      var head := PairToBase(p);
      assert s == head + PairsToDna(rest);
      assert s[0] == head[0] && s[1..] == PairsToDna(rest);
      assert DnaToBinary(s) == BaseToPair(s[0]) + DnaToBinary(s[1..]);
      assert b == p + rest;
    }
  }

  /** On a base sequence, dnaToBinary gives two bits per base, and binaryToDNA
      gives the bases back. */
  lemma {:induction false} DnaRoundTrip(s: string)
    requires IsDna(s)
    ensures |DnaToBinary(s)| == 2 * |s|
    ensures BinaryToDna(DnaToBinary(s)) == Some(s)
    decreases |s|
  {
    if s != [] {
      DnaRoundTrip(s[1..]);
      var b := DnaToBinary(s);
      var head := BaseToPair(s[0]);
      assert b[..2] == head && b[2..] == DnaToBinary(s[1..]);
      assert [s[0]] + s[1..] == s;
    }
  }
}
