/** `DNAKeyGenerator`: an authorization gate, then a string pipeline that splices
    and folds the identity's bits, forces the fold to 1024 bits, draws one base
    per quarter from an unseeded generator, complements the bases and compares
    the two halves character by character. */
module KeyGeneration {
  import opened JavaText
  import opened Transcoder
  import opened Shuffle

  const AUTHORIZED_USER_ID: string := "AuthorizedUserID"
  const UNAUTHORIZED: string := "Unauthorized access"
  const KEY_BITS: nat := 1024
  const DNA_BASES: string := "ATCG"

  // ---------------------------------------------------------------------------
  // addMacAndPassword, splitIntoParts

  /** `addMacAndPassword`: the MAC bits then the password bits, inserted at the
      midpoint of the data. */
  function AddMacAndPassword(binaryData: string, binaryPassword: string, binaryMac: string): (r: string)
    ensures |r| == |binaryData| + |binaryMac| + |binaryPassword|
    ensures var mid, inserted := |binaryData| / 2, |binaryMac| + |binaryPassword|;
              r[mid..mid + inserted] == binaryMac + binaryPassword &&
              r[..mid] + r[mid + inserted..] == binaryData
    ensures IsBits(binaryData) && IsBits(binaryPassword) && IsBits(binaryMac) ==> IsBits(r)
  {
    var mid := |binaryData| / 2;
    assert binaryData[..mid] + binaryData[mid..] == binaryData;
    binaryData[..mid] + binaryMac + binaryPassword + binaryData[mid..]
  }

  function Concat(parts: seq<string>): string
  {
    if parts == [] then [] else parts[0] + Concat(parts[1..])
  }

  /** The `substring(i, min(i + size, length))` loop for a positive step. */
  function Chunks(data: string, size: nat): (parts: seq<string>)
    requires size > 0
    ensures Concat(parts) == data
    ensures forall i :: 0 <= i < |parts| ==> 0 < |parts[i]| <= size
    ensures forall i :: 0 <= i < |parts| - 1 ==> |parts[i]| == size
    decreases |data|
  {
    if |data| == 0 then []
    else
      var end := if size < |data| then size else |data|;
      var rest := Chunks(data[end..], size);
      var parts := [data[..end]] + rest;
      assert parts[1..] == rest;
      assert forall i :: 1 <= i < |parts| ==> parts[i] == rest[i - 1];
      assert data[..end] + data[end..] == data;
      parts
  }

  /** `count` copies of `size`, added up. */
  function Times(count: nat, size: nat): nat
  {
    if count == 0 then 0 else Times(count - 1, size) + size
  }

  lemma {:induction false} TimesIsProduct(count: nat, size: nat)
    ensures Times(count, size) == count * size
    decreases count
  {
    if count > 0 {
      TimesIsProduct(count - 1, size);
      assert count * size == (count - 1) * size + size;
    }
  }

  lemma {:induction false} ChunksOfMultiple(data: string, size: nat, count: nat)
    requires size > 0 && |data| == Times(count, size)
    ensures |Chunks(data, size)| == count
    ensures forall i :: 0 <= i < count ==> |Chunks(data, size)[i]| == size
    decreases count
  {
    if count > 0 {
      var rest := data[size..];
      ChunksOfMultiple(rest, size, count - 1);
      var parts := Chunks(data, size);
      assert parts == [data[..size]] + Chunks(rest, size);
      assert forall i :: 1 <= i < |parts| ==> parts[i] == Chunks(rest, size)[i - 1];
    }
  }

  /** `splitIntoParts(data, count)`: pieces of `|data| / count` characters, the
      last possibly shorter (and then there can be more than `count` pieces).
      With fewer than `count` characters, but some, the step is 0 and the Java
      loop never ends; callers never get there. */
  function SplitIntoParts(data: string, count: nat): (parts: seq<string>)
    requires count > 0 && (|data| == 0 || |data| >= count)
    ensures Concat(parts) == data
    ensures forall i :: 0 <= i < |parts| - 1 ==> |parts[i]| == |data| / count
    ensures forall i :: 0 <= i < |parts| ==> 0 < |parts[i]| <= |data| / count
    ensures 0 < |data| && |data| % count == 0 ==>
              (|parts| == count && forall i :: 0 <= i < count ==> |parts[i]| == |data| / count)
  {
    if |data| == 0 then []
    else
      DivMod(|data|, count);
      ChunksOfDivisor(data, count);
      Chunks(data, |data| / count)
  }

  /** When `count` divides a non-empty length, the chunks of `|data| / count`
      characters are exactly `count` pieces of that size. */
  lemma ChunksOfDivisor(data: string, count: nat)
    requires count > 0
    ensures 0 < |data| && |data| % count == 0 ==>
              |Chunks(data, |data| / count)| == count &&
              forall i :: 0 <= i < count ==> |Chunks(data, |data| / count)[i]| == |data| / count
  {
    if 0 < |data| && |data| % count == 0 {
      DivMod(|data|, count);
      TimesIsProduct(count, |data| / count);
      ChunksOfMultiple(data, |data| / count, count);
    }
  }

  // ---------------------------------------------------------------------------
  // xorBinary, xorParts

  /** `xorBinary(a, b)`: '0' where the characters agree, '1' where they differ,
      over the length of `a` (`b.charAt(i)` throws if b is shorter). */
  function XorBinary(a: string, b: string): (r: string)
    requires |b| >= |a|
    ensures |r| == |a| && IsBits(r)
    ensures forall i :: 0 <= i < |a| ==> (r[i] == '0' <==> a[i] == b[i])
  {
    if a == [] then []
    else [if a[0] == b[0] then '0' else '1'] + XorBinary(a[1..], b[1..])
  }

  /** On bit strings xorBinary is exclusive or, so xoring twice with the same
      string gives the first one back. */
  lemma XorCancels(a: string, b: string)
    requires IsBits(a) && IsBits(b) && |a| == |b|
    ensures XorBinary(XorBinary(a, b), b) == a
  {
    var r := XorBinary(XorBinary(a, b), b);
    forall i | 0 <= i < |a|
      ensures r[i] == a[i]
    {
    }
  }

  /** The left fold of xorParts from `acc`; None where xorBinary throws. */
  function XorFold(acc: string, rest: seq<string>): (r: Option<string>)
    ensures r.Some? <==> forall i :: 0 <= i < |rest| ==> |rest[i]| >= |acc|
    ensures r.Some? ==> |r.value| == |acc|
    decreases |rest|
  {
    if rest == [] then Some(acc)
    else if |rest[0]| < |acc| then None
    else
      var r := XorFold(XorBinary(acc, rest[0]), rest[1..]);
      assert forall i :: 1 <= i < |rest| ==> rest[i] == rest[1..][i - 1];
      r
  }

  /** `xorParts`: None for no parts (`get(0)`) or a part shorter than the first. */
  function XorParts(parts: seq<string>): (r: Option<string>)
    ensures r.Some? <==> |parts| > 0 && forall i :: 0 <= i < |parts| ==> |parts[i]| >= |parts[0]|
    ensures r.Some? ==> |r.value| == |parts[0]|
  {
    if |parts| == 0 then None
    else
      assert forall i :: 1 <= i < |parts| ==> parts[i] == parts[1..][i - 1];
      XorFold(parts[0], parts[1..])
  }

  /** Whether column i of the parts holds an odd number of '1's. */
  function OddOnes(parts: seq<string>, i: nat): bool
    requires forall k :: 0 <= k < |parts| ==> i < |parts[k]|
  {
    if parts == [] then false else (parts[0][i] == '1') != OddOnes(parts[1..], i)
  }

  predicate AllBits(parts: seq<string>)
  {
    forall k :: 0 <= k < |parts| ==> IsBits(parts[k])
  }

  lemma {:induction false} XorFoldIsParity(acc: string, rest: seq<string>)
    requires IsBits(acc) && AllBits(rest)
    requires forall k :: 0 <= k < |rest| ==> |rest[k]| >= |acc|
    ensures XorFold(acc, rest).Some?
    ensures forall i :: 0 <= i < |acc| ==>
              (XorFold(acc, rest).value[i] == '1' <==> (acc[i] == '1') != OddOnes(rest, i))
    decreases |rest|
  {
    if rest != [] {
      var next := XorBinary(acc, rest[0]);
      XorFoldIsParity(next, rest[1..]);
    }
  }

  /** On bit strings, xorParts is the bitwise exclusive or of all parts: a
      position is '1' exactly when an odd number of parts have a '1' there. */
  lemma XorPartsIsParity(parts: seq<string>)
    requires |parts| > 0 && AllBits(parts)
    requires forall k :: 0 <= k < |parts| ==> |parts[k]| >= |parts[0]|
    ensures XorParts(parts).Some?
    ensures forall i :: 0 <= i < |parts[0]| ==> (XorParts(parts).value[i] == '1' <==> OddOnes(parts, i))
  {
    XorFoldIsParity(parts[0], parts[1..]);
  }

  // ---------------------------------------------------------------------------
  // make1024Bit, assignDNABases, applyComplementaryPair, dnaXor

  /** `make1024Bit`: the first 1024 characters of a longer string, or the string
      right-padded with '0' to 1024. */
  function Make1024Bit(data: string): (r: string)
    ensures |r| == KEY_BITS
    ensures |data| >= KEY_BITS ==> r == data[..KEY_BITS]
    ensures |data| < KEY_BITS ==> r[..|data|] == data && forall i :: |data| <= i < KEY_BITS ==> r[i] == '0'
  {
    if |data| >= KEY_BITS then data[..KEY_BITS] else data + Zeros(KEY_BITS - |data|)
  }

  /** One `dnaBases[random.nextInt(4)]` per remaining part, the generator having
      already answered `calls`. */
  function DrawBases(count: nat, random: SeededRandom, entropy: int, calls: seq<nat>): (r: string)
    ensures |r| == count && IsDna(r)
  {
    if count == 0 then []
    else
      var made := calls + [4];
      assert made[|made| - 1] == 4;
      [DNA_BASES[random(entropy, made)]] + DrawBases(count - 1, random, entropy, made)
  }

  /** `assignDNABases`: one base per part from `new Random()`, whose seed Java
      picks itself; `entropy` stands for that seed. The parts' contents are never
      read. */
  function AssignDnaBases(parts: seq<string>, random: SeededRandom, entropy: int): (r: string)
    ensures |r| == |parts| && IsDna(r)
  {
    DrawBases(|parts|, random, entropy, [])
  }

  /** The complementary base. */
  function Partner(c: char): (p: char)
    requires IsBase(c)
    ensures IsBase(p) && p != c
  {
    match c
    case 'A' => 'T'
    case 'T' => 'A'
    case 'C' => 'G'
    case 'G' => 'C'
  }

  /** `applyComplementaryPair`: every base replaced by its partner; any other
      character is dropped. */
  function ApplyComplementaryPair(s: string): (r: string)
    ensures |r| <= |s|
    ensures IsDna(s) ==> |r| == |s| && IsDna(r) && forall i :: 0 <= i < |s| ==> r[i] == Partner(s[i])
  {
    if s == [] then []
    else
      var head := if IsBase(s[0]) then [Partner(s[0])] else [];
      head + ApplyComplementaryPair(s[1..])
  }

  /** Complementing twice gives the bases back. */
  lemma ComplementInvolution(s: string)
    requires IsDna(s)
    ensures ApplyComplementaryPair(ApplyComplementaryPair(s)) == s
  {
    var r := ApplyComplementaryPair(ApplyComplementaryPair(s));
    forall i | 0 <= i < |s|
      ensures r[i] == s[i]
    {
      assert Partner(Partner(s[i])) == s[i];
    }
  }

  /** `dnaXor`: a lone part is returned as is; otherwise xorBinary of the first
      two. None where Java throws (no part, or a second part shorter than the
      first). */
  function DnaXor(dnaParts: seq<string>): (r: Option<string>)
    ensures |dnaParts| >= 2 && r.Some? ==> |r.value| == |dnaParts[0]| && IsBits(r.value)
    ensures |dnaParts| >= 2 ==> (r.Some? <==> |dnaParts[1]| >= |dnaParts[0]|)
    ensures |dnaParts| >= 2 && r.Some? ==>
              forall i :: 0 <= i < |dnaParts[0]| ==> (r.value[i] == '0' <==> dnaParts[0][i] == dnaParts[1][i])
    ensures |dnaParts| == 1 ==> r == Some(dnaParts[0])
    ensures dnaParts == [] ==> r.None?
  {
    if |dnaParts| == 0 then None
    else if |dnaParts| < 2 then Some(dnaParts[0])
    else if |dnaParts[1]| < |dnaParts[0]| then None
    else Some(XorBinary(dnaParts[0], dnaParts[1]))
  }

  // ---------------------------------------------------------------------------
  // generateSecretKey

  /** A 4-character string splits into its two halves. */
  lemma HalvesOfFour(s: string)
    requires |s| == 4
    ensures SplitIntoParts(s, 2) == [s[..2], s[2..]]
  {
    var halves := SplitIntoParts(s, 2);
    assert |halves| == 2 && |halves[0]| == 2 && halves[2..] == [];
    assert Concat(halves) == halves[0] + Concat(halves[1..]);
    assert Concat(halves[1..]) == halves[1] + Concat(halves[2..]);
    assert s == halves[0] + halves[1];
  }

  /** Complementing four bases and comparing the halves: position i is '0'
      exactly when bases i and i + 2 agree. */
  lemma CompareComplementedHalves(bases: string)
    requires |bases| == 4 && IsDna(bases)
    ensures var c := ApplyComplementaryPair(bases);
            var k := XorBinary(c[..2], c[2..]);
            |k| == 2 && (k[0] == '0' <==> bases[0] == bases[2]) && (k[1] == '0' <==> bases[1] == bases[3])
  {
    var c := ApplyComplementaryPair(bases);
    assert c[0] == Partner(bases[0]) && c[2] == Partner(bases[2]);
    assert c[1] == Partner(bases[1]) && c[3] == Partner(bases[3]);
    assert Partner(Partner(bases[0])) == bases[0] && Partner(Partner(bases[2])) == bases[2];
    assert Partner(Partner(bases[1])) == bases[1] && Partner(Partner(bases[3])) == bases[3];
  }

  /** Steps 5 to 8 (`make1024Bit` to `dnaXor`). They never throw: 1024 bits
      make four parts, hence four bases and two halves of two. The key compares
      the drawn bases 0 with 2 and 1 with 3, and the folded bits are never read. */
  function KeyFromFold(xorResult: string, random: SeededRandom, entropy: int): (r: Option<string>)
    ensures r.Some? && |r.value| == 2 && IsBits(r.value)
    ensures var bases := DrawBases(4, random, entropy, []);
              (r.value[0] == '0' <==> bases[0] == bases[2]) &&
              (r.value[1] == '0' <==> bases[1] == bases[3])
  {
    var dnaParts := SplitIntoParts(Make1024Bit(xorResult), 4);
    var bases := AssignDnaBases(dnaParts, random, entropy);
    var dnaSequence := ApplyComplementaryPair(bases);
    HalvesOfFour(dnaSequence);
    CompareComplementedHalves(bases);
    DnaXor(SplitIntoParts(dnaSequence, 2))
  }

  /** Whatever the folded bits, the same draws give the same key. */
  lemma KeyIgnoresFold(x: string, y: string, random: SeededRandom, entropy: int)
    ensures KeyFromFold(x, random, entropy) == KeyFromFold(y, random, entropy)
  {
    var a, b := KeyFromFold(x, random, entropy).value, KeyFromFold(y, random, entropy).value;
    assert a == [a[0], a[1]] && b == [b[0], b[1]];
  }

  /** The identity a key generator is built with; set once, never changed. */
  datatype DnaKeyGenerator = DnaKeyGenerator(userId: string, password: string, macAddress: string)
  {
    /** `isAuthorizedUser`: the one allowed user id, compared case-sensitively;
        it is 16 single-byte characters long. */
    predicate IsAuthorizedUser()
      ensures IsAuthorizedUser() ==> |userId| == 16 && IsSingleByte(userId)
    {
      AuthorizedIdIsSingleByte();
      userId == AUTHORIZED_USER_ID
    }

    /** The spliced bit string of steps 1 and 2: the encoded identity with the
        encoded MAC and password inserted. Unless the identity is empty there
        are at least 8 bits, enough to split into four parts. */
    function SplicedBits(): (b: string)
      ensures IsBits(b)
      ensures |b| == |TextToBinary(userId + password + macAddress)| +
                     |TextToBinary(password)| + |TextToBinary(macAddress)|
      ensures userId + password + macAddress == [] <==> |b| == 0
      ensures |b| == 0 || |b| >= 8
    {
      var identity := userId + password + macAddress;
      assert identity == [] ==> password == [] && macAddress == [];
      assert identity != [] ==> |TextToBinary(identity)| >= 8;
      AddMacAndPassword(TextToBinary(identity), TextToBinary(password), TextToBinary(macAddress))
    }

    /** Steps 3 and 4: the spliced bits in four parts, folded with xorBinary;
        None where a part is shorter than the first. The fold is a quarter of
        the spliced bits, and it always exists when their number is a non-zero
        multiple of 4. */
    function FoldedIdentity(): (r: Option<string>)
      ensures SplicedBits() == [] ==> r.None?
      ensures r.Some? ==> 0 < |r.value| <= |SplicedBits()| / 4
      ensures 0 < |SplicedBits()| && |SplicedBits()| % 4 == 0 ==>
                r.Some? && |r.value| == |SplicedBits()| / 4
    {
      var bits := SplicedBits();
      FoldOfEqualParts(bits);
      XorParts(SplitIntoParts(bits, 4))
    }

    /** `generateSecretKey`: "Unauthorized access" for any other user, otherwise
        the derived key; None where Java throws. `entropy` is the seed of the
        unseeded generator in assignDNABases. */
    function GenerateSecretKey(random: SeededRandom, entropy: int): (r: Option<string>)
      ensures r == Some(UNAUTHORIZED) <==> !IsAuthorizedUser()
      ensures IsAuthorizedUser() && r.Some? ==> |r.value| == 2 && IsBits(r.value)
    {
      if !IsAuthorizedUser() then Some(UNAUTHORIZED)
      else
        match FoldedIdentity()
        case None => None
        case Some(xorResult) => KeyFromFold(xorResult, random, entropy)
    }
  }

  /** With single-byte identities the spliced string has
      8 * (|userId| + 2 |password| + 2 |macAddress|) bits. */
  lemma SplicedLength(g: DnaKeyGenerator)
    requires IsSingleByte(g.userId) && IsSingleByte(g.password) && IsSingleByte(g.macAddress)
    ensures |g.SplicedBits()| == 8 * (|g.userId| + 2 * |g.password| + 2 * |g.macAddress|)
  {
    var combined := g.userId + g.password + g.macAddress;
    assert IsSingleByte(combined) by {
      forall i | 0 <= i < |combined|
        ensures combined[i] as int < 256
      {
        if i < |g.userId| {
          assert combined[i] == g.userId[i];
        } else if i < |g.userId| + |g.password| {
          assert combined[i] == g.password[i - |g.userId|];
        } else {
          assert combined[i] == g.macAddress[i - |g.userId| - |g.password|];
        }
      }
    }
    TextToBinaryLength(combined);
    TextToBinaryLength(g.password);
    TextToBinaryLength(g.macAddress);
  }

  /** Four equal non-empty parts always fold. */
  lemma FoldOfEqualParts(data: string)
    ensures 0 < |data| && |data| % 4 == 0 ==> XorParts(SplitIntoParts(data, 4)).Some?
  {
    if 0 < |data| && |data| % 4 == 0 {
      var parts := SplitIntoParts(data, 4);
      assert |parts| == 4 && forall k :: 0 <= k < 4 ==> |parts[k]| == |data| / 4;
    }
  }

  /** An authorized user with single-byte password and MAC always gets a key:
      the spliced string splits into four equal parts, so no xorBinary throws. */
  lemma AuthorizedUserGetsKey(g: DnaKeyGenerator, random: SeededRandom, entropy: int)
    requires g.IsAuthorizedUser() && IsSingleByte(g.password) && IsSingleByte(g.macAddress)
    ensures g.GenerateSecretKey(random, entropy).Some?
  {
    SplicedQuarters(g);
    assert g.FoldedIdentity().Some?;
  }

  /** An authorized identity with single-byte password and MAC splices into a
      non-empty multiple of 4 bits. */
  lemma SplicedQuarters(g: DnaKeyGenerator)
    requires g.IsAuthorizedUser() && IsSingleByte(g.password) && IsSingleByte(g.macAddress)
    ensures 0 < |g.SplicedBits()| && |g.SplicedBits()| % 4 == 0
  {
    var n := |g.SplicedBits()|;
    var q := 2 * (|g.userId| + 2 * |g.password| + 2 * |g.macAddress|);
    SplicedLength(g);
    assert n == 4 * q && q > 0;
    QuarterOf(n, q);
  }

  lemma QuarterOf(n: nat, q: nat)
    requires n == 4 * q
    ensures n % 4 == 0
  {
  }

  lemma AuthorizedIdIsSingleByte()
    ensures IsSingleByte(AUTHORIZED_USER_ID) && |AUTHORIZED_USER_ID| == 16
  {
    assert forall i :: 0 <= i < |AUTHORIZED_USER_ID| ==> AUTHORIZED_USER_ID[i] as int < 128;
  }

  /** The key's first character is '0' exactly when the first and third drawn
      bases agree, the second exactly when the second and fourth agree: nothing
      of the identity survives into the key. */
  lemma SecretKeyComparesDrawnBases(g: DnaKeyGenerator, random: SeededRandom, entropy: int)
    requires g.IsAuthorizedUser() && g.GenerateSecretKey(random, entropy).Some?
    ensures var key, bases := g.GenerateSecretKey(random, entropy).value, DrawBases(4, random, entropy, []);
              |key| == 2 &&
              (key[0] == '0' <==> bases[0] == bases[2]) &&
              (key[1] == '0' <==> bases[1] == bases[3])
  {
  }

  /** Two authorized generators that both succeed derive the same key from the
      same draws, whatever their passwords and MACs. */
  lemma SecretKeyIgnoresCredentials(g: DnaKeyGenerator, h: DnaKeyGenerator, random: SeededRandom, entropy: int)
    requires g.IsAuthorizedUser() && h.IsAuthorizedUser()
    requires g.GenerateSecretKey(random, entropy).Some? && h.GenerateSecretKey(random, entropy).Some?
    ensures g.GenerateSecretKey(random, entropy) == h.GenerateSecretKey(random, entropy)
  {
    KeyIgnoresFold(g.FoldedIdentity().value, h.FoldedIdentity().value, random, entropy);
  }
}
