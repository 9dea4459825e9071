/** `DNAEncryption`: text to bits to bases, then the index-tracked shuffle that
    `variationalEncoding` writes into an envelope; `decrypt` runs the chain back
    without ever using the key, because the manifest travels in the envelope. */
module Encryption {
  import opened JavaText
  import opened Transcoder
  import opened Shuffle
  import opened Envelope

  /** What `encrypt` returns; None where `binaryToDNA` throws on an odd number
      of bits, which single-byte text never produces. The envelope's letters are
      the transcribed bases in some order, followed by '|'. */
  function Encrypted(plaintext: string, random: SeededRandom, key: int): (r: Option<string>)
    ensures r.Some? <==> |TextToBinary(plaintext)| % 2 == 0
    ensures IsSingleByte(plaintext) ==> r.Some?
    ensures r.Some? ==> var dna := BinaryToDna(TextToBinary(plaintext)).value;
              |r.value| > |dna| && r.value[|dna|] == '|' && multiset(r.value[..|dna|]) == multiset(dna)
  {
    TextToBinaryLength(plaintext);
    match BinaryToDna(TextToBinary(plaintext))
    case None => None
    case Some(dna) => Some(Encoded(dna, random, key))
  }

  /** What `decrypt` returns: no key is involved. A result has one character
      per four bases of the envelope's letter part, at most. */
  function Decrypted(envelope: string): (r: Option<string>)
    ensures Restored(envelope).None? ==> r.None?
    ensures r.Some? ==> 4 * |r.value| <= |Split(envelope, '|')[0]|
  {
    match Restored(envelope)
    case None => None
    case Some(dna) => BinaryToText(DnaToBinary(dna))
  }

  /** decrypt(encrypt(t)) == t for non-empty single-byte text, whatever the key. */
  lemma DecryptEncrypt(plaintext: string, random: SeededRandom, key: int)
    requires IsSingleByte(plaintext) && 0 < |plaintext| && 4 * |plaintext| <= INT_MAX
    ensures Encrypted(plaintext, random, key).Some?
    ensures Decrypted(Encrypted(plaintext, random, key).value) == Some(plaintext)
  {
    BasesOfText(plaintext);
    var bits := TextToBinary(plaintext);
    var dna := BinaryToDna(bits).value;
    RestoreEncoded(dna, random, key);
    TextRoundTrip(plaintext);
    assert Decrypted(Encoded(dna, random, key)) == Some(plaintext);
  }

  /** Single-byte text becomes four bases per character, none of them '|', which
      give its bits back. */
  lemma BasesOfText(plaintext: string)
    requires IsSingleByte(plaintext)
    ensures BinaryToDna(TextToBinary(plaintext)).Some?
    ensures var dna := BinaryToDna(TextToBinary(plaintext)).value;
              |dna| == 4 * |plaintext| && '|' !in dna && DnaToBinary(dna) == TextToBinary(plaintext)
  {
    var bits := TextToBinary(plaintext);
    TextToBinaryLength(plaintext);
    BitsRoundTrip(bits);
    BasesLackBar(BinaryToDna(bits).value);
  }

  /** Bases never include the envelope's separator. */
  lemma BasesLackBar(dna: string)
    requires IsDna(dna)
    ensures '|' !in dna
  {
    assert forall i :: 0 <= i < |dna| ==> dna[i] != '|';
  }

  /** The empty text is encrypted to "|", and decrypting that throws (Java's
      split drops both empty fields), so "" does not round-trip. */
  lemma EmptyTextDoesNotRoundTrip(random: SeededRandom, key: int)
    ensures Encrypted([], random, key) == Some("|")
    ensures Decrypted("|") == None
  {
    assert TextToBinary([]) == [];
    assert BinaryToDna([]) == Some([]);
    RestoreEncodedEmpty(random, key);
  }

  class DnaEncryption {
    const key: int
    /** The algorithm of `java.util.Random`, which every `new Random(key)` runs. */
    const rng: SeededRandom

    constructor (key: int, rng: SeededRandom)
      ensures this.key == key && this.rng == rng
    {
      this.key := key;
      this.rng := rng;
    }

    method Encrypt(plaintext: string) returns (r: Option<string>)
      ensures r == Encrypted(plaintext, rng, key)
      ensures IsSingleByte(plaintext) && 0 < |plaintext| && 4 * |plaintext| <= INT_MAX ==>
                r.Some? && Decrypted(r.value) == Some(plaintext)
    {
      if IsSingleByte(plaintext) && 0 < |plaintext| && 4 * |plaintext| <= INT_MAX {
        DecryptEncrypt(plaintext, rng, key);
      }
      var binaryData := TextToBinary(plaintext);
      var dnaSequence := BinaryToDna(binaryData);
      if dnaSequence.None? {
        return None;
      }
      var envelope := VariationalEncoding(dnaSequence.value);
      r := Some(envelope);
    }

    method Decrypt(encryptedDna: string) returns (r: Option<string>)
      ensures r == Decrypted(encryptedDna)
    {
      var originalDna := ReverseVariationalEncoding(encryptedDna);
      if originalDna.None? {
        return None;
      }
      var binaryData := DnaToBinary(originalDna.value);
      r := BinaryToText(binaryData);
    }

    /** Copies the letters and the identity indices into arrays, shuffles both
        in place with generators freshly seeded by `key`, and writes the
        envelope. The envelope depends on the letters and the key alone, and
        reading it back gives the letters. */
    method VariationalEncoding(dnaSequence: string) returns (envelope: string)
      ensures envelope == Encoded(dnaSequence, rng, key)
      ensures 0 < |dnaSequence| <= INT_MAX && '|' !in dnaSequence ==>
                Restored(envelope) == Some(dnaSequence)
    {
      var dnaList := CharArray(dnaSequence);
      var indices := IdentityIndices(|dnaSequence|);
      Shuffle.Shuffle(dnaList, rng, key);
      Shuffle.Shuffle(indices, rng, key);
      var encodedDna := Letters(dnaList);
      var indexString := IndexText(indices);
      envelope := encodedDna + "|" + indexString;
      if 0 < |dnaSequence| <= INT_MAX && '|' !in dnaSequence {
        RestoreEncoded(dnaSequence, rng, key);
      }
    }

    /** Splits the envelope, parses the manifest, and writes letter i at
        position `indices[i]`; None where Java throws. */
    method ReverseVariationalEncoding(encodedDna: string) returns (r: Option<string>)
      ensures r == Restored(encodedDna)
    {
      var parts := Split(encodedDna, '|');
      if |parts| < 2 {
        return None;
      }
      var dnaSequence := parts[0];
      var indices := ParseIndices(Split(parts[1], ','));
      if indices.None? {
        return None;
      }
      r := PlaceLetters(dnaSequence, indices.value);
    }
  }

  // ---------------------------------------------------------------------------
  // The loops of variationalEncoding and reverseVariationalEncoding

  /** The `dnaList.add(c)` loop: the letters in a fresh array. */
  method CharArray(s: string) returns (a: array<char>)
    ensures fresh(a) && a[..] == s
  {
    a := new char[|s|];
    var i := 0;
    while i < |s|
      invariant 0 <= i <= |s|
      invariant a[..i] == s[..i]
    {
      a[i] := s[i];
      i := i + 1;
    }
  }

  /** The `indices[i] = i` loop. */
  method IdentityIndices(n: nat) returns (a: array<int>)
    ensures fresh(a) && a[..] == Iota(n)
  {
    a := new int[n];
    var i := 0;
    while i < n
      invariant 0 <= i <= n
      invariant forall k :: 0 <= k < i ==> a[k] == k
    {
      a[i] := i;
      i := i + 1;
    }
  }

  /** The `encodedDna.append(c)` loop. */
  method Letters(a: array<char>) returns (s: string)
    ensures s == a[..]
  {
    s := "";
    var i := 0;
    while i < a.Length
      invariant 0 <= i <= a.Length
      invariant s == a[..i]
    {
      s := s + [a[i]];
      i := i + 1;
    }
  }

  /** The `indexString.append(index).append(",")` loop. */
  method IndexText(a: array<int>) returns (s: string)
    ensures s == ManifestText(a[..])
  {
    s := "";
    var i := 0;
    while i < a.Length
      invariant 0 <= i <= a.Length
      invariant s == ManifestText(a[..i])
    {
      assert a[..i + 1] == a[..i] + [a[i]];
      ManifestTextAppend(a[..i], a[i]);
      s := s + IntToString(a[i]) + ",";
      i := i + 1;
    }
    assert a[..a.Length] == a[..];
  }

  /** The `Integer.parseInt` loop into a fresh index array; None as soon as a
      token does not parse. */
  method ParseIndices(indexStrings: seq<string>) returns (r: Option<array<int>>)
    ensures r.None? <==> ParseAll(indexStrings).None?
    ensures r.Some? ==> fresh(r.value) && r.value[..] == ParseAll(indexStrings).value
  {
    var indices := new int[|indexStrings|];
    var i := 0;
    while i < |indexStrings|
      invariant 0 <= i <= |indexStrings|
      invariant forall k :: 0 <= k < i ==> ParseInt(indexStrings[k], 10) == Some(indices[k])
    {
      var parsed := ParseInt(indexStrings[i], 10);
      if parsed.None? {
        return None;
      }
      indices[i] := parsed.value;
      i := i + 1;
    }
    ParseAllOf(indexStrings, indices[..]);
    r := Some(indices);
  }

  /** The `originalDnaArray[indices[i]] = dnaSequence.charAt(i)` loop over a
      fresh all-'\0' array; None where an index is missing or out of bounds. */
  method PlaceLetters(dnaSequence: string, indices: array<int>) returns (r: Option<string>)
    ensures r == if Fits(dnaSequence, indices[..], |dnaSequence|)
                 then Some(Placed(dnaSequence, indices[..], |dnaSequence|)) else None
  {
    var n := |dnaSequence|;
    var originalDnaArray := new char[n](_ => 0 as char);
    ghost var manifest := indices[..];
    var i := 0;
    while i < n
      invariant 0 <= i <= n
      invariant Fits(dnaSequence, manifest, i)
      invariant originalDnaArray[..] == Placed(dnaSequence, manifest, i)
    {
      if i >= indices.Length || indices[i] < 0 || indices[i] >= n {
        assert !Fits(dnaSequence, manifest, n);
        return None;
      }
      assert Fits(dnaSequence, manifest, i + 1);
      originalDnaArray[indices[i]] := dnaSequence[i];
      i := i + 1;
    }
    r := Some(originalDnaArray[..]);
  }
}
