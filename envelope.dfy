/** The envelope `variationalEncoding` writes and `reverseVariationalEncoding`
    reads: the shuffled letters, a '|', then every manifest entry in decimal
    followed by ','. Reading it back splits on '|' and ',', parses each entry,
    and writes letter i at position `manifest[i]` of a fresh char array. */
module Envelope {
  import opened JavaText
  import opened Shuffle

  /** The decimal tokens of the manifest. */
  function Tokens(m: seq<int>): (ts: seq<string>)
    ensures |ts| == |m| && forall k :: 0 <= k < |m| ==> ts[k] == IntToString(m[k])
  {
    seq(|m|, k requires 0 <= k < |m| => IntToString(m[k]))
  }

  /** `indexString`: each entry then ','. It never holds the '|' that ends the
      letters, and it is empty exactly when there are no entries. */
  function ManifestText(m: seq<int>): (t: string)
    ensures '|' !in t
    ensures t == [] <==> m == []
  {
    JoinTerminatedLacks(Tokens(m), ',', '|');
    JoinTerminated(Tokens(m), ',')
  }

  /** `encodedDna + "|" + indexString`: when the letters lack '|' and there is
      an entry, splitting on '|' gives the two parts back. */
  function EnvelopeText(letters: string, m: seq<int>): (t: string)
    ensures '|' !in letters && m != [] ==> Split(t, '|') == [letters, ManifestText(m)]
  {
    SplitPair(letters, '|', ManifestText(m));
    letters + "|" + ManifestText(m)
  }

  /** What `variationalEncoding` returns for `dna` with key `seed`: both the
      letters and the identity indices are shuffled by a fresh generator on
      `seed`. The letter part is a permutation of `dna`, and the manifest
      lists each position of `dna` once. */
  function Encoded(dna: string, random: SeededRandom, seed: int): (r: string)
    ensures |r| > |dna| && r[|dna|] == '|'
    ensures multiset(r[..|dna|]) == multiset(dna)
    ensures IsPermutation(Manifest(random, seed, |dna|), |dna|)
    ensures r[|dna| + 1..] == ManifestText(Manifest(random, seed, |dna|))
  {
    ManifestIsPermutation(random, seed, |dna|);
    var letters := Shuffled(dna, random, seed);
    var r := EnvelopeText(letters, Manifest(random, seed, |dna|));
    assert r[..|dna|] == letters;
    r
  }

  lemma {:induction false} ManifestTextAppend(m: seq<int>, v: int)
    ensures ManifestText(m + [v]) == ManifestText(m) + IntToString(v) + ","
  {
    assert Tokens(m + [v]) == Tokens(m) + [IntToString(v)];
    JoinTerminatedAppend(Tokens(m), IntToString(v), ',');
  }

  // ---------------------------------------------------------------------------
  // Reading an envelope

  /** The `Integer.parseInt` loop over the index tokens; None as soon as one
      token does not parse. */
  function ParseAll(tokens: seq<string>): (r: Option<seq<int>>)
    ensures r.Some? <==> forall k :: 0 <= k < |tokens| ==> ParseInt(tokens[k], 10).Some?
    ensures r.Some? ==> |r.value| == |tokens|
    ensures r.Some? ==> forall k :: 0 <= k < |tokens| ==> r.value[k] == ParseInt(tokens[k], 10).value
  {
    if tokens == [] then Some([])
    else
      match ParseInt(tokens[0], 10)
      case None => None
      case Some(v) =>
        match ParseAll(tokens[1..])
        case None =>
          assert forall k :: 1 <= k < |tokens| ==> tokens[k] == tokens[1..][k - 1];
          None
        case Some(vs) => Some([v] + vs)
  }

  lemma {:induction false} ParseAllOf(tokens: seq<string>, vs: seq<int>)
    requires |vs| == |tokens|
    requires forall k :: 0 <= k < |tokens| ==> ParseInt(tokens[k], 10) == Some(vs[k])
    ensures ParseAll(tokens) == Some(vs)
  {
    var r := ParseAll(tokens);
    assert r.Some?;
    assert r.value == vs;
  }

  /** The placement loop can run its first k steps: there are k indices, and each
      of them is a position of `originalDnaArray`. */
  predicate Fits(dna: string, indices: seq<int>, k: nat)
  {
    k <= |dna| && k <= |indices| && forall i :: 0 <= i < k ==> 0 <= indices[i] < |dna|
  }

  /** `originalDnaArray` after k steps of `originalDnaArray[indices[i]] =
      dnaSequence.charAt(i)`, starting from Java's all-'\0' array. */
  function Placed(dna: string, indices: seq<int>, k: nat): (r: string)
    requires Fits(dna, indices, k)
    ensures |r| == |dna|
  {
    if k == 0 then seq(|dna|, _ => 0 as char)
    else Placed(dna, indices, k - 1)[indices[k - 1] := dna[k - 1]]
  }

  /** What `reverseVariationalEncoding` returns; None where Java throws: no
      second part after '|', an entry that does not parse, fewer entries than
      letters, or an entry outside the array. */
  function Restored(envelope: string): (r: Option<string>)
    ensures r.Some? ==> |Split(envelope, '|')| >= 2 && |r.value| == |Split(envelope, '|')[0]|
  {
    var parts := Split(envelope, '|');
    if |parts| < 2 then None
    else
      var dna := parts[0];
      match ParseAll(Split(parts[1], ','))
      case None => None
      case Some(indices) =>
        if Fits(dna, indices, |dna|) then Some(Placed(dna, indices, |dna|)) else None
  }

  /** With no index repeated, each letter stays where it was put. */
  lemma {:induction false} PlacedAt(dna: string, indices: seq<int>, k: nat)
    requires Fits(dna, indices, k)
    requires forall i, j :: 0 <= i < j < k ==> indices[i] != indices[j]
    ensures forall i :: 0 <= i < k ==> Placed(dna, indices, k)[indices[i]] == dna[i]
    decreases k
  {
    if k > 0 {
      PlacedAt(dna, indices, k - 1);
    }
  }

  lemma TokenFacts(v: int)
    requires 0 <= v <= INT_MAX
    ensures IntToString(v) != [] && ',' !in IntToString(v) && '|' !in IntToString(v)
    ensures ParseInt(IntToString(v), 10) == Some(v)
  {
    ParseIntToString(v);
    var s := IntToString(v);
    assert forall i :: 0 <= i < |s| ==> s[i] != ',' && s[i] != '|';
  }

  lemma TokensSplitBack(m: seq<int>, n: nat)
    requires 0 < |m| && n <= INT_MAX && InRange(m, n)
    ensures '|' !in ManifestText(m) && ManifestText(m) != []
    ensures ParseAll(Split(ManifestText(m), ',')) == Some(m)
  {
    var ts := Tokens(m);
    forall k | 0 <= k < |ts|
      ensures ts[k] != [] && ',' !in ts[k] && '|' !in ts[k]
      ensures ParseInt(ts[k], 10) == Some(m[k])
    {
      TokenFacts(m[k]);
    }
    JoinTerminatedLacks(ts, ',', '|');
    SplitJoinTerminated(ts, ',');
    var r := ParseAll(ts);
    assert r.Some?;
    assert r.value == m;
  }

  /** An envelope whose two parts are the letters and a parsable manifest that
      fits them reads back to the letters placed by the manifest. */
  lemma RestoredOf(envelope: string, letters: string, text: string, m: seq<int>)
    requires Split(envelope, '|') == [letters, text]
    requires ParseAll(Split(text, ',')) == Some(m) && Fits(letters, m, |letters|)
    ensures Restored(envelope) == Some(Placed(letters, m, |letters|))
  {
  }

  /** An envelope of letters and a permutation manifest parses back to the
      letters placed by the manifest. */
  lemma RestoreEnvelopeText(letters: string, m: seq<int>)
    requires 0 < |letters| <= INT_MAX && '|' !in letters && IsPermutation(m, |letters|)
    ensures Fits(letters, m, |letters|)
    ensures Restored(EnvelopeText(letters, m)) == Some(Placed(letters, m, |letters|))
  {
    var text := ManifestText(m);
    TokensSplitBack(m, |letters|);
    SplitPair(letters, '|', text);
    assert EnvelopeText(letters, m) == letters + ['|'] + text;
    RestoredOf(EnvelopeText(letters, m), letters, text, m);
  }

  /** Placing `letters[i]` at `m[i]`, where `letters[i]` came from `dna[m[i]]`,
      rebuilds `dna`. */
  lemma PlacedInverts(dna: string, letters: string, m: seq<int>)
    requires IsPermutation(m, |dna|) && |letters| == |dna|
    requires forall i :: 0 <= i < |dna| ==> letters[i] == dna[m[i]]
    ensures Placed(letters, m, |dna|) == dna
  {
    var n := |dna|;
    var out := Placed(letters, m, n);
    PlacedAt(letters, m, n);
    forall p | 0 <= p < n
      ensures out[p] == dna[p]
    {
      assert p in m;
      var i :| 0 <= i < |m| && m[i] == p;
      assert out[m[i]] == letters[i];
    }
    assert out == dna;
  }

  /** Reading back an envelope of a non-empty letter sequence (without '|')
      gives the letters in their original order. */
  lemma RestoreEncoded(dna: string, random: SeededRandom, seed: int)
    requires 0 < |dna| <= INT_MAX && '|' !in dna
    ensures Restored(Encoded(dna, random, seed)) == Some(dna)
  {
    var n := |dna|;
    var letters := Shuffled(dna, random, seed);
    var m := Manifest(random, seed, n);
    ManifestIsPermutation(random, seed, n);
    ShuffledFollowsManifest(dna, random, seed);
    assert '|' !in letters by {
      assert '|' !in multiset(dna);
    }
    RestoreEnvelopeText(letters, m);
    PlacedInverts(dna, letters, m);
  }

  /** An empty letter sequence gives the envelope "|", which Java splits into no
      part at all: reading it back throws instead of giving "". */
  lemma RestoreEncodedEmpty(random: SeededRandom, seed: int)
    ensures Encoded([], random, seed) == "|"
    ensures Restored("|") == None
  {
    assert Manifest(random, seed, 0) == [];
    SplitSeparatorOnly('|');
  }
}
