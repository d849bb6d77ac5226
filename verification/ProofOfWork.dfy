/**
 Hashing of proof-of-work inputs. The digest itself is a parameter: any function from text
 to 64 hexadecimal digits.
 */
module ProofOfWork {
  import opened Wrappers
  import opened BigInt
  import opened Hex

  const NONCE_LENGTH := 64

  type Digest = s: string | |s| == NONCE_LENGTH && IsHexString(s) witness Zeros(NONCE_LENGTH)

  /** Thirty-two random bytes in upper-case hexadecimal, as the nonce generator makes them. */
  type Nonce = s: string | |s| == NONCE_LENGTH && IsUpperHexString(s) witness Zeros(NONCE_LENGTH)

  datatype Proof = Proof(challengeNonce: string, responseNonce: string, requestData: string)

  function Concat(items: seq<string>): string {
    if items == [] then "" else Concat(items[..|items| - 1]) + items[|items| - 1]
  }

  /** The items are fed to the hash one after the other, so only their concatenation counts. */
  method HashAsHexString(digest: string -> Digest, items: seq<string>) returns (hash: Digest)
    ensures hash == digest(Concat(items))
  {
    var fed := "";
    for i := 0 to |items|
      invariant fed == Concat(items[..i])
    {
      fed := fed + items[i];
      assert items[..i + 1][..i] == items[..i];
    }
    assert items[..|items|] == items;
    hash := digest(fed);
  }

  function HashInput(proof: Proof): string {
    proof.challengeNonce + proof.responseNonce + proof.requestData
  }

  function HashValue(digest: string -> Digest, proof: Proof): int {
    Parse(digest(HashInput(proof)))
  }

  lemma ConcatThree(a: string, b: string, c: string)
    ensures Concat([a, b, c]) == a + b + c
  {
    assert [a, b, c][..2] == [a, b] && [a, b][..1] == [a] && [a][..0] == [];
    assert Concat([a]) == Concat([]) + a;
    assert Concat([a, b]) == Concat([a]) + b;
  }

  /** Items after one another are their texts after one another. */
  lemma {:induction false} ConcatSplits(a: seq<string>, b: seq<string>)
    ensures Concat(a + b) == Concat(a) + Concat(b)
  {
    if b == [] {
      assert a + b == a;
    } else {
      var n := |b| - 1;
      ConcatSplits(a, b[..n]);
      assert (a + b)[..|a + b| - 1] == a + b[..n];
    }
  }

  lemma ConcatOne(a: string)
    ensures Concat([a]) == a && Concat([]) == ""
  {
    assert [a][..0] == [];
  }

  method ComputeHash(digest: string -> Digest, proof: Proof) returns (hash: Digest)
    ensures hash == digest(proof.challengeNonce + proof.responseNonce + proof.requestData)
    ensures Parse(hash) == HashValue(digest, proof)
    ensures 0 <= Parse(hash) < Pow(16, WIDTH)
  {
    hash := HashAsHexString(digest, [proof.challengeNonce, proof.responseNonce, proof.requestData]);
    ConcatThree(proof.challengeNonce, proof.responseNonce, proof.requestData);
    ParseBounds(hash);
  }

  method VerifyResponseNonce(digest: string -> Digest, proof: Proof, maximumAllowedHashValue: int)
    returns (sufficient: bool)
    ensures sufficient
       <==> Parse(digest(proof.challengeNonce + proof.responseNonce + proof.requestData)) <= maximumAllowedHashValue
    ensures sufficient <==> HashValue(digest, proof) <= maximumAllowedHashValue
  {
    var hash := ComputeHash(digest, proof);
    sufficient := Parse(hash) <= maximumAllowedHashValue;
  }

  predicate Qualifies(digest: string -> Digest, maximum: string, challengeNonce: string, requestData: string,
                      nonce: Nonce)
    requires IsHexString(maximum)
  {
    HashValue(digest, Proof(challengeNonce, nonce, requestData)) <= Parse(maximum)
  }

  /**
   The client's search. `draws` are the nonces the generator would produce one after the
   other; with `None` the search is still going on when they run out.
   */
  method FindQualifiedResponseNonce(digest: string -> Digest, maximum: string, challengeNonce: string,
                                    requestData: string, draws: seq<Nonce>)
    returns (found: Option<Nonce>)
    requires IsHexString(maximum)
    ensures found.Some? ==>
              exists i :: 0 <= i < |draws| && draws[i] == found.value
                && Qualifies(digest, maximum, challengeNonce, requestData, draws[i])
                && forall j :: 0 <= j < i ==> !Qualifies(digest, maximum, challengeNonce, requestData, draws[j])
    ensures found.None? ==>
              forall j :: 0 <= j < |draws| ==> !Qualifies(digest, maximum, challengeNonce, requestData, draws[j])
    ensures found.Some? ==> Parse(digest(challengeNonce + found.value + requestData)) <= Parse(maximum)
    ensures forall nonce <- draws ::
              Parse(digest(challengeNonce + nonce + requestData)) <= Parse(maximum) ==> found.Some?
  {
    var iterations := 0;
    found := None;
    while iterations < |draws|
      invariant 0 <= iterations <= |draws|
      invariant forall j :: 0 <= j < iterations ==> !Qualifies(digest, maximum, challengeNonce, requestData, draws[j])
    {
      var randomNonce := draws[iterations];
      var hash := ComputeHash(digest, Proof(challengeNonce, randomNonce, requestData));
      if Parse(hash) <= Parse(maximum) {
        return Some(randomNonce);
      }
      iterations := iterations + 1;
    }
  }

  /** With both nonces 64 characters long, the hash input determines all three parts. */
  lemma HashInputDecodes(p: Proof, q: Proof)
    requires |p.challengeNonce| == |q.challengeNonce| == NONCE_LENGTH
    requires |p.responseNonce| == |q.responseNonce| == NONCE_LENGTH
    requires HashInput(p) == HashInput(q)
    ensures p == q
  {
    var a, b := HashInput(p), HashInput(q);
    assert p.challengeNonce == a[..NONCE_LENGTH] && q.challengeNonce == b[..NONCE_LENGTH];
    assert p.responseNonce == a[NONCE_LENGTH..2 * NONCE_LENGTH] && q.responseNonce == b[NONCE_LENGTH..2 * NONCE_LENGTH];
    assert p.requestData == a[2 * NONCE_LENGTH..] && q.requestData == b[2 * NONCE_LENGTH..];
  }

  /**
   Without the length check on the response nonce, a solved puzzle could be handed in again under
   any shorter nonce, whatever the challenge: the tail goes over to the request data.
   */
  lemma LengthCheckNeeded(challengeNonce: string, head: string, tail: string, requestData: string)
    requires tail != ""
    ensures var p := Proof(challengeNonce, head + tail, requestData);
            var q := Proof(challengeNonce, head, tail + requestData);
            p != q && HashInput(p) == HashInput(q)
  {
    assert |head + tail| != |head|;
    assert challengeNonce + (head + tail) + requestData == challengeNonce + head + (tail + requestData);
  }
}
