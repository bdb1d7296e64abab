/** Short-ID generation: a fixed-length string over a 62-character alphabet.

    The process-wide pseudo-random source of the service is replaced by an
    injected stream of draws; each draw is an index into `Charset`, which is
    exactly the range `rand.Intn(len(charset))` yields.
 */
module ShortId {

  const Lowercase: string := "abcdefghijklmnopqrstuvwxyz"
  const Uppercase: string := "ABCDEFGHIJKLMNOPQRSTUVWXYZ"
  const Digits: string := "0123456789"

  /** The alphabet short IDs are drawn from: the 62-character string
      "abc...xyzABC...XYZ0123456789", written in three parts so that the
      verifier can index into it. */
  const Charset: string := Lowercase + Uppercase + Digits

  /** The length every short ID is generated with. */
  const IdLength: nat := 6

  /** `[a-zA-Z0-9]`: the characters an ID may contain. */
  predicate IsAlphanumeric(c: char) {
    ('a' <= c <= 'z') || ('A' <= c <= 'Z') || ('0' <= c <= '9')
  }

  /** A well-formed short ID: `IdLength` alphanumeric characters. */
  predicate IsShortId(id: string) {
    |id| == IdLength && forall k :: 0 <= k < |id| ==> IsAlphanumeric(id[k])
  }

  /** Every draw is an index that `rand.Intn(len(charset))` can return. */
  predicate ValidDraws(draws: seq<int>) {
    forall k :: 0 <= k < |draws| ==> 0 <= draws[k] < |Charset|
  }

  /** Position of an alphanumeric character in `Charset`. */
  function CharsetIndex(c: char): (i: nat)
    requires IsAlphanumeric(c)
    ensures i < |Charset| && Charset[i] == c
  {
    if 'a' <= c <= 'z' then c as int - 'a' as int
    else if 'A' <= c <= 'Z' then 26 + (c as int - 'A' as int)
    else 52 + (c as int - '0' as int)
  }

  lemma LowercaseAt(k: nat)
    requires k < |Lowercase|
    ensures Lowercase[k] == ('a' as int + k) as char
  {
  }

  lemma UppercaseAt(k: nat)
    requires k < |Uppercase|
    ensures Uppercase[k] == ('A' as int + k) as char
  {
  }

  lemma DigitsAt(k: nat)
    requires k < |Digits|
    ensures Digits[k] == ('0' as int + k) as char
  {
  }

  /** Entry `k` of the alphabet is alphanumeric and sits at position `k`. */
  lemma CharsetAt(k: nat)
    requires k < |Charset|
    ensures IsAlphanumeric(Charset[k]) && CharsetIndex(Charset[k]) == k
  {
    if k < 26 {
      assert Charset[k] == Lowercase[k];
      LowercaseAt(k);
    } else if k < 52 {
      assert Charset[k] == Uppercase[k - 26];
      UppercaseAt(k - 26);
    } else {
      assert Charset[k] == Digits[k - 52];
      DigitsAt(k - 52);
    }
  }

  /** The alphabet is the source's 62-character string. */
  lemma CharsetIsSourceAlphabet()
    ensures |Charset| == 62
    ensures Charset == "abcdefghijklmnopqrstuvwxyzABCDEFGHIJKLMNOPQRSTUVWXYZ0123456789"
  {
    var letters := "abcdefghijklmnopqrstuvwxyzABCDEFGHIJKLMNOPQRSTUVWXYZ";
    assert Lowercase + Uppercase == letters;
    assert letters + Digits == "abcdefghijklmnopqrstuvwxyzABCDEFGHIJKLMNOPQRSTUVWXYZ0123456789";
  }

  /** The alphabet is exactly `[a-zA-Z0-9]`: each entry is alphanumeric and
      sits at its own `CharsetIndex` (so no character occurs twice), and every
      alphanumeric character is among them. */
  lemma CharsetIsAlphanumeric()
    ensures forall k :: 0 <= k < |Charset| ==> IsAlphanumeric(Charset[k]) && CharsetIndex(Charset[k]) == k
    ensures forall c :: IsAlphanumeric(c) <==> c in Charset
  {
    forall k | 0 <= k < |Charset|
      ensures IsAlphanumeric(Charset[k]) && CharsetIndex(Charset[k]) == k
    {
      CharsetAt(k);
    }
    forall c | c in Charset ensures IsAlphanumeric(c) {
      var k :| 0 <= k < |Charset| && Charset[k] == c;
      CharsetAt(k);
    }
    forall c | IsAlphanumeric(c) ensures c in Charset {
      assert Charset[CharsetIndex(c)] == c;
    }
  }

  /** The ID the generator builds from a sequence of draws, one character per
      draw, appended in order. */
  function IdFromDraws(draws: seq<int>): (id: string)
    requires ValidDraws(draws)
    ensures |id| == |draws|
    ensures forall k :: 0 <= k < |id| ==> id[k] == Charset[draws[k]] && IsAlphanumeric(id[k])
  {
    if draws == [] then []
    else
      var last := |draws| - 1;
      CharsetAt(draws[last]);
      IdFromDraws(draws[..last]) + [Charset[draws[last]]]
  }

  /** The draws that make the generator produce `id`. */
  function DrawsFor(id: string): (draws: seq<int>)
    requires forall k :: 0 <= k < |id| ==> IsAlphanumeric(id[k])
    ensures ValidDraws(draws) && |draws| == |id|
    ensures forall k :: 0 <= k < |id| ==> Charset[draws[k]] == id[k]
  {
    seq(|id|, k requires 0 <= k < |id| => CharsetIndex(id[k]))
  }

  /** Every alphanumeric string is the generator's output for some draws:
      the generator can reach the whole ID space. */
  lemma GeneratorReachesEveryId(id: string)
    requires forall k :: 0 <= k < |id| ==> IsAlphanumeric(id[k])
    ensures IdFromDraws(DrawsFor(id)) == id
  {
  }

  /** Distinct draws give distinct IDs: the draws can be read back from the
      ID, so a uniform source yields uniformly distributed IDs. */
  lemma DrawsRecoverable(draws: seq<int>)
    requires ValidDraws(draws)
    ensures DrawsFor(IdFromDraws(draws)) == draws
  {
    var id := IdFromDraws(draws);
    forall k | 0 <= k < |draws| ensures DrawsFor(id)[k] == draws[k] {
      CharsetAt(draws[k]);
    }
  }

  /** `generateShortID`: append `length` characters, the `i`-th chosen by
      draw `i`. Consumes the first `length` draws of the stream. */
  method GenerateShortId(length: nat, draws: seq<int>) returns (id: string)
    requires ValidDraws(draws) && length <= |draws|
    ensures id == IdFromDraws(draws[..length])
    ensures |id| == length
    ensures forall k :: 0 <= k < |id| ==> IsAlphanumeric(id[k]) && id[k] == Charset[draws[k]]
  {
    id := [];
    var i := 0;
    while i < length
      invariant 0 <= i <= length
      invariant id == IdFromDraws(draws[..i])
    {
      assert draws[..i + 1][..i] == draws[..i];
      id := id + [Charset[draws[i]]];
      i := i + 1;
    }
    assert draws[..length] == draws[..i];
  }

  /** What is left of a stream after some draws are consumed is a stream. */
  lemma RemainingDrawsValid(draws: seq<int>, n: nat)
    requires ValidDraws(draws) && n <= |draws|
    ensures ValidDraws(draws[n..])
  {
  }
}
