/**
 An idealised stand-in for the bcrypt package the directory relies on.
 bcrypt keys its cipher on exactly 72 bytes: the password followed by a NUL
 byte, repeated cyclically until 72 bytes are read. A digest records the
 cost, the random salt and that key; only `CompareHashAndPassword` looks
 inside it. Apart from what the key loses the hash is taken as
 collision-free. The random source is a parameter: `None` stands for any
 failure to generate the hash.
 */
module Bcrypt {
  import opened Options

  /** The number of key bytes bcrypt's key schedule reads. */
  const MaxKeyBytes: nat := 72

  /** The byte that terminates the password inside the key. */
  const Nul: char := 0 as char

  /** The first `k` bytes of `c` repeated without end. */
  function Cycle(c: string, k: nat): (r: string)
    requires |c| > 0
    ensures |r| == k
    ensures k <= |c| ==> r == c[..k]
    ensures k >= |c| ==> r[..|c|] == c
    decreases k
  {
    if k <= |c| then c[..k] else c + Cycle(c, k - |c|)
  }

  /** Past its first round, a cycle repeats itself. */
  lemma {:induction false} CyclePeriodic(c: string, k: nat)
    requires |c| > 0
    ensures forall i :: |c| <= i < k ==> Cycle(c, k)[i] == Cycle(c, k)[i - |c|]
    decreases k
  {
    if k > |c| {
      var rest := Cycle(c, k - |c|);
      assert Cycle(c, k) == c + rest;
      CyclePeriodic(c, k - |c|);
      forall i | |c| <= i < k
        ensures Cycle(c, k)[i] == Cycle(c, k)[i - |c|]
      {
        if i - |c| >= |c| {
          assert rest[i - |c|] == rest[i - 2 * |c|];
        }
      }
    }
  }

  /** The key bcrypt derives from a password: the password and a NUL byte,
      read cyclically until 72 bytes are taken. */
  function Key(password: string): (k: string)
    ensures |k| == MaxKeyBytes
    ensures |password| >= MaxKeyBytes ==> k == password[..MaxKeyBytes]
    ensures |password| < MaxKeyBytes ==> k[..|password| + 1] == password + [Nul]
    ensures forall i :: |password| + 1 <= i < MaxKeyBytes ==> k[i] == k[i - (|password| + 1)]
  {
    CyclePeriodic(password + [Nul], MaxKeyBytes);
    Cycle(password + [Nul], MaxKeyBytes)
  }

  datatype Digest = Digest(cost: nat, salt: nat, key: string)

  /** The cost the relay asks for. */
  const MinCost: nat := 4

  /** Hashes `password` with a fresh salt drawn from the random source;
      fails exactly when the random source does. */
  function GenerateFromPassword(password: string, cost: nat, salt: Option<nat>): (r: Option<Digest>)
    ensures r.Some? <==> salt.Some?
    ensures r.Some? ==> r.value.cost == cost && CompareHashAndPassword(r.value, password)
  {
    match salt
    case None => None
    case Some(s) => Some(Digest(cost, s, Key(password)))
  }

  /** Accepts `password` against `hash`. */
  function CompareHashAndPassword(hash: Digest, password: string): bool
  {
    hash.key == Key(password)
  }

  /** A digest accepts exactly the passwords whose key equals the key of
      the one it was made from. */
  lemma AcceptsSameKey(password: string, cost: nat, salt: nat, other: string)
    ensures CompareHashAndPassword(GenerateFromPassword(password, cost, Some(salt)).value, other)
      <==> Key(other) == Key(password)
  {
  }

  /** Repeating a cycle twice over is the same cycle. */
  lemma {:induction false} CycleDouble(c: string, k: nat)
    requires |c| > 0
    ensures Cycle(c + c, k) == Cycle(c, k)
    decreases k
  {
    if k <= |c| {
      assert (c + c)[..k] == c[..k];
    } else if k <= 2 * |c| {
      assert (c + c)[..k] == c + c[..k - |c|];
    } else {
      CycleDouble(c, k - 2 * |c|);
      assert Cycle(c, k) == c + (c + Cycle(c, k - 2 * |c|));
    }
  }

  /** A password followed by a NUL byte and itself again has the same key
      as the password alone, so each digest accepts the other: "ab" and
      "ab", NUL, "ab" collide. */
  lemma NulRepeatCollides(password: string)
    ensures Key(password + [Nul] + password) == Key(password)
  {
    var c := password + [Nul];
    assert password + [Nul] + password + [Nul] == c + c;
    CycleDouble(c, MaxKeyBytes);
  }

  /** A password of 71 bytes collides with itself followed by a NUL byte. */
  lemma TrailingNulCollides(password: string)
    requires |password| == MaxKeyBytes - 1
    ensures Key(password + [Nul]) == Key(password)
  {
  }

  /** The key of a short NUL-free password holds its first NUL byte right
      after the password. */
  lemma FirstNulEndsPassword(password: string)
    requires |password| < MaxKeyBytes && Nul !in password
    ensures Key(password)[|password|] == Nul
    ensures forall i :: 0 <= i < |password| ==> Key(password)[i] != Nul
  {
    var k := Key(password);
    assert k[..|password| + 1] == password + [Nul];
    forall i | 0 <= i < |password|
      ensures k[i] != Nul
    {
      assert k[i] == password[i];
    }
  }

  /** Among passwords free of NUL bytes, one shorter than 72 bytes is the
      only one its digest accepts. */
  lemma ShortPasswordOnlyItself(password: string, cost: nat, salt: nat, other: string)
    requires |password| < MaxKeyBytes && Nul !in password && Nul !in other
    requires CompareHashAndPassword(GenerateFromPassword(password, cost, Some(salt)).value, other)
    ensures other == password
  {
    var k := Key(password);
    assert Key(other) == k;
    FirstNulEndsPassword(password);
    if |other| < MaxKeyBytes {
      FirstNulEndsPassword(other);
      if |other| != |password| {
        assert false;
      }
      assert other == k[..|other|] == password;
    }
  }

  /** Bytes past the 72nd are ignored: the digest of a long password also
      accepts it with anything appended. */
  lemma LongPasswordTailIgnored(password: string, cost: nat, salt: nat, tail: string)
    requires |password| >= MaxKeyBytes
    ensures CompareHashAndPassword(GenerateFromPassword(password, cost, Some(salt)).value, password + tail)
  {
    assert (password + tail)[..MaxKeyBytes] == password[..MaxKeyBytes];
  }
}
