/**
 The payload store's keys: a key byte string derived from a master key and a
 payload's name, and the cyclic XOR stream that decrypts with it.
 */
module XorKeys {

  const KEY_SIZE := 30
  const VERSION: bv8 := 1

  type Bytes = seq<bv8>

  /** Each byte XORed with the key's byte at its index, cyclically. */
  function XorStream(data: Bytes, key: Bytes): Bytes
    requires key != []
  {
    seq(|data|, i requires 0 <= i < |data| => data[i] ^ key[i % |key|])
  }

  /** The XOR of the bytes of name at the indices congruent to j modulo n. */
  function Folded(name: Bytes, j: nat, n: nat): bv8
    requires n > 0
  {
    if name == [] then 0
    else
      var last := |name| - 1;
      Folded(name[..last], j, n) ^ if last % n == j then name[last] else 0
  }

  /** The key with each byte XORed with the bytes of the name that fall on it. */
  function Derived(key: Bytes, name: Bytes): Bytes
    requires key != []
  {
    seq(|key|, j requires 0 <= j < |key| => key[j] ^ Folded(name, j, |key|))
  }

  predicate IsValid(key: Bytes) {
    |key| == KEY_SIZE && key[0] == VERSION
  }

  lemma {:induction false} XorAssociates(a: bv8, b: bv8, c: bv8)
    ensures a ^ (b ^ c) == (a ^ b) ^ c
    ensures a ^ (b ^ 0) == a ^ b
  {
  }

  lemma {:induction false} FoldedStep(name: Bytes, i: nat, j: nat, n: nat)
    requires i < |name| && n > 0
    ensures Folded(name[..i + 1], j, n) == Folded(name[..i], j, n) ^ if i % n == j then name[i] else 0
  {
    assert name[..i + 1][..i] == name[..i];
  }

  lemma {:induction false} ShortFold(name: Bytes, j: nat, n: nat)
    requires j < n && |name| <= n
    ensures Folded(name, j, n) == if j < |name| then name[j] else 0
  {
    if name != [] {
      ShortFold(name[..|name| - 1], j, n);
      SmallIndex(|name| - 1, n);
      XorAssociates(name[|name| - 1], 0, 0);
      XorZero(name[|name| - 1]);
      if j < |name| - 1 {
        XorZero(name[j]);
      }
    }
  }

  lemma {:induction false} SmallIndex(i: nat, n: nat)
    requires i < n
    ensures i % n == i
  {
  }

  lemma {:induction false} XorZero(a: bv8)
    ensures a ^ 0 == a && 0 ^ a == a
  {
  }

  lemma {:induction false} FoldLast(init: Bytes, x: bv8, j: nat, n: nat, r: nat)
    requires n > 0 && r == |init| % n
    ensures Folded(init + [x], j, n) == Folded(init, j, n) ^ if r == j then x else 0
  {
    assert (init + [x])[..|init|] == init;
  }

  lemma {:induction false} XorThree(a: bv8, b: bv8, c: bv8, on: bool)
    ensures (a ^ b) ^ (if on then c else 0) == a ^ (b ^ if on then c else 0)
  {
  }

  /** The fold read from the front: the byte at j, and the fold of what is left after n bytes. */
  lemma {:induction false} FoldedFromFront(first: Bytes, rest: Bytes, j: nat)
    requires j < |first|
    ensures Folded(first + rest, j, |first|) == first[j] ^ Folded(rest, j, |first|)
    decreases |rest|
  {
    var n := |first|;
    if rest == [] {
      ShortFold(first, j, n);
      assert first + rest == first;
      XorZero(first[j]);
    } else {
      var init, x := rest[..|rest| - 1], rest[|rest| - 1];
      var r := |init| % n;
      FoldedFromFront(first, init, j);
      LastIndex(n + |init|, n);
      FoldLast(init, x, j, n, r);
      FoldLast(first + init, x, j, n, r);
      assert first + rest == (first + init) + [x] && rest == init + [x];
      XorThree(first[j], Folded(init, j, n), x, r == j);
    }
  }

  lemma {:induction false} LastIndex(last: nat, n: nat)
    requires 0 < n <= last
    ensures (last - n) % n == last % n
  {
    var q, q' := last / n, (last - n) / n;
    QuotientRemainder(last, n);
    QuotientRemainder(last - n, n);
    OnlyMultiple(n, q - 1 - q', (last - n) % n - last % n);
  }

  lemma {:induction false} QuotientRemainder(a: nat, n: nat)
    requires n > 0
    ensures a == n * (a / n) + a % n && 0 <= a % n < n
  {
  }

  lemma {:induction false} OnlyMultiple(n: nat, d: int, x: int)
    requires n > 0 && -(n as int) < x < n && x == n * d
    ensures x == 0
  {
  }

  /** One more byte of the name changes one byte of the key. */
  lemma {:induction false} DerivedStep(key: Bytes, name: Bytes, i: nat)
    requires key != [] && i < |name|
    ensures var k, j := Derived(key, name[..i]), i % |key|;
            Derived(key, name[..i + 1]) == k[j := k[j] ^ name[i]]
  {
    var k, k', n := Derived(key, name[..i]), Derived(key, name[..i + 1]), |key|;
    forall m | 0 <= m < n
      ensures k'[m] == k[i % n := k[i % n] ^ name[i]][m]
    {
      FoldedStep(name, i, m, n);
      XorAssociates(key[m], Folded(name[..i], m, n), name[i]);
    }
  }

  method DeriveKey(key: Bytes, name: Bytes) returns (k: Bytes)
    requires key != []
    ensures k == Derived(key, name)
    ensures |k| == |key| && forall j :: 0 <= j < |k| ==> k[j] == key[j] ^ Folded(name, j, |key|)
  {
    k := key;
    DerivedNothing(key);
    for i := 0 to |name|
      invariant k == Derived(key, name[..i])
    {
      DerivedStep(key, name, i);
      var j := i % |k|;
      k := k[j := k[j] ^ name[i]];
    }
    assert name[..|name|] == name;
  }

  lemma {:induction false} DerivedNothing(key: Bytes)
    requires key != []
    ensures Derived(key, []) == key
  {
  }

  method XorCrypt(input: Bytes, key: Bytes) returns (out: Bytes)
    ensures out == if key == [] then input else XorStream(input, key)
    ensures key == [] ==> out == input
    ensures key != [] ==> |out| == |input| && forall i :: 0 <= i < |out| ==> out[i] == input[i] ^ key[i % |key|]
  {
    if key == [] {
      return input;
    }
    out := [];
    for i := 0 to |input|
      invariant out == XorStream(input, key)[..i]
    {
      out := out + [input[i] ^ key[i % |key|]];
    }
  }

  /** What decrypting the stored bytes under a name gives; nothing for a bad key. */
  function Decrypted(cipher: Bytes, name: Bytes, key: Bytes): Bytes {
    if IsValid(key) then XorStream(cipher, Derived(key, name)) else []
  }

  class PayloadStore {
    var payloads: map<Bytes, Bytes>

    constructor ()
      ensures payloads == map[]
    {
      payloads := map[];
    }

    method Put(name: Bytes, data: Bytes)
      modifies this
      ensures payloads == old(payloads)[name := data]
    {
      payloads := payloads[name := data];
    }

    method Get(name: Bytes) returns (data: Bytes)
      ensures data == if name in payloads then payloads[name] else []
    {
      data := if name in payloads then payloads[name] else [];
    }

    method Decrypt(name: Bytes, key: Bytes) returns (plain: Bytes)
      ensures plain == if name in payloads then Decrypted(payloads[name], name, key) else []
      ensures |key| != 30 || key[0] != 1 || name !in payloads ==> plain == []
      ensures |key| == 30 && key[0] == 1 && name in payloads ==>
                var cipher := payloads[name];
                |plain| == |cipher|
                && forall i :: 0 <= i < |plain| ==> plain[i] == cipher[i] ^ (key[i % 30] ^ Folded(name, i % 30, 30))
    {
      if |key| != KEY_SIZE || !IsValid(key) {
        return [];
      }
      var cipher := Get(name);
      if cipher == [] {
        return [];
      }
      var perNameKey := DeriveKey(key, name);
      plain := [];
      for i := 0 to |cipher|
        invariant plain == XorStream(cipher, perNameKey)[..i]
      {
        plain := plain + [cipher[i] ^ perNameKey[i % |perNameKey|]];
      }
    }
  }

  lemma {:induction false} XorStreamTwice(data: Bytes, key: Bytes)
    requires key != []
    ensures XorStream(XorStream(data, key), key) == data
  {
  }

  /** Deriving twice with the same name gives the master key back. */
  lemma {:induction false} DerivedTwice(key: Bytes, name: Bytes)
    requires key != []
    ensures Derived(Derived(key, name), name) == key
  {
  }

  /** Decryption loses nothing: under a valid key the XOR stream with the derived key gives the stored bytes back. */
  lemma {:induction false} DecryptedBack(cipher: Bytes, name: Bytes, key: Bytes)
    requires IsValid(key)
    ensures XorStream(Decrypted(cipher, name, key), Derived(key, name)) == cipher
  {
  }
}
