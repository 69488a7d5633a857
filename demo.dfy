/**
 * The self-test of rsa.py's main block: a message is turned into an integer,
 * encrypted, decrypted and turned back into the same message, under a key
 * from generate_key.
 */
module Demo {
  import opened Wrappers
  import opened NumberTheory
  import opened Cipher
  import opened Octets
  import opened KeyGen

  /**
   * A byte string without a leading zero byte and of at most (k - 2) / 8
   * bytes comes back unchanged through str_to_int, encrypt_int, decrypt_int
   * and int_to_str, under any k-bit key built from two different primes.
   */
  lemma MessageRoundTrip(k: nat, key: Key, p: nat, q: nat, msg: seq<Byte>)
    requires KeyFromPrimes(k, key, p, q) && p != q
    requires msg == [] || msg[0] != 0
    requires 8 * |msg| + 2 <= k
    ensures EncryptInt(BytesToInt(msg), key.e, key.n).Some?
    ensures DecryptInt(EncryptInt(BytesToInt(msg), key.e, key.n).value, key.d, key.n).Some?
    ensures IntToBytes(DecryptInt(EncryptInt(BytesToInt(msg), key.e, key.n).value, key.d, key.n).value) == msg
  {
    var m := BytesToInt(msg);
    MessageFits(k, key, p, q, msg);
    var c := EncryptInt(m, key.e, key.n);
    var r := DecryptInt(c.value, key.d, key.n);
    assert r == Some(m) by { KeyRoundTrip(k, key, p, q); }
    BytesRoundTrip(msg);
  }

  /** A message of at most (k - 2) / 8 bytes is below the modulus of a k-bit key. */
  lemma MessageFits(k: nat, key: Key, p: nat, q: nat, msg: seq<Byte>)
    requires KeyFromPrimes(k, key, p, q)
    requires 8 * |msg| + 2 <= k
    ensures BytesToInt(msg) < key.n
  {
    var len := |msg|;
    assert Pow(2, k - 2) <= key.n by { ModulusSize(k, key, p, q); }
    assert BytesToInt(msg) < Pow(2, 8 * len) by { BytePower(len); }
    assert Pow(2, 8 * len) <= Pow(2, k - 2) by { PowMonotone(2, 8 * len, k - 2); }
  }

  /**
   * The quick demo: under any 64-bit key from two different primes, "Hi"
   * (the bytes 72 and 105) is recovered.
   */
  lemma QuickDemo(key: Key, p: nat, q: nat)
    requires KeyFromPrimes(64, key, p, q) && p != q
    ensures IntToBytes(DecryptInt(EncryptInt(BytesToInt([72, 105]), key.e, key.n).value, key.d, key.n).value) == [72, 105]
  {
    MessageRoundTrip(64, key, p, q, [72, 105]);
  }
}
