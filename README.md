# Textbook RSA: key generation, encryption and message encoding

A Dafny model of `rsa.py`. The file holds a small RSA implementation with four parts:

- `gen_prime(bits)` draws a random prime of exactly `bits` bits.
- `generate_key(k)` draws a prime encryption exponent `e` of `k` bits and two primes `p` (of `k // 2` bits) and `q` (of `k - k // 2` bits). It redraws each of `p` and `q` while it is 1 modulo `e`. It then returns `n = p * q`, `e` and `d = mod_inverse(e, (p - 1) * (q - 1))`.
- `encrypt_int` and `decrypt_int` are Python's three-argument `pow`.
- `str_to_int` and `int_to_str` convert between text and integers through big-endian bytes, with `int_to_str` using the minimal length `(bit_length + 7) // 8`.

The model keeps each part in the source's own form:

- Pure computations are functions: `gen_prime`, the `pow` specification, the byte conversions and the encryption primitives.
- Loops are methods with invariants. The redraw loop is proved equal to a recursive function (`FirstAcceptable`), square-and-multiply equal to the `pow` specification, and extended Euclid against the inverse's defining property.
- Randomness is a parameter. Every call of `gen_prime` consumes one draw from a sequence `draws`; the draw is a random point in the bit range. A sequence that runs out ends key generation with `OutOfDraws`, which bounds the redraw loops.

Modules:

- `Wrappers`: `Option` and `Result`.
- `NumberTheory`: powers, divisibility, primes, gcd with Bezout coefficients, Euclid's lemma, binomial coefficients and Fermat's little theorem.
- `ModExp`: `pow(b, x, n)`, with Python's floored `%` for a negative modulus, and its square-and-multiply computation.
- `Inverse`: `mod_inverse` by the extended Euclidean algorithm.
- `PrimeSource`: `gen_prime`.
- `Cipher`: `encrypt_int`, `decrypt_int` and the RSA identity.
- `KeyGen`: `generate_key` as written and corrected.
- `Octets`: the byte level of `str_to_int` and `int_to_str`, as OS2IP and I2OSP of RFC 8017, sections 4.2 and 4.1.
- `Demo`: the self-test in the main block.

## Model

| member | source | states |
|---|---|---|
| PrimeSource.GenPrime | rsa.py:78-79 | the prime returned has exactly `bits` bits (it lies in [2**(bits-1), 2**bits)), and there is no result exactly when that range holds no prime |
| KeyGen.Draw | rsa.py:83 | one call of gen_prime on the i-th draw: a prime of `bits` bits, `OutOfDraws` exactly when the draws are used up, `NoPrimeInRange` exactly when the range holds no prime |
| KeyGen.FirstAcceptable | rsa.py:86-94 | what gen_prime and its redraw loop yield from draw i on: the first draw on which gen_prime fails, or the first prime the loop keeps (not 1 modulo e, not in the set to avoid); every draw before it was thrown back |
| KeyGen.DrawFactor | rsa.py:86-94 | the redraw loop computes exactly FirstAcceptable: a prime of `bits` bits that is not 1 modulo e and not in the set to avoid, and `OutOfDraws` only once the draws are used up |
| KeyGen.FirstDrawKept | rsa.py:86-94 | a prime with fewer bits than the k-bit e is never 1 modulo e, so the redraw loop keeps the first draw unless it is in the set to avoid |
| KeyGen.DrawExponentAndFirstFactor | rsa.py:83-90 | e is gen_prime(k) on draw 0 and p is gen_prime(k // 2) on draw 1, kept by the loop; an error is the error of one of these two draws |
| KeyGen.DrawSecondFactor | rsa.py:92-94 | q from draw 2 on: a prime of k - k // 2 bits, not 1 modulo e, not in the set to avoid; the first draw is kept unless it must be avoided, and the draws run out only where each one gave a prime to avoid |
| KeyGen.OnlyAvoidedRejected | rsa.py:92-94 | when the q loop runs out of draws, every draw from index 2 on gave a prime in the set to avoid |
| KeyGen.AssembleKey | rsa.py:97-100 | n = p * q, and d is the inverse of e modulo (p - 1) * (q - 1); mod_inverse fails exactly when p == q == 2 |
| KeyGen.CoprimeToTotient | rsa.py:88-99 | once neither p nor q is 1 modulo the prime e, e is coprime to (p - 1) * (q - 1), so mod_inverse has an answer |
| KeyGen.RedrawNeverNeeded | rsa.py:86-94 | the `% e == 1` redraw loops never run: p and q have fewer bits than e, so each is its own remainder modulo e |
| KeyGen.ModulusSize | rsa.py:86-97 | the modulus n of a k-bit key satisfies 2**(k-2) <= n < 2**k |
| KeyGen.KeyRoundTrip | rsa.py:11-17 | a key built from two different primes decrypts what it encrypts, for every message in [0, n) |
| KeyGen.GenerateKeyAsWritten | rsa.py:81-100 | generate_key as written: e, p and q are gen_prime's results on draws 0, 1 and 2; the key relates to them as above; three draws always suffice (`OutOfDraws` only for fewer); mod_inverse fails only for p == q == 2; `NoPrimeInRange` only for an empty bit range |
| KeyGen.AsWrittenAdmitsRepeatedPrime | rsa.py:92-99 | on the draws 3, 1, 1, gen_prime gives 11 for e and 3 for both p and q; the key (9, 11, 3) from p == q == 3 meets the as-written postcondition and sends the message 3 to 0 |
| KeyGen.AsWrittenRepeatedPrimeRun | rsa.py:81-100 | generate_key(4) as written, run on the draws 3, 1, 1, returns the key (9, 11, 3), under which the message 3 comes back as 0 |
| KeyGen.GenerateKey | rsa.py:81-100 | generate_key with q also redrawn while it equals p: e and p come from draws 0 and 1 and q is FirstAcceptable from draw 2 on; the key comes from two different primes of the requested sizes and decrypts what it encrypts for every message in [0, n); mod_inverse never fails; the draws run out only where every draw for q gave p |
| Inverse.ModInverse | rsa.py:99 | an inverse exists exactly when m > 1 and gcd(a, m) == 1; the one returned lies in [0, m) and a * x is 1 modulo m |
| Inverse.NoInverseWithoutCoprime | rsa.py:99 | where gcd(a, m) != 1 no integer at all is an inverse of a modulo m |
| Inverse.InverseUnique | rsa.py:99 | the inverse in [0, m) is unique, so d is determined by e and phi |
| ModExp.FloorMod | rsa.py:104 | Python's `%`: the remainder takes the sign of the divisor and differs from a by a multiple of it |
| ModExp.ModPow | rsa.py:19-21 | square-and-multiply computes pow(b, x, n): b**x reduced by Python's `%`, and no result for n == 0 |
| Cipher.EncryptInt | rsa.py:103-104 | encrypt_int(m, e, n) is m**e modulo n, in [0, n) for n > 0 and in (n, 0] for n < 0; no result for n == 0 |
| Cipher.DecryptInt | rsa.py:106-107 | decrypt_int(c, d, n) is c**d modulo n, with the same ranges and the same failure |
| Cipher.DecryptEncrypt | rsa.py:11-12 | decrypting with d what was encrypted with e is raising to e * d modulo n |
| Cipher.RsaRoundTrip | rsa.py:11-17 | the identity ((x ** e) ** d) % n == x for n = p * q with p != q prime, e * d == 1 modulo (p - 1) * (q - 1), and 0 <= x < n |
| Cipher.RepeatedPrimeBreaksRoundTrip | rsa.py:97-100 | with p == q the identity fails: the message p comes back as 0 modulo p * p |
| Octets.BytesToInt | rsa.py:109-110 | int.from_bytes(s, "big") is below 256 ** len(s) |
| Octets.BitLength | rsa.py:113 | int.bit_length(): i < 2**b, 2**(b-1) <= i for i > 0, and b == 0 exactly for 0 |
| Octets.I2OSP | rsa.py:113 | x.to_bytes(len, "big") succeeds exactly when x < 256 ** len, and then gives len bytes that read back as x |
| Octets.IntToBytes | rsa.py:112-113 | the bytes int_to_str encodes read back as i, are (bit_length + 7) // 8 long, are empty exactly for 0 and otherwise start with a non-zero byte |
| Octets.BytesRoundTrip | rsa.py:109-113 | int_to_str(str_to_int(s)) gives back s at the byte level, for every byte string that is empty or starts with a non-zero byte |
| Octets.LeadingZeroLost | rsa.py:109-113 | a leading zero byte is not recovered: the byte string [0] comes back empty |
| Octets.HiExample | rsa.py:119-120 | "Hi" is the integer 18537, and back |
| Demo.MessageFits | rsa.py:118-121 | a message of at most (k - 2) / 8 bytes is below the modulus of a k-bit key |
| Demo.MessageRoundTrip | rsa.py:119-125 | str_to_int, encrypt_int, decrypt_int and int_to_str give back the message under any k-bit key from two different primes, for messages of at most (k - 2) / 8 bytes without a leading zero byte |
| Demo.QuickDemo | rsa.py:117-125 | the quick demo's assertion: under a 64-bit key from two different primes, "Hi" is recovered |

## Left out

- Printing is not modelled: the progress messages in generate_key and the demo output.
- The self-test's 512-bit run (rsa.py:128-139) is covered by Demo.MessageRoundTrip: "Hello, RSA!" is 11 bytes, well under (512 - 2) / 8.
- generate_key's `seed` parameter is not modelled. It is unused by the code.
- The commented-out earlier implementation (rsa.py:39-74) is not modelled. It is dead text.
- PrimeSource.GenPrime does not model sympy's random number generator or the distribution of its primes. The random point is the parameter `draw`. From that point the prime is the least one at or above it in the range, or else the greatest one below it, which is randprime's rule. sympy is not part of this model.
- PrimeSource.GenPrime uses exact trial division (`IsPrime`) in place of sympy's primality test.
- KeyGen.Draw: `OutOfDraws` has no counterpart in the source. It only exists because the model draws from a finite sequence, which bounds the redraw loops. The source loops until a suitable prime turns up. As written, three draws always suffice; in the corrected generator the draws run out only if every draw for q repeats p.
- Inverse.ModInverse is modelled for non-negative arguments only. generate_key only passes it a prime e and a non-negative phi.
- ModExp.ModPow is modelled for non-negative exponents only. Python's `pow` also accepts negative exponents, which compute modular inverses; the source never passes one.
- Octets.IntToBytes is modelled for non-negative integers only. Python raises OverflowError for negative ones, and decryption never yields one under a positive modulus.
- UTF-8 encoding and decoding are not modelled: str_to_int and int_to_str are modelled at the byte level. A decryption whose bytes are not valid UTF-8 (UnicodeDecodeError) is therefore not modelled.
- Timing, performance and side channels are not modelled. Neither are the source's big-integer sizes: integers are unbounded here, as in Python.

## Findings

| source | as written | input that shows it | evidently intended | confidence | as-written member | corrected member |
|---|---|---|---|---|---|---|
| rsa.py:92-99 | q is redrawn only while q % e == 1, so q may equal p whenever k is even and both come from the same bit range | k = 4 with draws 3, 1, 1 gives e = 11 and p = q = 3: the key is (9, 11, 3), and the message 3 encrypts to 0 and decrypts to 0; with p = q = 2, phi = 1 and mod_inverse raises | q is also redrawn while q == p, so n has two different prime factors and encryption round-trips for every message below n | not executed | KeyGen.AsWrittenRepeatedPrimeRun | KeyGen.GenerateKey |
