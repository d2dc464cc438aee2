# Textbook RSA engine: primitives, key derivation, cipher and signatures

This project models the from-scratch RSA engine that appears twice in the repository. It
is the class `RSADigitalSignature` in `app.py`, which signs with hash-then-sign over a
registry of users. It is also the class `RSAAlgorithm` in `RSA_CODE.py`, which encrypts
per character, with the user registry of `SecureMessagingDemo`. Both classes define
`is_prime`, `gcd`, `extended_gcd`, `mod_inverse` and `power_mod` line for line, so each of
these is modelled once and is proved for both. Their `generate_prime` samplers differ in
range and in default bit length (10 in `app.py`, 8 in `RSA_CODE.py`); the model uses the
`app.py` range and records the `RSA_CODE.py` one under Findings.

Modules:

- `Wrappers`: `Option`, `Result` and the engine's error cases. Each error case is a
  `ValueError` the source raises, or the `chr` failure.
- `Arith`: integer powers and modular-arithmetic facts.
- `Primitives`:
  - `is_prime`, as a loop proved against primality;
  - the `generate_prime` sampling loop, with its random draws given as a parameter, run
    over the `app.py` range and over the as-written `RSA_CODE.py` range;
  - `gcd`, as a loop proved against Euclid's recurrence, which is itself proved to be the
    greatest common divisor;
  - `extended_gcd`, with the Bezout identity;
  - `mod_inverse`;
  - `power_mod`, as a loop proved against `base^exp mod mod`.
- `Fermat`: the proof of RSA correctness. It goes from Euclid's lemma (built on the model's
  own extended Euclid) through the binomial theorem and Fermat's little theorem to the
  Chinese-remainder argument for `n = p q`.
- `KeyGen`: the key derivation both `generate_keypair` methods share:
  - `n = p q` and `phi_n = (p-1)(q-1)`;
  - the public exponent: 65537, else an odd scan from 3;
  - `d = mod_inverse(e, phi_n)`;
  - the proof that the inverse always exists for distinct primes, and the RSA round trip.
- `Signature`: the `users` registry of `app.py` as a class, with `generate_keypair`,
  `sign_message` and `verify_signature`. SHA-256 is a function from strings to naturals
  that is fixed when the registry is created.
- `Cipher`: `encrypt`, `decrypt`, `encrypt_message` and `decrypt_message` of `RSA_CODE.py`,
  the key fields of `RSAAlgorithm`, and the `SecureMessagingDemo` registry with its guards.

The primes `p` and `q` are inputs to key generation. They stand for what the random
sampler returns, so they are required to be distinct primes.

## Model

| member | source | states |
|---|---|---|
| `Primitives.IsPrime` | app.py:17-30 | true exactly when n is prime: trial division by 2 and then by the odd i with i*i <= n decides primality (RSA_CODE.py:10-23 is the same) |
| `Primitives.CandidateRange` | app.py:36 | the draw range is [2^(bits-1), 2^bits - 1], whose upper end is twice the lower end minus one |
| `Primitives.GeneratePrimeInRange` | app.py:34-38 | the loop `randint` then `is_prime`: returns the first prime draw, which lies in [lo, hi]; None only when no draw is prime (RSA_CODE.py:27-31 is the same loop) |
| `Primitives.GeneratePrime` | app.py:32-38 | the loop over [2^(bits-1), 2^bits - 1]: returns the first prime draw, which lies in [2^(bits-1), 2^bits); None only when no draw is prime |
| `Primitives.NoPrimeAsWrittenAtEightBits` | RSA_CODE.py:25-31 | the as-written range for the default bits = 8 is [14, 15] and holds no prime |
| `Primitives.GeneratePrimeAsWritten` | RSA_CODE.py:25-31 | the same loop over the as-written range [2(bits-1), 2 bits - 1]: at bits = 8 it returns None for every draw sequence, and at any bits other than 2 it can only return 2 bits - 1 |
| `Primitives.AsWrittenRangeAtMostOnePrime` | RSA_CODE.py:25-31 | for every bits other than 2 the as-written range holds at most one prime, 2 bits - 1, so any two prime draws are equal and the `while p == q` resampling at RSA_CODE.py:67 never ends |
| `Primitives.PrimeInCandidateRangeAtEightBits` | app.py:36 | the intended range at bits = 8 is [128, 255] and contains the prime 131 |
| `Primitives.GcdDividesBoth` | app.py:40-44 | Euclid's recurrence yields a common divisor of a and b; it is 0 only for gcd(0, 0) |
| `Primitives.GcdGreatest` | app.py:40-44 | every common divisor of a and b divides the recurrence's result, so it is the greatest |
| `Primitives.GcdReduce` | app.py:43 | replacing b by b mod a keeps the gcd, which is the step the loop and extended_gcd take |
| `Primitives.ComputeGcd` | app.py:40-44 | the loop `a, b = b, a % b` returns gcd(a, b) (RSA_CODE.py:33-37 is the same) |
| `Primitives.ExtendedGcd` | app.py:46-55 | returns (g, x, y) with a*x + b*y == g and g == gcd(a, b), the gcd of Euclid's recurrence (RSA_CODE.py:39-48) |
| `Primitives.ModInverse` | app.py:57-62 | fails with "no inverse" exactly when gcd(e, phi_n) != 1; otherwise returns d in [0, phi_n) with e*d == 1 mod phi_n (RSA_CODE.py:50-55) |
| `Primitives.ModExp` | app.py:64-78 | the value power_mod must produce; for every exp > 0 it lies in [0, mod), while exp == 0 gives 1 even modulo 1 |
| `Primitives.PowerMod` | app.py:64-78 | square-and-multiply returns exactly ModExp(base, exp, mod) (RSA_CODE.py:110-124) |
| `KeyGen.ChooseExponent` | app.py:105-111 | e stays 65537 when 65537 < phi_n and is coprime to it; otherwise e is the first odd value from 3 that is coprime to phi_n or not below it, and every odd value it skipped was below phi_n and shared a factor with it (RSA_CODE.py:83-89) |
| `KeyGen.TotientEven` | app.py:100 | phi_n of two distinct primes is even and at least 2 |
| `KeyGen.ChosenExponentInvertible` | app.py:108-116 | for distinct primes the chosen e is always coprime to phi_n, so mod_inverse never raises in key generation |
| `KeyGen.DeriveKeyMaterial` | app.py:95-117 | n == p*q, phi_n == (p-1)(q-1), e is the chosen exponent, 0 < d < phi_n and e*d == 1 mod phi_n (RSA_CODE.py:73-98) |
| `KeyGen.RsaRoundTrip` | RSA_CODE.py:144-165 | with derived keys, decrypting the encryption of any m < n gives m, and encrypting what d produced also gives m back |
| `Fermat.FermatLittle` | RSA_CODE.py:145 | x^p == x modulo a prime p |
| `Fermat.RsaIdentity` | RSA_CODE.py:144-165 | m^(e*d) mod p*q == m for every m < p*q when e*d == 1 mod (p-1)(q-1) |
| `Signature.Reduce` | app.py:176-179 | reducing the hash only when it is not below n gives hash mod n, below n (the same at app.py:224-225) |
| `Signature.SignVerifyRoundTrip` | app.py:177-235 | a signature made with a valid record's private key passes verification with its public key |
| `Signature.VerifyAcceptsExactly` | app.py:224-235 | verification accepts a signature s exactly when s mod n is the signature of the message's hash |
| `Signature.SignatureSystem.constructor` | app.py:14-15 | the registry starts empty, with the given hash |
| `Signature.SignatureSystem.GenerateKeypair` | app.py:80-135 | stores the record for username and keeps every other entry; the record's keys share n == p*q, phi_n == (p-1)(q-1), the e and d of DeriveKeyMaterial, and the returned info carries the same values |
| `Signature.SignatureSystem.Sign` | app.py:154-198 | fails with UserNotFound exactly for an unknown user; otherwise the hash before signing is hash mod n and the signature is (hash mod n)^d mod n; the registry is not changed |
| `Signature.SignatureSystem.Verify` | app.py:200-253 | fails with UserNotFound exactly for an unknown user; otherwise the decrypted hash is s^e mod n and the signature is valid exactly when that equals hash mod n; the registry is not changed |
| `Signature.SignatureSystem.SignThenVerify` | app.py:154-235 | for every registered user and every message, what Sign produces passes Verify |
| `Cipher.FromCodes` | RSA_CODE.py:179 | chr of each unit, joined: succeeds exactly when every unit is a code point, with one character per unit; otherwise fails at the first unit that is not |
| `Cipher.CodesRoundTrip` | RSA_CODE.py:132 | chr undoes ord: decoding the codes of any string gives the string |
| `Cipher.EncryptUnits` | RSA_CODE.py:140-153 | fails exactly when some unit is not below n, naming the first such unit; otherwise has one element per unit, each unit^e mod n and below n when e > 0 |
| `Cipher.Encrypt` | RSA_CODE.py:126-153 | the append loop returns EncryptUnits of the message's units: one ord unit per character, or the single number |
| `Cipher.Decrypt` | RSA_CODE.py:155-169 | the append loop returns one element per cipher unit, element i being ciphertext[i]^d mod n |
| `Cipher.EncryptMessage` | RSA_CODE.py:171-174 | the same result as encrypt |
| `Cipher.DecryptMessage` | RSA_CODE.py:176-180 | chr of each decrypted unit, joined, or the chr failure |
| `Cipher.UnitRoundTrip` | RSA_CODE.py:145-165 | one unit below n encrypted and then decrypted with keys from one derivation comes back unchanged |
| `Cipher.UnitsRoundTrip` | RSA_CODE.py:126-169 | decrypt(encrypt(units)) returns the units when every unit is below n |
| `Cipher.MessageRoundTrip` | RSA_CODE.py:171-180 | decrypt_message(encrypt_message(s)) == s when every character code is below n |
| `Cipher.RsaAlgorithm.constructor` | RSA_CODE.py:5-8 | both key fields start as None |
| `Cipher.RsaAlgorithm.GenerateKeypair` | RSA_CODE.py:57-108 | sets the fields to (n, e) and (n, d) and returns them: n == p*q in both, e is the chosen exponent, 0 < d < (p-1)(q-1) and e*d == 1 mod (p-1)(q-1) |
| `Cipher.SecureMessaging.constructor` | RSA_CODE.py:185-187 | the registry starts empty |
| `Cipher.SecureMessaging.CreateUser` | RSA_CODE.py:189-204 | stores a fresh key pair for username, replacing any earlier one and keeping other users; the pair has n == p*q, the chosen exponent e and the inverse d in (0, (p-1)(q-1)) |
| `Cipher.SecureMessaging.SendSecureMessage` | RSA_CODE.py:206-228 | None exactly when the sender or the receiver is not registered; otherwise the encryption under the receiver's public key |
| `Cipher.SecureMessaging.ReceiveSecureMessage` | RSA_CODE.py:230-252 | None exactly when the receiver is not registered; otherwise decrypt_message with the receiver's private key |
| `Cipher.SecureMessaging.ExchangeRoundTrip` | RSA_CODE.py:274-292 | a string whose character codes are below the receiver's n comes back unchanged from send followed by receive |

## Left out

- The Flask application, its routes, CORS and templates, and the startup block of `app.py`.
  This includes the public-key listing of the `get_users` route. It is HTTP plumbing.
- SHA-256 and the hex conversion in `hash_message`. The hash is a function from strings to
  naturals that the registry is created with. `hash_hex` and `hash_length` are not carried
  in the results.
- The randomness of `generate_prime`. Its draws are a parameter, and key generation takes
  the two distinct primes the sampler would return. The `bits` argument of key generation
  and the `while p == q` resampling are therefore not modelled.
- Primitives.CandidateRange: requires bits >= 1. For bits <= 0, app.py:36 computes
  `2**(bits-1)` as a float and `random.randint` raises. At bits = 1 the range is [1, 1],
  which holds no prime, so `generate_prime` never returns; `bits` comes from the request
  body at app.py:269 and is not checked.
- Primitives.IsPrime: the bound `int(math.sqrt(n))` is a floating-point square root. The
  model uses the exact integer bound `i*i <= n`. The two can differ once n is too large for
  a double to hold exactly.
- Primitives.ModExp: requires mod > 0. The source raises ZeroDivisionError for mod == 0.
  With a negative modulus, Python's `%` gives results this model does not cover. Its
  exponent is a `nat`. For a negative exponent the loop at app.py:69 never runs, and the
  source returns 1.
- Primitives.PowerMod: requires mod > 0, for the same reason as ModExp. Its exponent is a
  `nat`. For a negative exponent the source returns 1 (app.py:69, RSA_CODE.py:115).
- Primitives.ModInverse: requires phi_n > 0 or e != 1. With phi_n == 0 and e == 1, the
  source divides by zero. Key generation never reaches that input.
- Cipher.Decrypt: requires n > 0 unless the ciphertext is empty. Otherwise the source
  divides by zero.
- Cipher.DecryptMessage: requires n > 0 unless the ciphertext is empty, as for Decrypt.
- Cipher.FromCodes: Python's `chr` also accepts the surrogate code points 0xD800 to
  0xDFFF. A Dafny string cannot hold them, so the model reports those values as not a
  character.
- Negative numbers given to `encrypt`. The source has no lower-bound check. The model's
  message units are natural numbers.
- The `rsa` object stored with each user of `SecureMessagingDemo`. Its encrypt and decrypt
  read no fields of the object, so the registry keeps only the two keys. The same holds
  for the demo's own `self.rsa` (RSA_CODE.py:186). `send_secure_message` and
  `receive_secure_message` never read it; they use the per-user objects instead.
- The constructors of `RSA_CODE.py`, which are misspelt `_init_`. `RSAAlgorithm()` therefore
  never sets its key fields. `SecureMessagingDemo()` never creates `users`, so `create_user`
  would fail with AttributeError at RSA_CODE.py:198. With the as-written sampler it reaches
  that line only at bits = 2; at any other bits `generate_keypair` never returns (see
  Findings). The closing `if _name_ == "_main_"` raises NameError. The model
  gives `RSAAlgorithm` its two key fields unset (`None`) and `SecureMessagingDemo` an
  empty `users`.
- The `main()` demo script and all printed narration.
- Security claims, such as collision resistance of the hash or rejection of a forged
  signature. They are probabilistic.

## Findings

| source | as written | input that shows it | evidently intended | confidence | as-written member | corrected member |
|---|---|---|---|---|---|---|
| RSA_CODE.py:29 | `random.randint(2*(bits-1), 2*bits - 1)` uses `*` where a power was meant | bits = 8, the default used by `generate_keypair` and `create_user`: the range is [14, 15], 14 = 2*7 and 15 = 3*5, so the loop never returns; for every bits other than 2 the range holds at most one prime, so `generate_prime` or the `while p == q` loop never ends | `random.randint(2**(bits-1), 2**bits - 1)`, as at app.py:36, giving [128, 255] at bits = 8, which contains 131 | high; not executed | `Primitives.NoPrimeAsWrittenAtEightBits` | `Primitives.PrimeInCandidateRangeAtEightBits` |
