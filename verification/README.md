# tamga-c: offline verification, proved

A Dafny model of the parts of tamga-c that decide whether an offline licence or machine file is accepted: the
big-integer, curve, hash and AEAD code, the JSON, base64, DER and timestamp codecs, the key set and the verification
pipeline. Loops over limb, byte and index arrays are methods with invariants, each proved against a function or
predicate on values; what the library promises is then proved of those. The modules whose names end in Exact, and
`GcmTag`, `JsonGrammar` and `JsonCompact`, say what each format is in its own terms, with its literal bytes, and prove
that the code accepts and produces exactly that.

The modules build on each other:

- `Arith`, `Limbs`, `Digits`, `Bn`, `Montgomery`, `ModExp`: multi-precision arithmetic up to RSA's public operation.
- `Fe25519`, `Scalar25519`, `Edwards`, `EdwardsComplete`, `EdwardsEncoding`, `EdwardsGroup`, `Ed25519`,
  `Ed25519Verify`, `Ed25519Signature`: Ed25519 from limbs to the verdict, and the verdict as the group equation.
- `P256Field`, `Jacobian`, `JacobianAdd`, `JacobianLaw`, `JacobianGroup`, `P256`, `P256Constants`, `P256Verify`,
  `P256Signature`, with `Der`, `Ecdsa`, `EcdsaVerify`, `EcdsaExact`: ECDSA over P-256 from limbs to the verdict on
  encoded keys.
- `Groups`, `Constants`: multiples in an abelian group, and the constants of both curves.
- `Utf8`, `Json`, `JsonParse`, `JsonParser`, `JsonValid`, `JsonWrite`, `JsonRoundTrip`, `KeySort`, `JsonCanonical`,
  `Buf`, `JsonWriter`, `JsonObject`: the JSON reader, writer and canonical form; `JsonStrings`, `JsonNumbers`,
  `JsonGrammar`, `JsonCompact`, `KeyOrder`: the grammar and the order of keys apart from them.
- `GcmField`, `Gcm`, `GcmSeal`, `GcmTag`, `Sha`: AEAD and hash buffering over any block cipher and compression
  function.
- `Fingerprint`, `FingerprintBuild`, `FingerprintExact`, `Base64`, `Base64Exact`, `CivilDate`, `Rfc3339`,
  `Rfc3339Exact`: the other codecs.
- `KeySet`, `KeySetExact`, `MachineAlg`, `Octet`, `Payload`, `OfflineFile`, `OfflineExact`: the key set and the
  verification of files.

`dafny verify dfyconfig.toml` checks the whole project.

## Hypotheses

Facts about the curves that the code relies on and does not check are `requires` clauses of the lemmas that use them:

- `Inverts(inv)`: every number not zero modulo p has an inverse, that is, p is prime.
- `Fermat()` and `OrderFermat()`: Fermat's theorem modulo p and modulo the order of P-256.
- `Field(inv)`: both of the above for 2^255 - 19, and d is not a square.
- `Group(add, zero)`, `Invertible(neg, add, zero)`: the axioms of an abelian group.
- `Represents(phi, add, zero)`: point addition stands for that group's addition; `Faithful(phi)`: points stand for the
  same element exactly when their affine coordinates agree; `NegRepresents(phi, neg)`: negating a point stands for the
  inverse.
- The order of the base point, where uniqueness or an honest signature needs it.

## Findings

- The clock guard in `src/checkout/claims.c:40-46` answers "not expired" for every reading below the tolerance, and
  its comment says that no expiry can have passed by then. That is false for an expiry of -2 or earlier:
  `OfflineFile.ExpiryDiffers` gives one, and `OfflineFile.ExpiryExact` proves that the guard is harmless at every
  reading exactly when the expiry is -1 or later.
- `src/crypto/sha512.c:145-179` writes only the low 64 bits of the 128-bit length field. `Sha.LengthFieldExact` proves
  that this is right exactly for messages shorter than 2^61 bytes.
- `src/crypto/bn.h` asks for a modulus with its top bit set; the code tests the top limb. `ModExp.TopBit` proves that
  a length that is not a multiple of four is always refused.
- `src/util/json_parse.c:460-469` reports a refused allocation for the end of an object key as an invalid key, so
  `tamga_key_set_add_json` can call a well-formed document malformed. `KeySet.BlameEmptyKey` shows it for
  `{"":0,"data":[]}`. `JsonParser.ParseText` and `KeySet.Keys.AddJson` prove that this happens only when the text holds
  a string of no bytes or of 64 bytes doubled some number of times, which fills its buffer. Reliable memory is a
  sufficient condition against it, not a necessary one.
- `src/checkout/license_file.h:58-69` and `src/checkout/machine_file.h:79-80` describe decoding first and verifying with
  the key that the kid selects; the code tries every held key first. `OfflineFile.KidOrderAccepts` proves that the two
  accept the same files exactly when the named key is the one that verifies, and `OfflineFile.RenamedKey` gives files
  where they differ.
- `src/crypto/gcm.h:37` says that nothing is written unless the tag verifies; the code writes and then erases.
  `GcmSeal.Open` proves that after a refusal the buffer is as before exactly when it held zeros.

## Model

| member | source | states |
|---|---|---|
| `Limbs.Cmp` | src/crypto/bn.c:56-65 | For any limb count the result has the sign of the difference of the two values. |
| `Limbs.Sub` | src/crypto/bn.c:68-78 | The wrapped difference and the final borrow, for any limb count, with the destination free to be either operand; limbs past the count are untouched. |
| `Limbs.Add` | src/crypto/p256.c:99-109 | The wrapped sum and the carry out, for any limb count, with aliasing allowed. |
| `Limbs.Ripple` | src/crypto/fe25519.c:55-69 | Adding a carry at the bottom and letting it run gives the sum and what leaves the top. |
| `Limbs.IsZero` | src/crypto/fe25519.c:228-235 | True exactly when the value is zero. |
| `Digits.BeBit` | src/crypto/bn.c:13-17 | The selected bit of the selected byte is the bit of that weight in the big-endian number. |
| `Bn.DoubleMod` | src/crypto/bn.c:81-97 | In place, the value becomes twice itself modulo m, with a carry out of the top limb accounted for. |
| `Bn.NewtonStep` | src/crypto/bn.c:101-110 | One Newton step squares the modulus up to which the inverse is right. |
| `Bn.N0Inv` | src/crypto/bn.c:101-110 | For every odd m0 the five steps give -m0^-1 modulo 2^32. |
| `Bn.MulAddRow` | src/crypto/bn.c:116-168 | The inner carry loop adds a times one limb of b to the running value; no double-word sum overflows. |
| `Bn.ReduceRow` | src/crypto/bn.c:116-168 | The second inner loop adds the multiple of m that clears the low limb and shifts one limb down, exactly. |
| `Bn.MontMul` | src/crypto/bn.c:116-168 | CIOS: for every n, every a below m and every n-limb b the result r is below m and r 2^(32n) = a b modulo m; the running value stays below 2m after every row, and the destination may be a or b. |
| `Montgomery.MontMulForm` | src/crypto/bn.c:112-168 | The Montgomery product of the residues of v and w is the residue of v w. |
| `Montgomery.MontFormUnique` | src/crypto/bn.c:112-168 | A residue stands for one number modulo m. |
| `ModExp.FromBe` | src/crypto/bn.c:25-38 | The limbs have the value of the big-endian bytes, for any length. |
| `ModExp.ToBe` | src/crypto/bn.c:40-53 | The bytes have the value of the limbs, left-padded with zeros. |
| `ModExp.TopBit` | src/crypto/bn.c:200-202 | The test on the top limb passes exactly when the length is a multiple of four and the top bit of the modulus is set, which is exactly when 2m reaches 2^(32n). |
| `ModExp.HighestBit` | src/crypto/bn.c:233-243 | The search finds that no bit above h is set, and answers -1 exactly for exponent zero. |
| `ModExp.ROf` | src/crypto/bn.c:211-226 | Wrap-around subtraction from zero gives R - m. |
| `ModExp.RSquared` | src/crypto/bn.c:211-222 | The 32n doublings give R^2 modulo m with no division. |
| `ModExp.PowLoop` | src/crypto/bn.c:245-251 | Square-and-multiply keeps the accumulator the residue of the base to the exponent bits used so far. |
| `ModExp.ModExp` | src/crypto/bn.c:170-266 | Succeeds exactly on non-empty input within the size limit with an odd modulus, top limb bit set, base below modulus and exponent not zero; the output is base^exponent mod modulus, left-padded; on refusal the output is untouched. |
| `ModExp.AcceptsExact` | src/crypto/bn.c:170-210 | In numbers: at most 1024 bytes, an odd modulus of whole words with its top bit set, a smaller base, a positive exponent that is no longer than the modulus. |
| `Fe25519.ConditionalSubP` | src/crypto/fe25519.c:24-37 | Below 2p the value is reduced to [0, p). |
| `Fe25519.FoldStep` | src/crypto/fe25519.c:55-69 | Folding 38 times the carry keeps the value modulo p and strictly lowers value plus carry, which is why the loop ends. |
| `Fe25519.FoldCarry` | src/crypto/fe25519.c:55-69 | The while loop ends and the limbs are congruent to value plus carry 2^256 modulo p. |
| `Fe25519.Reduce` | src/crypto/fe25519.c:73-91 | Any 256-bit value becomes its remainder modulo p. |
| `Fe25519.FeAdd` | src/crypto/fe25519.c:106-120 | The representative in [0, p) of the sum, aliasing allowed. |
| `Fe25519.FeSub` | src/crypto/fe25519.c:122-141 | The representative in [0, p) of the difference, aliasing allowed. |
| `Fe25519.FeNeg` | src/crypto/fe25519.c:143-147 | The representative in [0, p) of the negation. |
| `Fe25519.FeMul` | src/crypto/fe25519.c:149-183 | The representative in [0, p) of the product of any two eight-limb values. |
| `Fe25519.FePow` | src/crypto/fe25519.c:192-208 | a^e modulo p for every 32-byte little-endian exponent. |
| `Ed25519.FeFromBytes` | src/crypto/fe25519.c:264-272 | The low 255 bits of the bytes, modulo p. |
| `Ed25519.FeToBytes` | src/crypto/fe25519.c:250-262 | The 32 bytes whose little-endian value is the element. |
| `Scalar25519.IsCanonical` | src/crypto/ed25519.c:19-30 | True exactly when the 32-byte scalar is below L. |
| `Scalar25519.DivisionStep` | src/crypto/ed25519.c:53-93 | One shift and conditional subtraction keep the remainder below L and equal to the bits taken so far modulo L. |
| `Scalar25519.Reduce512` | src/crypto/ed25519.c:53-93 | The 512-bit input modulo L, for every input. |
| `Edwards.DValue` | src/crypto/fe25519.c:10-14 | The constant d is -121665/121666 modulo p. |
| `Edwards.SumParts` | src/crypto/ed25519.c:147-185 | What the straight-line additions, subtractions and products leave in X, Y, Z and T, as polynomials in the inputs. |
| `Edwards.SumOnCurve` | src/crypto/ed25519.c:147-185 | Points with XY = ZT and -X^2 + Y^2 = Z^2 + dT^2 add to such a point. |
| `Edwards.SumIsEdwardsLaw` | src/crypto/ed25519.c:147-185 | In affine terms the result is the twisted Edwards addition law (section 5.1.4 of RFC 8032). |
| `EdwardsComplete.SumIsComplete` | src/crypto/ed25519.c:147-185 | With p prime and d not a square no two curve points add to Z = 0, so one formula serves for doubling and every special case. |
| `Ed25519.GeAdd` | src/crypto/ed25519.c:147-185 | The limb code computes that formula, with the result free to be either operand. |
| `EdwardsGroup.ScalarMulIsMultiple` | src/crypto/ed25519.c:284-296 | In any abelian group that point addition stands for, double-and-add gives s P for every 256-bit s. |
| `Ed25519.GeScalarMul` | src/crypto/ed25519.c:284-296 | The 256-step loop computes that double-and-add on limbs. |
| `EdwardsEncoding.DecompressSound` | src/crypto/ed25519.c:218-275 | Every accepted encoding names a curve point with the encoded y and sign. |
| `EdwardsEncoding.DecompressComplete` | src/crypto/ed25519.c:218-275 | Over the prime field every affine curve point is what its own y and sign decompress to: nothing valid is refused, and the root found is the right one of the two. |
| `EdwardsEncoding.CompressRoundTrip` | src/crypto/ed25519.c:193-275 | Compressing a curve point and decompressing gives the same affine point. |
| `Ed25519.GeDecompress` | src/crypto/ed25519.c:218-275 | The limb code accepts exactly where that decompression does and writes its point. |
| `Ed25519.GeCompress` | src/crypto/ed25519.c:193-204 | The 32 bytes are y with the parity of x in the top bit. |
| `Ed25519Verify.Verify` | src/crypto/ed25519.c:298-357 | True exactly when S is below L, the key decompresses and R encodes SB - kA, k being the hash modulo L. |
| `Ed25519Signature.BaseIsPoint` | src/crypto/ed25519.c:298-357 | The compiled-in base point decompresses to the standard coordinates. |
| `Ed25519Signature.SignatureUnique` | src/crypto/ed25519.c:298-357 | For one key, message and R at most one S is accepted: signatures cannot be altered into other valid ones by changing S. |
| `Ed25519Signature.HonestSignature` | src/crypto/ed25519.c:298-357 | A signature with R = rB and S = r + k a modulo L is accepted under the key A = aB, where k is the hash of R, A and the message in that order, taken modulo L. |
| `Ed25519Signature.AcceptsExact` | src/crypto/ed25519.c:298-357 | A signature is accepted if and only if S is below L, the key names a point, R names a point and spells its y below p, so that no second encoding of it passes, and R + kA = SB in the group, where k is the hash of R, the key and the message in that order, taken modulo L. |
| `Constants.EdwardsBase` | src/crypto/ed25519.c:111-114 | The base point has y = 4/5 and an even x. |
| `Constants.EdwardsOrder` | src/crypto/ed25519.c:8-16 | L is 2^252 + 27742317777372353535851937790883648493. |
| `P256Field.Mod.constructor` | src/crypto/p256.c:193-209 | The context holds R mod m, R^2 mod m and -m^-1 modulo 2^32 for every odd 256-bit modulus with its top bit set. |
| `P256Field.ModAdd` | src/crypto/p256.c:111-117 | The residue of the sum, aliasing allowed. |
| `P256Field.ModSub` | src/crypto/p256.c:119-124 | The residue of the difference, aliasing allowed. |
| `P256Field.MontMul` | src/crypto/p256.c:149-191 | The residue of the product, aliasing allowed. |
| `P256Field.MontInv` | src/crypto/p256.c:224-246 | The residue of a^(m-2). |
| `Jacobian.DoubleParts` | src/crypto/p256.c:271-312 | What the doubling code leaves in X, Y and Z, as polynomials in the inputs. |
| `Jacobian.DoubleIdentity` | src/crypto/p256.c:271-312 | The doubled point misses the curve by 64 Y^6 times what the point missed it by. |
| `Jacobian.DoubleOnCurve` | src/crypto/p256.c:271-312 | Doubling keeps Y^2 = X^3 - 3XZ^4 + bZ^6, infinity included. |
| `JacobianAdd.AddOnCurve` | src/crypto/p256.c:318-386 | Addition keeps the curve equation, with either operand infinite, equal or opposite operands included. |
| `JacobianLaw.AffineCurve` | src/crypto/p256.c:248-257 | A finite Jacobian point is on the curve exactly when the affine point it stands for is. |
| `JacobianLaw.AddCases` | src/crypto/p256.c:318-386 | The general branch is taken exactly for different x; equal points are doubled and opposite points give infinity. |
| `JacobianLaw.AddIsChord` | src/crypto/p256.c:318-386 | In the general branch the affine result satisfies the chord rule. |
| `JacobianLaw.DoubleIsTangent` | src/crypto/p256.c:271-312 | The affine result of doubling satisfies the tangent rule. |
| `P256.PointDouble` | src/crypto/p256.c:271-312 | The limb code computes the doubling formulas, in place or not. |
| `P256.PointAdd` | src/crypto/p256.c:318-386 | The limb code computes addition with all of its branches, in place or not. |
| `JacobianGroup.ShamirComputes` | src/crypto/p256.c:390-414 | In any abelian group that point addition stands for, Shamir's trick gives k1 P1 + k2 P2 for all 256-bit k1 and k2. |
| `P256.DoubleScalarMul` | src/crypto/p256.c:390-414 | The limb loop computes that joint double-and-add. |
| `P256Constants.BasePoint` | src/crypto/p256.c:9-38 | The generator in the byte tables is on the curve. |
| `P256Verify.IsOnCurve` | src/crypto/p256.c:417-437 | True exactly when the affine coordinates satisfy the curve equation. |
| `P256Verify.Multipliers` | src/crypto/p256.c:439-546 | u1 = e s^-1 and u2 = r s^-1 modulo n, s^-1 being s^(n-2). |
| `P256Verify.Verify` | src/crypto/p256.c:439-546 | True exactly when the key is on the curve, r and s are in range, u1 G + u2 Q is finite and its affine x modulo n is r. |
| `P256Signature.HonestSignature` | src/crypto/p256.c:439-546 | Every signature with r = x(kG) mod n and s k = e + r d mod n is accepted under the key dG. |
| `P256Signature.AcceptsExact` | src/crypto/p256.c:439-546 | A signature is accepted if and only if the key satisfies y^2 = x^3 - 3x + b, r and s are in [1, n-1], and there are u1, u2 below n with s u1 = e and s u2 = r modulo n and a finite point that stands for u1 G + u2 Q and whose affine x is r modulo n. |
| `Constants.P256Prime` | src/crypto/p256.c:9-38 | The field prime is 2^256 - 2^224 + 2^192 + 2^96 - 1. |
| `Utf8.EncodeAccepted` | src/util/json_parse.c:92-155 | The encoding of every scalar value is accepted whole, whatever follows, and decodes to it. |
| `Utf8.AcceptedIsEncoding` | src/util/json_parse.c:92-137 | Whatever is accepted is the encoding of a scalar value: nothing overlong, no surrogate, nothing above U+10FFFF. |
| `KeyOrder.EncodeOrder` | src/util/json_parse.c:139-155 | A smaller code point has the smaller encoding in byte order. |
| `JsonParser.Parser.ReadString` | src/util/json_parse.c:187-299 | The loop over escapes, surrogate pairs and UTF-8 reads exactly the string the grammar gives, or fails with its error; a refused buffer never hides an error of the grammar. |
| `JsonParser.Parser.ReadKey` | src/util/json_parse.c:451-469 | A key without NUL, or the error of the grammar, or a refusal; with strings refused, an empty key is always called invalid. |
| `JsonParser.Parser.ReadNumber` | src/util/json_parse.c:303-386 | The number scanner accepts exactly the grammar and splits integers from other numbers. |
| `JsonParser.Parser.ReadArray` | src/util/json_parse.c:390-432 | The array loop reads exactly what the grammar gives at this depth, or memory was refused. |
| `JsonParser.Parser.ReadObject` | src/util/json_parse.c:434-509 | The object loop reads exactly what the grammar gives, a repeated key replacing the earlier value in its place, or memory was refused. |
| `JsonParser.ParseText` | src/util/json_parse.c:587-630 | With reliable memory the stateful parser returns the value or the first error of the grammar for every input; with memory refused at any point it returns that, or out of memory, or an invalid key, the last only when the text holds a string of no bytes or of 64 bytes doubled some number of times. |
| `JsonValid.StringValid` | src/util/json_parse.c:187-299 | Every accepted string decodes to valid UTF-8, surrogate pairs included. |
| `JsonStrings.PairRead` | src/util/json_parse.c:157-299 | For every scalar c from U+10000 up, the two escapes whose code units are 0xD800 + (c - 0x10000) / 1024 and 0xDC00 + (c - 0x10000) % 1024, in hexadecimal of either case and with anything after them, are read as the UTF-8 of c and leave the rest. |
| `JsonStrings.SingleRead` | src/util/json_parse.c:157-299 | For every scalar c below U+10000 its one escape, in hexadecimal of either case, is read as the UTF-8 of c and leaves the rest. |
| `JsonStrings.ShortRead` | src/util/json_parse.c:187-299 | Each of the eight short escapes is read as its byte. |
| `JsonStrings.StringExact` | src/util/json_parse.c:187-299 | A string is read to some bytes if and only if it is a closed row of characters, short escapes, code unit escapes and surrogate pairs that mean those bytes together. |
| `JsonNumbers.NumeralRead` | src/util/json_parse.c:303-386 | Every number of the grammar with at most 340 characters, when nothing after it continues it, is read as what it means: its decimal value if it is an integer literal within 64 bits, else its own spelling. |
| `JsonNumbers.NumeralOf` | src/util/json_parse.c:303-386 | Whatever is read as a number is such a spelling of it. |
| `JsonGrammar.ParseExact` | src/util/json_parse.c:390-630 | A text is parsed to a value if and only if it is at most 16 MiB long and the grammar of RFC 8259 derives it with that meaning: a derivation tree with blanks around it, at most 64 values deep, whose spelling is the text and whose meaning is the value, a repeated key taking its last value. |
| `JsonValid.ParsedIsWellFormed` | src/util/json_parse.c:511-630 | Every parsed value has valid UTF-8 strings, distinct NUL-free keys, 64-bit integers and bounded depth. |
| `JsonRoundTrip.StringRoundTrip` | src/util/json_write.c:34-80 | Parsing the escaped form of any valid UTF-8 string gives the string back. |
| `JsonRoundTrip.ParseWrite` | src/util/json_write.c:304-404 | Parsing the compact print returns the same value with the same member order, for every float-free well-formed value within the depth and size limits. |
| `JsonRoundTrip.WriteInjective` | src/util/json_write.c:304-404 | Different values print differently, however deep they are. |
| `JsonCompact.WrittenCompact` | src/util/json_write.c:34-404 | The text of every float-free well-formed value is the spelling of a derivation tree that means it, with no blanks, no character spelled longer than it need be, lower-case hexadecimal and integers without fraction or exponent. |
| `KeySort.KeyCmp` | src/util/json_write.c:221-236 | The loop decides byte order, with equality exactly for equal keys. |
| `KeyOrder.PrecedesExact` | src/util/json_write.c:221-236 | One key comes strictly before another exactly when, where they first differ, it has ended or has the smaller byte. |
| `KeySort.MergeSorted` | src/util/json_write.c:242-302 | Merging two sorted runs gives a sorted run. |
| `KeySort.PassRuns` | src/util/json_write.c:242-302 | A pass over sorted runs of one width leaves sorted runs of twice the width. |
| `KeySort.SortKeys` | src/util/json_write.c:242-302 | For every count the bottom-up merge sort leaves a sorted permutation of the indices. |
| `JsonCanonical.NormalForm` | src/util/json_write.c:304-419 | Two float-free values of any depth print to the same canonical bytes if and only if they are equal up to the order of members at every depth. |
| `JsonCompact.CanonicalBytes` | src/util/json_write.c:304-419 | The canonical bytes are the compact spelling of an equivalent value whose keys ascend in byte order at every depth. |
| `JsonCanonical.PrintParsePrint` | src/util/json_write.c:417-419 | Parsing the canonical print gives an equivalent value that prints to the same bytes. |
| `JsonCanonical.OrderIndependent` | src/util/json_write.c:304-339 | Reordering members at any depth does not change the canonical bytes, whatever the floats print as. |
| `JsonWriter.WriteEscaped` | src/util/json_write.c:34-80 | The escaping loop appends exactly the quoted form, or leaves the buffer failed. |
| `JsonWriter.OrderIsCanonical` | src/util/json_write.c:304-339 | Visiting members in the order the sort gives is visiting the canonical object. |
| `JsonWriter.WriteObject` | src/util/json_write.c:304-339 | The object writer appends exactly the compact or canonical text, or leaves the buffer failed. |
| `JsonWriter.WriteValue` | src/util/json_write.c:341-404 | The recursive writer appends exactly the compact or canonical text, or leaves the buffer failed. |
| `JsonWriter.WriteText` | src/util/json_write.c:406-423 | All of the text or nothing; nothing only when memory is refused, the size cannot be counted or the text holds a NUL. |
| `JsonObject.ObjectNode.SetMember` | src/util/json.c:197-232 | Replaces in place or appends; on failure nothing changes, and with reliable memory it fails exactly for a new key over 16 MiB or a size that cannot be counted. |
| `JsonObject.Grow` | src/util/json.c:156-178 | Room for one more element; with reliable memory it fails exactly when the doubled size cannot be counted. |
| `JsonObject.ObjectNode.Get` | src/util/json.c:389-404 | The value of the first member with the key, exactly when there is one. |
| `JsonObject.CloneIsCopy` | src/util/json.c:234-281 | Cloning by setting members one at a time copies every well-formed value. |
| `JsonObject.CloneValue` | src/util/json.c:234-281 | The whole copy or nothing; nothing only when memory is refused, a key is over 16 MiB or a size cannot be counted. |
| `Json.SetKeepsOthers` | src/util/json.c:197-232 | Setting one key leaves every other member where it was. |
| `Buf.Buffer.Reserve` | src/util/buf.c:30-76 | Room for the bytes or a sticky failure; with reliable memory only an uncountable size fails. |
| `Buf.Buffer.Append` | src/util/buf.c:78-94 | All of the bytes at the end or a sticky failure. |
| `Buf.Buffer.DetachString` | src/util/buf.c:159-188 | The contents, refused after any failure, when a NUL inside would cut them short, or when they fill the buffer and memory is refused. |
| `Gcm.GfMul` | src/crypto/gcm.c:20-58 | The masked bit loop computes the block product of section 6.3 of NIST SP 800-38D. |
| `GcmField.MulCommutes` | src/crypto/gcm.c:20-58 | The block product is commutative. |
| `GcmField.MulAssociates` | src/crypto/gcm.c:20-58 | The block product is associative. |
| `GcmField.MulXor` | src/crypto/gcm.c:20-58 | It distributes over addition on both sides. |
| `GcmField.PowersMultiply` | src/crypto/gcm.c:20-58 | Powers of x below x^128 multiply by adding exponents. |
| `GcmField.Reduction` | src/crypto/gcm.c:20-58 | x times x^127 is x^7 + x^2 + x + 1; with the rows above this fixes the product. |
| `GcmSeal.GhashIsPolynomial` | src/crypto/gcm.c:62-83 | GHASH is the polynomial of the blocks evaluated at the hash key. |
| `GcmSeal.GhashUpdate` | src/crypto/gcm.c:62-83 | The loop absorbs the data in zero-padded blocks. |
| `GcmSeal.Increment` | src/crypto/gcm.c:93-101 | The byte loop adds one to the last 32 bits, modulo 2^32, and leaves the nonce. |
| `GcmSeal.CountersDistinct` | src/crypto/gcm.c:93-101 | No counter block repeats within 2^32 blocks. |
| `GcmSeal.Seal` | src/crypto/gcm.c:242-264 | Writes the counter-mode ciphertext and the tag of section 7.1 of NIST SP 800-38D, and nothing past them. |
| `GcmSeal.Open` | src/crypto/gcm.c:176-240 | Accepts exactly the right tag; on a mismatch the length is zero and all that was written is zero, so that the buffer is as before if and only if it held zeros there. |
| `GcmSeal.OneTag` | src/crypto/gcm.c:176-240 | For one ciphertext, nonce and associated data exactly one tag opens. |
| `GcmTag.BlockAt` | src/crypto/gcm.c:62-83 | Block i of some data holds its bytes 16 i to 16 i + 15, with zeros past the end. |
| `GcmTag.KeystreamAt` | src/crypto/gcm.c:93-174 | The byte at position i is masked with byte i mod 16 of the cipher applied to the nonce followed by the 32-bit big-endian number 2 + i / 16. |
| `GcmTag.TagIs` | src/crypto/gcm.c:85-174 | The tag is E(nonce, 0, 0, 0, 1) plus the polynomial, at E of sixteen zero bytes, of the blocks of the associated data, those of the ciphertext, and sixteen bytes whose halves are the two lengths in bits, big-endian modulo 2^64, the associated data first. |
| `GcmTag.OpensExact` | src/crypto/gcm.c:176-240 | A message opens exactly when its last sixteen bytes are that tag over the bytes before them, and what it opens to is those bytes under that keystream. |
| `GcmSeal.OpenSealed` | src/crypto/gcm.c:176-264 | Opening a sealed message gives the plaintext, for every key, nonce, associated data and plaintext. |
| `GcmSeal.OpenedIsSealed` | src/crypto/gcm.c:176-264 | A message opens to a plaintext if and only if it is the sealing of it. |
| `FingerprintBuild.BuildComponent` | src/util/fingerprint.c:116-167 | Validates and trims: a component exactly for valid entries, or out of memory. |
| `Fingerprint.AdjacentExact` | src/util/fingerprint.c:182-197 | After sorting, looking at neighbours finds a repeated label exactly when there is one anywhere. |
| `FingerprintBuild.HasDuplicates` | src/util/fingerprint.c:182-197 | The neighbour loop answers whether any label repeats. |
| `Fingerprint.JoinInjective` | src/util/fingerprint.c:199-258 | The joined string determines its parts. |
| `Fingerprint.CanonicalIff` | src/util/fingerprint.c:199-258 | Two accepted component lists give the same string if and only if their label-to-trimmed-value maps are equal. |
| `FingerprintExact.CoreExact` | src/util/fingerprint.c:116-167 | A trimmed value is what is left between the longest runs of spaces and of the controls 9 to 13 at both ends. |
| `FingerprintExact.AcceptedExact` | src/util/fingerprint.c:25-197 | A list is accepted exactly when it is not empty, its labels are distinct, not empty and visible ASCII without an equals sign, and no trimmed value holds a control character. |
| `FingerprintExact.CanonicalIs` | src/util/fingerprint.c:199-258 | The canonical string is tamga-fingerprint-v1 and then, each after a byte 0x1F, the parts label=trimmed value of the entries in strictly ascending byte order. |
| `FingerprintBuild.BuildCanonical` | src/util/fingerprint.c:199-258 | The canonical string exactly for accepted lists; with reliable memory nothing else but an uncountable size stops it. |
| `Base64.BareValue` | src/util/base64.c:424-461 | The characters read in base 64 are the bytes read in base 256, moved up by the spare bits. |
| `Base64.SpellsUnique` | src/util/base64.c:287-357 | A string spells at most one byte string. |
| `Base64Exact.AlphabetIs` | src/util/base64.c:8-15 | The letter of each digit is the one at that place of the printed alphabet. |
| `Base64Exact.SpellsExact` | src/util/base64.c:287-461 | A string spells some bytes exactly when it is a row of letters whose digits, in base 64, make the big-endian number of the bytes shifted up to the last whole digit, alone or filled up with equals signs to a multiple of four. |
| `Base64.Decode` | src/util/base64.c:287-357 | Accepts exactly the encoding of some bytes, padded or with all padding removed, writes those bytes and never past the computed capacity. |
| `Base64.EncodeInto` | src/util/base64.c:424-461 | Writes exactly the encoding and a NUL. |
| `Base64.RoundTrip` | src/util/base64.c:287-461 | Both spellings of any bytes decode to them and to nothing else. |
| `Sha.Context.Update` | src/crypto/sha256.c:95-131 | Buffering keeps the context that of the message with the data appended, for any split. |
| `Sha.Context.Final` | src/crypto/sha256.c:133-166 | Folds compression over the padded message, the length field taken modulo 2^64 bits. |
| `Sha.FinalShape` | src/crypto/sha512.c:145-179 | The zeros and field that are written are the padding of sections 5.1.1 and 5.1.2 of FIPS 180-4. |
| `Sha.LengthFieldExact` | src/crypto/sha512.c:145-179 | The written field is the right one if and only if the message is shorter than 2^61 bytes. |
| `Sha.PaddedExact` | src/crypto/sha256.c:133-166 | The padded message is the message, a byte 0x80, fewer than a block of zeros and a field that holds the length in bits and ends a block, and it is the only such string. |
| `Sha.HashChunks` | src/crypto/sha256.c:78-166 | However a message below 2^61 bytes is cut into updates the digest is that of the whole, for both block sizes. |
| `Der.LengthExact` | src/crypto/der.c:18-81 | A length is read exactly from its shortest form. |
| `Der.ReadExact` | src/crypto/der.c:18-81 | An element is accepted if and only if it is the shortest encoding of a low tag and content below 2^32 bytes. |
| `Der.MagnitudeExact` | src/crypto/der.c:92-128 | An INTEGER is accepted for a magnitude if and only if it is its minimal non-negative content. |
| `Der.Reader.ReadElement` | src/crypto/der.c:18-81 | The stateful reader returns that element and stands right after it. |
| `Ecdsa.SignatureExact` | src/crypto/ecdsa.c:93-137 | A blob is accepted for padded (r, s) if and only if it is their one encoding. |
| `Ecdsa.SignatureBlobUnique` | src/crypto/ecdsa.c:93-137 | Two accepted blobs with the same padded (r, s) are the same bytes. |
| `Ecdsa.ReadSignature` | src/crypto/ecdsa.c:103-137 | The nested readers compute that parse. |
| `Ecdsa.KeyExact` | src/crypto/ecdsa.c:27-89 | A key is accepted for (x, y) if and only if it is the raw point or its one SubjectPublicKeyInfo. |
| `EcdsaVerify.ReadPoint` | src/crypto/ecdsa.c:27-89 | The nested readers compute that extraction. |
| `EcdsaVerify.Verify` | src/crypto/ecdsa.c:139-160 | True exactly when the key and the blob are encodings of a point and a signature that P-256 verification accepts for the digest of the message. |
| `EcdsaExact.InfoKeyIs` | src/crypto/ecdsa.c:10-89 | The two forms of a key, byte by byte. |
| `EcdsaExact.VerifiesExact` | src/crypto/ecdsa.c:27-160 | A blob verifies under a key exactly when the key is one of those two forms of some (x, y), the blob is 0x30, its length and two INTEGERs with shortest contents, r first, and P-256 verification accepts the digest with them. |
| `KeySet.DecodeKey` | src/checkout/key_set.c:175-196 | Thirty-two bytes exactly when the text spells them; each failure says which test failed. |
| `KeySet.Keys.Reserve` | src/checkout/key_set.c:107-139 | Room or no change to what is held. |
| `KeySet.Keys.AddPublicKey` | src/checkout/key_set.c:198-229 | One entry under the computed id, or no change. |
| `KeySet.Keys.Stage` | src/checkout/key_set.c:261-330 | A usable row is appended, any other row is counted as skipped, and only memory can fail. |
| `KeySetExact.RowExact` | src/checkout/key_set.c:261-330 | A row adds an entry exactly when it has a text id that is not empty, and attributes with an algorithm that is ed25519 in any case and a publicKey that spells 32 bytes; the entry is those bytes under the id, and it is mismatched when the id is not the one computed from the key text. |
| `KeySetExact.RowsConcat` | src/checkout/key_set.c:332-422 | Rows are taken one by one and in order, and the counts add up. |
| `KeySetExact.DataExact` | src/checkout/key_set.c:332-422 | A key document is a JSON text of 1 byte to 16 MiB that is an object with an array under data. |
| `KeySet.ParseDocument` | src/checkout/key_set.c:355-361 | The parsed document; InvalidJson for a malformed document, or for memory refused while the text holds a string that fills its buffer. |
| `KeySet.EmptyKeyDocument` | src/util/json_parse.c:460-469 | A good key document with an empty first key. |
| `KeySet.BlameEmptyKey` | src/util/json_parse.c:460-469 | With strings refused it is reported as malformed. |
| `KeySet.Keys.AddJson` | src/checkout/key_set.c:332-422 | All usable rows in order or no change at all, with added + skipped equal to the row count and mismatched at most added; a usable document is called malformed only under refused memory and with a string that fills its buffer. |
| `KeySet.Run` | src/checkout/key_set.c:198-422 | Over any run of requests with allocation failing at any point the set is what it was plus exactly the entries of the requests that succeeded, in order, and no lookup that had an answer changes it. |
| `KeySet.FailureLeavesNoTrace` | src/checkout/key_set.c:198-422 | Dropping a failed request from a run changes nothing that was added. |
| `KeySet.Keys.Lookup` | src/checkout/key_set.c:424-440 | The key of the first entry with the id. |
| `KeySet.FirstKeyIs` | src/checkout/key_set.c:424-440 | The first entry, and one is found exactly when there is one. |
| `KeySet.Keys.FindVerifier` | src/checkout/key_set.c:477-497 | True exactly when the signature has 64 bytes and some held key verifies it. |
| `MachineAlg.AlgSplit` | src/checkout/machine_file.c:82-123 | Splits exactly the strings that end in +v2 with a plus sign before that, at the first and the last plus sign. |
| `MachineAlg.OpenAlg` | src/checkout/machine_file.c:280-349 | Each scheme takes exactly two alg strings. |
| `MachineAlg.SchemeUnique` | src/checkout/machine_file.c:46-59 | No alg string is taken under two schemes. |
| `Payload.PairExact` | src/checkout/machine_file.c:166-276 | A machine payload opens to a text if and only if enc is a nonce and the sealing of the text, each in base64, with one dot between. |
| `Payload.BlobExact` | src/checkout/license_file.c:95-168 | A licence payload opens to a text if and only if it is a nonce followed by the sealing of the text. |
| `Payload.DecodedExact` | src/checkout/machine_file.c:359-385 | Plain or encrypted, licence or machine, decoding gives a text exactly when enc carries it. |
| `Payload.Decoder.Decode` | src/checkout/license_file.c:95-168 | The stepwise decoding computes that, with each error code. |
| `OfflineFile.ExpiryMonotone` | src/checkout/claims.c:36-48 | What has expired stays expired. |
| `OfflineFile.ExpiryExact` | src/checkout/claims.c:36-48 | The guard for small clock readings never changes the verdict if and only if the expiry is -1 or later. |
| `OfflineFile.ExpiryDiffers` | src/checkout/claims.c:36-48 | A negative expiry for which it does. |
| `OfflineFile.SetAccepts` | src/checkout/license_file.c:245-321 | With a key set a file is accepted with a result if and only if some held key verifies the undecoded enc and what enc carries grants the result. |
| `OfflineFile.KeyAccepts` | src/checkout/machine_file.c:457-535 | The same for a single key. |
| `OfflineFile.VerifyCore` | src/checkout/machine_file.c:457-584 | The stepwise core meets both, returns the exact error code otherwise, and with a single key decodes nothing unless the signature verifies. |
| `OfflineFile.MoreKeys` | src/checkout/key_set.c:477-497 | Adding keys never loses an acceptance. |
| `OfflineFile.KeyOrder` | src/checkout/key_set.c:442-529 | Permuting or repeating keys changes nothing, error codes included. |
| `OfflineFile.OneKey` | src/checkout/license_file.c:323-344 | A set of one key accepts exactly what the key alone accepts, with the same result. |
| `OfflineFile.KidNeverAccepts` | src/checkout/key_set.c:499-529 | The kid a payload names cannot change whether it is accepted. |
| `OfflineFile.KidOrderAccepts` | src/checkout/license_file.h:58-69 | Decoding first and verifying with the key that the kid names would accept what the code accepts, with the same result, if and only if the named key verifies. |
| `OfflineFile.RenamedKey` | src/checkout/key_set.c:477-497 | A key held under another id still accepts its files, where selection by the kid would refuse them. |
| `OfflineFile.AcceptedEarlier` | src/checkout/claims.c:36-48 | What is accepted now was accepted at every earlier clock reading. |
| `OfflineFile.IssuedIsAccepted` | src/checkout/machine_file.c:359-448 | A printed, carried and signed payload comes out as what it says: JSON, base64, AEAD and verification round trip together. |
| `OfflineExact.ModeExact` | src/checkout/license_file.c:19-58 | A licence is plain exactly under base64+ed25519+v2 and encrypted exactly under aes-256-gcm+ed25519+v2; a machine file likewise with the name of its scheme; no other string is taken. |
| `OfflineExact.PermitsExact` | src/checkout/claims.c:5-48 | A payload is granted exactly when it is an object with an object under meta and the resource, an object, under data; iat is the time of issue, 0 without one; exp is the expiry, none if it is missing or null; and the clock reads less than 60 or at most 60 past the expiry. |
| `OfflineExact.SetAcceptsExactly` | src/checkout/license_file.c:245-321 | With a key set a licence file, or a machine file under Ed25519, is accepted with a result exactly when a held key verifies a 64-byte signature over the undecoded enc, and enc carries, in the framing that the alg string names, a JSON text that permits the result. |
| `OfflineExact.KeyAcceptsExactly` | src/checkout/machine_file.c:457-535 | The same for a single key, which for a machine file is 1 byte to 16 MiB long. |
| `OfflineExact.KeyRefuses` | src/checkout/machine_file.c:457-535 | With a single key: LengthInvalid for a machine key of no bytes or over 16 MiB, then UnsupportedScheme for another alg string, then InvalidBase64 for a signature that spells nothing, then SignatureInvalid for a licence signature that is not 64 bytes long or any that does not verify. |
| `OfflineExact.SetRefuses` | src/checkout/machine_file.c:537-584 | With a key set: KeyIdNotApplicable for the schemes 2, 3 and 4, UnsupportedScheme for any other but 1 and for another alg string, then InvalidBase64. |
| `OfflineExact.FinishRefuses` | src/checkout/machine_file.c:406-448 | A payload is refused as expired exactly when its claims can be read and the clock reads 60 or more and more than 60 past the expiry; every other refusal is InvalidJson. |
| `OfflineExact.LabelExact` | src/checkout/key_set.c:442-529 | When no held key verifies, the refusal is SigningKeyNotPublished exactly for the id e3b0c44298fc1c14 that is not held, UnknownSigningKey exactly for any other id that is not held, and otherwise SignatureInvalid or the error of a missing argument or memory. |
| `OfflineExact.IssuedPlainLicence` | src/checkout/license_file.c:24-321 | A licence file with alg base64+ed25519+v2 whose enc is base64 of a printed payload, signed under a held key, is accepted with exactly what the payload permits. |
| `OfflineExact.IssuedSealedLicence` | src/checkout/license_file.c:95-321 | The same for aes-256-gcm+ed25519+v2 and base64 of a nonce followed by the sealed payload. |
| `OfflineExact.IssuedPlainMachine` | src/checkout/machine_file.c:280-535 | The same for a machine file with alg base64+ed25519+v2. |
| `OfflineExact.IssuedSealedMachine` | src/checkout/machine_file.c:166-535 | The same for a machine file with alg aes-256-gcm+ed25519+v2 and base64 of a nonce, a dot and base64 of the sealed payload. |
| `CivilDate.ClosedForm` | src/util/rfc3339.c:47-61 | For every year, negative ones included, the era arithmetic with division toward zero is the closed form with floor division. |
| `CivilDate.NextDayCounts` | src/util/rfc3339.c:24-61 | The count goes up by exactly one from each calendar day to the next. |
| `CivilDate.CountOfDate` | src/util/rfc3339.c:24-61 | Counting n days from 1970-01-01, forward or back, reaches a valid date whose count is n. |
| `CivilDate.DateOfCount` | src/util/rfc3339.c:24-61 | Every valid date is the one its count leads to. |
| `Rfc3339.ReadWritten` | src/util/rfc3339.c:63-164 | Every stamp with any fraction and zone is read back. |
| `Rfc3339.ReadIsWritten` | src/util/rfc3339.c:63-164 | Nothing else is read: an accepted string is the spelling of the stamp it gives. |
| `Rfc3339.OffsetsAgree` | src/util/rfc3339.c:63-164 | One instant written in any two zones parses to the same epoch second. |
| `Rfc3339.StampOfInstant` | src/util/rfc3339.c:63-164 | In one zone an epoch second has one date and time. |
| `Rfc3339Exact.ParsedExact` | src/util/rfc3339.c:24-164 | A string is read as an epoch second exactly when it is year-month-day, T, hour:minute:second, an optional fraction and a zone with every field in range, and the second is that of the date and time less the offset of the zone, a second 60 counting as 59. |
| `Rfc3339Exact.OneHour` | src/util/rfc3339.c:63-164 | Writing +01:00 for Z names the second an hour earlier, -01:00 an hour later. |
| `Rfc3339.Parse` | src/util/rfc3339.c:63-164 | The stepwise parser accepts exactly those strings and returns their epoch second. |

## Left out

- Primality of the field and group orders, Fermat's theorem and the group axioms of the curves: hypotheses, as above.
- The AES rounds and key schedule and the SHA compression functions: parameters, since only their type matters here.
- Key derivation (HKDF) and the key-id hash: the derived block cipher and `kid` are parameters, and a failure of the
  derivation is not modelled.
- RSA signature padding (`src/crypto/rsa.c`): only the exponentiation under it is modelled. `verify` in `OfflineFile`
  is any function of key, message and signature.
- JSON numbers that are not 64-bit integers: kept as their token. What `strtod` and `printf` make of one is the
  parameter `integral` or `format`, and the round trips are for float-free values.
- The PEM envelope and the certificate JSON (`src/checkout/pem.c`, `src/checkout/cert.c`): verification starts from the
  three certificate fields.
- Payload.Decoder.Decode: its allocations are granted and key derivation does not fail, so those two error codes are
  never returned.
- OfflineFile.VerifyCore: starts from the certificate fields, and the allocations of decoding, parsing and copying are
  granted, so that OutOfMemory is never returned.
- FingerprintBuild.Sort: stands for `qsort` and promises a sorted permutation; which sort it is does not matter.
- NULL arguments, with the exception of a missing licence key or fingerprint, which is a missing cipher.
- Memory erasure of secrets, constant-time behaviour, error messages and the accessors of `src/tamga_api.c`.
- HTTP transport, retries, endpoint wrappers and response models (`src/http`, `src/models`): input and output around a
  server that is not part of the repository.
- The ttl limits of a checkout request and hexadecimal text.
