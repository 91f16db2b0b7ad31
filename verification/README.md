# A model of the foundation of BqLog

BqLog is a logging library in C++ that uses no standard containers and no external cryptography.
This Dafny project models the algorithms under it and proves what they promise.

| module | what it models |
|---|---|
| `HashMaps`, `NodeTables`, `SlotLists` | `bq::hash_map`: one array of nodes that carries the list of live nodes, the free list and one run of nodes per bucket |
| `BigNum`, `ByteStrings`, `Primes`, `Rsa` | arithmetic on 32-bit limbs, and RSA without padding |
| `Base64`, `SshKey`, `DerKey`, `Pem`, `Examples` | the two key parsers; a small key in all its forms, byte by byte |
| `Gf`, `Aes`, `AesVectors` | the block cipher, its inverse, its key schedule, and chaining; the example vectors of FIPS 197 |
| `Vernam`, `Masks` | the four loops that mix a buffer with a repeating key |
| `ManagedArrays` | `bq::array`: objects constructed and destroyed by hand, with a tail of zeros for strings |
| `GlobalVars`, `Progress`, `Deadlocks`, `Reuse` | the global variables that are created on first use by any number of threads, their destruction, whether calls come to an end, and threads at the address of one that has ended |
| `Utf16`, `LogArgs` | the sizes and the bytes of log arguments |
| `Strings`, `CategoryTrees` | the category tree of the code generator |
| `Bits`, `Arith`, `Common` | bitwise operators on numbers, and arithmetic |

Code that works in place is modelled by methods on arrays and classes; what they compute is stated
by functions, and lemmas say what these functions mean. `GlobalVars` is a state machine: each step is
one atomic access, and a run is any sequence of actions of any threads.

How the C++ is represented:

- Limbs, bytes and characters are numbers with their ranges; bytes of the block cipher and of the
  Vernam loops are bit vectors. `&`, `|`, `<<` and `>>` on numbers are the functions of `Bits`, bit by bit.
- A parameter `beyond` is the byte behind a buffer, which `trim_be` and `fixed_limbs_to_min_be` read
  for a number that is zero. It is arbitrary.
- `junk` is what uninitialized memory, and objects that were moved out, hold. It is arbitrary.
- The values behind the end of a 32-bit string, which the loops that take four characters at a time
  may read, are arbitrary (`Memory` is a function of all places).
- The hash is any function of the key, and the growth formula of the hash map any function with
  values between 1 and 2^31.
- Where a sum of sizes can wrap around (the reader of private keys, the capacity of an array), the
  width of `size_t` is a parameter: the library is built for 32 and for 64 bits. A buffer is smaller
  than half of what the width can count.
- Numbers in memory have their low byte first.
- Construction, assignment and destruction of objects in `ManagedArrays` have the object's life as
  precondition, so a verified operation never constructs over a live object and never assigns to or
  destroys a dead one.

Where the code and what is said about it differ, the code is followed:

- `mod_pow` returns one, not zero, for modulus one and exponent zero (`BigNum.ModPow`, `Rsa.Decrypt`).
- The checks of a private key for an empty number reject nothing: a zero INTEGER is read as the tag
  behind it, so that a key whose modulus is written as zero is accepted with the modulus two
  (`DerKey.KeyAccepted`, `DerKey.ZeroModulusAccepted`). In a public key a zero is rejected exactly if
  the byte behind it is zero too (`SshKey.BlobAccepted`).
- On 32 bits the reader of private keys adds a length of up to 2^32 - 1 to a position. If the sum
  wraps around, a triple is accepted whose value ends behind the buffer, and the cursor goes back
  (`DerKey.ReadMeans`, `DerKey.NextMeans`, `DerKey.WrappedExample`). Then bytes that are no key may be
  accepted, or the parser reads behind the buffer (`DerKey.WrongLengthAccepted`, `DerKey.FieldWraps`,
  `DerKey.OutsideExample`); every key is still accepted (`DerKey.ParserAgrees`). On 64 bits nothing
  wraps (`DerKey.ParserWide`).
- `pop_back` does not move the zero behind a string (`ManagedArrays.ManagedArray.PopBack`,
  `ManagedArrays.ManagedArray.PopBackMany`).
- An iterator to an erased node still passes the legality check; it is live exactly if its node is
  not on the free list (`HashMaps.HashMap.LegalMeans`, `HashMaps.HashMap.FindThenErase`).
- Assigning a hash map to itself empties it (`HashMaps.HashMap.CopyFrom`).
- `roundup_pow_of_two` returns zero above the greatest power of two of its type (`Bits.RoundupPowOfTwo`).
- Where `wchar_t` is a signed type of 32 bits, the check of four characters at a time is a signed
  comparison, and a negative value behind the string can pass it: then low halves are written
  instead of surrogates. The exact condition is `Utf16.CopyMeans` and `Utf16.OverrunsMeans`, an input
  `Utf16.SignedCopyFails`.
- Variables that use each other in a cycle can make threads wait for each other for ever
  (`Deadlocks.CycleStuck`); along an order they cannot (`Progress.NeverStuck`).
- The loop for SSE has no check of alignment; without it the loop may not end (`Vernam.EndsExactly`,
  `Vernam.LoopForEver`). The heads for AVX2 and NEON do not wrap, and without the alignment that only
  debug builds check they may read behind the key (`Vernam.HeadInKeyExactly`, `Vernam.HeadBehindKey`).
- "Safe handling of nested get() calls" does not extend to a priority variable whose constructor
  uses the variable that depends on it (`GlobalVars.SameBuffer`, `GlobalVars.NullReturned`,
  `GlobalVars.PriorityFirst`).

## Model

| member | source | states |
|---|---|---|
| HashMaps.HashMap.constructor | include/bq_common/types/hash_map_impl.h:102-110 | A new map is empty, and its lists and runs are well formed for any initial bucket count. |
| HashMaps.HashMap.ExpandBuckets | include/bq_common/types/hash_map_impl.h:490-559 | The walk ends; it permutes the live list and the pairs without losing or doubling one, touches no entry and no free slot, and leaves every new bucket with one contiguous run that starts at its recorded head; the abstract map is unchanged. |
| HashMaps.HashMap.RegroupOne | include/bq_common/types/hash_map_impl.h:505-557 | One step of that walk: with the first `p` nodes grouped, the next one joins the run of its bucket or starts it, and `p + 1` nodes are grouped. |
| HashMaps.HashMap.ExpandNodes | include/bq_common/types/hash_map_impl.h:562-591 | Moving to a bigger node array keeps list order, pairs, buckets and all slots, and makes a free slot available. |
| HashMaps.HashMap.FindIndex | include/bq_common/types/hash_map_impl.h:594-615 | The walk along one bucket's run finds a live node with the key and its value if and only if the abstract map has the key. |
| HashMaps.HashMap.Find | include/bq_common/types/hash_map_impl.h:190-202 | The iterator passes the legality check if and only if the key is in the map, and then shows the map's value. |
| HashMaps.HashMap.Add | include/bq_common/types/hash_map_impl.h:204-221 | Adding a new key, growing buckets and nodes when needed, extends the abstract map by exactly that pair; the result is a live iterator to it. There are as many buckets as the growth formula asks for, and they are regrouped only if there were fewer; otherwise all live iterators stay live and show the same pairs. |
| HashMaps.HashMap.AllocNode | include/bq_common/types/hash_map_impl.h:618-660 | The node comes off the free list and is linked behind the end of the list, or before the head of its bucket's run; all links elsewhere stay. |
| HashMaps.HashMap.Erase | include/bq_common/types/hash_map_impl.h:261-301 | A live node leaves the list and its run and goes to the free list; the map loses exactly its key. Exactly the iterators to that node stop being live, all others show the same pairs; yet every iterator passes the check as before. |
| HashMaps.HashMap.EraseKey | include/bq_common/types/hash_map_impl.h:303-311 | Succeeds exactly if the key was there, and removes exactly that key; a live iterator stays live if and only if its key is another one. |
| HashMaps.HashMap.Subscript | include/bq_common/types/hash_map_impl.h:180-187 | Finds the key, or adds it with the default value; all other keys keep their values. |
| HashMaps.HashMap.Clear | include/bq_common/types/hash_map_impl.h:373-395 | The map is empty, and all slots of the kept array are on the free list; every iterator passes the check as before. |
| HashMaps.HashMap.Reset | include/bq_common/types/hash_map_impl.h:397-417 | The map is empty and holds no arrays. |
| HashMaps.HashMap.CopyFrom | include/bq_common/types/hash_map_impl.h:223-233 | After assignment both maps are equal as abstract maps; assigning a map to itself empties it. |
| HashMaps.HashMap.Iterate | include/bq_common/types/hash_map_impl.h:313-335 | Iteration visits every pair of the map once, in list order. |
| HashMaps.HashMap.PerformAll | include/bq_common/types/hash_map_impl.h:181-395 | Any sequence of add, reading and assigning subscript, find, erase, clear, assignment from another map and from itself answers as an abstract map does, step by step, and ends in a well formed state with that map. |
| HashMaps.FindAfter | include/bq_common/types/hash_map_impl.h:181-395 | The laws of that abstract map: what `find` shows of a key after each of the operations, on it or on another key. |
| HashMaps.HashMap.LegalMeans | include/bq_common/types/hash_map_impl.h:343-359 | An iterator that passes the check is live if and only if its node is not on the free list, that is, if its node holds a pair. |
| HashMaps.HashMap.FindThenErase | include/bq_common/types/hash_map_impl.h:261-311 | An iterator from `find` stays live after `erase` of a key, with the same pair, if and only if the keys differ; it passes the check in either case. |
| HashMaps.HashMap.FindThenClear | include/bq_common/types/hash_map_impl.h:343-395 | An iterator from `find` passes the check after `clear`, but is not live. |
| HashMaps.HashMap.ListStructure | include/bq_common/types/hash_map_impl.h:181-311 | In every well formed state the `next` walk visits each live slot once with `prev` its mirror, the free walk visits exactly the other slots, and the live slots hold the map. |
| HashMaps.HashMap.BucketContiguous | include/bq_common/types/hash_map_impl.h:181-311 | Between two nodes of a bucket in the list there are only nodes of that bucket. |
| HashMaps.HashMap.BucketIsRemainder | include/bq_common/types/hash_map_impl.h:466-469 | The number of buckets is a power of two, and every live node is in the bucket of the remainder of its hash by it. |
| HashMaps.HashMap.BucketHeadIsFirst | include/bq_common/types/hash_map_impl.h:181-311 | A bucket records a node if and only if it is the first one of its run. |
| SlotLists.InsertLinked | include/bq_common/types/hash_map_impl.h:618-660 | Linking a node between two neighbours of a doubly linked list gives the list with that node inserted. |
| SlotLists.RemoveLinked | include/bq_common/types/hash_map_impl.h:261-301 | Unlinking a node gives the list without it. |
| SlotLists.RunsInsert | include/bq_common/types/hash_map_impl.h:618-660 | Runs stay contiguous and heads stay right when a node is inserted before or behind a node of its own bucket. |
| SlotLists.Contiguous | include/bq_common/types/hash_map_impl.h:490-559 | Recorded heads at all run starts imply that no bucket has two runs. |
| NodeTables.RegroupMove | include/bq_common/types/hash_map_impl.h:505-557 | Moving the next node behind the head of its bucket's run keeps the part already walked grouped. |
| Bits.RoundupPowOfTwo | include/bq_common/types/type_tools.h:263-275 | For every width and every argument: the shifting loop returns the least power of two that is not below its argument, and zero exactly for zero and above the greatest power of the word. |
| BigNum.Compare | src/bq_common/encryption/rsa.cpp:254-265 | The sign of the result orders the two numbers. |
| BigNum.Add | src/bq_common/encryption/rsa.cpp:268-278 | Result plus carry times the limb base to the length is the exact sum, also when the target is an operand. |
| BigNum.Sub | src/bq_common/encryption/rsa.cpp:280-291 | Result minus borrow times the limb base to the length is the exact difference. |
| BigNum.BitLength | src/bq_common/encryption/rsa.cpp:325-341 | The number lies below two to the bit length, and not below half of that unless it is zero. |
| BigNum.GetBit | src/bq_common/encryption/rsa.cpp:343-351 | The bit of the number; zero beyond its limbs. |
| BigNum.ModAdd | src/bq_common/encryption/rsa.cpp:353-367 | The sum modulo `m`, including the case in which the limb addition carries out. |
| BigNum.ModDouble | src/bq_common/encryption/rsa.cpp:369-383 | The double modulo `m`, including carry out. |
| BigNum.ModMul | src/bq_common/encryption/rsa.cpp:385-398 | The product modulo `m`; the target may be an operand. |
| BigNum.ModPow | src/bq_common/encryption/rsa.cpp:400-413 | The power modulo `m` for every length, with source and target shared inside; it is right if and only if the modulus is above one or the exponent is not zero, and in the one failing case the result is one. |
| ByteStrings.FromBeBytes | src/bq_common/encryption/rsa.cpp:293-306 | The limbs hold the big-endian number, less what does not fit. |
| ByteStrings.ToBeBytes | src/bq_common/encryption/rsa.cpp:308-323 | The bytes hold the number, less what does not fit. |
| ByteStrings.TrimmedMeans | src/bq_common/encryption/rsa.cpp:64-79 | Trimming keeps the number and leaves no leading zero, unless there are only zeros: then the result is the byte behind the field. |
| ByteStrings.ZeroTrimmed | src/bq_common/encryption/rsa.cpp:64-79 | A field of value zero is still all zero after trimming if and only if the byte behind it is zero. |
| ByteStrings.Trim | src/bq_common/encryption/rsa.cpp:64-79 | The loop computes the trimmed field. |
| ByteStrings.CheckNonzero | src/bq_common/encryption/rsa.cpp:477-485 | True if and only if some byte is not zero. |
| ByteStrings.MinimalInjective | src/bq_common/encryption/rsa.cpp:64-79 | Numbers without leading zeros have one byte form. |
| Primes.Fermat | src/bq_common/encryption/rsa.cpp:726-826 | Fermat's little theorem, from the binomial theorem and Euclid's lemma. |
| Primes.RsaIdentity | src/bq_common/encryption/rsa.cpp:726-826 | For two primes and exponents whose product is one modulo `p - 1` and `q - 1`, raising to both exponents is the identity below the modulus. |
| Primes.RsaUndone | src/bq_common/encryption/rsa.cpp:726-826 | The same with the remainder taken in between. |
| Rsa.Encrypt | src/bq_common/encryption/rsa.cpp:726-777 | RSAEP of section 5.1.1 of RFC 8017: accepts exactly a first byte that is not zero, a key that is not empty and a number below the modulus; the result is the power modulo `n` in as many bytes as `n`. |
| Rsa.Decrypt | src/bq_common/encryption/rsa.cpp:779-826 | RSADP of section 5.1.2: accepts exactly as many bytes as `n` with a number below it; the result is the minimal form of the power modulo `n`, except for modulus one with exponent zero, where it is one. |
| Rsa.DecryptsToOne | src/bq_common/encryption/rsa.cpp:779-826 | The accepted input for which the result is one: modulus one, an exponent of five bytes of which four are loaded, ciphertext zero. |
| Rsa.RoundTrip | src/bq_common/encryption/rsa.cpp:726-826 | For every key pair made from two primes every accepted plaintext comes back byte for byte. |
| Rsa.Undone | src/bq_common/encryption/rsa.cpp:726-826 | The number decrypted is the number encrypted. |
| Examples.EncryptExample | src/bq_common/encryption/rsa.cpp:726-826 | For the key pair with the primes 13 and 11 and the exponents 17 and 113: 2 is encrypted as 84, and 84 is decrypted as 2. |
| Base64.Decode | src/bq_common/encryption/rsa.cpp:81-127 | The 32-bit shift register computes the whole bytes of the six-bit string for every text; it fails exactly for a foreign letter before the padding. |
| Base64.DecodedEncoding | src/bq_common/encryption/rsa.cpp:81-127 | Decoding inverts the encoder of section 4 of RFC 4648 for every byte string and any white space in between. |
| Base64.RoundTrip | src/bq_common/encryption/rsa.cpp:81-127 | The same for the decoding loop itself. |
| Base64.LetterMeans | src/bq_common/encryption/rsa.cpp:83-103 | For every byte: which are white space, padding, the letters of each value, and that all others are invalid. |
| Base64.AcceptedMeans | src/bq_common/encryption/rsa.cpp:105-126 | The texts that are accepted, in one look: every byte that no padding precedes is a letter or white space. |
| Base64.Vectors | src/bq_common/encryption/rsa.cpp:81-127 | The example encodings of section 10 of RFC 4648. |
| SshKey.LoadU32Value | src/bq_common/encryption/rsa.cpp:54-62 | The four shifted bytes are the big-endian number. |
| SshKey.ParseWire | src/bq_common/encryption/rsa.cpp:129-180 | Accepts exactly the wire format with the right key type, and returns the trimmed `e` and `n`; no read leaves the blob. |
| SshKey.WireRoundTrip | src/bq_common/encryption/rsa.cpp:129-180 | Writing `e` and `n` as section 6.6 of RFC 4253 says and parsing gives the minimal forms back, whatever follows. |
| SshKey.BlobAccepted | src/bq_common/encryption/rsa.cpp:129-180 | A zero `e` comes out as zero if and only if the length of `n` is below 2^24, a zero `n` if and only if the byte behind it is zero. |
| SshKey.ParseTwoTokens | src/bq_common/encryption/rsa.cpp:448-475 | Returns the first two words of a text; fails exactly if one of them is missing. |
| SshKey.ParsePublicKeySsh | src/bq_common/encryption/rsa.cpp:487-533 | Computes the key that the text holds, and rejects exactly the texts that hold none. |
| SshKey.TextAccepted | src/bq_common/encryption/rsa.cpp:487-533 | The texts that are accepted: two words, the key type, base64, the wire format; and of `e` and `n` none that is zero, unless the byte behind it (the first byte of the length of `n`, the byte behind the blob's `n`) is not. |
| SshKey.ZeroModulusLine | src/bq_common/encryption/rsa.cpp:487-533 | A line whose `n` is written as zero with another byte behind it is accepted, and that byte is the modulus. |
| SshKey.ZeroExponentLine | src/bq_common/encryption/rsa.cpp:487-533 | A line whose `e` is written as zero is accepted if the length of `n` needs its first byte, and that byte is the exponent. |
| SshKey.PublicKeyRoundTrip | src/bq_common/encryption/rsa.cpp:487-533 | Every positive pair, encoded as a key line, with spaces, tabs, CR and LF around the words and any comment, is parsed back. |
| Examples.SshExample | src/bq_common/encryption/rsa.cpp:487-533 | The line of the example key, letter by letter, with any comment. |
| DerKey.Der.Next | src/bq_common/encryption/rsa.cpp:188-224 | For any width of `size_t` and any part, also one that claims to be longer than the buffer: the step is that of `NextAt`, the cursor stays within the claimed part, and it is said exactly when an octet behind the buffer would be read. |
| DerKey.HeadMeans | src/bq_common/encryption/rsa.cpp:193-214 | The heads that are read: one length octet below 128, or 129 to 132 and one to four octets behind it; and what one and two of them stand for. |
| DerKey.ReadMeans | src/bq_common/encryption/rsa.cpp:215-220 | On success the cursor strictly advances and the value lies in the part if and only if position plus length is below 2^width; otherwise the cursor goes back to before the value. |
| DerKey.NextMeans | src/bq_common/encryption/rsa.cpp:188-224 | In a part that is there, nothing behind it is read; the step is that of the triple at the cursor (length octets of section 8.1.3 of X.690, at most four), or failure if there is none, if and only if position plus length does not wrap around. |
| DerKey.WideEnough | src/bq_common/encryption/rsa.cpp:188-224 | On words of more than 32 bits: succeeds exactly if a complete triple lies at the cursor, which then strictly advances behind it. |
| DerKey.WrappedExample | src/bq_common/encryption/rsa.cpp:215-220 | Two heads with lengths of four octets: on 32 bits they are accepted and the cursor goes back by one and to the start, on 64 bits they fail. |
| DerKey.Der.LengthOctets | src/bq_common/encryption/rsa.cpp:206-213 | The loop over the length octets computes their big-endian number. |
| DerKey.ReadsTlv | src/bq_common/encryption/rsa.cpp:188-224 | A triple written in front of anything is read back. |
| DerKey.ReadsIntegers | src/bq_common/encryption/rsa.cpp:604-676 | A row of written integers is read back, every one in its place. |
| DerKey.NextInteger | src/bq_common/encryption/rsa.cpp:613-676 | One field of the key: says whether an INTEGER is missing, or is not in the buffer, or which bytes it has without leading zeros. |
| DerKey.ParseDer | src/bq_common/encryption/rsa.cpp:583-719 | For any bytes and any width: rejects, or would read behind the buffer, or returns a key, exactly as the row of nine triples says. |
| DerKey.ParserAgrees | src/bq_common/encryption/rsa.cpp:583-719 | For any width: that holds if and only if no length on the way wraps around or the bytes are rejected all the same; bytes with a wrapping length are never a key; and every key is accepted. |
| DerKey.ParserWide | src/bq_common/encryption/rsa.cpp:583-719 | On words of more than 32 bits the parser returns the key that the bytes hold (a sequence, a version and eight integers, of which `n`, `e` and `d` must pass the check for zero), and rejects exactly the bytes that hold none. |
| DerKey.AcceptedMeans | src/bq_common/encryption/rsa.cpp:583-719 | For any width: a key is accepted if and only if an outer SEQUENCE and nine INTEGERs are read; the checks for an empty `n`, `e` or `d` never reject. |
| DerKey.FieldWraps | src/bq_common/encryption/rsa.cpp:613-676 | An INTEGER of the key, other than the version, whose length wraps around makes the parser read behind the buffer. |
| DerKey.OutsideExample | src/bq_common/encryption/rsa.cpp:583-719 | Six octets for which the parser reads behind the buffer on 32 bits, and rejects on 64. |
| DerKey.WrongLengthAccepted | src/bq_common/encryption/rsa.cpp:583-719 | On 32 bits, every key whose outer length is replaced by one of the last six values of four octets is accepted all the same, although the bytes are no DER. |
| DerKey.KeyRoundTrip | src/bq_common/encryption/rsa.cpp:583-719 | All eight integers of a written RSAPrivateKey (appendix A.1.2 of RFC 8017) come back. |
| Examples.DerExample | src/bq_common/encryption/rsa.cpp:583-719 | The 30 bytes of the example key are read as its eight integers, each in its field. |
| DerKey.KeyAccepted | src/bq_common/encryption/rsa.cpp:583-719 | Bytes hold a key if and only if the outer triple is a SEQUENCE in which nine INTEGERs come first. |
| DerKey.FieldBeforeAnother | src/bq_common/encryption/rsa.cpp:64-79 | No integer but the last one is read as zero: a zero is read as the tag of the next INTEGER. |
| DerKey.ZeroModulusAccepted | src/bq_common/encryption/rsa.cpp:583-719 | Whatever the other eight integers are, a key whose modulus is written as zero is accepted, and its modulus comes out as two. |
| DerKey.ZeroModulusExample | src/bq_common/encryption/rsa.cpp:583-719 | Nine concrete integers that make such a key. |
| Pem.Search | src/bq_common/encryption/rsa.cpp:542-556 | The searching loop finds the first place of a marker, or none. |
| Pem.ParsePrivateKeyPem | src/bq_common/encryption/rsa.cpp:535-719 | For any file and any width: the outcome of the DER parser on the decoded text between header line and footer, and rejection if there is none. What these are is `Base64.LetterMeans`, `Pem.HeaderIs` and `Pem.FooterIs`; files with lines are `Pem.PemLines`. |
| Pem.PemAgrees | src/bq_common/encryption/rsa.cpp:535-719 | Returns the key in the file and rejects exactly the files that hold none: on more than 32 bits always, otherwise if and only if no length wraps around or the file is rejected all the same; every key is accepted. |
| Pem.PemRoundTrip | src/bq_common/encryption/rsa.cpp:535-719 | A key as DER, base64 with line breaks anywhere, header line, footer and anything around them is parsed back. |
| Pem.PemLines | src/bq_common/encryption/rsa.cpp:535-719 | In particular if the letters are cut into lines, of any lengths, with LF or CR LF behind each. |
| Pem.HeaderIs | src/bq_common/encryption/rsa.cpp:537-537 | The bytes of the header. |
| Pem.FooterIs | src/bq_common/encryption/rsa.cpp:538-538 | The bytes of the footer. |
| Examples.PemExample | src/bq_common/encryption/rsa.cpp:535-719 | The file of the example key, with its base64 on two lines, letter by letter. |
| Gf.GfMul | src/bq_common/encryption/aes.cpp:56-70 | The loop computes the product of polynomials modulo x^8 + x^4 + x^3 + x + 1, defined by a full product and a separate remainder. |
| Gf.ReduceShift | src/bq_common/encryption/aes.cpp:51-54 | `xtime` is multiplication by x: doubling before or after the remainder is the same. |
| Gf.XtimeLinear | src/bq_common/encryption/aes.cpp:51-54 | `xtime` is additive. |
| Gf.SboxMeans | src/bq_common/encryption/aes.cpp:274-309 | Every entry of the first table is the affine image of the field inverse (section 5.1.1 of FIPS 197), and the second table undoes it. |
| Gf.MixRowFast | src/bq_common/encryption/aes.cpp:204-219 | The shortcut with `xtime` equals the row of the matrix of section 5.1.3. |
| Gf.UnmixMix | src/bq_common/encryption/aes.cpp:204-230 | The matrix of section 5.3.3 inverts the one of section 5.1.3 over the field. |
| Aes.SubBytesUndone | src/bq_common/encryption/aes.cpp:144-155 | `inv_sub_bytes` undoes `sub_bytes`. |
| Aes.ShiftRowsUndone | src/bq_common/encryption/aes.cpp:157-202 | `inv_shift_rows` undoes `shift_rows`. |
| Aes.MixColumnsUndone | src/bq_common/encryption/aes.cpp:204-230 | `inv_mix_columns` undoes `mix_columns` on every state. |
| Aes.ShiftRowsInPlace | src/bq_common/encryption/aes.cpp:157-179 | The byte moves in place are the row shifts of section 5.1.2. |
| Aes.InvShiftRowsInPlace | src/bq_common/encryption/aes.cpp:180-202 | The byte moves in place are the row shifts of section 5.3.1. |
| Aes.MixColumnsInPlace | src/bq_common/encryption/aes.cpp:204-219 | Every column is multiplied by the matrix. |
| Aes.InvMixColumnsInPlace | src/bq_common/encryption/aes.cpp:220-230 | Every column is multiplied by the inverse matrix. |
| Aes.Rcon | src/bq_common/encryption/aes.cpp:84-94 | The loop computes the power of x; zero for zero. |
| Aes.AesCore.KeyExpansion | src/bq_common/encryption/aes.cpp:99-142 | For all three key sizes the first bytes are the key, and every later byte is the byte one key earlier, changed by one of the word before: turned, substituted and with the power of x at the start of a row, substituted in the middle of a row of 8 words, and as it is elsewhere. |
| Aes.ExpandedBytes | src/bq_common/encryption/aes.cpp:115-141 | The same for the function that the round keys are equal to, byte by byte. |
| Aes.PowersOfX | src/bq_common/encryption/aes.cpp:84-94 | The ten powers of x that are used. |
| Aes.NumbersOf | src/bq_common/encryption/aes.cpp:21-49 | 4, 6 and 8 words of key, 10, 12 and 14 rounds. |
| AesVectors.Vector128 | src/bq_common/encryption/aes.cpp:99-250 | The example of appendix C.1 of FIPS 197, from the key to the ciphertext. |
| AesVectors.Vector192 | src/bq_common/encryption/aes.cpp:99-250 | The example of appendix C.2. |
| AesVectors.Vector256 | src/bq_common/encryption/aes.cpp:99-250 | The example of appendix C.3. |
| Aes.ScheduleReversible | src/bq_common/encryption/aes.cpp:99-142 | Any row of words as long as the key, anywhere in the schedule, determines the key. |
| Aes.AesCore.EncryptBlock | src/bq_common/encryption/aes.cpp:232-250 | The block becomes the cipher of section 5.1; the rest of the buffer is unchanged. |
| Aes.AesCore.DecryptBlock | src/bq_common/encryption/aes.cpp:252-271 | The block becomes the inverse cipher of section 5.3; the rest of the buffer is unchanged. |
| Aes.RoundsUndone | src/bq_common/encryption/aes.cpp:232-271 | Going backwards passes through the states of going forwards, round by round. |
| Aes.CipherUndone | src/bq_common/encryption/aes.cpp:232-271 | Decrypting a block undoes encrypting it for every array of round keys and any number of rounds. |
| Aes.Encrypt | src/bq_common/encryption/aes.cpp:345-387 | Fails exactly for wrong sizes and then writes nothing; otherwise the chained loop in place computes section 6.2 of NIST SP 800-38A and leaves the rest of the output alone. |
| Aes.Decrypt | src/bq_common/encryption/aes.cpp:389-432 | The same for decryption. |
| Aes.CbcRoundTrip | src/bq_common/encryption/aes.cpp:345-432 | Chained decryption undoes chained encryption for every text of whole blocks. |
| Aes.CbcBlock | src/bq_common/encryption/aes.cpp:372-386 | Every block of the ciphertext is the cipher of its block of the text, combined with the block of the ciphertext before it or the IV. |
| Aes.EncryptDecrypt | src/bq_common/encryption/aes.cpp:345-432 | Encrypting and decrypting with any key of the configured size and any IV of 16 bytes gives the text back. |
| Vernam.EncryptScalar | src/bq_common/encryption/vernam.cpp:42-107 | Each of the first `len` bytes becomes its exclusive or with the byte of the key at `(offset + i) % size`, the others stay, whenever the main loop ends. |
| Vernam.EncryptSse | src/bq_common/encryption/vernam.cpp:114-182 | The same for units of 16 bytes; only the end of the main loop depends on alignment. |
| Vernam.EncryptAvx2 | src/bq_common/encryption/vernam.cpp:188-267 | The same for units of 32 bytes, whenever the head stays in the key and the main loop ends; a round may only wrap the key. |
| Vernam.EncryptNeon | src/bq_common/encryption/vernam.cpp:275-338 | The same for units of 16 bytes with a head that does not wrap. |
| Vernam.Encrypt | src/bq_common/encryption/vernam.cpp:345-383 | On every machine, for equal relative alignment: each of the first `len` bytes becomes its exclusive or with the byte of the key at `(offset + i) % size`, the others stay. |
| Vernam.ResultMeans | src/bq_common/encryption/vernam.cpp:42-107 | The same for the function that all four loops are proved to compute. |
| Vernam.KeySizes | src/bq_common/encryption/vernam.cpp:42-56 | What the loops ask for holds for every key whose size is a power of two from 32 on, and every length that the buffer has. |
| Vernam.Chunks | src/bq_common/encryption/vernam.cpp:149-175 | The main loop ends and keeps place in buffer and key in step. |
| Vernam.EndsExactly | src/bq_common/encryption/vernam.cpp:149-175 | The main loop ends if and only if it starts at a multiple of the unit in the key, or the rest fits into the whole units before the end of the key and less than one unit more. |
| Vernam.LoopForEver | src/bq_common/encryption/vernam.cpp:114-182 | A key of 32 bytes from its second byte on and an aligned buffer of 32: the main loop never ends. |
| Vernam.AlignedEnds | src/bq_common/encryption/vernam.cpp:42-182 | Equal relative alignment of buffer and key stream is enough for that. |
| Vernam.HeadInKeyExactly | src/bq_common/encryption/vernam.cpp:196-211 | A head that does not wrap reads only the key if and only if its start in the key and its length are together at most the length of the key. |
| Vernam.HeadBehindKey | src/bq_common/encryption/vernam.cpp:196-211 | Without equal alignment a head can lie behind the key: a buffer behind a multiple of 32 and the last byte of a key of 32. |
| Vernam.AlignedStraight | src/bq_common/encryption/vernam.cpp:188-338 | It is also enough for a head that does not wrap to stay in the key, and for the loop behind it to end. |
| Vernam.EncryptTwice | src/bq_common/encryption/vernam.cpp:345-383 | Encrypting twice restores the buffer, also on different machines. |
| Vernam.EncryptedPieces | src/bq_common/encryption/vernam.cpp:345-383 | Encrypting consecutive pieces is encrypting the whole. |
| Vernam.EncryptPieces | src/bq_common/encryption/vernam.cpp:345-383 | Encrypting two buffers that follow each other in memory and in the stream, maybe on different machines, gives the encryption of the whole. |
| Masks.FloorIs | src/bq_common/encryption/vernam.cpp:82-82 | Masking with the complement of a width rounds down to a multiple of it. |
| ManagedArrays.ForwardMove | include/bq_common/types/array_impl.h:351-373 | Overlapping objects move up: nothing is constructed over a live object or assigned to a dead one, whether the gap is larger or smaller than the part moved, and the values arrive in order. |
| ManagedArrays.BackwardCopy | include/bq_common/types/array_impl.h:375-399 | Copies by assignment to the first places, which hold objects, and by construction to the others, which do not. |
| ManagedArrays.BackwardMove | include/bq_common/types/array_impl.h:493-508 | Overlapping objects move down by assignment, and the values arrive in order. |
| ManagedArrays.MemCopy | include/bq_common/types/array_impl.h:328-349 | Objects move to fresh memory; objects that are not trivial leave no live one behind. |
| ManagedArrays.ManagedArray.Insert | include/bq_common/types/array_impl.h:401-418 | Inserts one value at a place; the structure is kept (`ManagedArrays.ManagedArray.Structure`). |
| ManagedArrays.ManagedArray.Structure | include/bq_common/types/array_impl.h:401-440 | What holds between any two operations: exactly the first `size` places hold objects, these are the contents, and behind them are `tail` zeros if there is memory. |
| ManagedArrays.ManagedArray.InsertBatch | include/bq_common/types/array_impl.h:420-440 | Inserts a sequence at a place, with the same layout. |
| ManagedArrays.ManagedArray.Erase | include/bq_common/types/array_impl.h:513-530 | Removes as many values as asked for or as there are; layout and tail are kept. |
| ManagedArrays.ManagedArray.EraseReplace | include/bq_common/types/array_impl.h:532-541 | The last value takes the place of the removed one. |
| ManagedArrays.ManagedArray.FillUninitialized | include/bq_common/types/array_impl.h:463-474 | Makes the array longer; the old values stay and the tail is behind the new end. |
| ManagedArrays.ManagedArray.SetCapacity | include/bq_common/types/array_impl.h:567-607 | Changes nothing but the storage; storage is exchanged exactly if asked for or needed; size and tail fit; no live object of a type that is not trivial is given back. |
| ManagedArrays.Room | include/bq_common/types/array_impl.h:577-582 | The rounded capacity is enough if and only if the size is at most the greatest power of two of the width; above it is two. |
| ManagedArrays.ManagedArray.Clear | include/bq_common/types/array_impl.h:693-703 | The array is empty and keeps its storage, with the tail at its start. |
| ManagedArrays.ManagedArray.Shrink | include/bq_common/types/array_impl.h:687-691 | The capacity is the size plus the tail, the values are the same. |
| ManagedArrays.ManagedArray.Reset | include/bq_common/types/array_impl.h:705-730 | The array is empty and has no storage; objects that are not trivial were destroyed. |
| ManagedArrays.ManagedArray.PopBack | include/bq_common/types/array_impl.h:476-484 | Removes the last value. The tail does not move: the layout is kept if and only if there is no tail, or the value removed is zero, or there was none. |
| ManagedArrays.ManagedArray.PopBackMany | include/bq_common/types/array_impl.h:485-491 | Removes a number of values. The layout is kept if and only if the values that come to lie in the place of the tail are zero. |
| ManagedArrays.ForwardStep | include/bq_common/types/array_impl.h:361-373 | One step of the overlapping move keeps what is moved, what is live and what is dead. |
| GlobalVars.Run | src/bq_common/global/common_vars.h:96-128 | Every state that any number of threads reaches in any order of atomic steps, with nested calls, thread exit and reuse of thread-local addresses, satisfies the invariant. That variables are created, threads end and addresses are used again in such runs is `Reuse.EveryAddressReused`. |
| GlobalVars.ApplyKeeps | src/bq_common/global/common_vars.h:96-128 | Every single action keeps the invariant. |
| GlobalVars.MarkMatches | src/bq_common/global/common_vars.h:103-108 | A thread that finds its own address in the mark is creating the variable or has created it; or else the variable exists, and the address belonged to its creator, which is gone. |
| GlobalVars.ConstructedOnce | src/bq_common/global/common_vars.h:111-121 | At most one construction is ever begun, and exactly one when the flag is 2 or any call returned a buffer. |
| GlobalVars.SameBuffer | src/bq_common/global/common_vars.h:96-128 | All calls return the same buffer; a call returns null if and only if it comes from within the creation of its own priority variable. |
| GlobalVars.OnlyCreatorBefore | src/bq_common/global/common_vars.h:96-128 | Before the flag is 2, only the thread that creates the variable gets it. |
| GlobalVars.NoSelfDeadlock | src/bq_common/global/common_vars.h:122-125 | A thread that spins is not the one that creates the variable. |
| Progress.SomeoneMoves | src/bq_common/global/common_vars.h:122-125 | From a thread that waits to one that does not: the creator of what it waits for does not wait, or waits for a variable of lower rank. A call for a variable that exists, or that its thread creates, never waits. |
| Progress.NeverStuck | src/bq_common/global/common_vars.h:96-128 | If constructors use variables along an order, or ones that exist, or ones that the same thread is creating, no run is stuck: some thread can take a step that is no waiting if and only if any call is under way. |
| Progress.NumbersOrder | src/bq_common/global/common_vars.h:66-80 | There is such an order if every priority variable comes before those that have it. |
| Progress.CallsDownMeans | src/bq_common/global/common_vars.h:96-128 | The condition on the order is one on the calls that constructors make, and on nothing else: the variable has a lower rank, or its flag is 2, or it is 1 and the same thread is its creator. |
| Progress.MovesBounded | src/bq_common/global/common_vars.h:96-128 | No schedule can put the end off, in any run and whatever variables use each other: in whatever order the threads move, there are no more moves than the work left. |
| Progress.AllReturn | src/bq_common/global/common_vars.h:96-128 | Then from every reachable state all calls can be brought to their return, in no more steps than the work left. |
| Deadlocks.CycleStuck | src/bq_common/global/common_vars.h:96-128 | For two or more distinct variables that use each other in a cycle, by constructors or as priority variables, and any run that has not begun to create them: it can go on to a state in which every one of the threads that create them waits for the next one, for ever. |
| Deadlocks.StuckForEver | src/bq_common/global/common_vars.h:122-125 | Threads that wait for each other in a cycle do so whatever any threads do. |
| Deadlocks.Deadlock | src/bq_common/global/common_vars.h:96-128 | The same for two constructors that use each other's variable, from the start. |
| Reuse.Creates | src/bq_common/global/common_vars.h:96-128 | Every variable can be created by the first thread alone, whatever the priority variables are. |
| Reuse.AloneReturns | src/bq_common/global/common_vars.h:96-128 | All calls of a thread alone come to their return, also if priority variables form a cycle. |
| Reuse.AddressReused | src/bq_common/global/common_vars.h:101-107 | From every run in which a variable exists and no thread at its creator's address is in a call: that thread can end, and a call of another thread at its address then finds the mark and takes the buffer. |
| Reuse.EveryAddressReused | src/bq_common/global/common_vars.h:101-107 | For all priority variables and every variable there is a run whose last action is such a return: of the buffer, with flag 2, by a thread that is not the creator but has the address in the mark, while the creator is gone. |
| Reuse.LaterCall | src/bq_common/global/common_vars.h:98-100 | Once a call has returned the buffer to a thread, every later call of that thread for the variable, also from within a constructor, returns it again with its first step and changes nothing else. |
| GlobalVars.NullReturned | src/bq_common/global/common_vars.h:111-118 | A run of one thread in which the constructor of a priority variable uses its dependent and gets null. |
| GlobalVars.ReenteredMeans | src/bq_common/global/common_vars.h:113-118 | At registration the priority variable is not yet registered if and only if the same thread is still creating it. |
| GlobalVars.PriorityFirst | src/bq_common/global/common_vars.h:111-118 | Every variable is registered at most once, behind its priority variable if and only if it was not reached from within the creation of that one. |
| GlobalVars.Destruct | src/bq_common/global/common_vars.cpp:148-161 | The loop destructs in the opposite order of registration. |
| GlobalVars.DestructionOrder | src/bq_common/global/common_vars.cpp:139-161 | A dependent is destructed before its priority variable in exactly those cases. |
| Progress.NeverReentered | src/bq_common/global/common_vars.h:111-118 | Along an order no variable is registered from within the creation of its priority variable. |
| Progress.DependentsFirst | src/bq_common/global/common_vars.cpp:139-161 | Along an order every variable is registered behind its priority variable and destructed before it. |
| Utf16.StorageSize | include/bq_log/misc/bq_log_wrapper_tools.h:298-334 | The pass that takes four characters at a time gives twice the sum of the unit counts up to the first zero, whatever lies behind the string. |
| Utf16.FourUnits | include/bq_log/misc/bq_log_wrapper_tools.h:307-325 | If the joined check holds, the four characters make four units. |
| Utf16.Copy | include/bq_log/misc/bq_log_wrapper_tools.h:419-459 | For any memory, any size and either sign of the character type, the units written are those that the two loops take; nothing else in the buffer changes. |
| Utf16.CopyMeans | include/bq_log/misc/bq_log_wrapper_tools.h:419-459 | Given the size that was counted, for either sign: no value from behind the string is taken if and only if no step of four overruns; and for a string that ends with a zero the encoding is written under exactly the same condition. |
| Utf16.FourPassMeans | include/bq_log/misc/bq_log_wrapper_tools.h:423-441 | The joined check holds if and only if all four values are small, or the type is signed and one of them is negative. |
| Utf16.StepTaken | include/bq_log/misc/bq_log_wrapper_tools.h:423-441 | With four units missing, the step of four is taken if and only if its four characters are small ones of the string, or it overruns. |
| Utf16.UnsignedCopy | include/bq_log/misc/bq_log_wrapper_tools.h:419-459 | For an unsigned type, exactly the encoding of section 2.1 of RFC 2781 is written, whatever lies behind the string. |
| Utf16.OverrunsMeans | include/bq_log/misc/bq_log_wrapper_tools.h:423-441 | The closed form of that condition: a signed type, all full groups of four characters small, two or three characters left that need four units, and a negative value up to the next multiple of four. |
| Utf16.SignedCopyFails | include/bq_log/misc/bq_log_wrapper_tools.h:419-459 | Two large characters with a negative value behind their zero: the low halves are written instead of two pairs of surrogates; an unsigned type writes the pairs. |
| Utf16.DisguisedExample | include/bq_log/misc/bq_log_wrapper_tools.h:419-459 | For a string that is cut off by its length, values behind it may look like the encoding, so that an overrun does not show. |
| Utf16.DecodesEncoding | include/bq_log/misc/bq_log_wrapper_tools.h:419-459 | Section 2.2 of RFC 2781 decodes what was written back to the characters. |
| Utf16.EncodeExample | include/bq_log/misc/bq_log_wrapper_tools.h:419-459 | The example of section 5 of RFC 2781. |
| Utf16.UnitBytesAt | include/bq_log/misc/bq_log_wrapper_tools.h:419-459 | Every unit is two bytes, low byte first. |
| Utf16.UpToZeroMeans | include/bq_log/misc/bq_log_wrapper_tools.h:298-334 | The characters of a string are those before its first zero, at most as many as asked for. |
| LogArgs.StorageDataSize | include/bq_log/misc/bq_log_wrapper_tools.h:688-764 | The size of every kind of argument is its header, its length field and its data. |
| LogArgs.Align4 | include/bq_common/types/type_tools.h:96-99 | The least multiple of four that is not below the argument. |
| LogArgs.MakeSizeSeq | include/bq_log/misc/bq_log_wrapper_tools.h:840-879 | One size per argument, in order. |
| LogArgs.GetTotal | include/bq_log/misc/bq_log_wrapper_tools.h:795-838 | The total is the sum of the padded sizes. |
| LogArgs.TypeCopy | include/bq_log/misc/bq_log_wrapper_tools.h:940-987 | The argument is in the buffer, and only its own bytes are written. What a reader sees of it is `LogArgs.Reads8`, `LogArgs.Reads16` and `LogArgs.ReadsAll`. |
| LogArgs.Codes | include/bq_log/misc/bq_log_def.h:87-109 | The type code of every kind of argument, and the bytes that a plain one takes. |
| LogArgs.BeforeZero | include/bq_log/misc/bq_log_wrapper_tools.h:362-365 | The number of characters before the first zero. |
| LogArgs.Reads8 | include/bq_log/misc/bq_log_wrapper_tools.h:337-378 | What a reader sees of 8-bit characters: of a C string all before its first zero, of an array all but one zero at its end, of a view all, and of a null pointer the letters of "null". |
| LogArgs.Reads16 | include/bq_log/misc/bq_log_wrapper_tools.h:337-378 | The same for 16-bit characters. |
| LogArgs.WideMeans | include/bq_log/misc/bq_log_wrapper_tools.h:45-47 | What is logged of a wide string has the length of its encoding, and is the encoding unless the copy overruns. |
| LogArgs.NullIsWord | include/bq_log/misc/bq_log_wrapper_tools.h:499-543 | A null pointer is logged as the word "null". |
| LogArgs.Fill | include/bq_log/misc/bq_log_impl.h:22-37 | The arguments lie one behind the other in disjoint padded slots that fill exactly the total. |
| LogArgs.ReadsAll | include/bq_log/misc/bq_log_impl.h:22-37 | A reader that follows type codes and lengths recovers every list of arguments. |
| LogArgs.LaidExample | include/bq_log/misc/bq_log_impl.h:22-37 | The layout of three arguments, byte by byte. |
| LogArgs.FillEntry | include/bq_log/misc/bq_log_impl.h:251-285 | With a stack trace, without one, and for a null pointer: the format string (and the trace) are one string with the right length, and the arguments behind it are readable; nothing else changes. |
| LogArgs.EntryTexts | include/bq_log/misc/bq_log_impl.h:251-285 | For the four sources of 8-bit characters that string is their characters, with the trace behind them. |
| LogArgs.DirectMeans | src/bq_log/api/bq_log_api.cpp:258-271 | A wide format string that is copied when the entry begins is encoded right for either sign of its type. |
| Strings.Find | include/bq_common/types/string_impl.h:281-294 | The first place of the delimiter from a position on; none from the end on. |
| Strings.Split | include/bq_common/types/string_impl.h:376-398 | The pieces between the delimiters, without the empty ones unless asked for. |
| Strings.JoinPieces | include/bq_common/types/string_impl.h:376-398 | With empty pieces kept, joining gives the string back. |
| Strings.NamesOfJoin | include/bq_common/types/string_impl.h:376-398 | Splitting a joined path gives its names back. |
| Strings.NonEmptyMeans | include/bq_common/types/string_impl.h:376-398 | Empty pieces, and only these, are left out, wherever they are. |
| CategoryTrees.Tree.GetOrAddChildNode | tools/category_log_generator/common_header.h:51-75 | Adds exactly the missing nodes on the way, keeps all others, and returns the node of the path; a path that exists changes nothing. |
| CategoryTrees.Tree.FullName | tools/category_log_generator/common_header.h:111-125 | The walk to the root gives the names of the path joined with dots. |
| CategoryTrees.Tree.GetAllNodesCount | tools/category_log_generator/common_header.h:77-84 | The number of paths that begin with the node's own. |
| CategoryTrees.Tree.FindByFullName | tools/category_log_generator/common_header.h:51-125 | The full name of any node leads back to it, and nothing changes. |
| CategoryTrees.Tree.AddAll | tools/category_log_generator/common_header.h:51-75 | The paths added are those on the way to the given ones. |
| CategoryTrees.AllWaysMeans | tools/category_log_generator/common_header.h:51-75 | These are exactly the prefixes of the given paths, in whatever order they came. |
| CategoryTrees.Build | tools/category_log_generator/common_header.h:51-84 | The tree of a list of paths has exactly their prefixes; the count is one more than the number of those that are not empty. |
| CategoryTrees.BuildExample | tools/category_log_generator/common_header.h:51-84 | Two categories that share their first name: the root and three nodes. |
| CategoryTrees.FullNamesDistinct | tools/category_log_generator/common_header.h:111-125 | Different nodes have different full names. |

## Left out

- HashMaps.HashMap.Add: requires that the key is new and that there are fewer than 2^31 pairs; the growth formula on floating point numbers is any function in range.
- HashMaps.HashMap.Erase: requires a live iterator or one that fails the check; through one to an erased node, which the check lets pass, the code destroys a pair that is not there.
- HashMaps.HashMap.CopyFrom: the copy constructor (the same loop) and moving are left out.
- ManagedArrays.ManagedArray.SetCapacity: requires a size that the rounded capacity can hold (`ManagedArrays.Room` says exactly which do); above, objects would be written behind the storage. Failing allocation is not modelled.
- ManagedArrays.ManagedArray.InsertBatch: the inserted values are not part of the same array; copying, moving and comparing arrays are not modelled.
- Rsa.Encrypt: an empty plaintext, whose first byte the code reads, is excluded.
- Rsa.RoundTrip: exponents are taken as the code loads them, cut to the limbs of the modulus.
- DerKey.KeyRoundTrip: integers are positive and shorter than 2^24 bytes, and there are no further primes behind the eight integers.
- SshKey.PublicKeyRoundTrip: integers are positive and shorter than the largest 32-bit length.
- Aes.AesCore.KeyExpansion: only the chaining mode exists in the code; the mode field is left out.
- Vernam.EncryptAvx2: requires that the head reads only the key and that the loop ends (both exactly stated); otherwise the code reads behind the key or does not return.
- Vernam.Encrypt: which instructions a machine has is a parameter.
- GlobalVars.Run: steps are sequentially consistent, and allocation succeeds at last.
- Progress.NeverStuck: constructors do nothing that waits but call `get()`.
- Deadlocks.CycleStuck: a priority variable outside of the cycle exists already.
- LogArgs.Fill: requires a total below 2^32, to which the code casts it.
- LogArgs.TypeCopy: arguments of user-defined types are left out; plain values are their bytes.
- LogArgs.FillEntry: the ring buffer that provides the memory, and the other fields of the entry's head, are not part of this model.
- Utf16.CopyMeans: characters are below 0x110000, as Unicode defines code points; for others only the units taken are stated.
- Strings.Split: the delimiter is not empty, and strings hold no zero character.
- CategoryTrees.Build: reading and trimming the lines of a configuration file, and comments of nodes, are left out.
- Generation of keys, fingerprints, timing and cryptographic strength.
- Files, threads, consoles, foreign interfaces and the generated wrappers: calls into other systems.
- The public functions of the library, the ring buffer, the appenders and the decoder.
