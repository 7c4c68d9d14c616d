# MessageVerifier, modelled in Dafny

This is a model of `MessageVerifier` from the Go package `crypto`. It is a
stateless sign-and-verify primitive. `Generate` serializes a value,
base64-encodes the bytes (standard alphabet, padded) and appends `"--"` plus
the lowercase hex HMAC of the base64 text. `Verify` checks the configuration,
then the shape of the message, then the digest in constant time. It then
decodes the base64 and hands the bytes to the serializer: first wrapped in
double quotes, then raw.

Files:

- `wrappers.dfy`: the `Option` and `Result` types. `None` stands for Go's `nil`.
- `bytes.dfy`: Go strings and byte slices, both as `seq<byte>`, where a
  `byte` is a `bv8`.
- `base64.dfy`: encoding as `base64.StdEncoding.EncodeToString` does it, and
  strict decoding as `StdEncoding.Strict().DecodeString` does it. Strict
  decoding skips `\r` and `\n`, requires whole padded quanta and rejects
  non-zero padding bits. It proves that decoding inverts encoding, that
  decoding accepts only canonical input, and that encoded text contains no `'-'`.
- `hex.dfy`: `hex.EncodeToString`. It proves the output is lowercase and
  twice as long as the input, and that the encoding is injective.
- `strings.dfy`: `strings.Split(s, "--")`, and `strings.Join`, which undoes it:
  `Join(Split(s)) == s`. The converse does not hold: `Split(Join(["x-", "-y"]))`
  is `["x", "", "y"]`.
- `message_verifier.dfy`: the configuration record. It has one function per
  operation: `Initialized` for `checkInit`, `DigestFor`, `Signed` for
  `Generate` and `Verified` for `Verify`. The lemmas connect them. The class
  `MessageVerifier` has the three Go fields; its methods do the steps one at a
  time and are proved against those functions. `checkInit` is the only code
  that changes a field, and the only field it changes is `Hasher`. The methods
  say so with `modifies this`hasher`. The accumulator of `secureCompare` is
  an unbounded natural number: Go's `int` holding OR-ed XORs of bytes never
  overflows. `Xor` and `Or` define Go's `^` and `|` on such numbers bit by bit.

Collaborators are parameters:

- A hasher is a `KeyedHash(size, mac)`. `mac(key, data)` stands for
  `hmac.New(h, key)`, `Write(data)`, `Sum(nil)`. It can be any deterministic
  function whose output always has `size` bytes.
- The default `sha1.New` is `Library.sha1`, given to the constructor with a
  size of 20.
- A `Serializer` is a pair of functions, `serialize` and `unserialize`. Each
  can fail with a message.
- `Verify` records, in order, every input it passes to `unserialize`. The
  model can therefore state exactly when the serializer is called.

Three behaviours of the code are easy to miss; the model keeps them as written:

- At line 63, a base64 decode error is discarded. `Verify` goes on with
  whatever bytes the decoder returned. These bytes are
  `Library.corruptDecode(data)` and are left unspecified. The message is not
  rejected.
- `strings.Split` cuts at every `"--"`, so `"a--b--c"` gives three parts and
  is rejected. An empty data half is not rejected: `"--" + DigestFor("")`
  passes the structural and digest checks.
- `DigestFor` returns the sentinel `"Y U SET NO SECRET???!"` when `Secret` is
  nil. `Verify` and `Generate` never reach that case, because `checkInit`
  stops them first.

## Model

| member | source | states |
|---|---|---|
| Crypto.Initialized | crypto/message_verifier.go:123-141 | a nil Serializer fails with "Serializer not set" and changes nothing; otherwise a nil Hasher becomes the default, even if the Secret check then fails; a nil Secret fails with "Secret not set"; Secret and Serializer never change; success holds exactly when Serializer and Secret are set, and then all three fields are set |
| Crypto.InitializedIdempotent | crypto/message_verifier.go:131-134 | after one checkInit, a second one returns the same result and changes nothing |
| Crypto.MessageVerifier.CheckInit | crypto/message_verifier.go:123-141 | the new fields and the returned error are exactly those given by Initialized of the old fields; only Hasher may change |
| Crypto.MessageVerifier.IsValid | crypto/message_verifier.go:29-35 | the result is true exactly when checkInit returned no error, and then all three fields are set; the error and the new fields are those of checkInit |
| Crypto.MessageVerifier.SecureCompare | crypto/message_verifier.go:109-121 | returns true exactly when the two byte strings are equal; when the lengths differ it compares no pairs, otherwise it compares all len(a) pairs, wherever the first mismatch is |
| Crypto.CompareStep | crypto/message_verifier.go:117-119 | one round `res |= int(b[i]) ^ int(a[i])` keeps the accumulator zero exactly when the prefixes up to and including i agree |
| Crypto.XorZero | crypto/message_verifier.go:118 | the XOR of two numbers is zero exactly when they are equal |
| Crypto.OrZero | crypto/message_verifier.go:118 | the OR of two numbers is zero exactly when both are zero |
| Crypto.DigestFor | crypto/message_verifier.go:98-106 | with a nil Secret, the result is the sentinel "Y U SET NO SECRET???!"; otherwise it is lowercase hex, twice the hash output size long |
| Crypto.DigestForFrame | crypto/message_verifier.go:98-106 | the digest depends only on Secret, Hasher and the data, not on the Serializer |
| Crypto.DigestDeterminesMac | crypto/message_verifier.go:98-106 | under a Secret, two equal digests come from equal MACs, so the digest comparison in Verify is a MAC comparison |
| Crypto.DigestHasNoSep | crypto/message_verifier.go:98-106 | no digest, hex or sentinel, contains '-' or "--" |
| Crypto.Signed | crypto/message_verifier.go:81-94 | a checkInit error is returned unchanged; a serializer error is returned as the cause; otherwise the result is exactly base64(serialized) + "--" + DigestFor(base64(serialized)), computed on the configuration after checkInit |
| Crypto.MessageVerifier.Generate | crypto/message_verifier.go:81-94 | the signed string or error is the one Signed gives, with "" on error; the new fields are those of checkInit |
| Crypto.GeneratedSplits | crypto/message_verifier.go:87-93 | splitting a generated string on "--" gives exactly two parts: the base64 data and its digest |
| Crypto.DecodeIgnoringError | crypto/message_verifier.go:63 | when strict decoding succeeds, the bytes used are the decoded bytes; on a decode error, Verify continues with the decoder's leftover bytes |
| Crypto.Verified | crypto/message_verifier.go:40-75 | these cases fail without calling Unserialize and leave the target as it was: a config error (returned unchanged), an empty message, a part count other than 2, or a digest mismatch; Unserialize is called exactly when the config is valid and the message is authentic; the quoted form is tried first and the raw form only if that failed; an error comes back only if both fail, and it carries the raw attempt's cause |
| Crypto.MessageVerifier.Verify | crypto/message_verifier.go:40-75 | the error, the target and the sequence of Unserialize inputs are those given by Verified of the old fields; the new fields are those of checkInit |
| Crypto.SignThenVerify | crypto/message_verifier.go:54-65 | Verify, run on the same verifier after Generate, finds exactly two parts and a matching digest; strict decoding of the data half gives back exactly the serialized bytes; the first Unserialize input is those bytes in quotes, the second (if any) is the raw bytes |
| Crypto.SignThenVerifyValue | crypto/message_verifier.go:63-74 | if the serializer reads back the serialized bytes, quoted or else raw, as a value v, then Verify of the generated string succeeds with target v |
| Crypto.ForgedDigestRejected | crypto/message_verifier.go:54-62 | the data half of a generated string, with any digest half other than the real one, is rejected before Unserialize is called and leaves the target alone |
| Crypto.WrongDigestRejected | crypto/message_verifier.go:54-62 | data with no '-', "--" and any digest half other than the data's digest is rejected with a separator or digest error, before Unserialize and with the target unchanged, on a configuration checkInit accepts unchanged |
| Crypto.Message | crypto/message_verifier.go:47-70 | the returned text of a serializer error ends with the serializer's own cause, and the Unserialize error text ends with the raw attempt's cause; every text other than a serializer's is non-empty |
| Crypto.FixedMessagesDistinct | crypto/message_verifier.go:47-61 | the five fixed error texts ("Serializer not set", "Secret not set", the empty message, the bad separator and the bad compare) are pairwise different, so each names its own failure |
| Crypto.Quoted | crypto/message_verifier.go:64 | the quoted form is the data with one double quote in front and one behind, nothing else |
| Crypto.Xor | crypto/message_verifier.go:118 | the bitwise XOR of two naturals is at most their sum |
| Crypto.Or | crypto/message_verifier.go:118 | the bitwise OR of two naturals is at least each operand and at most their sum, so the accumulator never decreases |
| Crypto.MalformedRejected | crypto/message_verifier.go:45-57 | on a configuration checkInit accepts, the empty message, a message without "--" and "a--b--c" are rejected with EmptyMessage or BadSeparator, without calling Unserialize and with the target unchanged |
| Crypto.EmptyDigestRejected | crypto/message_verifier.go:59-62 | a message with two parts whose digest half is empty fails the digest check when the hash output is not empty |
| Crypto.MessageVerifier.constructor | crypto/message_verifier.go:19-26 | the three fields hold the given Secret, Hasher and Serializer |
| Base64.Encode | crypto/message_verifier.go:91 | the output is 4 * ceil(n / 3) characters long, and every character is in the standard alphabet or is '=' |
| Base64.StrictDecode | crypto/message_verifier.go:63 | when strict decoding succeeds, the input without line breaks is exactly 4 * ceil(n / 3) characters for the n bytes decoded |
| Base64.DecodeEncode | crypto/message_verifier.go:63 | strict decoding of an encoding gives back the original bytes |
| Base64.DecodeCanonical | crypto/message_verifier.go:63 | whatever strict decoding accepts re-encodes to the same text, with line breaks removed |
| Base64.EncodeNoDash | crypto/message_verifier.go:91 | base64 output never contains '-' |
| Hex.Encode | crypto/message_verifier.go:105 | the output is twice the input length and all lowercase hex digits; byte i becomes its high nibble digit, then its low nibble digit |
| Hex.EncodeInjective | crypto/message_verifier.go:105 | different MACs give different hex digests |
| GoStrings.Split | crypto/message_verifier.go:54 | the result always has at least one part |
| GoStrings.PartsHaveNoSep | crypto/message_verifier.go:54 | Split cuts at every "--": no part contains "--" |
| GoStrings.PartsNotDashEnded | crypto/message_verifier.go:54 | every part but the last is empty or ends in a byte other than '-': each cut is at the leftmost "--", so "x----y" gives "x", "" and "y" |
| GoStrings.SplitUnique | crypto/message_verifier.go:54-55 | any list of parts that joins back to the message, has no "--" in any part and cuts leftmost is exactly Split's result, so the part count Verify tests is determined |
| GoStrings.JoinSplit | crypto/message_verifier.go:54 | joining the parts with "--" gives back the message |
| GoStrings.SplitSingle | crypto/message_verifier.go:54-57 | there is exactly one part when the message contains no "--", and only then |
| GoStrings.SplitPair | crypto/message_verifier.go:54-59 | a first part with no '-', then "--", then a second part with no "--", splits into exactly those two parts |

## Left out

- The nil receiver check at lines 124-125: a Dafny method's receiver is never null.
- SHA-1 and HMAC internals: the keyed hash is an uninterpreted function of fixed output length. Collision resistance is not modelled. So tampering with the data half is not proved to be rejected; only tampering with the digest half is.
- Concrete serializers: `serialize` and `unserialize` are abstract functions that may fail. No round-trip law is assumed. `SignThenVerifyValue` takes the read-back as a hypothesis.
- Partial writes to the target by a failed `Unserialize`: the target is an output written only by a successful call. Go's reflection on `target interface{}` and the pointer TODO at line 41 are not modelled.
- The bytes Go's base64 decoder returns alongside an error: `Library.corruptDecode` leaves them unspecified.
- Timing: only the loop structure of `secureCompare` is stated, by counting the byte pairs it compares.
- Concurrency: the data race on the lazy `Hasher` assignment under concurrent first use is not modelled. Calls are sequential.
- `DigestFor` called with a Secret and a nil Hasher: Go panics in `hmac.New` at line 103. The model's `DigestFor` requires a Hasher whenever there is a Secret, so it does not model that panic. `Verify` and `Generate` never reach it, because `checkInit` sets the Hasher first.
- Error values are the `Error` datatype. `Message` gives the text Go returns for each one.
