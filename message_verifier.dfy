/**
 * The signing primitive of package crypto: a configuration record, the
 * functions that specify each of its operations, and the class whose
 * methods carry them out and keep its one lazily defaulted field.
 */
module Crypto {
  import opened Wrappers
  import opened ByteStrings
  import Base64
  import Hex
  import GoStrings

  /**
   * An HMAC construction over some hash: mac(key, data) is what
   * hmac.New(hasher, key), Write(data), Sum(nil) returns.
   */
  datatype KeyedHash = KeyedHash(size: nat, mac: (Bytes, Bytes) -> Bytes) {
    ghost predicate FixedLength() {
      forall key, data :: |mac(key, data)| == size
    }
  }

  /** Every output of a hasher has the hash's fixed length. */
  type Hasher = h: KeyedHash | h.FixedLength()
    witness KeyedHash(0, (key: Bytes, data: Bytes) => [])

  /** The MsgSerializer capability; either direction may fail with a message. */
  datatype Serializer<!V> = Serializer(serialize: V -> Result<Bytes, string>, unserialize: Bytes -> Result<V, string>)

  /**
   * What the model takes from Go's libraries rather than defining:
   * HMAC-SHA1 (the default hasher, sha1.New) and the bytes the base64 decoder
   * hands back together with an error.
   */
  datatype Library = Library(sha1: Hasher, corruptDecode: Bytes -> Bytes)

  /** The fields of a MessageVerifier; None is Go's nil. */
  datatype Config<!V> = Config(secret: Option<Bytes>, hasher: Option<Hasher>, serializer: Option<Serializer<V>>)

  predicate Ready<V>(c: Config<V>) {
    c.secret.Some? && c.hasher.Some? && c.serializer.Some?
  }

  datatype Error =
    | SerializerNotSet
    | SecretNotSet
    | EmptyMessage
    | BadSeparator
    | BadDigest
    | SerializeFailed(cause: string)
    | UnserializeFailed(cause: string)

  /** The text of the error the Go code returns. */
  function Message(e: Error): (r: string)
    ensures (e.SerializeFailed? || e.UnserializeFailed?) ==> |e.cause| <= |r| && r[|r| - |e.cause|..] == e.cause
    ensures !e.SerializeFailed? ==> |r| > 0
  {
    match e
    case SerializerNotSet => "Serializer not set"
    case SecretNotSet => "Secret not set"
    case EmptyMessage => "Invalid signature - empty message"
    case BadSeparator => "Invalid signature - bad data --"
    case BadDigest => "Invalid signature - bad data (compare)"
    case SerializeFailed(cause) => cause
    case UnserializeFailed(cause) => "failed to unserialize both quoted and raw data: " + cause
  }

  /** The errors without a cause have distinct texts. */
  lemma FixedMessagesDistinct(e1: Error, e2: Error)
    requires !e1.SerializeFailed? && !e1.UnserializeFailed? && !e2.SerializeFailed? && !e2.UnserializeFailed?
    requires Message(e1) == Message(e2)
    ensures e1 == e2
  {
    assert |Message(e1)| == |Message(e2)|;
  }

  /** The configuration after checkInit, and the error it returns. */
  datatype Init<!V> = Init(config: Config<V>, err: Option<Error>)

  /**
   * checkInit: the serializer is checked first; then a missing hasher is
   * defaulted, whatever follows; then the secret is checked.
   */
  function Initialized<V>(c: Config<V>, default: Hasher): (r: Init<V>)
    ensures c.serializer.None? ==> r == Init(c, Some(SerializerNotSet))
    ensures c.serializer.Some? ==> r.config.hasher == if c.hasher.Some? then c.hasher else Some(default)
    ensures c.serializer.Some? && c.secret.None? ==> r.err == Some(SecretNotSet)
    ensures r.config.secret == c.secret && r.config.serializer == c.serializer
    ensures r.err.None? <==> c.serializer.Some? && c.secret.Some?
    ensures r.err.None? ==> Ready(r.config)
  {
    if c.serializer.None? then Init(c, Some(SerializerNotSet))
    else
      var defaulted := if c.hasher.None? then c.(hasher := Some(default)) else c;
      if defaulted.secret.None? then Init(defaulted, Some(SecretNotSet))
      else Init(defaulted, None)
  }

  /** checkInit leaves nothing to do for a second call. */
  lemma InitializedIdempotent<V>(c: Config<V>, default: Hasher)
    ensures var r := Initialized(c, default); Initialized(r.config, default) == r
  {
  }

  /** What DigestFor returns when Secret is nil: the ASCII bytes of "Y U SET NO SECRET???!". */
  const NoSecretDigest: Bytes := [89, 32, 85, 32, 83, 69, 84, 32, 78, 79, 32, 83, 69, 67, 82, 69, 84, 63, 63, 63, 33]

  /**
   * DigestFor: lowercase hex of the MAC of data under the secret, or the
   * sentinel when there is no secret. A nil hasher with a secret panics in
   * hmac.New, so callers must not ask for that.
   */
  function DigestFor<V>(c: Config<V>, data: Bytes): (d: Bytes)
    requires c.secret.Some? ==> c.hasher.Some?
    ensures c.secret.None? ==> d == NoSecretDigest
    ensures c.secret.Some? ==> |d| == 2 * c.hasher.value.size && Hex.IsLowerHex(d)
  {
    if c.secret.None? then NoSecretDigest
    else
      var h: Hasher := c.hasher.value;
      var mac := h.mac(c.secret.value, data);
      assert h.FixedLength();
      Hex.Encode(mac)
  }

  /** Neither a hex digest nor the sentinel contains "--". */
  lemma DigestHasNoSep<V>(c: Config<V>, data: Bytes)
    requires c.secret.Some? ==> c.hasher.Some?
    ensures NoDash(DigestFor(c, data)) && !GoStrings.ContainsSep(DigestFor(c, data))
  {
  }

  /** The digest reads only the secret and the hasher of a configuration. */
  lemma DigestForFrame<V>(c1: Config<V>, c2: Config<V>, data: Bytes)
    requires c1.secret.Some? ==> c1.hasher.Some?
    requires c1.secret == c2.secret && c1.hasher == c2.hasher
    ensures DigestFor(c1, data) == DigestFor(c2, data)
  {
  }

  /** Under a secret, equal digests mean equal MACs: comparing digests compares MACs. */
  lemma DigestDeterminesMac<V>(c: Config<V>, d1: Bytes, d2: Bytes)
    requires c.secret.Some? && c.hasher.Some?
    requires DigestFor(c, d1) == DigestFor(c, d2)
    ensures c.hasher.value.mac(c.secret.value, d1) == c.hasher.value.mac(c.secret.value, d2)
  {
    Hex.EncodeInjective(c.hasher.value.mac(c.secret.value, d1), c.hasher.value.mac(c.secret.value, d2));
  }

  /** Generate: the base64 of the serialized value, "--", and the digest of that base64. */
  function Signed<V>(c: Config<V>, default: Hasher, value: V): (r: Result<Bytes, Error>)
    ensures Initialized(c, default).err.Some? ==> r == Err(Initialized(c, default).err.value)
    ensures var init := Initialized(c, default);
      init.err.None? ==>
        match init.config.serializer.value.serialize(value)
        case Err(e) => r == Err(SerializeFailed(e))
        case Ok(data) =>
          r == Ok(Base64.Encode(data) + GoStrings.SEP + DigestFor(init.config, Base64.Encode(data)))
  {
    var init := Initialized(c, default);
    if init.err.Some? then Err(init.err.value)
    else
      match init.config.serializer.value.serialize(value)
      case Err(e) => Err(SerializeFailed(e))
      case Ok(data) =>
        var str := Base64.Encode(data);
        Ok(str + GoStrings.SEP + DigestFor(init.config, str))
  }

  /**
   * The result of Verify: the error returned, the target afterwards, and
   * the inputs Unserialize was called with, in order.
   */
  datatype Outcome<V> = Outcome(err: Option<Error>, target: V, unserialized: seq<Bytes>)

  /** The data with a double quote before and after, unescaped. */
  function Quoted(b: Bytes): (q: Bytes)
    ensures |q| == |b| + 2 && q[0] == QUOTE && q[|q| - 1] == QUOTE && q[1..|q| - 1] == b
  {
    [QUOTE] + b + [QUOTE]
  }

  /** The strict decode whose error is discarded: on bad input, whatever bytes the decoder returned. */
  function DecodeIgnoringError(lib: Library, data: Bytes): (b: Bytes)
    ensures Base64.StrictDecode(data).Some? ==> b == Base64.StrictDecode(data).value
  {
    match Base64.StrictDecode(data)
    case Some(decoded) => decoded
    case None => lib.corruptDecode(data)
  }

  /** A non-empty message of exactly two "--"-separated parts whose second part is the digest of the first. */
  predicate Authentic<V>(c: Config<V>, msg: Bytes)
    requires c.secret.Some? ==> c.hasher.Some?
  {
    var parts := GoStrings.Split(msg);
    msg != [] && |parts| == 2 && parts[1] == DigestFor(c, parts[0])
  }

  /** Verify, on the configuration before its checkInit. */
  function Verified<V>(c: Config<V>, lib: Library, msg: Bytes, target: V): (r: Outcome<V>)
    // The gate, the empty message and a wrong part count fail before any digest is computed.
    ensures Initialized(c, lib.sha1).err.Some? ==> r == Outcome(Initialized(c, lib.sha1).err, target, [])
    ensures Initialized(c, lib.sha1).err.None? && msg == [] ==> r == Outcome(Some(EmptyMessage), target, [])
    ensures Initialized(c, lib.sha1).err.None? && msg != [] && |GoStrings.Split(msg)| != 2 ==>
      r == Outcome(Some(BadSeparator), target, [])
    // Unserialize is called, and the target written, only for an authentic message.
    ensures var init := Initialized(c, lib.sha1);
      r.unserialized != [] <==> init.err.None? && Authentic(init.config, msg)
    ensures r.unserialized == [] ==> r.err.Some? && r.target == target
    ensures var init := Initialized(c, lib.sha1);
      init.err.None? && msg != [] && |GoStrings.Split(msg)| == 2 && !Authentic(init.config, msg) ==>
        r == Outcome(Some(BadDigest), target, [])
    // The quoted form is tried first, the raw form only after it failed.
    ensures var init := Initialized(c, lib.sha1);
      r.unserialized != [] ==>
        var decoded := DecodeIgnoringError(lib, GoStrings.Split(msg)[0]);
        var unserialize := init.config.serializer.value.unserialize;
        && r.unserialized[0] == Quoted(decoded)
        && (unserialize(Quoted(decoded)).Ok? ==>
              r == Outcome(None, unserialize(Quoted(decoded)).value, [Quoted(decoded)]))
        && (unserialize(Quoted(decoded)).Err? && unserialize(decoded).Ok? ==>
              r == Outcome(None, unserialize(decoded).value, [Quoted(decoded), decoded]))
        && (unserialize(Quoted(decoded)).Err? && unserialize(decoded).Err? ==>
              r == Outcome(Some(UnserializeFailed(unserialize(decoded).error)), target, [Quoted(decoded), decoded]))
  {
    var init := Initialized(c, lib.sha1);
    if init.err.Some? then Outcome(init.err, target, [])
    else if msg == [] then Outcome(Some(EmptyMessage), target, [])
    else
      var parts := GoStrings.Split(msg);
      if |parts| != 2 then Outcome(Some(BadSeparator), target, [])
      else if parts[1] != DigestFor(init.config, parts[0]) then Outcome(Some(BadDigest), target, [])
      else
        var decoded := DecodeIgnoringError(lib, parts[0]);
        var unserialize := init.config.serializer.value.unserialize;
        match unserialize(Quoted(decoded))
        case Ok(v) => Outcome(None, v, [Quoted(decoded)])
        case Err(_) =>
          match unserialize(decoded)
          case Ok(v) => Outcome(None, v, [Quoted(decoded), decoded])
          case Err(e) => Outcome(Some(UnserializeFailed(e)), target, [Quoted(decoded), decoded])
  }

  /** A generated string splits into exactly its base64 data and its digest. */
  lemma GeneratedSplits<V>(c: Config<V>, default: Hasher, value: V)
    requires Signed(c, default, value).Ok?
    ensures var init := Initialized(c, default);
      var str := Base64.Encode(init.config.serializer.value.serialize(value).value);
      GoStrings.Split(Signed(c, default, value).value) == [str, DigestFor(init.config, str)]
  {
    var init := Initialized(c, default);
    var str := Base64.Encode(init.config.serializer.value.serialize(value).value);
    Base64.EncodeNoDash(init.config.serializer.value.serialize(value).value);
    DigestHasNoSep(init.config, str);
    GoStrings.SplitPair(str, DigestFor(init.config, str));
  }

  /**
   * Signing round trip: Verify on what Generate produced, on the same
   * verifier afterwards, passes the part count and the digest check,
   * decodes exactly the serialized bytes and hands them to Unserialize,
   * quoted first.
   */
  lemma SignThenVerify<V>(c: Config<V>, lib: Library, value: V, target: V)
    requires Signed(c, lib.sha1, value).Ok?
    ensures var init := Initialized(c, lib.sha1);
      var data := init.config.serializer.value.serialize(value).value;
      var r := Verified(init.config, lib, Signed(c, lib.sha1, value).value, target);
      && Authentic(init.config, Signed(c, lib.sha1, value).value)
      && Base64.StrictDecode(GoStrings.Split(Signed(c, lib.sha1, value).value)[0]) == Some(data)
      && r.unserialized != [] && r.unserialized[0] == Quoted(data)
      && (|r.unserialized| == 2 ==> r.unserialized[1] == data)
  {
    var init := Initialized(c, lib.sha1);
    var data := init.config.serializer.value.serialize(value).value;
    GeneratedSplits(c, lib.sha1, value);
    Base64.DecodeEncode(data);
    InitializedIdempotent(c, lib.sha1);
  }

  /**
   * The value round trip: when the serializer reads back the serialized
   * bytes, in the quoted or else the raw form, Verify succeeds with that value.
   */
  lemma SignThenVerifyValue<V>(c: Config<V>, lib: Library, value: V, target: V, back: V)
    requires Signed(c, lib.sha1, value).Ok?
    requires var s := Initialized(c, lib.sha1).config.serializer.value;
      var data := s.serialize(value).value;
      s.unserialize(Quoted(data)) == Ok(back) || (s.unserialize(Quoted(data)).Err? && s.unserialize(data) == Ok(back))
    ensures var r := Verified(Initialized(c, lib.sha1).config, lib, Signed(c, lib.sha1, value).value, target);
      r.err.None? && r.target == back
  {
    SignThenVerify(c, lib, value, target);
  }

  /**
   * Tampering with the digest half of a generated string (keeping its
   * data half) is rejected before Unserialize is called and leaves the
   * target alone.
   */
  lemma ForgedDigestRejected<V>(c: Config<V>, lib: Library, value: V, forged: Bytes, target: V)
    requires Signed(c, lib.sha1, value).Ok?
    requires var init := Initialized(c, lib.sha1);
      var str := Base64.Encode(init.config.serializer.value.serialize(value).value);
      forged != DigestFor(init.config, str)
    ensures var init := Initialized(c, lib.sha1);
      var str := Base64.Encode(init.config.serializer.value.serialize(value).value);
      var r := Verified(init.config, lib, str + GoStrings.SEP + forged, target);
      (r.err == Some(BadDigest) || r.err == Some(BadSeparator)) && r.unserialized == [] && r.target == target
  {
    var init := Initialized(c, lib.sha1);
    var data := init.config.serializer.value.serialize(value).value;
    InitializedIdempotent(c, lib.sha1);
    Base64.EncodeNoDash(data);
    WrongDigestRejected(init.config, lib, Base64.Encode(data), forged, target);
  }

  /** Data without '-', "--", and anything but its digest: rejected before Unserialize. */
  lemma WrongDigestRejected<V>(c: Config<V>, lib: Library, str: Bytes, forged: Bytes, target: V)
    requires Initialized(c, lib.sha1) == Init(c, None)
    requires NoDash(str) && forged != DigestFor(c, str)
    ensures var r := Verified(c, lib, str + GoStrings.SEP + forged, target);
      (r.err == Some(BadDigest) || r.err == Some(BadSeparator)) && r.unserialized == [] && r.target == target
  {
    var msg := str + GoStrings.SEP + forged;
    assert msg != [] by {
      assert |msg| >= 2;
    }
    GoStrings.SplitAfterUndashed(str, forged);
    GoStrings.SplitSingle(forged);
    var parts := GoStrings.Split(msg);
    if GoStrings.ContainsSep(forged) {
      assert |parts| == 1 + |GoStrings.Split(forged)| > 2;
    } else {
      GoStrings.SplitWithoutSep(forged);
      assert parts == [str, forged];
    }
  }

  /**
   * Messages of the wrong shape are refused before any digest or
   * Unserialize: the empty message, a message without "--", and one with
   * two of them such as "a--b--c".
   */
  lemma MalformedRejected<V>(c: Config<V>, lib: Library, msg: Bytes, target: V)
    requires Initialized(c, lib.sha1).err.None?
    ensures Verified(c, lib, [], target) == Outcome(Some(EmptyMessage), target, [])
    ensures msg != [] && !GoStrings.ContainsSep(msg) ==>
      Verified(c, lib, msg, target) == Outcome(Some(BadSeparator), target, [])
    ensures var abc: Bytes := [97, DASH, DASH, 98, DASH, DASH, 99];
      Verified(c, lib, abc, target) == Outcome(Some(BadSeparator), target, [])
  {
    GoStrings.SplitSingle(msg);
    var abc: Bytes := [97, DASH, DASH, 98, DASH, DASH, 99];
    GoStrings.SplitAfterUndashed([97], [98, DASH, DASH, 99]);
    GoStrings.SplitAfterUndashed([98], [99]);
    assert abc == [97] + GoStrings.SEP + [98, DASH, DASH, 99];
    assert [98, DASH, DASH, 99] == [98] + GoStrings.SEP + [99];
    assert GoStrings.Split([99]) == [[99]];
  }

  /** An empty digest half fails the length check whenever the hash output is not empty. */
  lemma EmptyDigestRejected<V>(c: Config<V>, lib: Library, msg: Bytes, target: V)
    requires var init := Initialized(c, lib.sha1);
      init.err.None? && init.config.hasher.value.size > 0
    requires |GoStrings.Split(msg)| == 2 && GoStrings.Split(msg)[1] == []
    ensures Verified(c, lib, msg, target) == Outcome(Some(BadDigest), target, [])
  {
    var init := Initialized(c, lib.sha1);
    var parts := GoStrings.Split(msg);
    assert |DigestFor(init.config, parts[0])| > 0;
    GoStrings.JoinSplit(msg);
    assert msg == parts[0] + GoStrings.SEP + parts[1];
  }

  /** Bitwise XOR of two non-negative integers, as Go's ^ on int. */
  function Xor(x: nat, y: nat): (r: nat)
    ensures r <= x + y
    decreases x + y
  {
    if x == 0 && y == 0 then 0
    else (if x % 2 != y % 2 then 1 else 0) + 2 * Xor(x / 2, y / 2)
  }

  /** Bitwise OR of two non-negative integers, as Go's | on int. */
  function Or(x: nat, y: nat): (r: nat)
    ensures x <= r && y <= r && r <= x + y
    decreases x + y
  {
    if x == 0 && y == 0 then 0
    else (if x % 2 == 1 || y % 2 == 1 then 1 else 0) + 2 * Or(x / 2, y / 2)
  }

  /** XOR is zero exactly for equal operands. */
  lemma {:induction false} XorZero(x: nat, y: nat)
    ensures Xor(x, y) == 0 <==> x == y
    decreases x + y
  {
    if x != 0 || y != 0 {
      XorZero(x / 2, y / 2);
    }
  }

  /** OR is zero exactly when both operands are. */
  lemma {:induction false} OrZero(x: nat, y: nat)
    ensures Or(x, y) == 0 <==> x == 0 && y == 0
    decreases x + y
  {
    if (x != 0 || y != 0) && x % 2 == 0 && y % 2 == 0 {
      OrZero(x / 2, y / 2);
    }
  }

  /** Two equal-length strings agree up to i + 1 exactly when they agree up to i and at i. */
  lemma PrefixStep(a: Bytes, b: Bytes, i: nat)
    requires i < |a| == |b|
    ensures a[..i + 1] == b[..i + 1] <==> a[..i] == b[..i] && a[i] == b[i]
  {
    assert a[..i + 1] == a[..i] + [a[i]] && b[..i + 1] == b[..i] + [b[i]];
    if a[..i + 1] == b[..i + 1] {
      assert a[..i + 1][..i] == a[..i] && b[..i + 1][..i] == b[..i];
      assert a[..i + 1][i] == a[i] && b[..i + 1][i] == b[i];
    }
  }

  /** One round of secureCompare keeps "res == 0 iff the prefixes agree". */
  lemma CompareStep(a: Bytes, b: Bytes, i: nat, res: nat)
    requires i < |a| == |b|
    requires res == 0 <==> a[..i] == b[..i]
    ensures Or(res, Xor(b[i] as int, a[i] as int)) == 0 <==> a[..i + 1] == b[..i + 1]
  {
    XorZero(b[i] as int, a[i] as int);
    OrZero(res, Xor(b[i] as int, a[i] as int));
    PrefixStep(a, b, i);
  }

  /** The MessageVerifier record; checkInit may fill in Hasher, nothing else changes it. */
  class MessageVerifier<V> {
    var secret: Option<Bytes>
    var hasher: Option<Hasher>
    var serializer: Option<Serializer<V>>
    const lib: Library

    /** A Go struct literal; the library's HMAC-SHA1 yields 20 bytes. */
    constructor (secret: Option<Bytes>, hasher: Option<Hasher>, serializer: Option<Serializer<V>>, lib: Library)
      requires lib.sha1.size == 20
      ensures State() == Config(secret, hasher, serializer) && this.lib == lib
    {
      this.secret, this.hasher, this.serializer := secret, hasher, serializer;
      this.lib := lib;
    }

    function State(): Config<V>
      reads this
    {
      Config(secret, hasher, serializer)
    }

    method CheckInit() returns (err: Option<Error>)
      modifies this`hasher
      ensures Init(State(), err) == Initialized(old(State()), lib.sha1)
    {
      if serializer.None? {
        return Some(SerializerNotSet);
      }
      if hasher.None? {
        hasher := Some(lib.sha1);
      }
      if secret.None? {
        return Some(SecretNotSet);
      }
      return None;
    }

    method IsValid() returns (valid: bool, err: Option<Error>)
      modifies this`hasher
      ensures Init(State(), err) == Initialized(old(State()), lib.sha1)
      ensures valid <==> err.None?
      ensures valid ==> Ready(State())
    {
      err := CheckInit();
      valid := err.None?;
    }

    /**
     * secureCompare: one length check, then a pass over every byte pair
     * OR-ing their XOR into an integer accumulator. steps counts the pairs
     * compared.
     */
    method SecureCompare(a: Bytes, b: Bytes) returns (equal: bool, ghost steps: nat)
      ensures equal <==> a == b
      ensures steps == if |a| == |b| then |a| else 0
    {
      steps := 0;
      if |a| != |b| {
        return false, steps;
      }
      var res: nat := 0;
      for i := 0 to |a|
        invariant steps == i
        invariant res == 0 <==> a[..i] == b[..i]
      {
        CompareStep(a, b, i, res);
        res := Or(res, Xor(b[i] as int, a[i] as int));
        steps := steps + 1;
      }
      assert a[..|a|] == a && b[..|b|] == b;
      equal := res == 0;
    }

    method Verify(msg: Bytes, target: V) returns (err: Option<Error>, result: V, ghost unserialized: seq<Bytes>)
      modifies this`hasher
      ensures State() == Initialized(old(State()), lib.sha1).config
      ensures Outcome(err, result, unserialized) == Verified(old(State()), lib, msg, target)
    {
      result, unserialized := target, [];
      err := CheckInit();
      if err.Some? {
        return;
      }
      if msg == [] {
        err := Some(EmptyMessage);
        return;
      }
      var dataDigest := GoStrings.Split(msg);
      if |dataDigest| != 2 {
        err := Some(BadSeparator);
        return;
      }
      var data, digest := dataDigest[0], dataDigest[1];
      var same;
      ghost var steps;
      same, steps := SecureCompare(digest, DigestFor(State(), data));
      if !same {
        err := Some(BadDigest);
        return;
      }
      var decoded := DecodeIgnoringError(lib, data);
      var unserialize := serializer.value.unserialize;
      unserialized := [Quoted(decoded)];
      match unserialize(Quoted(decoded))
      case Ok(v) =>
        result := v;
      case Err(_) =>
        unserialized := unserialized + [decoded];
        match unserialize(decoded)
        case Ok(v) =>
          result := v;
        case Err(e) =>
          err := Some(UnserializeFailed(e));
    }

    method Generate(value: V) returns (signed: Bytes, err: Option<Error>)
      modifies this`hasher
      ensures State() == Initialized(old(State()), lib.sha1).config
      ensures Signed(old(State()), lib.sha1, value) == if err.None? then Ok(signed) else Err(err.value)
      ensures err.Some? ==> signed == []
    {
      signed := [];
      err := CheckInit();
      if err.Some? {
        return;
      }
      match serializer.value.serialize(value)
      case Err(e) =>
        err := Some(SerializeFailed(e));
      case Ok(data) =>
        var str := Base64.Encode(data);
        var digest := DigestFor(State(), str);
        signed := str + GoStrings.SEP + digest;
    }
  }
}
