/**
 The signed cookie codec: serialize, optionally encrypt, frame as date|value|mac and encode.
 The MAC, the cipher's keystream and the serializer are parameters.
 */
module CookieCodec {
  import opened Common
  import opened Base64
  import Decimal

  const MINUS: bv8 := 45
  const PLUS: bv8 := 43

  datatype CookieError =
    | HashKeyNotSet | BlockKeyInvalid | SerializeFailed | NoIV | TooLong
    | Base64Failed | MacInvalid | TimestampInvalid | TimestampTooNew | TimestampExpired
    | DecryptionFailed | DeserializeFailed | NoCodecs | Multi(errors: seq<CookieError>)

  datatype Result<T> = Success(value: T) | Failure(error: CookieError)

  /** Everything outside the codec: HMAC by key, keystream byte by key, IV and position, and the serializer. */
  datatype Primitives<!V> = Primitives(
    mac: (Bytes, Bytes) -> Bytes,
    keystream: (Bytes, Bytes, nat) -> bv8,
    blockSize: nat,
    validBlockKey: Bytes -> bool,
    serialize: V -> Option<Bytes>,
    deserialize: Bytes -> Option<V>)

  /** The fields of one SecureCookie. */
  datatype Settings = Settings(
    hashKey: Option<Bytes>, blockKey: Option<Bytes>, block: bool,
    maxLength: int, maxAge: int, minAge: int, err: Option<CookieError>)

  // ---------------------------------------------------------------- numbers

  /** int64 subtraction wraps around. */
  function Sub64(a: int, b: int): int
  {
    (a - b + TWO63) % (2 * TWO63) - TWO63
  }

  predicate Int64(t: int)
  {
    -(TWO63 as int) <= t < TWO63
  }

  /** The difference of int64 numbers, brought back into their range by 2^64 at most once. */
  lemma Sub64Wraps(a: int, b: int)
    requires Int64(a) && Int64(b)
    ensures Int64(Sub64(a, b))
    ensures Sub64(a, b) == if Int64(a - b) then a - b else if a < b then a - b + 2 * TWO63 else a - b - 2 * TWO63
  {
  }

  function DigitByte(d: nat): (b: bv8)
    requires d < 10
    ensures b != PIPE && b != MINUS && b != PLUS && DigitValue(b) == Some(d)
  {
    var table: seq<bv8> := [48, 49, 50, 51, 52, 53, 54, 55, 56, 57];
    table[d]
  }

  function DigitValue(b: bv8): Option<nat>
  {
    match b
    case 48 => Some(0)
    case 49 => Some(1)
    case 50 => Some(2)
    case 51 => Some(3)
    case 52 => Some(4)
    case 53 => Some(5)
    case 54 => Some(6)
    case 55 => Some(7)
    case 56 => Some(8)
    case 57 => Some(9)
    case _ => None
  }

  function DigitBytes(d: seq<nat>): (b: Bytes)
    requires forall i :: 0 <= i < |d| ==> d[i] < 10
    ensures |b| == |d| && forall i :: 0 <= i < |b| ==> b[i] == DigitByte(d[i])
  {
    seq(|d|, i requires 0 <= i < |d| => DigitByte(d[i]))
  }

  /** `%d` of an int64. */
  function FormatInt(t: int): Bytes
  {
    if t < 0 then [MINUS] + DigitBytes(Decimal.Digits(-t)) else DigitBytes(Decimal.Digits(t))
  }

  function ParseDigits(b: Bytes): Option<nat>
  {
    if b == [] then Some(0)
    else
      match (ParseDigits(b[..|b| - 1]), DigitValue(b[|b| - 1]))
      case (Some(n), Some(d)) => Some(n * 10 + d)
      case _ => None
  }

  /** `strconv.ParseInt(s, 10, 64)` */
  function ParseInt(b: Bytes): Option<int>
  {
    if b == [] then None
    else
      var signed := b[0] == MINUS || b[0] == PLUS;
      var digits := if signed then b[1..] else b;
      if digits == [] then None
      else
        match ParseDigits(digits)
        case None => None
        case Some(n) =>
          var v: int := if b[0] == MINUS then -(n as int) else n;
          if Int64(v) then Some(v) else None
  }

  lemma {:induction false} ParseDigitBytes(d: seq<nat>)
    requires forall i :: 0 <= i < |d| ==> d[i] < 10
    ensures ParseDigits(DigitBytes(d)) == Some(Decimal.Value(d))
    decreases |d|
  {
    if d == [] {
    } else {
      var init := d[..|d| - 1];
      ParseDigitBytes(init);
      assert DigitBytes(d)[..|d| - 1] == DigitBytes(init);
    }
  }

  lemma DigitsOf(n: nat)
    ensures var b := DigitBytes(Decimal.Digits(n));
            b != [] && PIPE !in b && b[0] != MINUS && b[0] != PLUS && ParseDigits(b) == Some(n)
  {
    var d := Decimal.Digits(n);
    Decimal.ValueOfDigits(n);
    ParseDigitBytes(d);
    assert DigitBytes(d)[0] == DigitByte(d[0]);
  }

  lemma ParseSigned(ds: Bytes, n: nat)
    requires ds != [] && ds[0] != MINUS && ds[0] != PLUS && ParseDigits(ds) == Some(n)
    ensures n < TWO63 ==> ParseInt(ds) == Some(n)
    ensures n <= TWO63 ==> ParseInt([MINUS] + ds) == Some(-(n as int))
  {
    assert ([MINUS] + ds)[1..] == ds;
  }

  /** Decimal notation, most significant digit first, negative numbers behind a minus sign. */
  lemma FormatIntText(t: int)
    ensures t < 0 ==> FormatInt(t) == [45] + FormatInt(-t)
    ensures 0 <= t < 10 ==> exists b: bv8 :: b as int == 48 + t && FormatInt(t) == [b]
    ensures t >= 10 ==> FormatInt(t) == FormatInt(t / 10) + FormatInt(t % 10)
  {
    if 0 <= t < 10 {
      assert FormatInt(t) == [DigitByte(t)];
    }
    if t >= 10 {
      assert DigitBytes(Decimal.Digits(t / 10) + [t % 10]) ==
               DigitBytes(Decimal.Digits(t / 10)) + DigitBytes([t % 10]);
    }
  }

  lemma {:induction false} ParseDigitsAre(b: Bytes)
    ensures ParseDigits(b).Some? <==> forall i :: 0 <= i < |b| ==> 48 <= b[i] <= 57
    decreases |b|
  {
    if b == [] {
    } else {
      var init := b[..|b| - 1];
      ParseDigitsAre(init);
      assert b == init + [b[|b| - 1]];
    }
  }

  /** `b` is a number `n` in digits behind at most one sign. */
  ghost predicate Signed(b: Bytes, sign: Bytes, digits: Bytes, n: nat, v: int)
  {
    && b == sign + digits && (sign == [] || sign == [43] || sign == [45])
    && digits != [] && ParseDigits(digits) == Some(n)
    && v == if sign == [45] then -(n as int) else n
  }

  /** A timestamp is read as `v` if and only if it is digits for `v` behind at most one sign and `v` fits an int64. */
  lemma ParseIntIff(b: Bytes, v: int)
    ensures ParseInt(b) == Some(v) <==>
            Int64(v) && exists sign: Bytes, digits: Bytes, n: nat :: Signed(b, sign, digits, n, v)
  {
    if ParseInt(b) == Some(v) {
      var sign := if b[0] == MINUS || b[0] == PLUS then [b[0]] else [];
      var digits := b[|sign|..];
      assert Signed(b, sign, digits, ParseDigits(digits).value, v);
    }
    forall sign: Bytes, digits: Bytes, n: nat | Int64(v) && Signed(b, sign, digits, n, v)
      ensures ParseInt(b) == Some(v)
    {
      ParseDigitsAre(digits);
      if sign != [] {
        assert b[1..] == digits;
      } else {
        assert b == digits;
      }
    }
  }

  /** Every int64 timestamp survives formatting and parsing, and never contains the separator. */
  lemma FormatParse(t: int)
    requires Int64(t)
    ensures ParseInt(FormatInt(t)) == Some(t) && PIPE !in FormatInt(t)
  {
    var n: nat := if t < 0 then -t else t;
    DigitsOf(n);
    ParseSigned(DigitBytes(Decimal.Digits(n)), n);
  }

  // ---------------------------------------------------------------- framing

  /** Index of the first separator, or the length when there is none. */
  function FirstPipe(b: Bytes): (i: nat)
    ensures i <= |b| && PIPE !in b[..i] && (i < |b| ==> b[i] == PIPE)
  {
    if b == [] || b[0] == PIPE then 0
    else
      var i := 1 + FirstPipe(b[1..]);
      assert b[..i] == [b[0]] + b[1..][..i - 1];
      i
  }

  datatype Parts = Parts(date: Bytes, value: Bytes, mac: Bytes) | TooFew

  /** `bytes.SplitN(b, "|", 3)` */
  function Split3(b: Bytes): (p: Parts)
    ensures p.Parts? ==> PIPE !in p.date && PIPE !in p.value && b == Frame(p.date, p.value, p.mac)
  {
    var i := FirstPipe(b);
    if i == |b| then TooFew
    else
      var rest := b[i + 1..];
      var j := FirstPipe(rest);
      if j == |rest| then TooFew
      else
        assert b == b[..i] + [PIPE] + rest;
        assert rest == rest[..j] + [PIPE] + rest[j + 1..];
        Parts(b[..i], rest[..j], rest[j + 1..])
  }

  function Frame(date: Bytes, value: Bytes, mac: Bytes): Bytes
  {
    date + [PIPE] + (value + [PIPE] + mac)
  }

  /** The authenticated message: name|date|value. */
  function Message(name: Bytes, date: Bytes, value: Bytes): Bytes
  {
    name + [PIPE] + (date + [PIPE] + value)
  }

  lemma {:induction false} FirstPipeAt(a: Bytes, rest: Bytes)
    requires PIPE !in a
    ensures FirstPipe(a + [PIPE] + rest) == |a|
    decreases |a|
  {
    if a == [] {
    } else {
      FirstPipeAt(a[1..], rest);
      assert (a + [PIPE] + rest)[1..] == a[1..] + [PIPE] + rest;
    }
  }

  /** Splitting undoes framing even when the MAC bytes contain the separator. */
  lemma SplitFrame(date: Bytes, value: Bytes, mac: Bytes)
    requires PIPE !in date && PIPE !in value
    ensures Split3(Frame(date, value, mac)) == Parts(date, value, mac)
  {
    var rest := value + [PIPE] + mac;
    var b := Frame(date, value, mac);
    FirstPipeAt(date, rest);
    FirstPipeAt(value, mac);
    assert b[..|date|] == date && b[|date| + 1..] == rest;
    assert rest[..|value|] == value && rest[|value| + 1..] == mac;
  }

  /** The message determines its three fields, whatever the name contains. */
  lemma MessageInjective(n1: Bytes, d1: Bytes, v1: Bytes, n2: Bytes, d2: Bytes, v2: Bytes)
    requires PIPE !in d1 && PIPE !in v1 && PIPE !in d2 && PIPE !in v2
    requires Message(n1, d1, v1) == Message(n2, d2, v2)
    ensures n1 == n2 && d1 == d2 && v1 == v2
  {
    LastField(n1 + [PIPE] + d1, v1, n2 + [PIPE] + d2, v2) by {
      assert Message(n1, d1, v1) == n1 + [PIPE] + d1 + [PIPE] + v1;
      assert Message(n2, d2, v2) == n2 + [PIPE] + d2 + [PIPE] + v2;
    }
    LastField(n1, d1, n2, d2);
  }

  lemma NoPipeAfter(a: Bytes, x: Bytes, i: int)
    requires PIPE !in x && |a| < i < |a| + 1 + |x|
    ensures (a + [PIPE] + x)[i] != PIPE
  {
    assert (a + [PIPE] + x)[i] == x[i - |a| - 1];
    assert x[i - |a| - 1] in x;
  }

  lemma LastField(a: Bytes, x: Bytes, b: Bytes, y: Bytes)
    requires PIPE !in x && PIPE !in y && a + [PIPE] + x == b + [PIPE] + y
    ensures a == b && x == y
  {
    var s := a + [PIPE] + x;
    assert |s| == |a| + 1 + |x| == |b| + 1 + |y|;
    assert s[|a|] == PIPE && s[|b|] == PIPE;
    if |a| < |b| {
      NoPipeAfter(a, x, |b|);
    } else if |b| < |a| {
      NoPipeAfter(b, y, |a|);
    }
    SameCut(a, x, b, y);
  }

  lemma SameCut(a: Bytes, x: Bytes, b: Bytes, y: Bytes)
    requires |a| == |b| && a + [PIPE] + x == b + [PIPE] + y
    ensures a == b && x == y
  {
    var s := a + [PIPE] + x;
    assert a == s[..|a|] && x == s[|a| + 1..];
    assert b == s[..|b|] && y == s[|b| + 1..];
  }

  // ---------------------------------------------------------------- encryption

  /** Counter mode: every byte combined with the keystream byte at its position. */
  function Xor(ks: (Bytes, Bytes, nat) -> bv8, key: Bytes, iv: Bytes, b: Bytes): (r: Bytes)
    ensures |r| == |b|
  {
    seq(|b|, i requires 0 <= i < |b| => b[i] ^ ks(key, iv, i))
  }

  lemma XorTwice(ks: (Bytes, Bytes, nat) -> bv8, key: Bytes, iv: Bytes, b: Bytes)
    ensures Xor(ks, key, iv, Xor(ks, key, iv, b)) == b
  {
    forall i | 0 <= i < |b|
      ensures Xor(ks, key, iv, Xor(ks, key, iv, b))[i] == b[i]
    {
      XorCancel(b[i], ks(key, iv, i));
    }
  }

  lemma XorCancel(x: bv8, k: bv8)
    ensures (x ^ k) ^ k == x
  {
  }

  /** XORKeyStream overwrites its buffer. */
  method XorKeyStream(ks: (Bytes, Bytes, nat) -> bv8, key: Bytes, iv: Bytes, buf: array<bv8>)
    modifies buf
    ensures buf[..] == Xor(ks, key, iv, old(buf[..]))
    ensures forall i :: 0 <= i < buf.Length ==> buf[i] == old(buf[i]) ^ ks(key, iv, i)
  {
    for i := 0 to buf.Length
      invariant forall j :: 0 <= j < i ==> buf[j] == old(buf[j]) ^ ks(key, iv, j)
      invariant forall j :: i <= j < buf.Length ==> buf[j] == old(buf[j])
    {
      buf[i] := buf[i] ^ ks(key, iv, i);
    }
  }

  // ---------------------------------------------------------------- encode and decode

  function Key(o: Option<Bytes>): Bytes
  {
    if o.Some? then o.value else []
  }

  /** The payload as it is framed: encrypted behind its IV when a block cipher is set. */
  function Sealed<V>(s: Settings, c: Primitives<V>, payload: Bytes, iv: Bytes): Bytes
  {
    if s.block then iv + Xor(c.keystream, Key(s.blockKey), iv, payload) else payload
  }

  function Cookie<V>(s: Settings, c: Primitives<V>, name: Bytes, payload: Bytes, now: int, iv: Bytes): Bytes
  {
    var date, value := FormatInt(now), Base64.Encode(Sealed(s, c, payload, iv));
    Base64.Encode(Frame(date, value, c.mac(Key(s.hashKey), Message(name, date, value))))
  }

  /** `iv` is what the random source delivers; None when it fails. */
  function EncodeValue<V>(s: Settings, c: Primitives<V>, name: Bytes, value: V, now: int,
                          iv: Option<Bytes>): Result<Bytes>
  {
    if s.err.Some? then Failure(s.err.value)
    else if s.hashKey.None? then Failure(HashKeyNotSet)
    else
      match c.serialize(value)
      case None => Failure(SerializeFailed)
      case Some(payload) =>
        if s.block && iv.None? then Failure(NoIV)
        else
          var b := Cookie(s, c, name, payload, now, Key(iv));
          if s.maxLength != 0 && |b| > s.maxLength then Failure(TooLong) else Success(b)
  }

  function CheckAge(s: Settings, t1: int, t2: int): Option<CookieError>
  {
    if s.minAge != 0 && t1 > Sub64(t2, s.minAge) then Some(TimestampTooNew)
    else if s.maxAge != 0 && t1 < Sub64(t2, s.maxAge) then Some(TimestampExpired)
    else None
  }

  function Opened<V>(s: Settings, c: Primitives<V>, b: Bytes): Option<Bytes>
  {
    if !s.block then Some(b)
    else if |b| > c.blockSize then
      Some(Xor(c.keystream, Key(s.blockKey), b[..c.blockSize], b[c.blockSize..]))
    else None
  }

  /** Steps 4 to 6: dates, decryption, deserialization. */
  function DecodeParts<V>(s: Settings, c: Primitives<V>, p: Parts, now: int): Result<V>
    requires p.Parts?
  {
    match ParseInt(p.date)
    case None => Failure(TimestampInvalid)
    case Some(t1) =>
      match CheckAge(s, t1, now)
      case Some(e) => Failure(e)
      case None =>
        match Base64.Decode(p.value)
        case Bad => Failure(Base64Failed)
        case Ok(b) =>
          match Opened(s, c, b)
          case None => Failure(DecryptionFailed)
          case Some(payload) =>
            match c.deserialize(payload)
            case None => Failure(DeserializeFailed)
            case Some(v) => Success(v)
  }

  function DecodeValue<V>(s: Settings, c: Primitives<V>, name: Bytes, cookie: Bytes, now: int): Result<V>
  {
    if s.err.Some? then Failure(s.err.value)
    else if s.hashKey.None? then Failure(HashKeyNotSet)
    else if s.maxLength != 0 && |cookie| > s.maxLength then Failure(TooLong)
    else
      match Base64.Decode(cookie)
      case Bad => Failure(Base64Failed)
      case Ok(b) =>
        match Split3(b)
        case TooFew => Failure(MacInvalid)
        case Parts(date, value, mac) =>
          if mac != c.mac(Key(s.hashKey), Message(name, date, value)) then Failure(MacInvalid)
          else DecodeParts(s, c, Parts(date, value, mac), now)
  }

  // ---------------------------------------------------------------- the format, without the codec's functions

  /** `body` is what a cookie's value field encodes: the IV and the combined bytes, or the plain payload. */
  ghost predicate BodyOf<V>(s: Settings, c: Primitives<V>, payload: Bytes, iv: Bytes, body: Bytes)
  {
    if s.block then
      && |body| == |iv| + |payload| && body[..|iv|] == iv
      && forall i :: 0 <= i < |payload| ==> body[|iv| + i] == payload[i] ^ c.keystream(Key(s.blockKey), iv, i)
    else body == payload
  }

  /** The cookie is base64 of date|field|mac with the MAC over name|date|field, and the field is base64 of the body. */
  ghost predicate Carries<V>(s: Settings, c: Primitives<V>, name: Bytes, cookie: Bytes, date: Bytes, field: Bytes,
                             body: Bytes)
  {
    && PIPE !in date && PIPE !in field
    && Base64.Decode(cookie) ==
       Ok(date + [PIPE] + field + [PIPE] + c.mac(Key(s.hashKey), name + [PIPE] + date + [PIPE] + field))
    && Base64.Decode(field) == Ok(body)
  }

  lemma FrameText(date: Bytes, field: Bytes, mac: Bytes, name: Bytes)
    ensures Frame(date, field, mac) == date + [PIPE] + field + [PIPE] + mac
    ensures Message(name, date, field) == name + [PIPE] + date + [PIPE] + field
  {
  }

  lemma SealedBody<V>(s: Settings, c: Primitives<V>, payload: Bytes, iv: Bytes)
    ensures BodyOf(s, c, payload, iv, Sealed(s, c, payload, iv))
  {
  }

  /** What encoding writes: today's date, and a field with the payload, encrypted behind the IV if a key is set. */
  lemma CookieCarries<V>(s: Settings, c: Primitives<V>, name: Bytes, payload: Bytes, now: int, iv: Bytes)
    returns (field: Bytes, body: Bytes)
    requires Int64(now)
    ensures Carries(s, c, name, Cookie(s, c, name, payload, now, iv), FormatInt(now), field, body)
    ensures BodyOf(s, c, payload, iv, body)
    ensures field == Base64.Encode(body)
    ensures var cookie := Cookie(s, c, name, payload, now, iv);
            Base64.Encode(Base64.Decode(cookie).bytes) == cookie
  {
    body := Sealed(s, c, payload, iv);
    field := Base64.Encode(body);
    var mac := c.mac(Key(s.hashKey), Message(name, FormatInt(now), field));
    SealedBody(s, c, payload, iv);
    FormatParse(now);
    EncodedIsPlain(body);
    Base64.RoundTrip(body);
    Base64.RoundTrip(Frame(FormatInt(now), field, mac));
    FrameText(FormatInt(now), field, mac, name);
  }

  /** All that a codec asks of a cookie before it answers with a value, in terms of its fields. */
  ghost predicate Accepts<V>(s: Settings, c: Primitives<V>, name: Bytes, cookie: Bytes, now: int, value: V,
                             date: Bytes, field: Bytes, body: Bytes, t: int, payload: Bytes)
  {
    && s.err.None? && s.hashKey.Some? && (s.maxLength == 0 || |cookie| <= s.maxLength)
    && Carries(s, c, name, cookie, date, field, body)
    && ParseInt(date) == Some(t)
    && (s.minAge != 0 ==> t <= Sub64(now, s.minAge)) && (s.maxAge != 0 ==> t >= Sub64(now, s.maxAge))
    && (s.block ==> |body| > c.blockSize)
    && BodyOf(s, c, payload, if s.block then body[..c.blockSize] else [], body)
    && c.deserialize(payload) == Some(value)
  }

  ghost predicate Accepted<V>(s: Settings, c: Primitives<V>, name: Bytes, cookie: Bytes, now: int, value: V)
  {
    exists date: Bytes, field: Bytes, body: Bytes, t: int, payload: Bytes ::
      Accepts(s, c, name, cookie, now, value, date, field, body, t, payload)
  }

  lemma OpenedIff<V>(s: Settings, c: Primitives<V>, body: Bytes, payload: Bytes)
    ensures Opened(s, c, body) == Some(payload) <==>
            (s.block ==> |body| > c.blockSize) &&
            BodyOf(s, c, payload, if s.block then body[..c.blockSize] else [], body)
  {
    if s.block && |body| > c.blockSize {
      var iv, text := body[..c.blockSize], body[c.blockSize..];
      var ks := c.keystream;
      var x := Xor(ks, Key(s.blockKey), iv, text);
      if BodyOf(s, c, payload, iv, body) {
        forall i | 0 <= i < |payload|
          ensures x[i] == payload[i]
        {
          assert text[i] == body[|iv| + i];
          XorCancel(payload[i], ks(Key(s.blockKey), iv, i));
        }
        assert x == payload;
      }
      forall i | 0 <= i < |x|
        ensures body[|iv| + i] == x[i] ^ ks(Key(s.blockKey), iv, i)
      {
        assert text[i] == body[|iv| + i];
        XorCancel(text[i], ks(Key(s.blockKey), iv, i));
      }
    }
  }

  /** Decoding succeeds with a value if and only if the cookie has fields that meet every demand. */
  lemma DecodeAcceptsIff<V>(s: Settings, c: Primitives<V>, name: Bytes, cookie: Bytes, now: int, value: V)
    ensures DecodeValue(s, c, name, cookie, now) == Success(value) <==> Accepted(s, c, name, cookie, now, value)
  {
    if DecodeValue(s, c, name, cookie, now) == Success(value) {
      var p := Split3(Base64.Decode(cookie).bytes);
      var body := Base64.Decode(p.value).bytes;
      var payload := Opened(s, c, body).value;
      FrameText(p.date, p.value, p.mac, name);
      OpenedIff(s, c, body, payload);
      assert Accepts(s, c, name, cookie, now, value, p.date, p.value, body, ParseInt(p.date).value, payload);
    }
    forall date: Bytes, field: Bytes, body: Bytes, t: int, payload: Bytes
      | Accepts(s, c, name, cookie, now, value, date, field, body, t, payload)
      ensures DecodeValue(s, c, name, cookie, now) == Success(value)
    {
      AcceptedDecodes(s, c, name, cookie, now, value, date, field, body, t, payload);
    }
  }

  lemma AcceptedDecodes<V>(s: Settings, c: Primitives<V>, name: Bytes, cookie: Bytes, now: int, value: V,
                           date: Bytes, field: Bytes, body: Bytes, t: int, payload: Bytes)
    requires Accepts(s, c, name, cookie, now, value, date, field, body, t, payload)
    ensures DecodeValue(s, c, name, cookie, now) == Success(value)
  {
    var mac := c.mac(Key(s.hashKey), Message(name, date, field));
    FrameText(date, field, mac, name);
    SplitFrame(date, field, mac);
    OpenedIff(s, c, body, payload);
  }

  // ---------------------------------------------------------------- round trip

  /** Unsealing undoes sealing, except for an empty encrypted payload. */
  lemma OpenSealed<V>(s: Settings, c: Primitives<V>, payload: Bytes, iv: Bytes)
    requires s.block ==> |iv| == c.blockSize
    ensures Opened(s, c, Sealed(s, c, payload, iv)) == if s.block && payload == [] then None else Some(payload)
  {
    if s.block {
      var x := Xor(c.keystream, Key(s.blockKey), iv, payload);
      assert (iv + x)[..c.blockSize] == iv && (iv + x)[c.blockSize..] == x;
      XorTwice(c.keystream, Key(s.blockKey), iv, payload);
    }
  }

  /** A cookie comes apart into the date, value and MAC it was framed from. */
  lemma CookieParts<V>(s: Settings, c: Primitives<V>, name: Bytes, payload: Bytes, now: int, iv: Bytes)
    requires Int64(now)
    ensures var date, value := FormatInt(now), Base64.Encode(Sealed(s, c, payload, iv));
            var mac := c.mac(Key(s.hashKey), Message(name, date, value));
            && Base64.Decode(Cookie(s, c, name, payload, now, iv)) == Ok(Frame(date, value, mac))
            && Split3(Frame(date, value, mac)) == Parts(date, value, mac)
  {
    var date, value := FormatInt(now), Base64.Encode(Sealed(s, c, payload, iv));
    var mac := c.mac(Key(s.hashKey), Message(name, date, value));
    FormatParse(now);
    EncodedIsPlain(Sealed(s, c, payload, iv));
    Base64.RoundTrip(Frame(date, value, mac));
    SplitFrame(date, value, mac);
  }

  /**
   Whatever Encode accepts, Decode with the same settings and name takes apart again: it answers with
   the age error if the cookie is outside its window, refuses exactly an empty encrypted payload, and
   otherwise returns the original value.
   */
  lemma DecodeOfEncode<V>(s: Settings, c: Primitives<V>, name: Bytes, value: V, t1: int, t2: int, iv: Option<Bytes>)
    requires Int64(t1) && (iv.Some? ==> |iv.value| == c.blockSize)
    requires EncodeValue(s, c, name, value, t1, iv).Success?
    requires c.deserialize(c.serialize(value).value) == Some(value)
    ensures var payload := c.serialize(value).value;
            DecodeValue(s, c, name, EncodeValue(s, c, name, value, t1, iv).value, t2) ==
            if CheckAge(s, t1, t2).Some? then Failure(CheckAge(s, t1, t2).value)
            else if s.block && payload == [] then Failure(DecryptionFailed)
            else Success(value)
  {
    var payload := c.serialize(value).value;
    var date, sealed := FormatInt(t1), Base64.Encode(Sealed(s, c, payload, Key(iv)));
    CookieParts(s, c, name, payload, t1, Key(iv));
    PartsDecode(s, c, payload, value, t1, t2, Key(iv), c.mac(Key(s.hashKey), Message(name, date, sealed)));
  }

  lemma PartsDecode<V>(s: Settings, c: Primitives<V>, payload: Bytes, value: V, t1: int, t2: int, iv: Bytes, mac: Bytes)
    requires Int64(t1) && (s.block ==> |iv| == c.blockSize) && c.deserialize(payload) == Some(value)
    ensures DecodeParts(s, c, Parts(FormatInt(t1), Base64.Encode(Sealed(s, c, payload, iv)), mac), t2) ==
            if CheckAge(s, t1, t2).Some? then Failure(CheckAge(s, t1, t2).value)
            else if s.block && payload == [] then Failure(DecryptionFailed)
            else Success(value)
  {
    FormatParse(t1);
    Base64.RoundTrip(Sealed(s, c, payload, iv));
    OpenSealed(s, c, payload, iv);
  }

  /** Without int64 overflow the window is the plain one. */
  lemma AgeWindow(s: Settings, t1: int, t2: int)
    requires Int64(t2 - s.minAge) && Int64(t2 - s.maxAge)
    ensures CheckAge(s, t1, t2).None? <==>
            (s.minAge != 0 ==> s.minAge <= t2 - t1) && (s.maxAge != 0 ==> t2 - t1 <= s.maxAge)
    ensures CheckAge(s, t1, t2) == Some(TimestampTooNew) <==> s.minAge != 0 && t2 - t1 < s.minAge
    ensures CheckAge(s, t1, t2).Some? ==> CheckAge(s, t1, t2).value in {TimestampTooNew, TimestampExpired}
  {
  }

  /** Two accepted cookies with the same authenticated message carry the same name, date and value. */
  lemma AcceptedMessageUnique<V>(s1: Settings, c1: Primitives<V>, name1: Bytes, cookie1: Bytes, now1: int,
                                 s2: Settings, c2: Primitives<V>, name2: Bytes, cookie2: Bytes, now2: int)
    requires DecodeValue(s1, c1, name1, cookie1, now1).Success? && DecodeValue(s2, c2, name2, cookie2, now2).Success?
    ensures var p1, p2 := Split3(Base64.Decode(cookie1).bytes), Split3(Base64.Decode(cookie2).bytes);
            && p1.Parts? && p2.Parts?
            && (Message(name1, p1.date, p1.value) == Message(name2, p2.date, p2.value) ==>
                  name1 == name2 && p1.date == p2.date && p1.value == p2.value)
  {
    var p1, p2 := Split3(Base64.Decode(cookie1).bytes), Split3(Base64.Decode(cookie2).bytes);
    if Message(name1, p1.date, p1.value) == Message(name2, p2.date, p2.value) {
      MessageInjective(name1, p1.date, p1.value, name2, p2.date, p2.value);
    }
  }

  // ---------------------------------------------------------------- codec lists

  /** A codec as it sits in a list: its settings, changed only by its own setters. */
  class SecureCookie<!V> {
    var hashKey: Option<Bytes>
    var blockKey: Option<Bytes>
    var block: bool
    var maxLength: int
    var maxAge: int
    var minAge: int
    var err: Option<CookieError>
    const c: Primitives<V>

    function View(): Settings
      reads this
    {
      Settings(hashKey, blockKey, block, maxLength, maxAge, minAge, err)
    }

    /** NewSecureCookie: the hash key is required, a block key is optional but must fit the cipher. */
    constructor (c: Primitives<V>, hashKey: Option<Bytes>, blockKey: Option<Bytes>)
      ensures this.c == c && View() == NewSettings(c, hashKey, blockKey)
      ensures this.hashKey == hashKey && this.blockKey == blockKey
      ensures maxLength == 4096 && maxAge == 2592000 && minAge == 0
      ensures block <==> blockKey.Some? && c.validBlockKey(blockKey.value)
      ensures err.Some? <==> hashKey.None? || hashKey.value == [] || (blockKey.Some? && !block)
    {
      this.c := c;
      this.hashKey, this.blockKey := hashKey, blockKey;
      this.maxLength, this.maxAge, this.minAge := 4096, 86400 * 30, 0;
      this.err := if hashKey.None? || hashKey.value == [] then Some(HashKeyNotSet) else None;
      this.block := false;
      if blockKey.Some? {
        if c.validBlockKey(blockKey.value) {
          this.block := true;
        } else {
          this.err := Some(BlockKeyInvalid);
        }
      }
    }

    /** The first failed use of a missing hash key is remembered; everything else is left alone. */
    method EncodeCookie(name: Bytes, value: V, now: int, iv: Option<Bytes>) returns (r: Result<Bytes>)
      modifies this`err
      ensures r == EncodeValue(old(View()), c, name, value, now, iv)
      ensures View() == Touched(old(View()))
      ensures r.Success? <==>
                && old(err).None? && hashKey.Some? && c.serialize(value).Some? && (block ==> iv.Some?)
                && (maxLength == 0 || |Cookie(View(), c, name, c.serialize(value).value, now, Key(iv))| <= maxLength)
      ensures r.Success? ==> maxLength == 0 || |r.value| <= maxLength
      ensures r.Success? && Int64(now) ==>
                && c.serialize(value).Some? && Base64.Decode(r.value).Ok?
                && Base64.Encode(Base64.Decode(r.value).bytes) == r.value
                && exists field: Bytes, body: Bytes ::
                     && Carries(View(), c, name, r.value, FormatInt(now), field, body)
                     && BodyOf(View(), c, c.serialize(value).value, Key(iv), body)
                     && field == Base64.Encode(body)
    {
      if err.Some? {
        return Failure(err.value);
      }
      if hashKey.None? {
        err := Some(HashKeyNotSet);
        return Failure(HashKeyNotSet);
      }
      var serialized := c.serialize(value);
      if serialized.None? {
        return Failure(SerializeFailed);
      }
      var b := serialized.value;
      if block {
        if iv.None? {
          return Failure(NoIV);
        }
        var buf := new bv8[|b|](i requires 0 <= i < |b| => b[i]);
        assert buf[..] == b;
        XorKeyStream(c.keystream, Key(blockKey), iv.value, buf);
        b := iv.value + buf[..];
      }
      b := Base64.Encode(b);
      var date := FormatInt(now);
      var mac := c.mac(Key(hashKey), Message(name, date, b));
      b := Base64.Encode(Frame(date, b, mac));
      if maxLength != 0 && |b| > maxLength {
        return Failure(TooLong);
      }
      if Int64(now) {
        ghost var field, body := CookieCarries(View(), c, name, serialized.value, now, Key(iv));
      }
      return Success(b);
    }

    method DecodeCookie(name: Bytes, cookie: Bytes, now: int) returns (r: Result<V>)
      modifies this`err
      ensures r == DecodeValue(old(View()), c, name, cookie, now)
      ensures View() == Touched(old(View()))
    {
      if err.Some? {
        return Failure(err.value);
      }
      if hashKey.None? {
        err := Some(HashKeyNotSet);
        return Failure(HashKeyNotSet);
      }
      if maxLength != 0 && |cookie| > maxLength {
        return Failure(TooLong);
      }
      var decoded := Base64.Decode(cookie);
      if decoded.Bad? {
        return Failure(Base64Failed);
      }
      var parts := Split3(decoded.bytes);
      if parts.TooFew? {
        return Failure(MacInvalid);
      }
      if parts.mac != c.mac(Key(hashKey), Message(name, parts.date, parts.value)) {
        return Failure(MacInvalid);
      }
      r := OpenParts(parts, now);
    }

    /** Steps 4 to 6 of decoding, with the ciphertext decrypted in its own buffer. */
    method OpenParts(parts: Parts, now: int) returns (r: Result<V>)
      requires parts.Parts?
      ensures r == DecodeParts(View(), c, parts, now)
    {
      var t1 := ParseInt(parts.date);
      if t1.None? {
        return Failure(TimestampInvalid);
      }
      var age := CheckAge(View(), t1.value, now);
      if age.Some? {
        return Failure(age.value);
      }
      var decoded := Base64.Decode(parts.value);
      if decoded.Bad? {
        return Failure(Base64Failed);
      }
      var b := decoded.bytes;
      if block {
        if |b| <= c.blockSize {
          return Failure(DecryptionFailed);
        }
        var text := b[c.blockSize..];
        var buf := new bv8[|text|](i requires 0 <= i < |text| => text[i]);
        assert buf[..] == text;
        XorKeyStream(c.keystream, Key(blockKey), b[..c.blockSize], buf);
        b := buf[..];
      }
      var v := c.deserialize(b);
      if v.None? {
        return Failure(DeserializeFailed);
      }
      return Success(v.value);
    }
  }

  function NewSettings<V>(c: Primitives<V>, hashKey: Option<Bytes>, blockKey: Option<Bytes>): Settings
  {
    var fits := blockKey.Some? && c.validBlockKey(blockKey.value);
    Settings(hashKey, blockKey, fits, 4096, 86400 * 30, 0,
             if blockKey.Some? && !fits then Some(BlockKeyInvalid)
             else if hashKey.None? || hashKey.value == [] then Some(HashKeyNotSet)
             else None)
  }

  function Touched(s: Settings): Settings
  {
    if s.err.None? && s.hashKey.None? then s.(err := Some(HashKeyNotSet)) else s
  }

  /** A touched codec answers as before. */
  lemma TouchedDecodes<V>(s: Settings, c: Primitives<V>, name: Bytes, cookie: Bytes, now: int)
    ensures DecodeValue(Touched(s), c, name, cookie, now) == DecodeValue(s, c, name, cookie, now)
  {
  }

  /** One entry of a codec list. */
  datatype Codec<!V> = Codec(s: Settings, c: Primitives<V>)

  /** What each codec of a list answers. */
  function Answers<V>(cs: seq<Codec<V>>, name: Bytes, cookie: Bytes, now: int): (rs: seq<Result<V>>)
    ensures |rs| == |cs|
    ensures forall i :: 0 <= i < |cs| ==> rs[i] == DecodeValue(cs[i].s, cs[i].c, name, cookie, now)
  {
    seq(|cs|, i requires 0 <= i < |cs| => DecodeValue(cs[i].s, cs[i].c, name, cookie, now))
  }

  /** The first success, or the length of the list. */
  function FirstSuccess<V>(rs: seq<Result<V>>): (i: nat)
    ensures i <= |rs| && (i < |rs| ==> rs[i].Success?)
    ensures forall j :: 0 <= j < i ==> rs[j].Failure?
  {
    if rs == [] || rs[0].Success? then 0 else 1 + FirstSuccess(rs[1..])
  }

  lemma FirstSuccessIs<V>(rs: seq<Result<V>>, k: nat)
    requires k <= |rs| && (forall j :: 0 <= j < k ==> rs[j].Failure?) && (k < |rs| ==> rs[k].Success?)
    ensures FirstSuccess(rs) == k
  {
  }

  /** The list as the codecs' fields stand. */
  ghost function Views<V>(codecs: seq<SecureCookie<V>>): (cs: seq<Codec<V>>)
    reads codecs
    ensures |cs| == |codecs|
    ensures forall i :: 0 <= i < |cs| ==> cs[i] == Codec(codecs[i].View(), codecs[i].c)
  {
    seq(|codecs|, i requires 0 <= i < |codecs| reads codecs => Codec(codecs[i].View(), codecs[i].c))
  }

  /** A codec that at most remembers its missing hash key. */
  ghost predicate SameCodec(was: Settings, s: Settings)
  {
    s == was || s == Touched(was)
  }

  method DecodeOne<V>(codec: SecureCookie<V>, ghost was: Settings, name: Bytes, cookie: Bytes, now: int)
    returns (r: Result<V>)
    requires SameCodec(was, codec.View())
    modifies codec`err
    ensures SameCodec(was, codec.View()) && r == DecodeValue(was, codec.c, name, cookie, now)
  {
    TouchedDecodes(was, codec.c, name, cookie, now);
    r := codec.DecodeCookie(name, cookie, now);
  }

  /** DecodeMulti succeeds if and only if some codec accepts, with the first accepting codec's value. */
  method DecodeMulti<V>(name: Bytes, cookie: Bytes, now: int, codecs: seq<SecureCookie<V>>) returns (r: Result<V>)
    modifies codecs
    ensures var rs := Answers(old(Views(codecs)), name, cookie, now);
            var i := FirstSuccess(rs);
            && (r.Success? <==> i < |rs|)
            && (i < |rs| ==> r == rs[i])
            && (i == |rs| == 0 ==> r == Failure(NoCodecs))
            && (i == |rs| > 0 ==> r.error.Multi? && |r.error.errors| == |rs|)
            && (i == |rs| > 0 ==> forall j :: 0 <= j < |rs| ==> rs[j] == Failure(r.error.errors[j]))
  {
    if |codecs| == 0 {
      return Failure(NoCodecs);
    }
    ghost var cs := Views(codecs);
    ghost var rs := Answers(cs, name, cookie, now);
    var errors: seq<CookieError> := [];
    for k := 0 to |codecs|
      invariant |errors| == k
      invariant forall j :: 0 <= j < k ==> rs[j] == Failure(errors[j])
      invariant forall o :: o in codecs ==> SameCodec(old(o.View()), o.View())
    {
      var one := DecodeOne(codecs[k], old(codecs[k].View()), name, cookie, now);
      assert one == rs[k];
      if one.Success? {
        FirstSuccessIs(rs, k);
        return one;
      }
      errors := errors + [one.error];
    }
    FirstSuccessIs(rs, |rs|);
    return Failure(Multi(errors));
  }

  /** A codec whose MAC differs on the cookie's message rejects it. */
  lemma ForeignMacRejects<V>(s: Settings, c: Primitives<V>, s': Settings, c': Primitives<V>,
                             name: Bytes, payload: Bytes, t1: int, t2: int, iv: Bytes)
    requires Int64(t1)
    requires var m := Message(name, FormatInt(t1), Base64.Encode(Sealed(s, c, payload, iv)));
             c.mac(Key(s.hashKey), m) != c'.mac(Key(s'.hashKey), m)
    ensures DecodeValue(s', c', name, Cookie(s, c, name, payload, t1, iv), t2).Failure?
  {
    CookieParts(s, c, name, payload, t1, iv);
  }

  lemma ForeignCodecRejects<V>(own: Codec<V>, other: Codec<V>, name: Bytes, value: V, t1: int, t2: int,
                               iv: Option<Bytes>)
    requires Int64(t1) && EncodeValue(own.s, own.c, name, value, t1, iv).Success?
    requires var m := Message(name, FormatInt(t1),
                              Base64.Encode(Sealed(own.s, own.c, own.c.serialize(value).value, Key(iv))));
             other.c.mac(Key(other.s.hashKey), m) != own.c.mac(Key(own.s.hashKey), m)
    ensures DecodeValue(other.s, other.c, name, EncodeValue(own.s, own.c, name, value, t1, iv).value, t2).Failure?
  {
    ForeignMacRejects(own.s, own.c, other.s, other.c, name, own.c.serialize(value).value, t1, t2, Key(iv));
  }

  /** A cookie written under a retained key pair survives rotation when the newer keys' MACs differ on it. */
  lemma SurvivesRotation<V>(cs: seq<Codec<V>>, i: nat, name: Bytes, value: V, t1: int, t2: int, iv: Option<Bytes>)
    requires i < |cs| && Int64(t1) && (iv.Some? ==> |iv.value| == cs[i].c.blockSize)
    requires EncodeValue(cs[i].s, cs[i].c, name, value, t1, iv).Success?
    requires cs[i].c.deserialize(cs[i].c.serialize(value).value) == Some(value)
    requires CheckAge(cs[i].s, t1, t2).None? && (cs[i].s.block ==> cs[i].c.serialize(value).value != [])
    requires var m := Message(name, FormatInt(t1),
                              Base64.Encode(Sealed(cs[i].s, cs[i].c, cs[i].c.serialize(value).value, Key(iv))));
             forall j :: 0 <= j < i ==> cs[j].c.mac(Key(cs[j].s.hashKey), m) != cs[i].c.mac(Key(cs[i].s.hashKey), m)
    ensures var cookie := EncodeValue(cs[i].s, cs[i].c, name, value, t1, iv).value;
            var rs := Answers(cs, name, cookie, t2);
            FirstSuccess(rs) == i && rs[i] == Success(value)
  {
    var cookie := EncodeValue(cs[i].s, cs[i].c, name, value, t1, iv).value;
    DecodeOfEncode(cs[i].s, cs[i].c, name, value, t1, t2, iv);
    forall j | 0 <= j < i
      ensures DecodeValue(cs[j].s, cs[j].c, name, cookie, t2).Failure?
    {
      ForeignCodecRejects(cs[i], cs[j], name, value, t1, t2, iv);
    }
    FirstSuccessIs(Answers(cs, name, cookie, t2), i);
  }

  /** CodecsFromPairs: one codec per hash key, each with the block key that follows it, if any. */
  method CodecsFromPairs<V>(c: Primitives<V>, keys: seq<Option<Bytes>>) returns (codecs: seq<SecureCookie<V>>)
    ensures |codecs| == |keys| / 2 + |keys| % 2
    ensures forall k :: 0 <= k < |codecs| ==>
              && fresh(codecs[k]) && codecs[k].c == c
              && codecs[k].View() == NewSettings(c, keys[2 * k], if 2 * k + 1 < |keys| then keys[2 * k + 1] else None)
  {
    codecs := [];
    var i := 0;
    while i < |keys|
      invariant i == 2 * |codecs| && i <= |keys| + 1
      invariant forall k :: 0 <= k < |codecs| ==>
                  && fresh(codecs[k]) && codecs[k].c == c
                  && codecs[k].View() == NewSettings(c, keys[2 * k],
                                                     if 2 * k + 1 < |keys| then keys[2 * k + 1] else None)
    {
      var blockKey: Option<Bytes> := None;
      if i + 1 < |keys| {
        blockKey := keys[i + 1];
      }
      var codec := new SecureCookie<V>(c, keys[i], blockKey);
      codecs := codecs + [codec];
      i := i + 2;
    }
  }
}
