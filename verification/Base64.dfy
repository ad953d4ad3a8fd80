/**
 Base64 with the URL and filename safe alphabet and padding, section 5 of RFC 4648, as Go's
 `base64.URLEncoding` decodes it: CR and LF are skipped and unused trailing bits are ignored.
 */
module Base64 {
  type Bytes = seq<bv8>

  const PAD: bv8 := 61        // '='
  const CR: bv8 := 13
  const LF: bv8 := 10
  const PIPE: bv8 := 124      // '|'

  datatype Decoded = Ok(bytes: Bytes) | Bad

  /** The alphabet: A-Z a-z 0-9 - _ */
  function Letter(s: bv8): (c: bv8)
    requires s < 64
    ensures c != PAD && c != CR && c != LF && c != PIPE
    ensures IsLetter(c) && Sextet(c) == s
  {
    if s < 26 then 65 + s
    else if s < 52 then 97 + (s - 26)
    else if s < 62 then 48 + (s - 52)
    else if s == 62 then 45
    else 95
  }

  predicate IsLetter(c: bv8)
  {
    65 <= c <= 90 || 97 <= c <= 122 || 48 <= c <= 57 || c == 45 || c == 95
  }

  function Sextet(c: bv8): (s: bv8)
    requires IsLetter(c)
    ensures s < 64
  {
    if 65 <= c <= 90 then c - 65
    else if 97 <= c <= 122 then c - 97 + 26
    else if 48 <= c <= 57 then c - 48 + 52
    else if c == 45 then 62
    else 63
  }

  // The four sextets of three bytes; a missing byte counts as 0.
  function First(b0: bv8): (s: bv8)
    ensures s < 64
  {
    b0 >> 2
  }

  function Second(b0: bv8, b1: bv8): (s: bv8)
    ensures s < 64
  {
    ((b0 & 3) << 4) | (b1 >> 4)
  }

  function Third(b1: bv8, b2: bv8): (s: bv8)
    ensures s < 64
  {
    ((b1 & 15) << 2) | (b2 >> 6)
  }

  function Fourth(b2: bv8): (s: bv8)
    ensures s < 64
  {
    b2 & 63
  }

  function Encode(b: Bytes): Bytes
  {
    if |b| == 0 then []
    else if |b| == 1 then
      [Letter(First(b[0])), Letter(Second(b[0], 0)), PAD, PAD]
    else if |b| == 2 then
      [Letter(First(b[0])), Letter(Second(b[0], b[1])), Letter(Third(b[1], 0)), PAD]
    else
      [Letter(First(b[0])), Letter(Second(b[0], b[1])), Letter(Third(b[1], b[2])), Letter(Fourth(b[2]))] +
      Encode(b[3..])
  }

  /** What is left of the input after Go's decoder skips line breaks. */
  function Strip(v: Bytes): Bytes
  {
    if v == [] then [] else (if v[0] == CR || v[0] == LF then [] else [v[0]]) + Strip(v[1..])
  }

  function DecodeQuads(v: Bytes): Decoded
  {
    if |v| == 0 then Ok([])
    else if |v| < 4 || !IsLetter(v[0]) || !IsLetter(v[1]) then Bad
    else
      var b0 := (Sextet(v[0]) << 2) | (Sextet(v[1]) >> 4);
      if v[2] == PAD then
        if v[3] == PAD && |v| == 4 then Ok([b0]) else Bad
      else if !IsLetter(v[2]) then Bad
      else
        var b1 := (Sextet(v[1]) << 4) | (Sextet(v[2]) >> 2);
        if v[3] == PAD then
          if |v| == 4 then Ok([b0, b1]) else Bad
        else if !IsLetter(v[3]) then Bad
        else
          var b2 := (Sextet(v[2]) << 6) | Sextet(v[3]);
          match DecodeQuads(v[4..])
          case Bad => Bad
          case Ok(rest) => Ok([b0, b1, b2] + rest)
  }

  function Decode(v: Bytes): Decoded
  {
    DecodeQuads(Strip(v))
  }

  /** Encoded text holds neither line breaks nor the separator. */
  lemma {:induction false} EncodedIsPlain(b: Bytes)
    ensures CR !in Encode(b) && LF !in Encode(b) && PIPE !in Encode(b)
    ensures |Encode(b)| == (|b| + 2) / 3 * 4
    decreases |b|
  {
    if |b| < 3 {
    } else {
      EncodedIsPlain(b[3..]);
    }
  }

  lemma {:induction false} StripPlain(v: Bytes)
    requires CR !in v && LF !in v
    ensures Strip(v) == v
    decreases |v|
  {
    if v == [] {
    } else {
      StripPlain(v[1..]);
      assert v == [v[0]] + v[1..];
    }
  }

  lemma ByteBack(b0: bv8, b1: bv8, b2: bv8)
    ensures (First(b0) << 2) | (Second(b0, b1) >> 4) == b0
    ensures (Second(b0, b1) << 4) | (Third(b1, b2) >> 2) == b1
    ensures (Third(b1, b2) << 6) | Fourth(b2) == b2
  {
  }

  /** The decoder reads letters and padding back as the bytes their sextets form. */
  lemma ReadOne(s0: bv8, s1: bv8, b0: bv8)
    requires s0 < 64 && s1 < 64 && (s0 << 2) | (s1 >> 4) == b0
    ensures DecodeQuads([Letter(s0), Letter(s1), PAD, PAD]) == Ok([b0])
  {
  }

  lemma ReadTwo(s0: bv8, s1: bv8, s2: bv8, b0: bv8, b1: bv8)
    requires s0 < 64 && s1 < 64 && s2 < 64 && (s0 << 2) | (s1 >> 4) == b0 && (s1 << 4) | (s2 >> 2) == b1
    ensures DecodeQuads([Letter(s0), Letter(s1), Letter(s2), PAD]) == Ok([b0, b1])
  {
  }

  lemma ReadThree(s0: bv8, s1: bv8, s2: bv8, s3: bv8, b0: bv8, b1: bv8, b2: bv8, rest: Bytes, tail: Bytes)
    requires s0 < 64 && s1 < 64 && s2 < 64 && s3 < 64 && DecodeQuads(rest) == Ok(tail)
    requires (s0 << 2) | (s1 >> 4) == b0 && (s1 << 4) | (s2 >> 2) == b1 && (s2 << 6) | s3 == b2
    ensures DecodeQuads([Letter(s0), Letter(s1), Letter(s2), Letter(s3)] + rest) == Ok([b0, b1, b2] + tail)
  {
    var v := [Letter(s0), Letter(s1), Letter(s2), Letter(s3)] + rest;
    assert v[4..] == rest;
  }

  lemma {:induction false} QuadsRoundTrip(b: Bytes)
    ensures DecodeQuads(Encode(b)) == Ok(b)
    decreases |b|
  {
    if |b| == 1 {
      ByteBack(b[0], 0, 0);
      ReadOne(First(b[0]), Second(b[0], 0), b[0]);
      assert b == [b[0]];
    } else if |b| == 2 {
      ByteBack(b[0], b[1], 0);
      ReadTwo(First(b[0]), Second(b[0], b[1]), Third(b[1], 0), b[0], b[1]);
      assert b == [b[0], b[1]];
    } else if |b| >= 3 {
      QuadsRoundTrip(b[3..]);
      ByteBack(b[0], b[1], b[2]);
      ReadThree(First(b[0]), Second(b[0], b[1]), Third(b[1], b[2]), Fourth(b[2]), b[0], b[1], b[2],
                Encode(b[3..]), b[3..]);
      assert b == [b[0], b[1], b[2]] + b[3..];
    }
  }

  /** The test vectors of section 10 of RFC 4648, and the two letters in which its section 5 differs from section 4. */
  lemma Vectors()
    ensures Encode([]) == []
    ensures Encode([102]) == [90, 103, 61, 61]
    ensures Encode([102, 111]) == [90, 109, 56, 61]
    ensures Encode([102, 111, 111]) == [90, 109, 57, 118]
    ensures Encode([102, 111, 111, 98]) == [90, 109, 57, 118, 89, 103, 61, 61]
    ensures Encode([251]) == [45, 119, 61, 61] && Encode([255]) == [95, 119, 61, 61]
  {
    assert [102, 111, 111, 98][3..] == [98];
  }

  lemma {:induction false} StripConcat(a: Bytes, b: Bytes)
    ensures Strip(a + b) == Strip(a) + Strip(b)
    decreases |a|
  {
    if a == [] {
      assert a + b == b;
    } else {
      StripConcat(a[1..], b);
      assert (a + b)[1..] == a[1..] + b;
    }
  }

  /** Line breaks are skipped wherever they stand, and nothing else is. */
  lemma StripEach(a: Bytes, x: bv8, b: Bytes)
    ensures Strip(a + [x] + b) == Strip(a) + (if x == 13 || x == 10 then [] else [x]) + Strip(b)
    ensures Strip([]) == []
  {
    StripConcat(a + [x], b);
    StripConcat(a, [x]);
    assert [x][1..] == [];
  }

  lemma LetterOfSextet(c: bv8)
    requires IsLetter(c)
    ensures Letter(Sextet(c)) == c
  {
  }

  lemma SextetsBack(s0: bv8, s1: bv8, s2: bv8, s3: bv8)
    requires s0 < 64 && s1 < 64 && s2 < 64 && s3 < 64
    ensures First((s0 << 2) | (s1 >> 4)) == s0
    ensures Second((s0 << 2) | (s1 >> 4), (s1 << 4) | (s2 >> 2)) == s1
    ensures Third((s1 << 4) | (s2 >> 2), (s2 << 6) | s3) == s2
    ensures Fourth((s2 << 6) | s3) == s3
  {
  }

  /** The texts agree, except that the letter before the padding may carry other unused bits. */
  ghost predicate SameText(v: Bytes, e: Bytes)
  {
    |v| == |e| && forall i :: 0 <= i < |v| ==>
      v[i] == e[i] || (IsLetter(v[i]) && i + 1 < |v| && v[i + 1] == PAD && e[i + 1] == PAD)
  }

  lemma SameTextAppend(q: Bytes, v: Bytes, e: Bytes)
    requires SameText(v, e)
    ensures SameText(q + v, q + e)
  {
    forall i | |q| <= i < |q + v|
      ensures (q + v)[i] == v[i - |q|] && (q + e)[i] == e[i - |q|]
    {
    }
  }

  /** One full group is the encoding of its three bytes. */
  lemma GroupIsEncoded(v: Bytes, b: Bytes)
    requires |v| == 4 && forall i :: 0 <= i < 4 ==> IsLetter(v[i])
    requires |b| == 3 && b[0] == (Sextet(v[0]) << 2) | (Sextet(v[1]) >> 4)
    requires b[1] == (Sextet(v[1]) << 4) | (Sextet(v[2]) >> 2) && b[2] == (Sextet(v[2]) << 6) | Sextet(v[3])
    ensures v == [Letter(First(b[0])), Letter(Second(b[0], b[1])), Letter(Third(b[1], b[2])), Letter(Fourth(b[2]))]
  {
    SextetsBack(Sextet(v[0]), Sextet(v[1]), Sextet(v[2]), Sextet(v[3]));
    LetterOfSextet(v[0]);
    LetterOfSextet(v[1]);
    LetterOfSextet(v[2]);
    LetterOfSextet(v[3]);
  }

  lemma {:induction false} QuadsAreEncoded(v: Bytes)
    requires DecodeQuads(v).Ok?
    ensures SameText(v, Encode(DecodeQuads(v).bytes))
    decreases |v|
  {
    if |v| == 0 {
    } else if v[2] == PAD || v[3] == PAD {
      LastGroup(v);
    } else {
      var b, rest := DecodeQuads(v).bytes, v[4..];
      QuadsAreEncoded(rest);
      GroupIsEncoded(v[..4], b[..3]);
      assert b[3..] == DecodeQuads(rest).bytes;
      assert v == v[..4] + rest && Encode(b) == v[..4] + Encode(b[3..]);
      SameTextAppend(v[..4], rest, Encode(b[3..]));
    }
  }

  lemma LastGroup(v: Bytes)
    requires DecodeQuads(v).Ok? && |v| >= 4 && (v[2] == PAD || v[3] == PAD)
    ensures SameText(v, Encode(DecodeQuads(v).bytes))
  {
    var s0, s1 := Sextet(v[0]), Sextet(v[1]);
    LetterOfSextet(v[0]);
    LetterOfSextet(v[1]);
    if v[2] == PAD {
      SextetsBack(s0, s1, 0, 0);
    } else {
      LetterOfSextet(v[2]);
      SextetsBack(s0, s1, Sextet(v[2]), 0);
    }
  }

  /** Only encodings decode: up to line breaks and unused trailing bits, the input is the encoding of the answer. */
  lemma OnlyEncodingsDecode(v: Bytes)
    requires Decode(v).Ok?
    ensures SameText(Strip(v), Encode(Decode(v).bytes))
  {
    QuadsAreEncoded(Strip(v));
  }

  /** Decoding undoes encoding, for every byte string. */
  lemma RoundTrip(b: Bytes)
    ensures Decode(Encode(b)) == Ok(b)
  {
    EncodedIsPlain(b);
    StripPlain(Encode(b));
    QuadsRoundTrip(b);
  }
}
