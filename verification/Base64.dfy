// Base64 with padding, section 4 of RFC 4648.
module Base64 {
  import opened Text
  import opened Bytes

  const PAD: Byte := '=' as int
  const FILLER: Byte := 'x' as int

  type Sextet = v: int | 0 <= v < 64 witness 0

  // The alphabet of table 1.
  function Char(v: Sextet): Byte {
    if v < 26 then 65 + v
    else if v < 52 then 97 + (v - 26)
    else if v < 62 then 48 + (v - 52)
    else if v == 62 then 43
    else 47
  }

  function Value(c: Byte): Option<Sextet> {
    if 65 <= c <= 90 then Some(c - 65)
    else if 97 <= c <= 122 then Some(c - 71)
    else if 48 <= c <= 57 then Some(c + 4)
    else if c == 43 then Some(62)
    else if c == 47 then Some(63)
    else None
  }

  // `[A-Za-z0-9+/=]`
  predicate IsBase64(c: Byte) {
    Value(c).Some? || c == PAD
  }

  function Quantum(a: Byte, b: Byte, c: Byte): (q: bytes)
    ensures |q| == 4 && forall i :: 0 <= i < 4 ==> IsBase64(q[i])
  {
    [Char(a / 4), Char(a % 4 * 16 + b / 16), Char(b % 16 * 4 + c / 64), Char(c % 64)]
  }

  // The last quantum, of one or two bytes.
  function Padded(b: bytes): (q: bytes)
    requires 0 < |b| < 3
    ensures |q| == 4 && forall i :: 0 <= i < 4 ==> IsBase64(q[i])
  {
    if |b| == 1 then [Char(b[0] / 4), Char(b[0] % 4 * 16), PAD, PAD]
    else [Char(b[0] / 4), Char(b[0] % 4 * 16 + b[1] / 16), Char(b[1] % 16 * 4), PAD]
  }

  function Encode(b: bytes): (e: bytes)
    ensures |e| == (|b| + 2) / 3 * 4
    ensures forall i :: 0 <= i < |e| ==> IsBase64(e[i])
  {
    if b == [] then []
    else if |b| < 3 then Padded(b)
    else Quantum(b[0], b[1], b[2]) + Encode(b[3..])
  }

  function DecodeQuantum(q: bytes, last: bool): Option<bytes>
    requires |q| == 4
  {
    var a :- Value(q[0]);
    var b :- Value(q[1]);
    if last && q[2] == PAD && q[3] == PAD then Some([a * 4 + b / 16])
    else
      var c :- Value(q[2]);
      if last && q[3] == PAD then Some([a * 4 + b / 16, b % 16 * 16 + c / 4])
      else
        var d :- Value(q[3]);
        Some([a * 4 + b / 16, b % 16 * 16 + c / 4, c % 4 * 64 + d])
  }

  function Decode(e: bytes): Option<bytes> {
    if e == [] then Some([])
    else if |e| < 4 then None
    else
      var first :- DecodeQuantum(e[..4], |e| == 4);
      var rest :- Decode(e[4..]);
      Some(first + rest)
  }

  lemma ValueOfChar(v: Sextet)
    ensures Value(Char(v)) == Some(v)
  {
  }

  lemma QuantumRoundTrip(a: Byte, b: Byte, c: Byte, last: bool)
    ensures DecodeQuantum(Quantum(a, b, c), last) == Some([a, b, c])
  {
    ValueOfChar(a / 4);
    ValueOfChar(a % 4 * 16 + b / 16);
    ValueOfChar(b % 16 * 4 + c / 64);
    ValueOfChar(c % 64);
    assert (a % 4 * 16 + b / 16) / 16 == a % 4 && (a % 4 * 16 + b / 16) % 16 == b / 16;
    assert (b % 16 * 4 + c / 64) / 4 == b % 16 && (b % 16 * 4 + c / 64) % 4 == c / 64;
  }

  lemma PaddedRoundTrip(b: bytes)
    requires 0 < |b| < 3
    ensures DecodeQuantum(Padded(b), true) == Some(b)
  {
    ValueOfChar(b[0] / 4);
    if |b| == 1 {
      ValueOfChar(b[0] % 4 * 16);
      assert b == [b[0]];
    } else {
      ValueOfChar(b[0] % 4 * 16 + b[1] / 16);
      ValueOfChar(b[1] % 16 * 4);
      assert b == [b[0], b[1]];
      assert (b[0] % 4 * 16 + b[1] / 16) / 16 == b[0] % 4 && (b[0] % 4 * 16 + b[1] / 16) % 16 == b[1] / 16;
      assert (b[1] % 16 * 4) / 4 == b[1] % 16;
    }
  }

  lemma {:induction false} DecodeOfEncode(b: bytes)
    ensures Decode(Encode(b)) == Some(b)
  {
    if b == [] {
    } else if |b| < 3 {
      PaddedRoundTrip(b);
      assert Encode(b)[..4] == Encode(b) && Encode(b)[4..] == [];
      assert Decode([]) == Some([]);
      assert b + [] == b;
    } else {
      var q := Quantum(b[0], b[1], b[2]);
      assert Encode(b)[..4] == q && Encode(b)[4..] == Encode(b[3..]);
      QuantumRoundTrip(b[0], b[1], b[2], |b[3..]| == 0);
      DecodeOfEncode(b[3..]);
      assert b == [b[0], b[1], b[2]] + b[3..];
    }
  }

  // Whole quanta in front leave the encoding of the rest alone.
  lemma {:induction false} EncodeOfConcat(a: bytes, b: bytes)
    requires |a| % 3 == 0
    ensures Encode(a + b) == Encode(a) + Encode(b)
  {
    if a == [] {
      assert a + b == b;
    } else {
      assert (a + b)[3..] == a[3..] + b;
      EncodeOfConcat(a[3..], b);
    }
  }

  // Detection

  // The encoding of the token behind `shift` bytes, without its first and last quantum: `[4:-4]`.
  function Form(token: bytes, shift: nat): bytes
    requires shift < 3
  {
    var e := Encode(seq(shift, _ => FILLER) + token);
    if |e| < 8 then [] else e[4..|e| - 4]
  }

  lemma EncodeOfThree(a: bytes, b: bytes, c: bytes)
    requires |a| % 3 == 0 && |b| % 3 == 0
    ensures Encode(a + b + c) == Encode(a) + Encode(b) + Encode(c)
  {
    assert a + b + c == a + (b + c);
    EncodeOfConcat(a, b + c);
    EncodeOfConcat(b, c);
    assert Encode(a) + Encode(b) + Encode(c) == Encode(a) + (Encode(b) + Encode(c));
  }

  // Where the last quantum of n bytes begins.
  function LastQuantum(n: nat): (i: nat)
    requires n > 6
    ensures i % 3 == 0 && 3 <= i < n <= i + 3
  {
    (n - 1) / 3 * 3
  }

  // The inner quanta of a byte string depend on nothing outside it and not on its first quantum.
  lemma InnerQuanta(b: bytes)
    requires |b| > 6
    ensures Encode(b)[4..|Encode(b)| - 4] == Encode(b[3..LastQuantum(|b|)])
  {
    var i := LastQuantum(|b|);
    var first, inner, last := b[..3], b[3..i], b[i..];
    assert b == first + inner + last;
    EncodeOfThree(first, inner, last);
    assert |Encode(first)| == 4 && |Encode(last)| == 4;
  }

  lemma OccursBetween(a: bytes, b: bytes, c: bytes)
    ensures Contains(a + b + c, b)
  {
    assert OccursAt(a + b + c, b, |a|);
  }

  // Wherever a token sits in encoded data, the form for its alignment shows up in the encoding.
  lemma EncodedTokenIsDetected(before: bytes, token: bytes, after: bytes)
    ensures Contains(Encode(before + token + after), Form(token, |before| % 3))
  {
    var shift := |before| % 3;
    var split := |before| - shift;
    if shift + |token| <= 6 {
      ShortFormIsEmpty(token, shift);
      EmptyOccurs(Encode(before + token + after));
    } else {
      FormIsInner(before[split..], token);
      assert before == before[..split] + before[split..];
      InnerShowsUp(before[..split], before[split..], token, after, LastQuantum(shift + |token|));
    }
  }

  // A short token has an empty form, and that is found everywhere: the check fails closed.
  lemma ShortFormIsEmpty(token: bytes, shift: nat)
    requires shift < 3
    ensures Form(token, shift) == [] <==> shift + |token| <= 6
  {
  }

  lemma EmptyOccurs(data: bytes)
    ensures Contains(data, [])
  {
    assert OccursAt(data, [], 0);
  }

  // The filler bytes leave no trace in the form.
  lemma FormIsInner(lead: bytes, token: bytes)
    requires |lead| < 3 && |lead| + |token| > 6
    ensures Form(token, |lead|) == Encode((lead + token)[3..LastQuantum(|lead| + |token|)])
  {
    var b := seq(|lead|, _ => FILLER) + token;
    var i := LastQuantum(|b|);
    InnerQuanta(b);
    assert (lead + token)[3..i] == b[3..i];
  }

  lemma InnerShowsUp(a: bytes, b: bytes, token: bytes, after: bytes, i: nat)
    requires |a| % 3 == 0 && i % 3 == 0 && 3 <= i <= |b| + |token|
    ensures Contains(Encode((a + b) + token + after), Encode((b + token)[3..i]))
  {
    var actual := b + token;
    Regroup(a, b, token, after, i);
    EncodeOfThree(a + actual[..3], actual[3..i], actual[i..] + after);
    OccursBetween(Encode(a + actual[..3]), Encode(actual[3..i]), Encode(actual[i..] + after));
  }

  lemma Regroup(a: bytes, b: bytes, token: bytes, after: bytes, i: nat)
    requires 3 <= i <= |b| + |token|
    ensures var actual := b + token;
            (a + b) + token + after == (a + actual[..3]) + actual[3..i] + (actual[i..] + after)
  {
    var actual := b + token;
    assert actual == actual[..3] + actual[3..i] + actual[i..];
    assert (a + b) + token + after == a + actual + after;
  }
}
