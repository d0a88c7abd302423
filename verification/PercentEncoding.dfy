// The percent-encoded form that `leaked` of scripts/scrub-e2e-token.py looks for, against section 2.1 of
// RFC 3986.
module PercentEncoding {
  import opened Text
  import opened Bytes
  import opened Base64
  import opened ScrubGate

  const PERCENT: Byte := '%' as int
  const DIGITS := "0123456789ABCDEF"

  // Section 2.3: letters, digits and four marks.
  predicate IsPlain(c: char) {
    'A' <= c <= 'Z' || 'a' <= c <= 'z' || '0' <= c <= '9' || c in {'-', '.', '_', '~'}
  }

  // A digit of either case, which section 2.1 allows.
  function DigitValue(c: char): Option<nat> {
    if '0' <= c <= '9' then Some(c as int - '0' as int)
    else if 'A' <= c <= 'F' then Some(c as int - 'A' as int + 10)
    else if 'a' <= c <= 'f' then Some(c as int - 'a' as int + 10)
    else None
  }

  // How many bytes stand for the first one.
  function Width(q: bytes): nat
    requires q != []
  {
    if q[0] == PERCENT then 3 else 1
  }

  function FirstByte(q: bytes): (b: Option<Byte>)
    requires q != []
    ensures b.Some? ==> Width(q) <= |q|
  {
    if q[0] != PERCENT then Some(q[0])
    else if |q| < 3 then None
    else
      var high :- DigitValue(q[1] as char);
      var low :- DigitValue(q[2] as char);
      Some(high * 16 + low)
  }

  // What a percent-encoding stands for.
  function Unquote(q: bytes): Option<bytes> {
    if q == [] then Some([])
    else
      var first :- FirstByte(q);
      var rest :- Unquote(q[Width(q)..]);
      Some([first] + rest)
  }

  // The form of one byte: section 6.2.2 asks for capital digits, and for triplets only where the byte does
  // not stand for itself.
  predicate IsFormOf(q: bytes, b: Byte) {
    if IsPlain(b as char) then q == [b]
    else q == [PERCENT, DIGITS[b / 16] as int, DIGITS[b % 16] as int]
  }

  predicate IsNormal(q: bytes) {
    q == [] || (FirstByte(q).Some? && IsFormOf(q[..Width(q)], FirstByte(q).value) && IsNormal(q[Width(q)..]))
  }

  lemma Regroup(a: bytes, b: bytes, c: bytes)
    ensures a + (b + c) == a + b + c
  {
  }

  // The form of a byte string is that of its bytes, one after another.
  lemma {:induction false} QuoteOfConcat(a: bytes, b: bytes)
    ensures Quote(a + b) == Quote(a) + Quote(b)
  {
    if a == [] {
      assert a + b == b;
    } else {
      QuoteOfConcat(a[1..], b);
      QuoteStep(a[0], a[1..]);
      QuoteStep(a[0], a[1..] + b);
      assert a == [a[0]] + a[1..] && a + b == [a[0]] + (a[1..] + b);
      Regroup(Quote([a[0]]), Quote(a[1..]), Quote(b));
    }
  }

  lemma QuoteStep(b: Byte, rest: bytes)
    ensures Quote([b] + rest) == Quote([b]) + Quote(rest)
  {
    assert ([b] + rest)[1..] == rest && [b][1..] == [] && Quote([]) == [];
  }

  lemma QuoteOfByte(b: Byte)
    ensures IsFormOf(Quote([b]), b)
  {
    assert Quote([]) == [];
    DigitsAre(b / 16);
    DigitsAre(b % 16);
  }

  lemma DigitsAre(v: int)
    requires 0 <= v < 16
    ensures Hex(v) as char == DIGITS[v] && DigitValue(DIGITS[v]) == Some(v)
  {
    assert v < 10 ==> DIGITS[v] == ('0' as int + v) as char;
    assert v >= 10 ==> DIGITS[v] == ('A' as int + v - 10) as char;
  }

  lemma FormIsRead(q: bytes, b: Byte)
    requires IsFormOf(q, b)
    ensures q != [] && Width(q) == |q| && FirstByte(q) == Some(b)
  {
    DigitsAre(b / 16);
    DigitsAre(b % 16);
  }

  // What stands for the first byte does not depend on what follows.
  lemma FirstOfConcat(first: bytes, rest: bytes)
    requires first != [] && FirstByte(first).Some?
    ensures Width(first + rest) == Width(first) && FirstByte(first + rest) == FirstByte(first)
  {
  }

  // Every token is read back from the form the check looks for.
  lemma {:induction false} UnquoteOfQuote(token: bytes)
    ensures Unquote(Quote(token)) == Some(token) && IsNormal(Quote(token))
  {
    if token != [] {
      assert token == [token[0]] + token[1..];
      QuoteOfConcat([token[0]], token[1..]);
      QuoteOfByte(token[0]);
      UnquoteOfQuote(token[1..]);
      FirstForm(Quote([token[0]]), token[0], Quote(token[1..]));
    }
  }

  lemma FirstForm(first: bytes, b: Byte, rest: bytes)
    requires IsFormOf(first, b) && Unquote(rest).Some? && IsNormal(rest)
    ensures Unquote(first + rest) == Some([b] + Unquote(rest).value) && IsNormal(first + rest)
  {
    FormIsRead(first, b);
    FirstOfConcat(first, rest);
    assert (first + rest)[..|first|] == first && (first + rest)[|first|..] == rest;
  }

  // That form is the normal encoding of the token, and there is no other.
  lemma QuoteExactly(token: bytes, q: bytes)
    ensures q == Quote(token) <==> Unquote(q) == Some(token) && IsNormal(q)
  {
    UnquoteOfQuote(token);
    if Unquote(q).Some? && IsNormal(q) { QuoteOfUnquote(q); }
  }

  lemma OneForm(q: bytes, q': bytes, b: Byte)
    requires IsFormOf(q, b) && IsFormOf(q', b)
    ensures q == q'
  {
  }

  lemma {:induction false} QuoteOfUnquote(q: bytes)
    requires IsNormal(q)
    ensures Unquote(q).Some? && Quote(Unquote(q).value) == q
  {
    if q != [] {
      var first, rest := q[..Width(q)], q[Width(q)..];
      var b := FirstByte(q).value;
      QuoteOfUnquote(rest);
      QuoteOfByte(b);
      OneForm(first, Quote([b]), b);
      QuoteOfConcat([b], Unquote(rest).value);
      assert q == first + rest;
    }
  }

  // Data that passes holds no normal percent-encoding of the token.
  lemma PassedHoldsNoPercentEncoding(data: bytes, token: bytes, q: bytes)
    requires !Leaked(data, token)
    requires Unquote(q) == Some(token) && IsNormal(q)
    ensures !Contains(data, q)
  {
    QuoteExactly(token, q);
  }

  // Other spellings do pass. Every byte as a triplet is one:

  function AsTriplet(b: Byte): bytes {
    [PERCENT, Hex(b / 16), Hex(b % 16)]
  }

  function Spelled(token: bytes): (q: bytes)
    ensures |q| == 3 * |token|
    ensures forall i :: 0 <= i < |token| ==> q[3 * i] == PERCENT
  {
    if token == [] then []
    else Spelled(token[..|token| - 1]) + AsTriplet(token[|token| - 1])
  }

  lemma {:induction false} UnquoteOfConcat(a: bytes, b: bytes)
    requires Unquote(a).Some? && Unquote(b).Some?
    ensures Unquote(a + b) == Some(Unquote(a).value + Unquote(b).value)
    decreases |a|
  {
    if a == [] {
      assert a + b == b && [] + Unquote(b).value == Unquote(b).value;
    } else {
      var first, rest := UnquoteSplit(a);
      UnquoteOfConcat(rest, b);
      UnquoteStep(first, rest);
      UnquoteStep(first, rest + b);
      Regroup(first, rest, b);
      Regroup([FirstByte(first).value], Unquote(rest).value, Unquote(b).value);
    }
  }

  lemma UnquoteSplit(a: bytes) returns (first: bytes, rest: bytes)
    requires a != [] && Unquote(a).Some?
    ensures a == first + rest && |rest| < |a|
    ensures first != [] && Width(first) == |first| && FirstByte(first).Some? && Unquote(rest).Some?
  {
    first, rest := a[..Width(a)], a[Width(a)..];
    assert a == first + rest;
    UnquoteStep(first, rest);
  }

  lemma UnquoteStep(first: bytes, rest: bytes)
    requires first != [] && Width(first) == |first|
    ensures FirstByte(first + rest) == FirstByte(first)
    ensures FirstByte(first).Some? && Unquote(rest).Some? ==>
              Unquote(first + rest) == Some([FirstByte(first).value] + Unquote(rest).value)
  {
    assert (first + rest)[|first|..] == rest;
  }

  lemma TripletIsRead(b: Byte)
    ensures Unquote(AsTriplet(b)) == Some([b])
  {
    var q := AsTriplet(b);
    DigitsAre(b / 16);
    DigitsAre(b % 16);
    assert FirstByte(q) == Some(b);
    assert q[3..] == [] && Unquote([]) == Some([]);
    assert [b] + [] == [b];
  }

  lemma {:induction false} UnquoteOfSpelled(token: bytes)
    ensures Unquote(Spelled(token)) == Some(token)
  {
    if token != [] {
      var n := |token| - 1;
      UnquoteOfSpelled(token[..n]);
      TripletIsRead(token[n]);
      UnquoteOfConcat(Spelled(token[..n]), AsTriplet(token[n]));
      assert token == token[..n] + [token[n]];
    }
  }

  lemma {:induction false} PlainIsItsOwnForm(token: bytes)
    requires IsPlainText(token)
    ensures Quote(token) == token
  {
    if token != [] {
      PlainIsItsOwnForm(token[1..]);
      assert IsPlain(token[0] as char);
    }
  }

  ghost predicate IsSpelledOut(data: bytes) {
    |data| % 3 == 0 && forall i :: 0 <= i < |data| / 3 ==> data[3 * i] == PERCENT
  }

  lemma EveryThird(data: bytes, i: nat, n: nat)
    requires IsSpelledOut(data) && n >= 3 && i + n <= |data|
    ensures PERCENT in data[i..i + n]
  {
    var k := (i + 2) / 3;
    assert data[i..i + n][3 * k - i] == data[3 * k];
  }

  lemma PercentIsInTheWay(data: bytes, needle: bytes)
    requires IsSpelledOut(data) && |needle| >= 3 && PERCENT !in needle
    ensures !Contains(data, needle)
  {
    forall i | 0 <= i <= |data| ensures !OccursAt(data, needle, i) {
      if i + |needle| <= |data| { EveryThird(data, i, |needle|); }
    }
  }

  predicate IsPlainText(token: bytes) {
    forall i :: 0 <= i < |token| ==> IsPlain(token[i] as char)
  }

  lemma NoPercent(token: bytes)
    requires IsPlainText(token)
    ensures PERCENT !in token
  {
  }

  lemma SpelledIsSpelledOut(token: bytes)
    ensures IsSpelledOut(Spelled(token))
  {
  }

  lemma NotLeaked(data: bytes, token: bytes)
    requires Quote(token) == token && !Contains(data, token)
    requires forall shift: nat :: shift < 3 ==> !Contains(data, Form(token, shift))
    ensures !Leaked(data, token)
  {
  }

  // A token that stands for itself passes with every byte as a triplet, unless it is too short for
  // anything to pass.
  lemma OtherSpellingsPass(token: bytes)
    requires |token| > 6 && IsPlainText(token)
    ensures Unquote(Spelled(token)) == Some(token) && !Leaked(Spelled(token), token)
  {
    UnquoteOfSpelled(token);
    PlainIsItsOwnForm(token);
    SpelledIsSpelledOut(token);
    NoPercent(token);
    PercentIsInTheWay(Spelled(token), token);
    forall shift: nat | shift < 3 ensures !Contains(Spelled(token), Form(token, shift)) {
      FormHasNoPercent(token, shift);
      PercentIsInTheWay(Spelled(token), Form(token, shift));
    }
    NotLeaked(Spelled(token), token);
  }

  lemma FormHasNoPercent(token: bytes, shift: nat)
    requires |token| > 6 && shift < 3
    ensures |Form(token, shift)| >= 3 && PERCENT !in Form(token, shift)
  {
    var e := Encode(seq(shift, _ => FILLER) + token);
    assert forall i :: 4 <= i < |e| - 4 ==> Form(token, shift)[i - 4] == e[i] && IsBase64(e[i]);
    assert !IsBase64(PERCENT);
  }
}
