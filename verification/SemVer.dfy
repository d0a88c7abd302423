// VERSION of scripts/desktop_release_version.py: the release tags, read and printed.
module SemVer {
  import opened Text

  datatype Version = Version(major: nat, minor: nat, patch: nat)

  const PREFIX := "desktop-v"

  // Tuple comparison.
  predicate Less(a: Version, b: Version) {
    a.major < b.major
    || (a.major == b.major && (a.minor < b.minor || (a.minor == b.minor && a.patch < b.patch)))
  }

  predicate AtMost(a: Version, b: Version) {
    a == b || Less(a, b)
  }

  // Digits

  // Where the decimal digits of the other scripts begin; `\d` matches them and int() reads them.
  predicate IsForeignZero(code: int) {
    || code == 0x660 || code == 0x6F0 || code == 0x7C0 || code == 0x966 || code == 0x9E6 || code == 0xA66
    || code == 0xAE6 || code == 0xB66 || code == 0xBE6 || code == 0xC66 || code == 0xCE6 || code == 0xD66
    || code == 0xDE6 || code == 0xE50 || code == 0xED0 || code == 0xF20 || code == 0x1040 || code == 0x1090
    || code == 0x17E0 || code == 0x1810 || code == 0x1946 || code == 0x19D0 || code == 0x1A80 || code == 0x1A90
    || code == 0x1B50 || code == 0x1BB0 || code == 0x1C40 || code == 0x1C50 || code == 0xA620 || code == 0xA8D0
    || code == 0xA900 || code == 0xA9D0 || code == 0xA9F0 || code == 0xAA50 || code == 0xABF0 || code == 0xFF10
    || code == 0x104A0 || code == 0x10D30 || code == 0x11066 || code == 0x110F0 || code == 0x11136 || code == 0x111D0
    || code == 0x112F0 || code == 0x11450 || code == 0x114D0 || code == 0x11650 || code == 0x116C0 || code == 0x11730
    || code == 0x118E0 || code == 0x11950 || code == 0x11C50 || code == 0x11D50 || code == 0x11DA0 || code == 0x11F50
    || code == 0x16A60 || code == 0x16AC0 || code == 0x16B50 || code == 0x1D7CE || code == 0x1D7D8 || code == 0x1D7E2
    || code == 0x1D7EC || code == 0x1D7F6 || code == 0x1E140 || code == 0x1E2F0 || code == 0x1E4F0 || code == 0x1E950
    || code == 0x1FBF0
  }

  function ForeignDigit(code: int, d: nat): (r: Option<nat>)
    requires d <= 10
    ensures r.Some? ==> r.value < 10
    decreases 10 - d
  {
    if d == 10 then None
    else if IsForeignZero(code - d) then Some(d)
    else ForeignDigit(code, d + 1)
  }

  predicate IsAsciiDigit(c: char) {
    '0' <= c <= '9'
  }

  function Digit(c: char): (d: Option<nat>)
    ensures d.Some? ==> d.value < 10 && c != '.' && (IsAsciiDigit(c) || 0x660 <= c as int)
    ensures IsAsciiDigit(c) ==> d == Some(c as int - '0' as int)
  {
    if IsAsciiDigit(c) then Some(c as int - '0' as int)
    else if c as int < 0x660 then None
    else ForeignDigit(c as int, 0)
  }

  predicate AreDigits(s: string) {
    forall i :: 0 <= i < |s| ==> Digit(s[i]).Some?
  }

  predicate AreAsciiDigits(s: string) {
    forall i :: 0 <= i < |s| ==> IsAsciiDigit(s[i])
  }

  // `0|[1-9]\d*`
  predicate IsNumber(s: string) {
    s == "0" || (s != "" && '1' <= s[0] <= '9' && AreDigits(s))
  }

  function NumberOf(s: string): nat
    requires AreDigits(s)
  {
    if s == "" then 0 else 10 * NumberOf(s[..|s| - 1]) + Digit(s[|s| - 1]).value
  }

  function Print(n: nat): string {
    if n < 10 then ['0' + n as char] else Print(n / 10) + ['0' + (n % 10) as char]
  }

  lemma {:induction false} PrintIsNumber(n: nat)
    ensures IsNumber(Print(n)) && AreAsciiDigits(Print(n)) && NumberOf(Print(n)) == n
    ensures 0 < n ==> '1' <= Print(n)[0] <= '9'
  {
    if n < 10 {
      assert Print(n)[..0] == "" && NumberOf("") == 0;
      assert NumberOf(Print(n)) == Digit(Print(n)[0]).value;
    } else {
      PrintIsNumber(n / 10);
      assert Print(n)[..|Print(n)| - 1] == Print(n / 10);
      assert Digit('0' + (n % 10) as char) == Some(n % 10);
    }
  }

  lemma {:induction false} NumberIsPrinted(s: string)
    requires IsNumber(s) && AreAsciiDigits(s)
    ensures Print(NumberOf(s)) == s
    ensures s != "0" ==> 0 < NumberOf(s)
  {
    var front, last := s[..|s| - 1], s[|s| - 1];
    assert s == front + [last];
    if |s| == 1 {
      assert NumberOf("") == 0;
      assert NumberOf(s) == Digit(last).value;
    } else {
      assert IsNumber(front) && front != "0";
      NumberIsPrinted(front);
      assert NumberOf(s) / 10 == NumberOf(front) && NumberOf(s) % 10 == Digit(last).value;
    }
  }

  // Versions

  function PrintVersion(v: Version): string {
    Print(v.major) + "." + Print(v.minor) + "." + Print(v.patch)
  }

  function SplitAtDot(s: string): (pieces: Option<(string, string)>)
    ensures pieces.Some? ==> '.' !in pieces.value.0 && s == pieces.value.0 + "." + pieces.value.1
  {
    var i := Find(s, '.');
    if i == |s| then None else Some((s[..i], s[i + 1..]))
  }

  lemma SplitAtDotIs(a: string, rest: string)
    requires '.' !in a
    ensures SplitAtDot(a + "." + rest) == Some((a, rest))
  {
    var s := a + "." + rest;
    assert s[..|a|] == a && s[|a| + 1..] == rest;
    FindIs(s, '.', |a|);
  }

  // `fullmatch`: where the dots go is forced, because no number has a dot in it.
  function Parse(s: string): Option<Version> {
    var first :- SplitAtDot(s);
    var second :- SplitAtDot(first.1);
    var (a, b, c) := (first.0, second.0, second.1);
    if IsNumber(a) && IsNumber(b) && IsNumber(c) then Some(Version(NumberOf(a), NumberOf(b), NumberOf(c)))
    else None
  }

  function Tag(v: Version): string {
    PREFIX + PrintVersion(v)
  }

  function ParseTag(tag: string): Option<Version> {
    if StartsWith(tag, PREFIX) then Parse(tag[|PREFIX|..]) else None
  }

  lemma NumberHasNoDot(a: string)
    requires IsNumber(a)
    ensures '.' !in a
  {
  }

  lemma ParsePieces(a: string, b: string, c: string)
    requires IsNumber(a) && IsNumber(b) && IsNumber(c)
    ensures Parse(a + "." + b + "." + c) == Some(Version(NumberOf(a), NumberOf(b), NumberOf(c)))
  {
    Dotted(a, b, c);
    NumberHasNoDot(a);
    NumberHasNoDot(b);
    SplitAtDotIs(a, b + "." + c);
    SplitAtDotIs(b, c);
  }

  lemma ParseOfPrint(v: Version)
    ensures ParseTag(Tag(v)) == Some(v)
  {
    PrintIsNumber(v.major);
    PrintIsNumber(v.minor);
    PrintIsNumber(v.patch);
    ParsePieces(Print(v.major), Print(v.minor), Print(v.patch));
    assert Tag(v)[|PREFIX|..] == PrintVersion(v);
  }

  lemma TagIsInjective(v: Version, w: Version)
    requires Tag(v) == Tag(w)
    ensures v == w
  {
    ParseOfPrint(v);
    ParseOfPrint(w);
  }

  predicate IsAscii(s: string) {
    forall i :: 0 <= i < |s| ==> s[i] < 128 as char
  }

  lemma AsciiParse(s: string)
    requires Parse(s).Some? && IsAscii(s)
    ensures PrintVersion(Parse(s).value) == s
  {
    var first := SplitAtDot(s).value;
    var second := SplitAtDot(first.1).value;
    AsciiPieces(first.0, first.1);
    AsciiPieces(second.0, second.1);
    PrintPieces(first.0, second.0, second.1);
    assert s == first.0 + "." + (second.0 + "." + second.1);
  }

  lemma PrintPieces(a: string, b: string, c: string)
    requires IsNumber(a) && IsNumber(b) && IsNumber(c) && IsAscii(a) && IsAscii(b) && IsAscii(c)
    ensures PrintVersion(Version(NumberOf(a), NumberOf(b), NumberOf(c))) == a + "." + (b + "." + c)
  {
    AsciiNumber(a);
    AsciiNumber(b);
    AsciiNumber(c);
    Dotted(a, b, c);
  }

  lemma Dotted(a: string, b: string, c: string)
    ensures a + "." + b + "." + c == a + "." + (b + "." + c)
  {
  }

  lemma AsciiPieces(a: string, rest: string)
    requires IsAscii(a + "." + rest)
    ensures IsAscii(a) && IsAscii(rest)
  {
    var s := a + "." + rest;
    assert forall k :: 0 <= k < |a| ==> a[k] == s[k];
    assert forall k :: 0 <= k < |rest| ==> rest[k] == s[|a| + 1 + k];
  }

  lemma AsciiNumber(a: string)
    requires IsNumber(a) && IsAscii(a)
    ensures Print(NumberOf(a)) == a
  {
    forall k | 0 <= k < |a| ensures IsAsciiDigit(a[k]) {
      assert Digit(a[k]).Some?;
    }
    NumberIsPrinted(a);
  }

  // A release tag is the tag of the version it reads as exactly when it is written in ASCII: `\d`
  // also takes the digits of other scripts, and those print back as different characters.
  lemma PrintOfParse(tag: string)
    requires ParseTag(tag).Some?
    ensures Tag(ParseTag(tag).value) == tag <==> IsAscii(tag)
  {
    TagIsAscii(ParseTag(tag).value);
    if IsAscii(tag) { AsciiTag(tag); }
  }

  lemma AsciiTag(tag: string)
    requires ParseTag(tag).Some? && IsAscii(tag)
    ensures Tag(ParseTag(tag).value) == tag
  {
    var s := tag[|PREFIX|..];
    assert IsAscii(s) by {
      forall k | 0 <= k < |s| ensures s[k] < 128 as char { assert s[k] == tag[|PREFIX| + k]; }
    }
    AsciiParse(s);
    RestOfPrefix(tag, PREFIX);
  }

  lemma RestOfPrefix(s: string, prefix: string)
    requires StartsWith(s, prefix)
    ensures s == prefix + s[|prefix|..]
  {
  }

  lemma TagIsAscii(v: Version)
    ensures IsAscii(Tag(v))
  {
    PrintIsNumber(v.major);
    PrintIsNumber(v.minor);
    PrintIsNumber(v.patch);
    AsciiConcat(Print(v.major), ".");
    AsciiConcat(Print(v.major) + ".", Print(v.minor));
    AsciiConcat(Print(v.major) + "." + Print(v.minor), ".");
    AsciiConcat(Print(v.major) + "." + Print(v.minor) + ".", Print(v.patch));
    AsciiConcat(PREFIX, PrintVersion(v));
  }

  lemma AsciiConcat(a: string, b: string)
    requires IsAscii(a) && IsAscii(b)
    ensures IsAscii(a + b)
  {
  }

  // The tag desktop-v0.1.13 with an Arabic-Indic three.
  function ForeignTag(): string {
    PREFIX + ("0" + "." + "1" + "." + "1\U{0663}")
  }

  // It reads as 0.1.13 and leaves desktop-v0.1.13 free.
  lemma ForeignDigitsSlipThrough()
    ensures ParseTag(ForeignTag()) == Some(Version(0, 1, 13))
    ensures Tag(Version(0, 1, 13)) != ForeignTag()
  {
    var number := "1\U{0663}";
    ForeignThirteen();
    ReadZeroOne(number);
    assert ForeignTag()[|ForeignTag()| - 1] == number[1];
    assert !IsAscii(ForeignTag());
    PrintOfParse(ForeignTag());
  }

  lemma ReadZeroOne(number: string)
    requires IsNumber(number)
    ensures ParseTag(PREFIX + ("0" + "." + "1" + "." + number)) == Some(Version(0, 1, NumberOf(number)))
  {
    assert NumberOf("0") == 0 && NumberOf("1") == 1 by { assert "0"[..0] == "" && "1"[..0] == ""; }
    ParsePieces("0", "1", number);
    AfterPrefix(PREFIX, "0" + "." + "1" + "." + number);
  }

  lemma AfterPrefix(prefix: string, s: string)
    ensures StartsWith(prefix + s, prefix) && (prefix + s)[|prefix|..] == s
  {
  }

  lemma ForeignThirteen()
    ensures IsNumber("1\U{0663}") && NumberOf("1\U{0663}") == 13
  {
    var number := "1\U{0663}";
    assert ForeignDigit(0x663, 2) == Some(3);
    assert Digit(number[1]) == Some(3);
    assert number[..1] == "1" && "1"[..0] == "" && NumberOf("1") == 1;
  }

  // `match[1].startswith('0.')`
  lemma MajorZero(s: string)
    requires Parse(s).Some?
    ensures Parse(s).value.major == 0 <==> StartsWith(s, "0.")
  {
    var a := SplitAtDot(s).value.0;
    if a == "0" {
      assert NumberOf("0") == 0 by { assert "0"[..0] == ""; }
    } else {
      NumberIsPositive(a);
      assert s[0] == a[0];
    }
  }

  lemma {:induction false} NumberIsPositive(a: string)
    requires a != "" && '1' <= a[0] <= '9' && AreDigits(a)
    ensures 0 < NumberOf(a)
  {
    if |a| > 1 {
      NumberIsPositive(a[..|a| - 1]);
    }
  }
}
