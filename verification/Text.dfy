// Strings, and the optional results the other modules share.
module Text {
  datatype Option<+T> = None | Some(value: T) {
    predicate IsFailure() { None? }
    function PropagateFailure<U>(): Option<U>
      requires None?
    {
      None
    }
    function Extract(): T
      requires Some?
    {
      value
    }
  }

  predicate StartsWith<T(==)>(s: seq<T>, prefix: seq<T>) {
    prefix <= s
  }

  predicate EndsWith<T(==)>(s: seq<T>, suffix: seq<T>) {
    |suffix| <= |s| && s[|s| - |suffix|..] == suffix
  }

  // `needle` occurs in `s` at index i.
  predicate OccursAt<T(==)>(s: seq<T>, needle: seq<T>, i: nat) {
    i + |needle| <= |s| && s[i..i + |needle|] == needle
  }

  predicate Contains<T(==)>(s: seq<T>, needle: seq<T>) {
    exists i :: 0 <= i <= |s| && OccursAt(s, needle, i)
  }

  function Count(s: string, c: char): nat {
    if s == "" then 0 else (if s[0] == c then 1 else 0) + Count(s[1..], c)
  }

  // The index of the first c, or |s| when there is none.
  function Find<T(==)>(s: seq<T>, c: T): (i: nat)
    ensures i <= |s|
    ensures i < |s| ==> s[i] == c
    ensures c !in s[..i]
  {
    if s == [] then 0
    else if s[0] == c then 0
    else
      var j := Find(s[1..], c);
      assert s[..1 + j] == [s[0]] + s[1..][..j];
      1 + j
  }

  lemma FindIs<T>(s: seq<T>, c: T, i: nat)
    requires i <= |s| && c !in s[..i] && (i < |s| ==> s[i] == c)
    ensures Find(s, c) == i
  {
  }

  // Code-point order, the order in which Git lists paths.
  predicate Below(a: string, b: string) {
    b != "" && (a == "" || a[0] < b[0] || (a[0] == b[0] && Below(a[1..], b[1..])))
  }

  lemma BelowTransitive(a: string, b: string, c: string)
    requires Below(a, b) && Below(b, c)
    ensures Below(a, c)
  {
  }

  lemma BelowTotal(a: string, b: string)
    ensures a == b || Below(a, b) || Below(b, a)
  {
    if a != "" && b != "" && a[0] == b[0] {
      BelowTotal(a[1..], b[1..]);
      if a[1..] == b[1..] {
        assert a == [a[0]] + a[1..] == b;
      }
    }
  }
}
