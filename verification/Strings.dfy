/** String operations that several models share. */
module Strings {

  predicate StartsWith(s: string, prefix: string) { prefix <= s }

  predicate EndsWith(s: string, suffix: string) {
    |suffix| <= |s| && s[|s| - |suffix|..] == suffix
  }

  predicate Contains(s: string, part: string) {
    StartsWith(s, part) || (s != [] && Contains(s[1..], part))
  }

  lemma {:induction false} ContainsIff(s: string, part: string)
    ensures Contains(s, part) <==> exists a, b :: s == a + part + b
  {
    if StartsWith(s, part) {
      assert s == "" + part + s[|part|..];
    } else if s != [] {
      ContainsIff(s[1..], part);
      if a, b :| s[1..] == a + part + b {
        assert s == ([s[0]] + a) + part + b;
      }
    }
    if a, b :| s == a + part + b {
      if a == [] {
        assert s == part + b;
      } else {
        assert s[1..] == a[1..] + part + b;
      }
    }
  }

  lemma {:induction false} EndsWithIff(s: string, suffix: string)
    ensures EndsWith(s, suffix) <==> exists a :: s == a + suffix
  {
    if EndsWith(s, suffix) {
      assert s == s[..|s| - |suffix|] + suffix;
    }
  }

  /** The index of the first `c`, or the length. */
  function IndexOf(s: string, c: char): (i: nat)
    ensures i <= |s| && (i < |s| ==> s[i] == c) && forall k :: 0 <= k < i ==> s[k] != c
  {
    if s == [] || s[0] == c then 0 else 1 + IndexOf(s[1..], c)
  }

  function Split(s: string, on: char): (parts: seq<string>)
    ensures parts != []
  {
    if s == [] then [""]
    else if s[0] == on then [""] + Split(s[1..], on)
    else var rest := Split(s[1..], on); [[s[0]] + rest[0]] + rest[1..]
  }

  function Lower(c: char): char { if 'A' <= c <= 'Z' then (c as int + 32) as char else c }

  function LowerAll(s: string): (r: string)
    ensures |r| == |s|
  {
    seq(|s|, i requires 0 <= i < |s| => Lower(s[i]))
  }

  /** A string without the separator is one part. */
  lemma {:induction false} SplitWhole(s: string, on: char)
    requires on !in s
    ensures Split(s, on) == [s]
  {
    if s != [] {
      SplitWhole(s[1..], on);
      assert [s[0]] + s[1..] == s;
    }
  }

  /** And a separator ends the first part. */
  lemma {:induction false} SplitFirst(a: string, on: char, b: string)
    requires on !in a
    ensures Split(a + [on] + b, on) == [a] + Split(b, on)
  {
    var s := a + [on] + b;
    if a == [] {
      assert s[1..] == b;
    } else {
      assert s[1..] == a[1..] + [on] + b && s[0] == a[0];
      SplitFirst(a[1..], on, b);
      assert [a[0]] + a[1..] == a;
    }
  }
}
