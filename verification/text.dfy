/**
 * The few pieces of Python's string handling that the free-time code relies on:
 * `str.split(sep)`, `int(str)` and the `:02d` format specification.
 */
module Text {
  import opened Results

  predicate IsDigit(c: char) {
    '0' <= c <= '9'
  }

  predicate AllDigits(s: string) {
    forall i :: 0 <= i < |s| ==> IsDigit(s[i])
  }

  function DigitValue(c: char): (d: int)
    requires IsDigit(c)
    ensures 0 <= d < 10
  {
    c as int - '0' as int
  }

  function DigitChar(d: int): (c: char)
    requires 0 <= d < 10
    ensures IsDigit(c) && DigitValue(c) == d
  {
    ('0' as int + d) as char
  }

  /** The number a string of decimal digits denotes (leading zeros allowed). */
  function DigitsValue(s: string): (n: nat)
    requires AllDigits(s)
    decreases |s|
  {
    if s == [] then 0 else 10 * DigitsValue(s[..|s| - 1]) + DigitValue(s[|s| - 1])
  }

  lemma TwoDigitsValue(s: string)
    requires |s| == 2 && AllDigits(s)
    ensures DigitsValue(s) == 10 * DigitValue(s[0]) + DigitValue(s[1])
  {
    assert s[..1][..0] == [];
    assert DigitsValue(s[..1]) == DigitValue(s[0]);
  }

  /** `f"{n:02d}"` for a number below 100: always exactly two digits, zero-padded. */
  function Pad2(n: int): (s: string)
    requires 0 <= n < 100
    ensures |s| == 2 && AllDigits(s) && DigitsValue(s) == n
  {
    var s := [DigitChar(n / 10), DigitChar(n % 10)];
    TwoDigitsValue(s);
    s
  }

  /** Padding is the inverse of reading: two digits are re-formatted to themselves. */
  lemma Pad2OfDigits(s: string)
    requires |s| == 2 && AllDigits(s)
    ensures DigitsValue(s) < 100 && Pad2(DigitsValue(s)) == s
  {
    TwoDigitsValue(s);
    var n := DigitsValue(s);
    assert n / 10 == DigitValue(s[0]) && n % 10 == DigitValue(s[1]);
  }

  /**
   * Python's `int(t)` on a string: an optional sign followed by at least one
   * ASCII digit; anything else raises `ValueError`, here `None`.
   */
  function ParseInt(t: string): (r: Option<int>)
    ensures AllDigits(t) ==> r == (if t == [] then None else Some(DigitsValue(t)))
    ensures r.Some? ==> t != []
    ensures (exists i :: 0 <= i < |t| && !IsDigit(t[i]) && !(i == 0 && (t[0] == '+' || t[0] == '-'))) ==> r.None?
  {
    if t != [] && (t[0] == '+' || t[0] == '-') then
      if |t| > 1 && AllDigits(t[1..]) then
        Some(if t[0] == '-' then -(DigitsValue(t[1..]) as int) else DigitsValue(t[1..]))
      else None
    else if t != [] && AllDigits(t) then Some(DigitsValue(t))
    else None
  }

  /** Python's `sep.join(parts)`. */
  function Join(parts: seq<string>, sep: string): string
    requires |parts| >= 1
    decreases |parts|
  {
    if |parts| == 1 then parts[0] else parts[0] + sep + Join(parts[1..], sep)
  }

  /**
   * Python's `s.split(sep)`: scanning left to right, every non-overlapping
   * occurrence of `sep` cuts `s`; the pieces joined back with `sep` give `s`.
   */
  function Split(s: string, sep: string): (parts: seq<string>)
    requires |sep| > 0
    ensures |parts| >= 1
    ensures Join(parts, sep) == s
    decreases |s|
  {
    if |s| < |sep| then [s]
    else if s[..|sep|] == sep then
      var rest := Split(s[|sep|..], sep);
      assert ([""] + rest)[1..] == rest;
      assert s == s[..|sep|] + s[|sep|..];
      [""] + rest
    else
      var rest := Split(s[1..], sep);
      var parts := [[s[0]] + rest[0]] + rest[1..];
      assert parts[1..] == rest[1..];
      assert s == [s[0]] + s[1..];
      assert |rest| > 1 ==> Join(rest, sep) == rest[0] + sep + Join(rest[1..], sep);
      parts
  }

  /** `sep` cannot start inside `a` (no character of `a` opens it), so the first cut falls right after `a`. */
  lemma {:induction false} SplitAfter(a: string, sep: string, b: string)
    requires |sep| > 0
    requires forall i :: 0 <= i < |a| ==> a[i] != sep[0]
    ensures Split(a + sep + b, sep) == [a] + Split(b, sep)
    decreases |a|
  {
    var s := a + sep + b;
    if a == [] {
      assert s[..|sep|] == sep && s[|sep|..] == b;
    } else {
      assert s[..|sep|][0] == a[0];
      assert s[1..] == a[1..] + sep + b;
      SplitAfter(a[1..], sep, b);
      assert [a[0]] + a[1..] == a;
    }
  }

  /** A string in which no character opens `sep` is not cut at all. */
  lemma {:induction false} SplitNone(s: string, sep: string)
    requires |sep| > 0
    requires forall i :: 0 <= i < |s| ==> s[i] != sep[0]
    ensures Split(s, sep) == [s]
    decreases |s|
  {
    if |s| >= |sep| {
      assert s[..|sep|][0] == s[0];
      SplitNone(s[1..], sep);
      assert [s[0]] + s[1..] == s;
    }
  }

  /**
   * Splitting undoes joining: pieces in which no character opens `sep`, joined
   * with `sep`, are cut at exactly the places they were joined.
   */
  lemma {:induction false} SplitJoin(parts: seq<string>, sep: string)
    requires |sep| > 0 && |parts| >= 1
    requires forall p, i :: p in parts && 0 <= i < |p| ==> p[i] != sep[0]
    ensures Split(Join(parts, sep), sep) == parts
    decreases |parts|
  {
    if |parts| == 1 {
      SplitNone(parts[0], sep);
    } else {
      var rest := parts[1..];
      assert forall p :: p in rest ==> p in parts;
      SplitJoin(rest, sep);
      SplitAfter(parts[0], sep, Join(rest, sep));
      assert [parts[0]] + rest == parts;
    }
  }

  predicate HasSuffix(s: string, suffix: string) {
    |suffix| <= |s| && s[|s| - |suffix|..] == suffix
  }
}
