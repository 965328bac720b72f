/**
 * String operations of Rust's `str` that the program relies on: `split` on a
 * one-character pattern, `collect::<String>()` of the pieces, `len()` (a count
 * of UTF-8 bytes) and ASCII lower-casing.
 */
module Strings {

  /** Index of the first `c` in `s`, or -1 when there is none. */
  function IndexOf(s: string, c: char): (i: int)
    ensures -1 <= i < |s|
    ensures i >= 0 ==> s[i] == c
    ensures forall j :: 0 <= j < |s| && (i < 0 || j < i) ==> s[j] != c
  {
    if s == [] then -1
    else if s[0] == c then 0
    else
      var k := IndexOf(s[1..], c);
      if k < 0 then -1 else k + 1
  }

  /** Index of the last `c` in `s`, or -1 when there is none. */
  function LastIndexOf(s: string, c: char): (i: int)
    ensures -1 <= i < |s|
    ensures i >= 0 ==> s[i] == c
    ensures forall j :: i < j < |s| ==> s[j] != c
  {
    if s == [] then -1
    else if s[|s| - 1] == c then |s| - 1
    else LastIndexOf(s[..|s| - 1], c)
  }

  /**
   * `s.split(c)`: the pieces between the occurrences of `c`. There is always one
   * more piece than there are separators, so "" splits into [""].
   */
  function Split(s: string, c: char): (pieces: seq<string>)
    ensures |pieces| >= 1
    ensures forall k :: 0 <= k < |pieces| ==> c !in pieces[k]
    decreases |s|
  {
    var i := IndexOf(s, c);
    IndexOfBefore(s, c);
    if i < 0 then [s]
    else
      var rest := Split(s[i + 1..], c);
      assert forall k :: 0 < k <= |rest| ==> ([s[..i]] + rest)[k] == rest[k - 1];
      [s[..i]] + rest
  }

  /** Nothing before the first `c` is a `c`. */
  lemma IndexOfBefore(s: string, c: char)
    ensures IndexOf(s, c) < 0 ==> c !in s
    ensures IndexOf(s, c) >= 0 ==> c !in s[..IndexOf(s, c)]
  {
    var i := IndexOf(s, c);
    if i < 0 {
      forall j | 0 <= j < |s| ensures s[j] != c { }
    } else {
      forall j | 0 <= j < i ensures s[..i][j] != c { assert s[..i][j] == s[j]; }
    }
  }

  /** A string without the separator is a single piece. */
  lemma SplitNone(s: string, c: char)
    requires c !in s
    ensures Split(s, c) == [s]
  {
    assert IndexOf(s, c) < 0;
  }

  /** The first separator ends the first piece. */
  lemma SplitFirst(head: string, c: char, rest: string)
    requires c !in head
    ensures Split(head + [c] + rest, c) == [head] + Split(rest, c)
  {
    var s := head + [c] + rest;
    var i := IndexOf(s, c);
    assert s[|head|] == c;
    assert forall j :: 0 <= j < |head| ==> s[j] == head[j];
    assert i == |head|;
    assert s[..i] == head;
    assert s[i + 1..] == rest;
  }

  /** One separator between two separator-free strings gives exactly those two pieces. */
  lemma SplitPair(a: string, c: char, b: string)
    requires c !in a && c !in b
    ensures Split(a + [c] + b, c) == [a, b]
  {
    SplitFirst(a, c, b);
    SplitNone(b, c);
  }

  /** `collect::<String>()` over a sequence of pieces. */
  function Concat(pieces: seq<string>): string {
    if pieces == [] then "" else pieces[0] + Concat(pieces[1..])
  }

  /** `s` without any occurrence of `c`. */
  function Remove(s: string, c: char): (r: string)
    ensures c !in r
    ensures |r| <= |s|
  {
    if s == [] then ""
    else if s[0] == c then Remove(s[1..], c)
    else [s[0]] + Remove(s[1..], c)
  }

  /** A string is the part before index `i`, the character there, and the part after. */
  lemma SplitAt(s: string, i: nat)
    requires i < |s|
    ensures s == s[..i] + [s[i]] + s[i + 1..]
  {
  }

  /** Deleting a character distributes over concatenation. */
  lemma {:induction false} RemoveAppend(a: string, b: string, c: char)
    ensures Remove(a + b, c) == Remove(a, c) + Remove(b, c)
  {
    if a != [] {
      assert (a + b)[1..] == a[1..] + b;
      RemoveAppend(a[1..], b, c);
    } else {
      assert a + b == b;
    }
  }

  lemma ConcatCons(head: string, tail: seq<string>)
    ensures Concat([head] + tail) == head + Concat(tail)
  {
    assert ([head] + tail)[1..] == tail;
  }

  /** Gluing the pieces of `s.split(c)` without separators deletes every `c`. */
  lemma {:induction false} ConcatSplit(s: string, c: char)
    ensures Concat(Split(s, c)) == Remove(s, c)
    decreases |s|
  {
    var i := IndexOf(s, c);
    if i < 0 {
      RemoveNone(s, c);
      ConcatCons(s, []);
    } else {
      var head, rest := s[..i], s[i + 1..];
      var tail := Split(rest, c);
      SplitAt(s, i);
      assert Split(s, c) == [head] + tail;
      ConcatCons(head, tail);
      ConcatSplit(rest, c);
      RemoveSkip(head, c, rest);
      assert Concat(Split(s, c)) == head + Remove(rest, c);
    }
  }

  /** Removing `c` from `head + [c] + rest`, where `head` has no `c`. */
  lemma {:induction false} RemoveSkip(head: string, c: char, rest: string)
    requires c !in head
    ensures Remove(head + [c] + rest, c) == head + Remove(rest, c)
  {
    var s := head + [c] + rest;
    if head == [] {
      assert s[1..] == rest;
    } else {
      assert s[0] == head[0] && s[1..] == head[1..] + [c] + rest;
      RemoveSkip(head[1..], c, rest);
      assert head == [head[0]] + head[1..];
    }
  }

  lemma {:induction false} RemoveNone(s: string, c: char)
    requires c !in s
    ensures Remove(s, c) == s
  {
    if s != [] {
      RemoveNone(s[1..], c);
      assert s == [s[0]] + s[1..];
    }
  }

  /** Number of bytes the UTF-8 encoding of `c` takes. */
  function Utf8Width(c: char): (w: nat)
    ensures 1 <= w <= 4
  {
    var v := c as int;
    if v < 0x80 then 1 else if v < 0x800 then 2 else if v < 0x1_0000 then 3 else 4
  }

  /** Rust's `str::len`: the length of the UTF-8 encoding, not the number of characters. */
  function Utf8Len(s: string): (n: nat)
    ensures |s| <= n <= 4 * |s|
  {
    if s == [] then 0 else Utf8Width(s[0]) + Utf8Len(s[1..])
  }

  function AsciiLowerChar(c: char): (d: char)
    ensures 'A' <= c <= 'Z' ==> d as int == c as int + 32
    ensures !('A' <= c <= 'Z') ==> d == c
  {
    if 'A' <= c <= 'Z' then (c as int + 32) as char else c
  }

  /** Lower-case every ASCII letter and leave every other character as it is. */
  function AsciiLower(s: string): (r: string)
    ensures |r| == |s|
    ensures forall i :: 0 <= i < |s| ==> r[i] == AsciiLowerChar(s[i])
  {
    if s == [] then "" else [AsciiLowerChar(s[0])] + AsciiLower(s[1..])
  }

  /** Decimal digits of `n`, as `format!("{}", n)` prints an unsigned integer. */
  function NatToDecimal(n: nat): (r: string)
    ensures |r| >= 1
    ensures forall i :: 0 <= i < |r| ==> '0' <= r[i] <= '9'
  {
    var last := ['0' + ((n % 10) as char)];
    if n < 10 then last else NatToDecimal(n / 10) + last
  }
}
