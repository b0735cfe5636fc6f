/**
 * Bytes, the few ASCII constants the editor works with, Option and Result,
 * and splitting a byte string on a separator and joining it back.
 * Every text in the model is a sequence of bytes: line lengths are byte lengths
 * and string positions are byte offsets, so characters are restricted to single
 * bytes (ASCII).
 */
module Bytes {

  newtype byte = x: int | 0 <= x < 256

  /** The byte of an ASCII character literal. */
  function B(c: char): byte
    requires c as int < 256
  {
    c as int as byte
  }

  const TAB: byte := 9
  const NL: byte := 10
  const CR: byte := 13
  const ESC: byte := 27
  const SPACE: byte := 32
  const DEL: byte := 127

  datatype Option<+T> = None | Some(value: T)

  /** The outcome of an operation that can fail with an error message. */
  datatype Result<+T> = Ok(value: T) | Err(msg: string)

  /** `n` copies of the byte `b`. */
  function Repeat(b: byte, n: nat): (r: seq<byte>)
    ensures |r| == n
    ensures forall i :: 0 <= i < n ==> r[i] == b
  {
    if n == 0 then [] else Repeat(b, n - 1) + [b]
  }

  /** Concatenation is associative; called where the solver would search for the grouping. */
  lemma Assoc<T>(a: seq<T>, b: seq<T>, c: seq<T>)
    ensures a + (b + c) == a + b + c
  {
  }

  /** A slice is its first element followed by the rest of the slice. */
  lemma SliceCons<T>(s: seq<T>, i: nat, j: nat)
    requires i < j <= |s|
    ensures s[i..j] == [s[i]] + s[i + 1..j]
  {
  }

  function Min(a: int, b: int): int { if a <= b then a else b }
  function Max(a: int, b: int): int { if a <= b then b else a }

  /** The result of an unsigned subtraction that saturates at 0 (Rust's saturating_sub). */
  function SatSub(a: nat, b: nat): nat { if a <= b then 0 else a - b }

  // ---------------------------------------------------------------------------
  // Splitting on a separator (slice::split)
  // ---------------------------------------------------------------------------

  /** The pieces between the separators: one more piece than there are separators. */
  function SplitOn(s: seq<byte>, sep: byte): (r: seq<seq<byte>>)
    ensures |r| >= 1
  {
    if s == [] then [[]]
    else if s[0] == sep then [[]] + SplitOn(s[1..], sep)
    else
      var t := SplitOn(s[1..], sep);
      [[s[0]] + t[0]] + t[1..]
  }

  /** The pieces put back together with the separator between them. */
  function JoinWith(pieces: seq<seq<byte>>, sep: byte): seq<byte>
    requires |pieces| >= 1
  {
    if |pieces| == 1 then pieces[0] else pieces[0] + [sep] + JoinWith(pieces[1..], sep)
  }

  /** Splitting loses nothing, and no piece holds a separator. */
  lemma {:induction false} JoinSplit(s: seq<byte>, sep: byte)
    ensures JoinWith(SplitOn(s, sep), sep) == s
    ensures forall i :: 0 <= i < |SplitOn(s, sep)| ==> sep !in SplitOn(s, sep)[i]
  {
    if s != [] {
      JoinSplit(s[1..], sep);
      var t := SplitOn(s[1..], sep);
      if s[0] == sep {
        assert ([[]] + t)[1..] == t;
      } else {
        var r := [[s[0]] + t[0]] + t[1..];
        assert r[1..] == t[1..];
        if |t| > 1 {
          var rest := JoinWith(t[1..], sep);
          assert JoinWith(t, sep) == t[0] + [sep] + rest;
          assert JoinWith(r, sep) == [s[0]] + t[0] + [sep] + rest;
          Assoc([s[0]], t[0] + [sep], rest);
          Assoc([s[0]], t[0], [sep]);
        }
        assert s == [s[0]] + s[1..];
        forall i | 0 <= i < |r|
          ensures sep !in r[i]
        {
          if i > 0 {
            assert r[i] == t[i];
          }
        }
      }
    }
  }

  /** A piece without separators, then a separator: that piece comes first. */
  lemma {:induction false} SplitOnFirst(a: seq<byte>, sep: byte, rest: seq<byte>)
    requires sep !in a
    ensures SplitOn(a + [sep] + rest, sep) == [a] + SplitOn(rest, sep)
  {
    var s := a + [sep] + rest;
    if a == [] {
      assert s[1..] == rest;
    } else {
      assert s[1..] == a[1..] + [sep] + rest;
      SplitOnFirst(a[1..], sep, rest);
      assert [a[0]] + a[1..] == a;
    }
  }

  /** A string without separators is a single piece. */
  lemma {:induction false} SplitOnNone(a: seq<byte>, sep: byte)
    requires sep !in a
    ensures SplitOn(a, sep) == [a]
  {
    if a != [] {
      SplitOnNone(a[1..], sep);
      assert [a[0]] + a[1..] == a;
    }
  }
}
