/** Byte strings, their byte-wise lexicographic order, and the line and
    token splitting every text of the tool is read with.

    A byte is a `char` below 256, so that ASCII literals spell themselves:
    a Rust `str` is the byte string of its UTF-8 encoding. */
module Bytes {

  type Byte = c: char | c as int < 256 witness 'a'
  type Bytes = seq<Byte>

  type u64 = n: nat | n < 0x1_0000_0000_0000_0000

  datatype Option<+T> = None | Some(value: T)

  datatype Result<+T, +E> = Ok(value: T) | Err(error: E)

  lemma AppendShift<T>(a: seq<T>, x: T, b: seq<T>)
    ensures (a + [x]) + b == a + ([x] + b)
  {
  }

  lemma AppendToNothing<T>(s: seq<T>)
    ensures [] + s == s
  {
  }

  // ----- byte-wise lexicographic order -----

  /** `a` sorts at or before `b` in plain byte order. */
  predicate LexLe(a: string, b: string) {
    a == [] || (b != [] && (a[0] < b[0] || (a[0] == b[0] && LexLe(a[1..], b[1..]))))
  }

  const LEX_ORDER: (Bytes, Bytes) -> bool := (a, b) => LexLe(a, b)

  lemma {:induction false} LexReflexive(a: string)
    ensures LexLe(a, a)
  {
    if a != [] { LexReflexive(a[1..]); }
  }

  lemma {:induction false} LexTotal(a: string, b: string)
    ensures LexLe(a, b) || LexLe(b, a)
  {
    if a != [] && b != [] && a[0] == b[0] { LexTotal(a[1..], b[1..]); }
  }

  lemma {:induction false} LexAntisymmetric(a: string, b: string)
    requires LexLe(a, b) && LexLe(b, a)
    ensures a == b
  {
    if a != [] {
      LexAntisymmetric(a[1..], b[1..]);
      assert a == [a[0]] + a[1..] && b == [b[0]] + b[1..];
    }
  }

  lemma {:induction false} LexTransitive(a: string, b: string, c: string)
    requires LexLe(a, b) && LexLe(b, c)
    ensures LexLe(a, c)
  {
    if a != [] && a[0] == b[0] && b[0] == c[0] {
      LexTransitive(a[1..], b[1..], c[1..]);
    }
  }

  /** A common prefix plays no part in the order. */
  lemma {:induction false} LexCommonPrefix(prefix: string, a: string, b: string)
    ensures LexLe(prefix + a, prefix + b) == LexLe(a, b)
  {
    if prefix == [] {
      assert prefix + a == a && prefix + b == b;
    } else {
      assert (prefix + a)[1..] == prefix[1..] + a;
      assert (prefix + b)[1..] == prefix[1..] + b;
      LexCommonPrefix(prefix[1..], a, b);
    }
  }

  /** Appending a terminator that sorts below every byte of two strings
      leaves their order in place, whatever follows the terminator. */
  lemma {:induction false} LexTerminated(a: string, b: string, stop: char, restA: string, restB: string)
    requires forall i | 0 <= i < |a| :: stop < a[i]
    requires forall i | 0 <= i < |b| :: stop < b[i]
    requires LexLe(a + [stop] + restA, b + [stop] + restB)
    ensures LexLe(a, b)
  {
    var x, y := a + [stop] + restA, b + [stop] + restB;
    if a != [] && b != [] && a[0] == b[0] {
      assert x[1..] == a[1..] + [stop] + restA;
      assert y[1..] == b[1..] + [stop] + restB;
      LexTerminated(a[1..], b[1..], stop, restA, restB);
    }
  }

  // ----- splitting and joining -----

  /** Rust's `split(separator)`: always at least one piece. */
  function Split(text: Bytes, separator: Byte): (pieces: seq<Bytes>)
    ensures |pieces| > 0
    ensures forall i | 0 <= i < |pieces| :: separator !in pieces[i]
  {
    if text == [] then [[]]
    else
      var rest := Split(text[1..], separator);
      if text[0] == separator then [[]] + rest
      else [[text[0]] + rest[0]] + rest[1..]
  }

  function Join(pieces: seq<Bytes>, separator: Byte): Bytes
    requires |pieces| > 0
  {
    if |pieces| == 1 then pieces[0]
    else pieces[0] + [separator] + Join(pieces[1..], separator)
  }

  lemma {:induction false} SplitPiece(piece: Bytes, separator: Byte)
    requires separator !in piece
    ensures Split(piece, separator) == [piece]
  {
    if piece != [] {
      SplitPiece(piece[1..], separator);
      assert [piece[0]] + piece[1..] == piece;
    }
  }

  lemma {:induction false} SplitFirst(piece: Bytes, separator: Byte, rest: Bytes)
    requires separator !in piece
    ensures Split(piece + [separator] + rest, separator) == [piece] + Split(rest, separator)
  {
    var text := piece + [separator] + rest;
    if piece == [] {
      assert text[1..] == rest;
    } else {
      assert text[1..] == piece[1..] + [separator] + rest;
      SplitFirst(piece[1..], separator, rest);
      assert [piece[0]] + piece[1..] == piece;
    }
  }

  /** Joining pieces free of the separator loses nothing. */
  lemma {:induction false} SplitOfJoin(pieces: seq<Bytes>, separator: Byte)
    requires |pieces| > 0
    requires forall i | 0 <= i < |pieces| :: separator !in pieces[i]
    ensures Split(Join(pieces, separator), separator) == pieces
  {
    if |pieces| == 1 {
      SplitPiece(pieces[0], separator);
    } else {
      SplitOfJoin(pieces[1..], separator);
      SplitFirst(pieces[0], separator, Join(pieces[1..], separator));
    }
  }

  /** Splitting loses nothing either. */
  lemma {:induction false} JoinOfSplit(text: Bytes, separator: Byte)
    ensures Join(Split(text, separator), separator) == text
  {
    if text != [] {
      JoinOfSplit(text[1..], separator);
      var rest := Split(text[1..], separator);
      var all := Split(text, separator);
      if text[0] == separator {
        assert all[1..] == rest;
      } else if |rest| > 1 {
        assert all[1..] == rest[1..];
      }
    }
  }

  /** A byte absent from the pieces and from the separator is absent from
      the joined text. */
  lemma {:induction false} JoinAvoids(pieces: seq<Bytes>, separator: Byte, avoided: Byte)
    requires |pieces| > 0 && separator != avoided
    requires forall i | 0 <= i < |pieces| :: avoided !in pieces[i]
    ensures avoided !in Join(pieces, separator)
  {
    if |pieces| > 1 { JoinAvoids(pieces[1..], separator, avoided); }
  }

  /** At the first byte in which the strings differ `a` has the smaller one, or
      `a` ends where `b` goes on. */
  ghost predicate ComesBefore(a: string, b: string) {
    || a < b
    || exists k | 0 <= k < |a| && k < |b| :: a[..k] == b[..k] && a[k] as int < b[k] as int
  }

  /** The order is plain byte order. */
  lemma {:induction false} LexExact(a: string, b: string)
    ensures LexLe(a, b) <==> a == b || ComesBefore(a, b)
  {
    if a != [] && b != [] && a[0] == b[0] {
      LexExact(a[1..], b[1..]);
      assert a == [a[0]] + a[1..] && b == [b[0]] + b[1..];
      BeforeInTails(a, b);
    } else if a != [] && b != [] {
      if a[0] < b[0] { assert a[..0] == b[..0]; }
      forall k | 0 < k < |a| && k < |b| ensures a[..k] != b[..k] { assert a[..k][0] == a[0] && b[..k][0] == b[0]; }
    }
  }

  lemma BeforeInTails(a: string, b: string)
    requires a != [] && b != [] && a[0] == b[0]
    ensures ComesBefore(a, b) <==> ComesBefore(a[1..], b[1..])
  {
    var x, y := a[1..], b[1..];
    assert a == [a[0]] + x && b == [b[0]] + y;
    forall k | 0 < k < |a| && k < |b|
      ensures a[..k] == b[..k] && a[k] as int < b[k] as int ==>
                x[..k - 1] == y[..k - 1] && x[k - 1] as int < y[k - 1] as int
    {
      assert x[..k - 1] == a[..k][1..] && y[..k - 1] == b[..k][1..];
    }
    if k :| 0 <= k < |x| && k < |y| && x[..k] == y[..k] && x[k] as int < y[k] as int {
      assert a[..k + 1] == [a[0]] + x[..k] && b[..k + 1] == [b[0]] + y[..k];
    }
  }
}
