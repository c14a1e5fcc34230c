/** Bytes, byte strings and lists of byte strings, shared by every other module. */
module Bytes {

  type byte = x: int | 0 <= x < 256

  datatype Option<+T> = None | Some(value: T)

  lemma AppendTwice<T>(a: seq<T>, b: seq<T>, c: seq<T>)
    ensures (a + b) + c == a + (b + c)
  {
  }

  /** The concatenation, in order, of a list of byte strings. */
  function Concat(chunks: seq<seq<byte>>): seq<byte> {
    if chunks == [] then [] else chunks[0] + Concat(chunks[1..])
  }

  lemma {:induction false} ConcatAppend(a: seq<seq<byte>>, b: seq<seq<byte>>)
    ensures Concat(a + b) == Concat(a) + Concat(b)
  {
    if a == [] {
      assert a + b == b;
    } else {
      ConcatAppend(a[1..], b);
      assert (a + b)[0] == a[0] && (a + b)[1..] == a[1..] + b;
      AppendTwice(a[0], Concat(a[1..]), Concat(b));
    }
  }

  lemma ConcatSingle(c: seq<byte>)
    ensures Concat([c]) == c
  {
    assert Concat([c]) == c + Concat([]);
  }

  lemma {:induction false} ConcatSnoc(a: seq<seq<byte>>, c: seq<byte>)
    ensures Concat(a + [c]) == Concat(a) + c
  {
    ConcatAppend(a, [c]);
    ConcatSingle(c);
  }

  /** A byte string cut into chunks of one byte. */
  function Singles(s: seq<byte>): (chunks: seq<seq<byte>>)
    ensures |chunks| == |s|
    ensures forall i :: 0 <= i < |s| ==> chunks[i] == [s[i]]
  {
    seq(|s|, i requires 0 <= i < |s| => [s[i]])
  }

  lemma {:induction false} ConcatSingles(s: seq<byte>)
    ensures Concat(Singles(s)) == s
  {
    if s != [] {
      ConcatSingles(s[1..]);
      assert Singles(s)[1..] == Singles(s[1..]);
    }
  }
}
