/** What several components share: optional values, bytes, and pieces laid end to end. */
module Basics {

  datatype Option<+T> = None | Some(value: T)

  type Byte = b: int | 0 <= b < 256

  /** The bytes of a plain text; what is not ASCII becomes a question mark. */
  function Ascii(text: string): (s: seq<Byte>)
    ensures |s| == |text| && forall i :: 0 <= i < |text| && text[i] < 128 as char ==> s[i] == text[i] as int
  {
    seq(|text|, i requires 0 <= i < |text| => if text[i] < 128 as char then text[i] as int else '?' as int)
  }

  /** The pieces one after the other. */
  function Flat<T>(pieces: seq<seq<T>>): (s: seq<T>)
    decreases |pieces|
  {
    if pieces == [] then [] else Flat(pieces[..|pieces| - 1]) + pieces[|pieces| - 1]
  }

  lemma FlatNext<T>(pieces: seq<seq<T>>, s: seq<T>)
    ensures Flat(pieces + [s]) == Flat(pieces) + s
  {
    assert (pieces + [s])[..|pieces|] == pieces;
  }

  lemma FlatNone<T>(pieces: seq<seq<T>>)
    requires pieces == []
    ensures Flat(pieces) == []
  {}

  lemma {:induction false} FlatConcat<T>(a: seq<seq<T>>, b: seq<seq<T>>)
    ensures Flat(a + b) == Flat(a) + Flat(b)
    decreases |b|
  {
    hide Flat;
    if b == [] {
      FlatNone(b);
      assert a + b == a;
    } else {
      var front, last := b[..|b| - 1], b[|b| - 1];
      assert b == front + [last] && a + b == a + front + [last];
      FlatConcat(a, front);
      FlatNext(front, last);
      FlatNext(a + front, last);
    }
  }

  lemma FlatTake<T>(pieces: seq<seq<T>>, i: nat)
    requires i < |pieces|
    ensures Flat(pieces[..i + 1]) == Flat(pieces[..i]) + pieces[i]
  {
    assert pieces[..i + 1] == pieces[..i] + [pieces[i]];
    FlatNext(pieces[..i], pieces[i]);
  }
}
