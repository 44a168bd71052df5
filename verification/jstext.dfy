/**
 * `Array.prototype.join` and `String.prototype.split` with a one-character
 * separator: the controller reports validation failures as the messages
 * joined by ",".
 */
module JsText {

  /** `xs.join(sep)`: the parts in order with one separator between neighbours. */
  function Join(xs: seq<string>, sep: char): (r: string)
    ensures xs == [] ==> r == []
    ensures xs != [] ==> xs[0] <= r
    ensures |xs| == 1 ==> r == xs[0]
    ensures forall i :: 0 <= i < |xs| ==> |xs[i]| <= |r|
  {
    if xs == [] then []
    else if |xs| == 1 then xs[0]
    else xs[0] + [sep] + Join(xs[1..], sep)
  }

  /** `s.split(sep)`: the maximal separator-free pieces, always at least one. */
  function Split(s: string, sep: char): (r: seq<string>)
    ensures |r| >= 1
    ensures forall i :: 0 <= i < |r| ==> sep !in r[i]
  {
    if s == [] then [[]]
    else
      var rest := Split(s[1..], sep);
      if s[0] == sep then [[]] + rest
      else [[s[0]] + rest[0]] + rest[1..]
  }

  lemma {:induction false} SplitPiece(x: string, sep: char, tail: seq<string>)
    requires sep !in x
    ensures Split(x, sep) == [x]
    ensures Split(x + [sep] + Join(tail, sep), sep) == [x] + Split(Join(tail, sep), sep)
  {
    if x != [] {
      SplitPiece(x[1..], sep, tail);
      assert (x + [sep] + Join(tail, sep))[1..] == x[1..] + [sep] + Join(tail, sep);
      assert x == [x[0]] + x[1..];
    } else {
      assert x + [sep] + Join(tail, sep) == [sep] + Join(tail, sep);
    }
  }

  /**
   * Splitting the joined messages on the separator recovers them, as long as
   * no message contains the separator: the 400 body loses no message.
   */
  lemma {:induction false} SplitJoin(xs: seq<string>, sep: char)
    requires xs != []
    requires forall i :: 0 <= i < |xs| ==> sep !in xs[i]
    ensures Split(Join(xs, sep), sep) == xs
    decreases |xs|
  {
    if |xs| == 1 {
      SplitPiece(xs[0], sep, []);
    } else {
      SplitPiece(xs[0], sep, xs[1..]);
      SplitJoin(xs[1..], sep);
      assert xs == [xs[0]] + xs[1..];
    }
  }
}
