/**
  Notions shared by both snake implementations: the four headings and the
  "exact opposite" relation that their reversal rules are built on.
 */
module GameBasics {

  /** The four headings a snake can move in. Left and Up decrease a coordinate. */
  datatype Direction = Left | Right | Up | Down

  /** The heading that exactly reverses `d`; turning onto it is never accepted. */
  function Opposite(d: Direction): (o: Direction)
    ensures o != d
    ensures (d == Left || d == Right) <==> (o == Left || o == Right)
  {
    match d
    case Left => Right
    case Right => Left
    case Up => Down
    case Down => Up
  }

  /** Reversing twice gives back the original heading: Opposite is its own inverse. */
  lemma OppositeInvolutive(d: Direction)
    ensures Opposite(Opposite(d)) == d
    ensures forall e :: Opposite(e) == d ==> e == Opposite(d)
  {
    forall e | Opposite(e) == d
      ensures e == Opposite(d)
    {
      match e
      case Left =>
      case Right =>
      case Up =>
      case Down =>
    }
  }

  /** The larger of two integers (Python's max, JavaScript's Math.max). */
  function Max(a: int, b: int): (m: int)
    ensures m >= a && m >= b
    ensures m == a || m == b
  {
    if a >= b then a else b
  }

  /** No element occurs twice: the snake never covers one cell with two segments. */
  predicate Distinct<T(==)>(s: seq<T>) {
    forall i, j :: 0 <= i < j < |s| ==> s[i] != s[j]
  }

  /**
    A tick's new body is a fresh head in front of a prefix of the old body;
    it stays free of repeats when the head is not in that prefix.
   */
  lemma PrependKeepsDistinct<T>(h: T, s: seq<T>, n: nat)
    requires Distinct(s) && n <= |s| && h !in s[..n]
    ensures Distinct([h] + s[..n])
  {
    var t := [h] + s[..n];
    forall i, j | 0 <= i < j < |t|
      ensures t[i] != t[j]
    {
      assert t[j] == s[..n][j - 1];
      if i > 0 {
        assert t[i] == s[i - 1] && t[j] == s[j - 1];
      }
    }
  }
}
