/** Notions shared by the models of several components. */
module Basics {

  datatype Option<+T> = None | Some(value: T)

  /** A pixel of an image: column and row. */
  type Pixel = (int, int)

  function MinInt(a: int, b: int): int { if a <= b then a else b }
  function MaxInt(a: int, b: int): int { if a <= b then b else a }

  /** A subset is no larger than the whole. */
  lemma SubsetSize<T>(part: set<T>, whole: set<T>)
    requires part <= whole
    ensures |part| <= |whole|
  {
    assert whole == part + (whole - part);
  }
}
