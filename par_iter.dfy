/**
 * The ordering contract of rayon's `find_map_first`, which the engine uses
 * for its search: whatever the split across worker threads, the result is
 * the one a left-to-right scan returns. Items are the values the parallel
 * iterator yields, or the panic that producing one of them raised.
 */
module ParIter {
  import opened Wrappers

  /** Every item before index i was produced and mapped to None. */
  ghost predicate Passed<T, U, E>(items: seq<Result<T, E>>, f: T -> Option<U>, i: nat)
  {
    i <= |items| && forall j | 0 <= j < i :: items[j].Success? && f(items[j].value).None?
  }

  /**
   * The first item that maps to Some, or the first panic, scanning from the
   * left; Success(None) when every item maps to None.
   */
  function FindMapFirst<T, U, E>(items: seq<Result<T, E>>, f: T -> Option<U>): (r: Result<Option<U>, E>)
    ensures r == Success(None) <==> Passed(items, f, |items|)
    ensures r.Success? && r.value.Some? ==>
      exists i | 0 <= i < |items| :: Passed(items, f, i) && items[i].Success? && f(items[i].value) == r.value
    ensures r.Failure? ==>
      exists i | 0 <= i < |items| :: Passed(items, f, i) && items[i] == Failure(r.error)
  {
    if items == [] then Success(None)
    else
      PassedShift(items, f);
      match items[0]
      case Failure(e) => assert Passed(items, f, 0); Failure(e)
      case Success(x) =>
        if f(x).Some? then assert Passed(items, f, 0); Success(f(x))
        else FindMapFirst(items[1..], f)
  }

  lemma PassedShift<T, U, E>(items: seq<Result<T, E>>, f: T -> Option<U>)
    requires items != []
    ensures forall i: nat :: Passed(items, f, i + 1) <==>
      items[0].Success? && f(items[0].value).None? && Passed(items[1..], f, i)
  {
    forall i: nat ensures Passed(items, f, i + 1) <==>
      items[0].Success? && f(items[0].value).None? && Passed(items[1..], f, i)
    {
      if items[0].Success? && f(items[0].value).None? && Passed(items[1..], f, i) {
        forall j | 0 <= j < i + 1 ensures items[j].Success? && f(items[j].value).None? {
          if j > 0 {
            assert items[j] == items[1..][j - 1];
          }
        }
      }
      if Passed(items, f, i + 1) {
        forall j | 0 <= j < i ensures items[1..][j].Success? && f(items[1..][j].value).None? {
          assert items[1..][j] == items[j + 1];
        }
      }
    }
  }

  /**
   * Splitting the items into a front and a back part: the front part's
   * answer wins unless it found nothing. This is what lets workers search
   * contiguous ranges independently.
   */
  lemma {:induction false} FindMapFirstConcat<T, U, E>(a: seq<Result<T, E>>, b: seq<Result<T, E>>, f: T -> Option<U>)
    ensures FindMapFirst(a + b, f) ==
      if FindMapFirst(a, f) == Success(None) then FindMapFirst(b, f) else FindMapFirst(a, f)
  {
    if a == [] {
      assert a + b == b;
    } else {
      assert (a + b)[0] == a[0];
      assert (a + b)[1..] == a[1..] + b;
      FindMapFirstConcat(a[1..], b, f);
    }
  }

  /** The items of consecutive ranges laid end to end. */
  function Flatten<X>(chunks: seq<seq<X>>): (r: seq<X>)
  {
    if chunks == [] then [] else chunks[0] + Flatten(chunks[1..])
  }

  /** The reduction over per-range answers: the leftmost range that found something. */
  function LeftmostFound<U, E>(answers: seq<Result<Option<U>, E>>): (r: Result<Option<U>, E>)
  {
    if answers == [] then Success(None)
    else if answers[0] != Success(None) then answers[0]
    else LeftmostFound(answers[1..])
  }

  /** Each range searched on its own. */
  function SearchEach<T, U, E>(chunks: seq<seq<Result<T, E>>>, f: T -> Option<U>): (r: seq<Result<Option<U>, E>>)
    ensures |r| == |chunks|
    ensures forall c | 0 <= c < |chunks| :: r[c] == FindMapFirst(chunks[c], f)
  {
    if chunks == [] then [] else [FindMapFirst(chunks[0], f)] + SearchEach(chunks[1..], f)
  }

  /**
   * However the sequence is split into contiguous ranges, searching each
   * range and keeping the leftmost answer equals one left-to-right scan:
   * one worker and many workers return the same match.
   */
  lemma {:induction false} SplitSearchIsSequential<T, U, E>(chunks: seq<seq<Result<T, E>>>, f: T -> Option<U>)
    ensures LeftmostFound(SearchEach(chunks, f)) == FindMapFirst(Flatten(chunks), f)
  {
    if chunks != [] {
      SplitSearchIsSequential(chunks[1..], f);
      FindMapFirstConcat(chunks[0], Flatten(chunks[1..]), f);
      assert SearchEach(chunks, f)[1..] == SearchEach(chunks[1..], f);
    }
  }

  /** Searching with two functions that agree on every item gives the same answer. */
  lemma {:induction false} FindMapFirstCongruent<T, U, E>(items: seq<Result<T, E>>, f: T -> Option<U>, g: T -> Option<U>)
    requires forall i | 0 <= i < |items| && items[i].Success? :: f(items[i].value) == g(items[i].value)
    ensures FindMapFirst(items, f) == FindMapFirst(items, g)
  {
    if items != [] {
      assert forall i | 0 <= i < |items| - 1 :: items[1..][i] == items[i + 1];
      FindMapFirstCongruent(items[1..], f, g);
    }
  }
}
