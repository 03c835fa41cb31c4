/**
 The "first candidate in priority order that passes a filter" search that every
 extractor of the application performs: an outer walk over an ordered list of
 patterns, an inner walk over each pattern's matches in text order, and a
 per-candidate step `f` that either accepts (Some) or skips (None) the candidate.
 */
module PrioritySearch {
  import opened Options

  /** The first accepted candidate of `ms[k..]`, or None if every one is skipped. */
  function FirstSomeFrom<M, T>(ms: seq<M>, k: nat, f: M -> Option<T>): (r: Option<T>)
    requires k <= |ms|
    ensures r.Some? <==> exists j :: k <= j < |ms| && f(ms[j]).Some?
    ensures r.Some? ==> exists j :: k <= j < |ms| && r == f(ms[j]) && forall j' :: k <= j' < j ==> f(ms[j']).None?
    decreases |ms| - k
  {
    if k == |ms| then None
    else if f(ms[k]).Some? then f(ms[k])
    else FirstSomeFrom(ms, k + 1, f)
  }

  /** The first accepted candidate of `ms` in order. */
  function FirstSome<M, T>(ms: seq<M>, f: M -> Option<T>): (r: Option<T>)
    ensures r.Some? <==> exists j :: 0 <= j < |ms| && f(ms[j]).Some?
    ensures r.Some? ==> exists j :: 0 <= j < |ms| && r == f(ms[j]) && forall j' :: 0 <= j' < j ==> f(ms[j']).None?
  {
    FirstSomeFrom(ms, 0, f)
  }

  /** The first accepted candidate of `lists[k..]`, list by list and, within a list, in order. */
  function FirstSomeAcrossFrom<M, T>(lists: seq<seq<M>>, k: nat, f: M -> Option<T>): (r: Option<T>)
    requires k <= |lists|
    ensures r.Some? <==> exists i :: k <= i < |lists| && FirstSome(lists[i], f).Some?
    ensures r.Some? ==> exists i :: k <= i < |lists| && r == FirstSome(lists[i], f)
                                    && forall i' :: k <= i' < i ==> FirstSome(lists[i'], f).None?
    decreases |lists| - k
  {
    if k == |lists| then None
    else if FirstSome(lists[k], f).Some? then FirstSome(lists[k], f)
    else FirstSomeAcrossFrom(lists, k + 1, f)
  }

  /**
   Candidate `j` of list `i` is accepted, and every candidate before it in
   lexicographic (list, position) order was skipped.
   */
  ghost predicate IsFirstHit<M, T>(lists: seq<seq<M>>, f: M -> Option<T>, i: int, j: int) {
    && 0 <= i < |lists| && 0 <= j < |lists[i]| && f(lists[i][j]).Some?
    && (forall i', j' :: 0 <= i' < i && 0 <= j' < |lists[i']| ==> f(lists[i'][j']).None?)
    && (forall j' :: 0 <= j' < j ==> f(lists[i][j']).None?)
  }

  /** The first accepted candidate in lexicographic (list, position) order. */
  function FirstSomeAcross<M, T>(lists: seq<seq<M>>, f: M -> Option<T>): (r: Option<T>)
    ensures r.Some? <==> exists i, j :: 0 <= i < |lists| && 0 <= j < |lists[i]| && f(lists[i][j]).Some?
    ensures r.Some? ==> exists i, j :: IsFirstHit(lists, f, i, j) && r == f(lists[i][j])
  {
    FirstSomeAcrossFromIsLexicographic(lists, f);
    FirstSomeAcrossFrom(lists, 0, f)
  }

  /** Combines the list-level and the candidate-level first-hit properties. */
  lemma FirstSomeAcrossFromIsLexicographic<M, T>(lists: seq<seq<M>>, f: M -> Option<T>)
    ensures var r := FirstSomeAcrossFrom(lists, 0, f);
            && (r.Some? <==> exists i, j :: 0 <= i < |lists| && 0 <= j < |lists[i]| && f(lists[i][j]).Some?)
            && (r.Some? ==> exists i, j :: IsFirstHit(lists, f, i, j) && r == f(lists[i][j]))
  {
    var r := FirstSomeAcrossFrom(lists, 0, f);
    if r.Some? {
      var i :| 0 <= i < |lists| && r == FirstSome(lists[i], f)
               && forall i' :: 0 <= i' < i ==> FirstSome(lists[i'], f).None?;
      var j :| 0 <= j < |lists[i]| && r == f(lists[i][j]) && forall j' :: 0 <= j' < j ==> f(lists[i][j']).None?;
      forall i', j' | 0 <= i' < i && 0 <= j' < |lists[i']|
        ensures f(lists[i'][j']).None?
      {
        assert FirstSome(lists[i'], f).None?;
      }
      assert IsFirstHit(lists, f, i, j);
    } else {
      forall i, j | 0 <= i < |lists| && 0 <= j < |lists[i]|
        ensures f(lists[i][j]).None?
      {
        assert FirstSome(lists[i], f).None?;
      }
    }
  }
}
