/** `recursive_search` in recursive_search.py: a linear search written as recursion on
  * the position, returning the first position of the target at or after `index`, or -1.
  */
module RecursiveSearch {
  /** Returned when the target does not occur. */
  const NotFound: int := -1

  /** `recursive_search(arr, target, index)`. Each call moves one position right, so the
    * search ends after at most `|arr| - index` calls. The list is a value and is not changed.
    */
  function Search<T(==)>(arr: seq<T>, target: T, index: nat): (r: int)
    decreases |arr| - index
    ensures r == NotFound <==> forall i :: index <= i < |arr| ==> arr[i] != target
    ensures r != NotFound ==> index <= r < |arr| && arr[r] == target
    ensures r != NotFound ==> forall i :: index <= i < r ==> arr[i] != target
  {
    if index >= |arr| then NotFound
    else if arr[index] == target then index
    else Search(arr, target, index + 1)
  }

  /** From the default start 0: -1 exactly when the target is not in the list, and
    * otherwise the position of its first occurrence.
    */
  lemma SearchWholeList<T>(arr: seq<T>, target: T)
    ensures Search(arr, target, 0) == NotFound <==> target !in arr
    ensures target in arr ==> var r := Search(arr, target, 0);
      0 <= r < |arr| && arr[r] == target && target !in arr[..r]
  {
    var r := Search(arr, target, 0);
    if target in arr {
      var i :| 0 <= i < |arr| && arr[i] == target;
      assert r != NotFound;
      assert forall x :: x in arr[..r] ==> exists i :: 0 <= i < r && arr[i] == x;
    }
  }

  /** Starting later can only skip occurrences: a result found from a later start that is
    * still the result from an earlier start means nothing lies in between.
    */
  lemma {:induction false} SearchSkipsMisses<T>(arr: seq<T>, target: T, index: nat, later: nat)
    requires index <= later
    requires forall i :: index <= i < later && i < |arr| ==> arr[i] != target
    ensures Search(arr, target, index) == Search(arr, target, later)
    decreases later - index
  {
    if index < later && index < |arr| {
      SearchSkipsMisses(arr, target, index + 1, later);
    }
  }
}
