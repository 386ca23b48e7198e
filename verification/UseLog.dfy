/** Logs of uses, how often and how recently a key was used, and lists of keys kept by recency. */
module UseLog {

  /** The uses of a key from a position of the log on. */
  function Count(log: seq<int>, born: nat, key: int): nat {
    if |log| <= born then 0
    else Count(log[..|log| - 1], born, key) + if log[|log| - 1] == key then 1 else 0
  }

  /** The position of the last use of a key, or -1. */
  function Last(log: seq<int>, key: int): int {
    if log == [] then -1 else if log[|log| - 1] == key then |log| - 1 else Last(log[..|log| - 1], key)
  }

  lemma {:induction false} LastFound(log: seq<int>, i: nat)
    requires i < |log|
    ensures i <= Last(log, log[i]) < |log| && log[Last(log, log[i])] == log[i]
  {
    if i < |log| - 1 {
      LastFound(log[..|log| - 1], i);
    }
  }

  lemma {:induction false} CountAppend(log: seq<int>, born: nat, key: int, x: int)
    requires born <= |log|
    ensures Count(log + [x], born, key) == Count(log, born, key) + if x == key then 1 else 0
    ensures Last(log + [x], key) == if x == key then |log| else Last(log, key)
  {
    assert (log + [x])[..|log|] == log;
  }

  lemma {:induction false} LastBelow(log: seq<int>, key: int)
    ensures Last(log, key) < |log|
  {
    if log == [] {
    } else {
      LastBelow(log[..|log| - 1], key);
    }
  }

  /** The keys are in the order of their last use, the most recent first. */
  predicate ByLastUse(list: seq<int>, log: seq<int>) {
    forall i, j :: 0 <= i < j < |list| ==> Last(log, list[i]) > Last(log, list[j])
  }

  lemma {:induction false} LogGrows(list: seq<int>, log: seq<int>, key: int)
    requires ByLastUse(list, log) && key !in list
    ensures ByLastUse([key] + list, log + [key])
  {
    forall i | 0 <= i < |list| ensures Last(log + [key], list[i]) == Last(log, list[i]) < |log| {
      CountAppend(log, 0, list[i], key);
      LastBelow(log, list[i]);
    }
    CountAppend(log, 0, key, key);
  }

  // ----- lists without repetitions -----

  predicate Distinct(list: seq<int>) {
    forall i, j :: 0 <= i < j < |list| ==> list[i] != list[j]
  }

  function Remove(list: seq<int>, key: int): seq<int> {
    if list == [] then []
    else if list[0] == key then Remove(list[1..], key)
    else [list[0]] + Remove(list[1..], key)
  }

  lemma {:induction false} RemoveAbsent(list: seq<int>, key: int)
    requires key !in list
    ensures Remove(list, key) == list
  {
    if list == [] {
    } else {
      RemoveAbsent(list[1..], key);
    }
  }

  /** Where a key is in a list without repetitions, the removal takes out that one position. */
  lemma {:induction false} RemoveAt(list: seq<int>, i: nat)
    requires Distinct(list) && i < |list|
    ensures Remove(list, list[i]) == list[..i] + list[i + 1..]
  {
    if i == 0 {
      RemoveAbsent(list[1..], list[0]);
    } else {
      RemoveAt(list[1..], i - 1);
      assert list[..i] + list[i + 1..] == [list[0]] + (list[1..][..i - 1] + list[1..][i..]);
    }
  }

  lemma {:induction false} RemoveElements(list: seq<int>, key: int)
    requires Distinct(list)
    ensures Distinct(Remove(list, key)) && forall k :: k in Remove(list, key) <==> k in list && k != key
    ensures |Remove(list, key)| == if key in list then |list| - 1 else |list|
  {
    if key in list {
      var i :| 0 <= i < |list| && list[i] == key;
      RemoveAt(list, i);
      assert list == list[..i] + [key] + list[i + 1..];
    } else {
      RemoveAbsent(list, key);
    }
  }

  lemma {:induction false} RemoveByLastUse(list: seq<int>, key: int, log: seq<int>)
    requires ByLastUse(list, log)
    ensures ByLastUse(Remove(list, key), log)
  {
    if key in list {
      var i :| 0 <= i < |list| && list[i] == key;
      RemoveAt(list, i);
    } else {
      RemoveAbsent(list, key);
    }
  }

  /** A listing without repetitions is as long as what it lists. */
  lemma {:induction false} ListSize(list: seq<int>, keys: set<int>)
    requires Distinct(list) && forall k :: k in list <==> k in keys
    ensures |list| == |keys|
  {
    if list == [] {
      assert forall k :: k in keys ==> k in list;
      assert keys == {};
    } else {
      var init, back := list[..|list| - 1], list[|list| - 1];
      assert list == init + [back];
      ListSize(init, keys - {back});
    }
  }
}
