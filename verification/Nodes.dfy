/** Sequences of the nodes of a linked list. */
module Nodes {
  ghost predicate Distinct<T>(s: seq<T>) {
    forall i, j :: 0 <= i < j < |s| ==> s[i] != s[j]
  }

  ghost function Members<T>(s: seq<T>): set<T> {
    set e | e in s
  }

  lemma MembersInserted<T>(s: seq<T>, k: nat, e: T)
    requires k <= |s|
    ensures Members(s[..k] + [e] + s[k..]) == Members(s) + {e}
  {
    assert s == s[..k] + s[k..];
  }

  lemma MembersRemoved<T>(s: seq<T>, k: nat)
    requires k < |s| && Distinct(s)
    ensures Members(s[..k] + s[k + 1..]) == Members(s) - {s[k]}
  {
    assert s == s[..k] + [s[k]] + s[k + 1..];
  }
}
