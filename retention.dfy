/** The alias-update action list that `Switch` builds: bind the new generation,
    then unbind or delete each old one under the retention count. */
module Retention {
  import opened Sorting
  import opened Strings

  /** One entry of the `actions` array: `add`, `remove` (alias only) or `remove_index`. */
  datatype Action =
    | Add(alias: string, index: string)
    | Remove(alias: string, index: string)
    | RemoveIndex(index: string)

  /** How many of `n` old generations (oldest first) are deleted under `retention`. */
  function DeleteCount(n: nat, retention: int): (c: nat)
    ensures c <= n
  {
    if retention < 0 || n <= retention then 0 else n - retention
  }

  /** The loop body of `Switch`: old index `i` is unbound when `retention < 0 || i >= n - retention`
      and deleted otherwise. */
  function Plan(alias: string, olds: seq<string>, retention: int): (p: seq<Action>)
    ensures |p| == |olds|
    ensures forall i :: 0 <= i < |p| ==> !p[i].Add? && p[i].index == olds[i]
    ensures forall i :: 0 <= i < |p| && p[i].Remove? ==> p[i].alias == alias
  {
    seq(|olds|, i requires 0 <= i < |olds| =>
      if retention < 0 || i >= |olds| - retention then Remove(alias, olds[i]) else RemoveIndex(olds[i]))
  }

  /** The full request: `add` for the new generation, then the plan for the old ones. */
  function Cutover(alias: string, index: string, olds: seq<string>, retention: int): (r: seq<Action>)
    ensures |r| == 1 + |olds| && r[0] == Add(alias, index)
    ensures forall i :: 1 <= i < |r| ==> !r[i].Add? && r[i].index == olds[i - 1]
  {
    [Add(alias, index)] + Plan(alias, olds, retention)
  }

  /** Reference shapes: delete every index of a list, or unbind the alias from every one. */
  function Deletions(s: seq<string>): seq<Action> {
    if s == [] then [] else [RemoveIndex(s[0])] + Deletions(s[1..])
  }

  function Unbinds(alias: string, s: seq<string>): seq<Action> {
    if s == [] then [] else [Remove(alias, s[0])] + Unbinds(alias, s[1..])
  }

  /** What a request does, read back from it: the indices it binds, unbinds and deletes, in order. */
  function Bound(acts: seq<Action>): seq<string> {
    if acts == [] then [] else (if acts[0].Add? then [acts[0].index] else []) + Bound(acts[1..])
  }

  function Unbound(acts: seq<Action>): seq<string> {
    if acts == [] then [] else (if acts[0].Remove? then [acts[0].index] else []) + Unbound(acts[1..])
  }

  function Deleted(acts: seq<Action>): seq<string> {
    if acts == [] then [] else (if acts[0].RemoveIndex? then [acts[0].index] else []) + Deleted(acts[1..])
  }

  lemma {:induction false} DeletionsAt(s: seq<string>, i: nat)
    requires i < |s|
    ensures |Deletions(s)| == |s| && Deletions(s)[i] == RemoveIndex(s[i])
  {
    if i > 0 {
      DeletionsAt(s[1..], i - 1);
    } else if |s| > 1 {
      DeletionsAt(s[1..], 0);
    }
  }

  lemma {:induction false} UnbindsAt(alias: string, s: seq<string>, i: nat)
    requires i < |s|
    ensures |Unbinds(alias, s)| == |s| && Unbinds(alias, s)[i] == Remove(alias, s[i])
  {
    if i > 0 {
      UnbindsAt(alias, s[1..], i - 1);
    } else if |s| > 1 {
      UnbindsAt(alias, s[1..], 0);
    }
  }

  /** The plan is the oldest `DeleteCount` generations deleted, then the rest unbound. */
  lemma PlanSplit(alias: string, olds: seq<string>, retention: int)
    ensures var c := DeleteCount(|olds|, retention);
      Plan(alias, olds, retention) == Deletions(olds[..c]) + Unbinds(alias, olds[c..])
  {
    var c := DeleteCount(|olds|, retention);
    var p, d, u := Plan(alias, olds, retention), Deletions(olds[..c]), Unbinds(alias, olds[c..]);
    if c > 0 { DeletionsAt(olds[..c], 0); }
    if c < |olds| { UnbindsAt(alias, olds[c..], 0); }
    forall i | 0 <= i < |olds| ensures p[i] == (d + u)[i] {
      if i < c {
        DeletionsAt(olds[..c], i);
      } else {
        UnbindsAt(alias, olds[c..], i - c);
      }
    }
  }

  lemma {:induction false} BoundAppend(a: seq<Action>, b: seq<Action>)
    ensures Bound(a + b) == Bound(a) + Bound(b)
  {
    if a == [] {
      assert a + b == b;
    } else {
      var head: seq<string> := if a[0].Add? then [a[0].index] else [];
      calc {
        Bound(a + b);
        { assert (a + b)[0] == a[0]; }
        head + Bound((a + b)[1..]);
        { assert (a + b)[1..] == a[1..] + b; BoundAppend(a[1..], b); }
        head + (Bound(a[1..]) + Bound(b));
        (head + Bound(a[1..])) + Bound(b);
      }
    }
  }

  lemma {:induction false} UnboundAppend(a: seq<Action>, b: seq<Action>)
    ensures Unbound(a + b) == Unbound(a) + Unbound(b)
  {
    if a == [] {
      assert a + b == b;
    } else {
      var head: seq<string> := if a[0].Remove? then [a[0].index] else [];
      calc {
        Unbound(a + b);
        { assert (a + b)[0] == a[0]; }
        head + Unbound((a + b)[1..]);
        { assert (a + b)[1..] == a[1..] + b; UnboundAppend(a[1..], b); }
        head + (Unbound(a[1..]) + Unbound(b));
        (head + Unbound(a[1..])) + Unbound(b);
      }
    }
  }

  lemma {:induction false} DeletedAppend(a: seq<Action>, b: seq<Action>)
    ensures Deleted(a + b) == Deleted(a) + Deleted(b)
  {
    if a == [] {
      assert a + b == b;
    } else {
      var head: seq<string> := if a[0].RemoveIndex? then [a[0].index] else [];
      calc {
        Deleted(a + b);
        { assert (a + b)[0] == a[0]; }
        head + Deleted((a + b)[1..]);
        { assert (a + b)[1..] == a[1..] + b; DeletedAppend(a[1..], b); }
        head + (Deleted(a[1..]) + Deleted(b));
        (head + Deleted(a[1..])) + Deleted(b);
      }
    }
  }

  lemma {:induction false} DeletionsRead(s: seq<string>)
    ensures Deleted(Deletions(s)) == s && Unbound(Deletions(s)) == [] && Bound(Deletions(s)) == []
  {
    if s != [] {
      DeletionsRead(s[1..]);
      BoundAppend([RemoveIndex(s[0])], Deletions(s[1..]));
      UnboundAppend([RemoveIndex(s[0])], Deletions(s[1..]));
      DeletedAppend([RemoveIndex(s[0])], Deletions(s[1..]));
    }
  }

  lemma {:induction false} UnbindsRead(alias: string, s: seq<string>)
    ensures Unbound(Unbinds(alias, s)) == s && Deleted(Unbinds(alias, s)) == [] && Bound(Unbinds(alias, s)) == []
  {
    if s != [] {
      UnbindsRead(alias, s[1..]);
      BoundAppend([Remove(alias, s[0])], Unbinds(alias, s[1..]));
      UnboundAppend([Remove(alias, s[0])], Unbinds(alias, s[1..]));
      DeletedAppend([Remove(alias, s[0])], Unbinds(alias, s[1..]));
    }
  }

  /** The request binds the alias to the new index and to nothing else, deletes the oldest
      `DeleteCount` old generations and unbinds the alias from the remaining, newest ones. */
  lemma CutoverEffect(alias: string, index: string, olds: seq<string>, retention: int)
    ensures var c, r := DeleteCount(|olds|, retention), Cutover(alias, index, olds, retention);
      && Bound(r) == [index]
      && Deleted(r) == olds[..c]
      && Unbound(r) == olds[c..]
  {
    var c := DeleteCount(|olds|, retention);
    PlanSplit(alias, olds, retention);
    DeletionsRead(olds[..c]);
    UnbindsRead(alias, olds[c..]);
    BoundAppend(Deletions(olds[..c]), Unbinds(alias, olds[c..]));
    UnboundAppend(Deletions(olds[..c]), Unbinds(alias, olds[c..]));
    DeletedAppend(Deletions(olds[..c]), Unbinds(alias, olds[c..]));
    BoundAppend([Add(alias, index)], Plan(alias, olds, retention));
    UnboundAppend([Add(alias, index)], Plan(alias, olds, retention));
    DeletedAppend([Add(alias, index)], Plan(alias, olds, retention));
  }

  /** A negative retention never deletes: every old generation is only unbound. */
  lemma NegativeRetentionKeepsAll(alias: string, index: string, olds: seq<string>, retention: int)
    requires retention < 0
    ensures Deleted(Cutover(alias, index, olds, retention)) == []
    ensures Unbound(Cutover(alias, index, olds, retention)) == olds
  {
    CutoverEffect(alias, index, olds, retention);
    assert olds[0..] == olds;
  }

  /** A retention of zero deletes every old generation and unbinds none. */
  lemma ZeroRetentionDeletesAll(alias: string, index: string, olds: seq<string>)
    ensures Deleted(Cutover(alias, index, olds, 0)) == olds
    ensures Unbound(Cutover(alias, index, olds, 0)) == []
  {
    CutoverEffect(alias, index, olds, 0);
    assert olds[..|olds|] == olds;
  }

  /** A retention of `k >= 0` keeps the `min(n, k)` newest old generations and deletes
      the other `max(0, n - k)`; with `k >= n` nothing is deleted. */
  lemma RetentionKeepsNewest(alias: string, index: string, olds: seq<string>, k: nat)
    ensures var r, n := Cutover(alias, index, olds, k), |olds|;
      && |Deleted(r)| == (if n <= k then 0 else n - k)
      && |Unbound(r)| == (if n <= k then n else k)
      && Unbound(r) == olds[|olds| - |Unbound(r)|..]
      && (n <= k ==> Deleted(r) == [])
  {
    CutoverEffect(alias, index, olds, k);
  }

  /** Over old generations sorted oldest first, every deleted index sorts before (or equals)
      every index that is only unbound: deletion takes a prefix of the oldest. */
  lemma DeletedBeforeKept(alias: string, index: string, olds: seq<string>, retention: int)
    requires Sorted(olds)
    ensures var r := Cutover(alias, index, olds, retention);
      forall i, j :: 0 <= i < |Deleted(r)| && 0 <= j < |Unbound(r)| ==> LessEq(Deleted(r)[i], Unbound(r)[j])
  {
    var c := DeleteCount(|olds|, retention);
    CutoverEffect(alias, index, olds, retention);
    var r := Cutover(alias, index, olds, retention);
    forall i, j | 0 <= i < |Deleted(r)| && 0 <= j < |Unbound(r)| ensures LessEq(Deleted(r)[i], Unbound(r)[j]) {
      assert Deleted(r)[i] == olds[i] && Unbound(r)[j] == olds[c + j];
    }
  }
}
