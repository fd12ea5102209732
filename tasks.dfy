/** The task collection of the to-do view and the pure computations over it:
    the filtered view, the three counts, and the list updates that the
    add, toggle and delete handlers apply once the task service has answered. */
module Tasks {

  /** A to-do item as the task service returns it. `id` is assigned by the
      service and compared with strict equality. */
  datatype Task = Task(id: int, text: string, completed: bool)

  /** The three filter buttons. `All` is also what the `default` branch of
      the view selection does. */
  datatype Filter = All | Completed | Uncompleted

  /** The numbers shown on the three filter buttons. */
  datatype TaskCounts = TaskCounts(all: nat, completed: nat, uncompleted: nat)

  /** `a` is obtained from `s` by deleting some entries, keeping the order
      of the rest. */
  predicate IsSubsequence(a: seq<Task>, s: seq<Task>)
    decreases |s|
  {
    if a == [] then true
    else if s == [] then false
    else (a[0] == s[0] && IsSubsequence(a[1..], s[1..])) || IsSubsequence(a, s[1..])
  }

  /** `s` is a merge of `a` and `b`: every entry of `s` is taken, in order,
      from exactly one of the two. */
  predicate Interleaves(s: seq<Task>, a: seq<Task>, b: seq<Task>)
    decreases |s|
  {
    if s == [] then a == [] && b == []
    else
      || (a != [] && a[0] == s[0] && Interleaves(s[1..], a[1..], b))
      || (b != [] && b[0] == s[0] && Interleaves(s[1..], a, b[1..]))
  }

  /** No two entries carry the same id (the service's promise, which the
      view itself never checks). */
  predicate UniqueIds(ts: seq<Task>)
  {
    forall i, j :: 0 <= i < j < |ts| ==> ts[i].id != ts[j].id
  }

  /** The entries whose completion flag equals `done`, in their original
      order: the completed list for `true`, the uncompleted list for `false`. */
  function Select(ts: seq<Task>, done: bool): (r: seq<Task>)
    ensures forall i :: 0 <= i < |r| ==> r[i].completed == done
    ensures forall t :: t in r <==> t in ts && t.completed == done
    ensures IsSubsequence(r, ts)
    decreases |ts|
  {
    if ts == [] then []
    else if ts[0].completed == done then [ts[0]] + Select(ts[1..], done)
    else Select(ts[1..], done)
  }

  /** Whether an entry is listed under a filter. */
  predicate Shows(f: Filter, t: Task)
  {
    match f
    case All => true
    case Completed => t.completed
    case Uncompleted => !t.completed
  }

  lemma {:induction false} SubsequenceReflexive(s: seq<Task>)
    ensures IsSubsequence(s, s)
    decreases |s|
  {
    if s != [] {
      SubsequenceReflexive(s[1..]);
    }
  }

  /** The list the view renders for the selected filter. */
  function Visible(ts: seq<Task>, f: Filter): (r: seq<Task>)
    ensures forall t :: t in r <==> t in ts && Shows(f, t)
    ensures IsSubsequence(r, ts)
    ensures f == All ==> r == ts
  {
    match f
    case Completed => Select(ts, true)
    case Uncompleted => Select(ts, false)
    case All => SubsequenceReflexive(ts); ts
  }

  /** The completed and the uncompleted entries, merged back in their
      original relative order, give the whole list. */
  lemma {:induction false} SelectPartition(ts: seq<Task>)
    ensures Interleaves(ts, Select(ts, true), Select(ts, false))
    decreases |ts|
  {
    if ts != [] {
      SelectPartition(ts[1..]);
    }
  }

  /** A merge accounts for every entry exactly once. */
  lemma {:induction false} InterleavesAccounts(s: seq<Task>, a: seq<Task>, b: seq<Task>)
    requires Interleaves(s, a, b)
    ensures |a| + |b| == |s|
    ensures multiset(a) + multiset(b) == multiset(s)
    decreases |s|
  {
    if s != [] {
      var rest := s[1..];
      assert multiset(s) == multiset{s[0]} + multiset(rest) by {
        assert s == [s[0]] + rest;
      }
      if a != [] && a[0] == s[0] && Interleaves(rest, a[1..], b) {
        InterleavesAccounts(rest, a[1..], b);
        assert multiset(a) == multiset{a[0]} + multiset(a[1..]) by {
          assert a == [a[0]] + a[1..];
        }
      } else {
        InterleavesAccounts(rest, a, b[1..]);
        assert multiset(b) == multiset{b[0]} + multiset(b[1..]) by {
          assert b == [b[0]] + b[1..];
        }
      }
    }
  }

  /** The two filtered lists are the only order-preserving split of the list
      into completed and uncompleted entries. */
  lemma {:induction false} SelectUnique(ts: seq<Task>, a: seq<Task>, b: seq<Task>)
    requires forall i :: 0 <= i < |a| ==> a[i].completed
    requires forall i :: 0 <= i < |b| ==> !b[i].completed
    requires Interleaves(ts, a, b)
    ensures a == Select(ts, true) && b == Select(ts, false)
    decreases |ts|
  {
    if ts != [] {
      var rest := ts[1..];
      if a != [] && a[0] == ts[0] && Interleaves(rest, a[1..], b) {
        AllFlagTail(a, true);
        SelectUnique(rest, a[1..], b);
        SelectCons(ts, a, true);
      } else {
        AllFlagTail(b, false);
        SelectUnique(rest, a, b[1..]);
        SelectCons(ts, b, false);
      }
    }
  }

  /** Dropping the first entry of a list whose entries all carry one flag. */
  lemma AllFlagTail(a: seq<Task>, done: bool)
    requires a != [] && forall i :: 0 <= i < |a| ==> a[i].completed == done
    ensures forall i :: 0 <= i < |a[1..]| ==> a[1..][i].completed == done
  {
    forall i | 0 <= i < |a[1..]| ensures a[1..][i].completed == done {
      assert a[1..][i] == a[i + 1];
    }
  }

  /** One step of filtering: when the first entry has the flag, it leads the
      filtered list, and the other filtered list skips it. */
  lemma SelectCons(ts: seq<Task>, a: seq<Task>, done: bool)
    requires ts != [] && a != [] && a[0] == ts[0] && a[0].completed == done
    requires a[1..] == Select(ts[1..], done)
    ensures a == Select(ts, done)
    ensures Select(ts, !done) == Select(ts[1..], !done)
  {
    assert a == [a[0]] + a[1..];
  }

  /** The counts behind the three filter buttons, each taken over the whole
      list rather than over the rendered one. */
  function Counts(ts: seq<Task>): (c: TaskCounts)
    ensures c.all == |ts|
    ensures c.completed + c.uncompleted == c.all
    ensures c.completed == |Visible(ts, Completed)|
    ensures c.uncompleted == |Visible(ts, Uncompleted)|
  {
    SelectPartition(ts);
    InterleavesAccounts(ts, Select(ts, true), Select(ts, false));
    TaskCounts(|ts|, |Select(ts, true)|, |Select(ts, false)|)
  }

  /** Filtering a list with one more entry at the end. */
  lemma {:induction false} SelectAppend(ts: seq<Task>, t: Task, done: bool)
    ensures Select(ts + [t], done) == Select(ts, done) + (if t.completed == done then [t] else [])
    decreases |ts|
  {
    if ts == [] {
      assert [t][1..] == [];
    } else {
      assert (ts + [t])[1..] == ts[1..] + [t];
      SelectAppend(ts[1..], t, done);
    }
  }

  /** After a task is appended, the counts grow by one in the matching bucket. */
  lemma CountsAppend(ts: seq<Task>, t: Task)
    ensures Counts(ts + [t]).all == Counts(ts).all + 1
    ensures Counts(ts + [t]).completed == Counts(ts).completed + (if t.completed then 1 else 0)
    ensures Counts(ts + [t]).uncompleted == Counts(ts).uncompleted + (if t.completed then 0 else 1)
  {
    SelectAppend(ts, t, true);
    SelectAppend(ts, t, false);
  }

  /** The list with every entry whose id is `id` replaced by `t`, each in
      its place. */
  function ReplaceId(ts: seq<Task>, id: int, t: Task): (r: seq<Task>)
    ensures |r| == |ts|
    ensures forall i :: 0 <= i < |ts| && ts[i].id == id ==> r[i] == t
    ensures forall i :: 0 <= i < |ts| && ts[i].id != id ==> r[i] == ts[i]
    ensures (forall i :: 0 <= i < |ts| ==> ts[i].id != id) ==> r == ts
    decreases |ts|
  {
    if ts == [] then []
    else [if ts[0].id == id then t else ts[0]] + ReplaceId(ts[1..], id, t)
  }

  /** With unique ids, replacing by the id of the entry at `k` rewrites that
      one position and no other. */
  lemma ReplaceIdAt(ts: seq<Task>, id: int, t: Task, k: int)
    requires UniqueIds(ts)
    requires 0 <= k < |ts| && ts[k].id == id
    ensures ReplaceId(ts, id, t) == ts[k := t]
  {
  }

  /** A response that keeps the id keeps the ids unique. */
  lemma ReplaceIdKeepsUnique(ts: seq<Task>, id: int, t: Task)
    requires UniqueIds(ts) && t.id == id
    ensures UniqueIds(ReplaceId(ts, id, t))
  {
  }

  /** Filtering a concatenation filters each part. */
  lemma {:induction false} SelectConcat(a: seq<Task>, b: seq<Task>, done: bool)
    ensures Select(a + b, done) == Select(a, done) + Select(b, done)
    decreases |a|
  {
    if a == [] {
      assert a + b == b;
    } else {
      assert (a + b)[1..] == a[1..] + b;
      SelectConcat(a[1..], b, done);
    }
  }

  /** Changing the entry at `k` changes a filtered list only where that
      entry stands: the entries before and after it are kept as they were,
      the old entry is listed exactly when its flag matches, and so is the
      new one. Hence each filtered list's length moves by at most one. */
  lemma SelectUpdate(ts: seq<Task>, k: int, t: Task, done: bool)
    requires 0 <= k < |ts|
    ensures Select(ts, done)
         == Select(ts[..k], done) + (if ts[k].completed == done then [ts[k]] else []) + Select(ts[k + 1..], done)
    ensures Select(ts[k := t], done)
         == Select(ts[..k], done) + (if t.completed == done then [t] else []) + Select(ts[k + 1..], done)
    ensures |Select(ts[k := t], done)| + (if ts[k].completed == done then 1 else 0)
         == |Select(ts, done)| + (if t.completed == done then 1 else 0)
  {
    assert ts == ts[..k] + [ts[k]] + ts[k + 1..];
    SelectAround(ts[..k], ts[k], ts[k + 1..], done);
    assert ts[k := t] == ts[..k] + [t] + ts[k + 1..];
    SelectAround(ts[..k], t, ts[k + 1..], done);
  }

  /** Filtering a list split around one entry. */
  lemma SelectAround(a: seq<Task>, u: Task, b: seq<Task>, done: bool)
    ensures Select(a + [u] + b, done) == Select(a, done) + (if u.completed == done then [u] else []) + Select(b, done)
  {
    assert Select([u], done) == if u.completed == done then [u] else [] by {
      assert [u][1..] == [];
    }
    SelectConcat(a, [u], done);
    SelectConcat(a + [u], b, done);
  }

  /** The counts after one entry is rewritten in place, as a successful
      toggle does when ids are unique. */
  lemma CountsUpdate(ts: seq<Task>, k: int, t: Task)
    requires 0 <= k < |ts|
    ensures Counts(ts[k := t]).all == Counts(ts).all
    ensures Counts(ts[k := t]).completed
         == Counts(ts).completed - (if ts[k].completed then 1 else 0) + (if t.completed then 1 else 0)
  {
    SelectUpdate(ts, k, t, true);
  }

  /** The list with every entry whose id is `id` dropped; every other entry
      is kept, as many times as it occurs, in its original order. */
  function RemoveId(ts: seq<Task>, id: int): (r: seq<Task>)
    ensures forall t :: t in r <==> t in ts && t.id != id
    ensures IsSubsequence(r, ts)
    ensures |r| <= |ts|
    ensures (forall i :: 0 <= i < |ts| ==> ts[i].id != id) ==> r == ts
    decreases |ts|
  {
    if ts == [] then []
    else if ts[0].id == id then RemoveId(ts[1..], id)
    else [ts[0]] + RemoveId(ts[1..], id)
  }

  /** A delete keeps every entry with another id exactly as many times as
      it occurs, and no entry with the id. */
  lemma {:induction false} RemoveIdMultiset(ts: seq<Task>, id: int)
    ensures forall x :: multiset(RemoveId(ts, id))[x] == if x.id == id then 0 else multiset(ts)[x]
    decreases |ts|
  {
    if ts != [] {
      RemoveIdMultiset(ts[1..], id);
      assert ts == [ts[0]] + ts[1..];
    }
  }

  /** The entries after the first of a list with unique ids have unique ids,
      all different from the first one's. */
  lemma UniqueTail(ts: seq<Task>)
    requires UniqueIds(ts) && ts != []
    ensures UniqueIds(ts[1..])
    ensures forall i :: 0 <= i < |ts[1..]| ==> ts[1..][i].id != ts[0].id
  {
    forall i, j | 0 <= i < j < |ts[1..]| ensures ts[1..][i].id != ts[1..][j].id {
      assert ts[1..][i] == ts[i + 1] && ts[1..][j] == ts[j + 1];
    }
    forall i | 0 <= i < |ts[1..]| ensures ts[1..][i].id != ts[0].id {
      assert ts[1..][i] == ts[i + 1];
    }
  }

  /** With unique ids, deleting the id of the entry at `k` removes exactly
      that entry and keeps the others in order. */
  lemma {:induction false} RemoveIdAt(ts: seq<Task>, id: int, k: int)
    requires UniqueIds(ts)
    requires 0 <= k < |ts| && ts[k].id == id
    ensures RemoveId(ts, id) == ts[..k] + ts[k + 1..]
    ensures |RemoveId(ts, id)| == |ts| - 1
    decreases |ts|
  {
    var rest := ts[1..];
    if k == 0 {
      UniqueTail(ts);
      assert RemoveId(ts, id) == RemoveId(rest, id);
      assert RemoveId(rest, id) == rest;
      assert ts[..k] + ts[k + 1..] == rest;
    } else {
      assert ts[0].id != ts[k].id;
      UniqueTail(ts);
      RemoveIdAt(rest, id, k - 1);
      ConsAround(ts, k);
    }
  }

  /** Removing position k of a non-empty list, written from its tail. */
  lemma ConsAround(ts: seq<Task>, k: int)
    requires 0 < k < |ts|
    ensures ts[..k] + ts[k + 1..] == [ts[0]] + (ts[1..][..k - 1] + ts[1..][k..])
  {
  }

  /** Every entry of a subsequence is an entry of the original list. */
  lemma {:induction false} SubsequenceMembers(a: seq<Task>, s: seq<Task>, x: Task)
    requires IsSubsequence(a, s) && x in a
    ensures x in s
    decreases |s|
  {
    if a[0] == s[0] && IsSubsequence(a[1..], s[1..]) {
      if x != a[0] {
        SubsequenceMembers(a[1..], s[1..], x);
      }
    } else {
      SubsequenceMembers(a, s[1..], x);
    }
  }

  /** Dropping entries keeps the ids unique. */
  lemma {:induction false} SubsequenceKeepsUnique(a: seq<Task>, s: seq<Task>)
    requires IsSubsequence(a, s) && UniqueIds(s)
    ensures UniqueIds(a)
    decreases |s|
  {
    if a != [] {
      UniqueTail(s);
      if a[0] == s[0] && IsSubsequence(a[1..], s[1..]) {
        SubsequenceKeepsUnique(a[1..], s[1..]);
        forall j | 0 < j < |a| ensures a[0].id != a[j].id {
          assert a[j] == a[1..][j - 1];
          SubsequenceMembers(a[1..], s[1..], a[j]);
        }
      } else {
        SubsequenceKeepsUnique(a, s[1..]);
      }
    }
  }

  /** A successful delete keeps the ids unique. */
  lemma RemoveIdKeepsUnique(ts: seq<Task>, id: int)
    requires UniqueIds(ts)
    ensures UniqueIds(RemoveId(ts, id))
  {
    SubsequenceKeepsUnique(RemoveId(ts, id), ts);
  }

  /** A successful add keeps the ids unique when the service hands out an
      id that is not yet in the list. */
  lemma AppendKeepsUnique(ts: seq<Task>, t: Task)
    requires UniqueIds(ts)
    requires forall i :: 0 <= i < |ts| ==> ts[i].id != t.id
    ensures UniqueIds(ts + [t])
  {
  }
}
