/**
 fwd/inc/linkedlists.h: singly linked lists whose entries carry the link. The ghost field `spine` is the
 sequence of entries that a list represents.
 */
module LinkedLists {

  class Entry<T> {
    const data: T
    var next: Entry?<T>

    constructor (data: T)
      ensures this.data == data && next == null
    {
      this.data := data;
      next := null;
    }
  }

  predicate Distinct<T>(s: seq<Entry<T>>) {
    forall i, j :: 0 <= i < j < |s| ==> s[i] != s[j]
  }

  function Without<T>(s: seq<T>, k: nat): seq<T>
    requires k < |s|
  {
    s[..k] + s[k + 1..]
  }

  /** `e` after position `k`. */
  function With<T>(s: seq<T>, k: nat, e: T): seq<T>
    requires k < |s|
  {
    s[..k + 1] + [e] + s[k + 1..]
  }

  lemma WithEntry<T>(s: seq<Entry<T>>, k: nat, e: Entry<T>)
    requires Distinct(s) && k < |s| && e !in s
    ensures Distinct(With(s, k, e)) && |With(s, k, e)| == |s| + 1
    ensures forall i :: 0 <= i <= |s| ==>
            With(s, k, e)[i] == (if i <= k then s[i] else if i == k + 1 then e else s[i - 1])
  {
  }

  lemma WithMembers<T>(s: seq<Entry<T>>, k: nat, e: Entry<T>)
    requires k < |s|
    ensures |With(s, k, e)| == |s| + 1 && forall x :: x in With(s, k, e) <==> x in s || x == e
  {
    assert s == s[..k + 1] + s[k + 1..];
  }

  lemma WithoutEntry<T>(s: seq<Entry<T>>, k: nat)
    requires Distinct(s) && k < |s|
    ensures Distinct(Without(s, k)) && |Without(s, k)| == |s| - 1
    ensures forall i :: 0 <= i < |s| - 1 ==> Without(s, k)[i] == (if i < k then s[i] else s[i + 1])
    ensures forall i :: 0 <= i < |s| - 1 ==> Without(s, k)[i] != s[k]
  {
  }

  /** The entries whose data `p` selects, or does not select, in their order. */
  function Filter<T>(s: seq<Entry<T>>, p: T -> bool, selected: bool): seq<Entry<T>> {
    if s == [] then []
    else Filter(s[..|s| - 1], p, selected) + (if p(s[|s| - 1].data) == selected then [s[|s| - 1]] else [])
  }

  lemma FilterJoins<T>(s: seq<Entry<T>>, e: Entry<T>, p: T -> bool, selected: bool)
    ensures Filter(s + [e], p, selected) == Filter(s, p, selected) + (if p(e.data) == selected then [e] else [])
  {
    assert (s + [e])[..|s|] == s;
  }

  /** The entries of `s` at the positions `ks`, which are those of all entries that `p` selects, or does not select. */
  ghost predicate Picks<T>(s: seq<Entry<T>>, p: T -> bool, selected: bool, ks: seq<nat>, picked: seq<Entry<T>>) {
    && |ks| == |picked|
    && (forall a, b :: 0 <= a < b < |ks| ==> ks[a] < ks[b])
    && (forall i :: i in ks <==> 0 <= i < |s| && p(s[i].data) == selected)
    && (forall k :: 0 <= k < |ks| ==> ks[k] < |s| && picked[k] == s[ks[k]])
  }

  lemma PicksNext<T>(s: seq<Entry<T>>, e: Entry<T>, p: T -> bool, selected: bool, ks: seq<nat>, picked: seq<Entry<T>>)
    requires Picks(s, p, selected, ks, picked)
    ensures if p(e.data) == selected then Picks(s + [e], p, selected, ks + [|s|], picked + [e])
            else Picks(s + [e], p, selected, ks, picked)
  {
    assert forall k :: 0 <= k < |ks| ==> ks[k] in ks;
  }

  /** Filter, entry by entry: its k-th entry is the k-th one of those that `p` selects, or does not select. */
  lemma {:induction false} FilterInOrder<T>(s: seq<Entry<T>>, p: T -> bool, selected: bool) returns (ks: seq<nat>)
    ensures Picks(s, p, selected, ks, Filter(s, p, selected))
  {
    ks := [];
    if s != [] {
      var (front, e) := (s[..|s| - 1], s[|s| - 1]);
      ks := FilterInOrder(front, p, selected);
      hide Picks;
      assert s == front + [e];
      PicksNext(front, e, p, selected, ks, Filter(front, p, selected));
      if p(e.data) == selected {
        ks := ks + [|front|];
      }
    }
  }

  lemma KeptNext<T>(s: seq<Entry<T>>, e: Entry<T>, p: T -> bool)
    ensures Filter(s + [e], p, false) == if p(e.data) then Filter(s, p, false) else Filter(s, p, false) + [e]
    ensures |s + [e]| == |s| + 1
  {
    FilterJoins(s, e, p, false);
  }

  /** What the traversal has selected, or not, after `i` entries. */
  function Passed<T>(all: seq<Entry<T>>, i: nat, p: T -> bool, selected: bool): seq<Entry<T>>
    requires i <= |all|
  {
    Filter(all[..i], p, selected)
  }

  lemma PassedNext<T>(all: seq<Entry<T>>, i: nat, p: T -> bool)
    requires i < |all|
    ensures Passed(all, i + 1, p, true) ==
            if p(all[i].data) then Passed(all, i, p, true) + [all[i]] else Passed(all, i, p, true)
    ensures Passed(all, i + 1, p, false) ==
            if p(all[i].data) then Passed(all, i, p, false) else Passed(all, i, p, false) + [all[i]]
  {
    assert all[..i + 1][..i] == all[..i];
  }

  lemma FilterNothing<T>(p: T -> bool, selected: bool)
    ensures Filter([], p, selected) == []
  {
  }

  class List<T> {
    var first: Entry?<T>
    var last: Entry?<T>
    var size: int
    ghost var spine: seq<Entry<T>>

    /** The links go through the spine and end in null; `first` and `last` are its ends. */
    ghost predicate Linked()
      reads this, spine
    {
      && Distinct(spine)
      && first == (if spine == [] then null else spine[0])
      && last == (if spine == [] then null else spine[|spine| - 1])
      && forall i :: 0 <= i < |spine| ==> spine[i].next == After(i)
    }

    /** The same but for the link of the last entry. */
    ghost predicate Chained()
      reads this, spine
    {
      && Distinct(spine)
      && first == (if spine == [] then null else spine[0])
      && last == (if spine == [] then null else spine[|spine| - 1])
      && forall i :: 0 <= i < |spine| - 1 ==> spine[i].next == spine[i + 1]
    }

    lemma LinkedIsChained()
      ensures Linked() ==> Chained()
    {
    }

    ghost function After(i: nat): Entry?<T>
      reads this
      requires i < |spine|
    {
      if i + 1 < |spine| then spine[i + 1] else null
    }

    ghost function Before(i: nat): Entry?<T>
      reads this
      requires i <= |spine|
    {
      if i > 0 then spine[i - 1] else null
    }

    ghost predicate Valid()
      reads this, spine
    {
      Linked() && size == |spine|
    }

    /** LGW_LIST_HEAD_INIT. */
    constructor ()
      ensures Valid() && spine == []
    {
      first, last, size, spine := null, null, 0, [];
    }

    /** LGW_LIST_INSERT_HEAD. */
    method InsertHead(elm: Entry<T>)
      requires Linked() && elm !in spine
      modifies this, elm
      ensures Linked() && spine == [elm] + old(spine) && size == old(size) + 1
    {
      elm.next := first;
      first := elm;
      if last == null {
        last := elm;
      }
      size := size + 1;
      spine := [elm] + spine;
    }

    /**
     LGW_LIST_INSERT_TAIL. The link of the appended entry is not modified: what it leads to is appended too, until the
     next call, which finds the entry at the end and overwrites its link.
     */
    method InsertTail(elm: Entry<T>)
      requires Chained() && elm !in spine
      modifies this, last
      ensures Chained() && spine == old(spine) + [elm] && size == old(size) + 1 && elm.next == old(elm.next)
      ensures elm.next == null ==> Linked()
    {
      if first == null {
        first := elm;
        last := elm;
      } else {
        last.next := elm;
        last := elm;
      }
      size := size + 1;
      spine := spine + [elm];
    }

    /** `elm` stands after position `k` in the new spine. */
    ghost method Splice(k: nat, elm: Entry<T>)
      requires Distinct(spine) && k < |spine| && elm !in spine
      requires first == spine[0] && last == (if k + 1 == |spine| then elm else spine[|spine| - 1])
      requires elm.next == After(k) && spine[k].next == elm
      requires forall i :: 0 <= i < |spine| && i != k ==> spine[i].next == After(i)
      modifies this`spine
      ensures Linked() && spine == old(With(spine, k, elm))
    {
      WithEntry(spine, k, elm);
      spine := With(spine, k, elm);
      hide With;
    }

    /** LGW_LIST_INSERT_AFTER. */
    method InsertAfter(listelm: Entry<T>, elm: Entry<T>, ghost k: nat)
      requires Linked() && elm !in spine && k < |spine| && spine[k] == listelm
      modifies this, listelm, elm
      ensures Linked() && spine == old(With(spine, k, elm)) && size == old(size) + 1
    {
      elm.next := listelm.next;
      listelm.next := elm;
      if last == listelm {
        last := elm;
      }
      size := size + 1;
      Splice(k, elm);
    }

    /** LGW_LIST_REMOVE_HEAD, which leaves `size` alone. */
    method RemoveHead() returns (cur: Entry?<T>)
      requires Linked()
      modifies this, spine
      ensures Linked() && size == old(size)
      ensures old(spine) == [] ==> cur == null && spine == []
      ensures old(spine) != [] ==> cur == old(spine)[0] && spine == old(spine)[1..] && cur.next == null
    {
      cur := first;
      if cur != null {
        first := cur.next;
        cur.next := null;
        if last == cur {
          last := null;
        }
        spine := spine[1..];
      }
    }

    /** Position `k` is not in the new spine. */
    ghost method Cut(k: nat)
      requires Distinct(spine) && k < |spine|
      requires first == (if k == 0 then After(0) else spine[0])
      requires last == (if k + 1 == |spine| then Before(k) else spine[|spine| - 1])
      requires forall i :: 0 <= i < |spine| && i != k ==> spine[i].next == (if i + 1 == k then After(k) else After(i))
      modifies this`spine
      ensures Linked() && spine == old(Without(spine, k))
    {
      WithoutEntry(spine, k);
      spine := Without(spine, k);
    }

    /** LGW_LIST_REMOVE_CURRENT, at position `k` of a traversal; `size` is left alone. */
    method RemoveCurrent(prev: Entry?<T>, current: Entry<T>, next: Entry?<T>, ghost k: nat)
      requires Linked() && k < |spine| && prev == Before(k) && current == spine[k] && next == After(k)
      modifies this, prev, current
      ensures Linked() && spine == old(Without(spine, k)) && current.next == null && size == old(size)
    {
      current.next := null;
      if prev != null {
        prev.next := next;
      } else {
        first := next;
      }
      if next == null {
        last := prev;
      }
      Cut(k);
    }

    /** The search loop of LGW_LIST_REMOVE for an entry that is not the first: its predecessor, or null. */
    method Predecessor(elm: Entry<T>) returns (prev: Entry?<T>, ghost k: nat)
      requires Linked() && first != elm
      ensures prev == null ==> elm !in spine
      ensures prev != null ==> 0 < k < |spine| && spine[k] == elm && prev == spine[k - 1]
    {
      prev := first;
      k := 1;
      while prev != null && prev.next != elm
        invariant 1 <= k <= |spine| + 1
        invariant prev == if k <= |spine| then spine[k - 1] else null
        invariant forall i :: 0 <= i < k && i < |spine| ==> spine[i] != elm
        decreases |spine| - k
      {
        prev := prev.next;
        k := k + 1;
      }
    }

    /** LGW_LIST_REMOVE: null, and nothing changed, if the entry is null or not in the list. */
    method Remove(elm: Entry?<T>) returns (r: Entry?<T>)
      requires Linked()
      modifies this, spine
      ensures Linked()
      ensures elm != null && elm in old(spine) ==>
                r == elm && elm.next == null && size == old(size) - 1
                && exists k: nat :: k < |old(spine)| && old(spine)[k] == elm && spine == Without(old(spine), k)
      ensures elm == null || elm !in old(spine) ==>
                r == null && spine == old(spine) && size == old(size) && first == old(first) && last == old(last)
                && forall e :: e in spine ==> e.next == old(e.next)
    {
      r := elm;
      if elm != null {
        if first == elm {
          first := elm.next;
          elm.next := null;
          if last == elm {
            last := null;
          }
          size := size - 1;
          Cut(0);
          assert old(spine)[0] == elm;
        } else {
          var prev, k := Predecessor(elm);
          if prev != null {
            RemoveAfter(prev, elm, k);
          } else {
            r := null;
          }
        }
      }
    }

    method RemoveAfter(prev: Entry<T>, elm: Entry<T>, ghost k: nat)
      requires Linked() && 0 < k < |spine| && spine[k] == elm && spine[k - 1] == prev
      modifies this, spine
      ensures Linked() && spine == old(Without(spine, k)) && elm.next == null && size == old(size) - 1
    {
      prev.next := elm.next;
      elm.next := null;
      if last == elm {
        last := prev;
      }
      size := size - 1;
      Cut(k);
    }

    /** The variables of a safe traversal that has passed `i` of the entries `all` and kept `kept` of them. */
    ghost predicate Traversing(all: seq<Entry<T>>, i: nat, kept: seq<Entry<T>>,
                               prev: Entry?<T>, current: Entry?<T>, next: Entry?<T>)
      reads this, spine
    {
      && Linked() && i <= |all| && spine == kept + all[i..] && (forall e :: e in spine ==> e in all)
      && prev == Before(|kept|)
      && current == (if i < |all| then all[i] else null)
      && (current != null ==> next == After(|kept|))
    }

    /** The body: the current entry is removed if `doomed`, and `stays` is what `__list_current` becomes. */
    method Visit(doomed: bool, prev: Entry?<T>, current: Entry<T>, next: Entry?<T>,
                 ghost all: seq<Entry<T>>, ghost i: nat, ghost kept: seq<Entry<T>>) returns (stays: Entry?<T>)
      requires Traversing(all, i, kept, prev, current, next)
      modifies this, prev, current
      ensures size == old(size) && (doomed ==> current.next == null)
      ensures Traversing(all, i + 1, if doomed then kept else kept + [current], stays, next,
                         if next == null then null else next.next)
    {
      CurrentIs(all, i, kept, prev, current, next);
      PastCurrent(all, i, kept, current);
      hide Linked, After, Before, Without;
      stays := current;
      if doomed {
        RemoveCurrent(prev, current, next, |kept|);
        stays := prev;
        Advances(all, i, kept, stays, next);
      } else {
        Advances(all, i, kept + [current], stays, next);
      }
    }

    lemma Advances(all: seq<Entry<T>>, i: nat, kept: seq<Entry<T>>, prev: Entry?<T>, next: Entry?<T>)
      requires Linked() && i < |all| && spine == kept + all[i + 1..] && forall e :: e in kept ==> e in all
      requires prev == Before(|kept|) && next == (if i + 1 < |all| then all[i + 1] else null)
      ensures Traversing(all, i + 1, kept, prev, next, if next == null then null else next.next)
    {
    }

    lemma PastCurrent(all: seq<Entry<T>>, i: nat, kept: seq<Entry<T>>, current: Entry<T>)
      requires i < |all| && current == all[i] && spine == kept + all[i..]
      ensures |kept| < |spine| && spine[|kept|] == current && Before(|kept| + 1) == current
              && |kept + [current]| == |kept| + 1
      ensures kept + [current] + all[i + 1..] == spine && Without(spine, |kept|) == kept + all[i + 1..]
      ensures After(|kept|) == if i + 1 < |all| then all[i + 1] else null
    {
    }

    /** The traversal is over when there is no current entry. */
    lemma Traversed(all: seq<Entry<T>>, i: nat, kept: seq<Entry<T>>, prev: Entry?<T>, next: Entry?<T>)
      requires Traversing(all, i, kept, prev, null, next)
      ensures Linked() && i == |all| && spine == kept
    {
    }

    lemma TraversalStarts(next: Entry?<T>)
      requires Linked() && next == (if first != null then first.next else null)
      ensures Traversing(spine, 0, [], null, first, next)
    {
    }

    /**
     A traversal between LGW_LIST_TRAVERSE_SAFE_BEGIN and END whose body removes the current entry where `p`
     says so. Every entry is visited once, in order; the others stay, in order. `size` is left alone.
     */
    method RemoveWhere(p: T -> bool) returns (visited: seq<Entry<T>>)
      requires Linked()
      modifies this, spine
      ensures Linked() && visited == old(spine) && spine == Filter(old(spine), p, false) && size == old(size)
    {
      ghost var all := spine;
      var prev: Entry?<T> := null;
      var current := first;
      var next := if current != null then current.next else null;
      visited := [];
      TraversalStarts(next);
      FilterNothing(p, false);
      hide Traversing, Linked, Filter;
      while current != null
        invariant |visited| <= |all| && visited == all[..|visited|] && size == old(size)
        invariant Traversing(all, |visited|, Filter(visited, p, false), prev, current, next)
        decreases |all| - |visited|
      {
        CurrentIs(all, |visited|, Filter(visited, p, false), prev, current, next);
        prev, current, next, visited := VisitNext(p, prev, current, next, visited, all);
      }
      Traversed(all, |visited|, Filter(visited, p, false), prev, next);
    }

    /** One turn of the loop. */
    method VisitNext(p: T -> bool, prev: Entry?<T>, current: Entry<T>, next: Entry?<T>, visited: seq<Entry<T>>,
                     ghost all: seq<Entry<T>>)
      returns (prev': Entry?<T>, current': Entry?<T>, next': Entry?<T>, visited': seq<Entry<T>>)
      requires |visited| <= |all| && visited == all[..|visited|]
      requires Traversing(all, |visited|, Filter(visited, p, false), prev, current, next)
      modifies this, prev, current
      ensures size == old(size) && |visited'| == |visited| + 1 <= |all| && visited' == all[..|visited'|]
      ensures Traversing(all, |visited'|, Filter(visited', p, false), prev', current', next')
    {
      hide Traversing, Linked, Filter;
      ghost var (i, kept) := (|visited|, Filter(visited, p, false));
      CurrentIs(all, i, kept, prev, current, next);
      visited' := visited + [current];
      KeptNext(visited, current, p);
      prev' := Visit(p(current.data), prev, current, next, all, i, kept);
      current' := next;
      next' := if current' != null then current'.next else null;
    }

    lemma CurrentIs(all: seq<Entry<T>>, i: nat, kept: seq<Entry<T>>, prev: Entry?<T>, current: Entry<T>,
                    next: Entry?<T>)
      requires Traversing(all, i, kept, prev, current, next)
      ensures i < |all| && current == all[i] && all[..i + 1] == all[..i] + [current]
      ensures forall e :: e in kept ==> e in all
      ensures prev != null ==> prev in all
    {
      assert forall e :: e in kept ==> e in spine;
    }

    /** The other list is apart from this one and has received `moved`. */
    ghost predicate Receiving(other: List<T>, before: seq<Entry<T>>, moved: seq<Entry<T>>)
      reads this, other, other.spine
    {
      && other != this && other.Linked() && other.spine == before + moved
      && forall e :: e in spine ==> e !in other.spine
    }

    /** The first half of LGW_LIST_MOVE_CURRENT: the entry is in neither list. */
    method Extract(other: List<T>, prev: Entry?<T>, current: Entry<T>, next: Entry?<T>, ghost k: nat,
                   ghost before: seq<Entry<T>>, ghost moved: seq<Entry<T>>)
      requires Linked() && k < |spine| && prev == Before(k) && current == spine[k] && next == After(k)
      requires Receiving(other, before, moved)
      modifies this, prev, current
      ensures Linked() && spine == old(Without(spine, k)) && size == old(size)
      ensures Receiving(other, before, moved) && other.size == old(other.size)
      ensures current !in spine && current.next == null && current !in other.spine && other.last == old(other.last)
    {
      Apart(other, k);
      RemoveCurrent(prev, current, next, k);
    }

    lemma Apart(other: List<T>, k: nat)
      requires Distinct(spine) && k < |spine| && forall e :: e in spine ==> e !in other.spine
      ensures spine[k] !in Without(spine, k) && spine[k] !in other.spine
      ensures forall e :: e in Without(spine, k) ==> e !in other.spine
      ensures Before(k) != null ==> Before(k) !in other.spine
    {
      WithoutEntry(spine, k);
    }

    lemma LastApart(other: List<T>)
      requires other.Linked() && forall e :: e in spine ==> e !in other.spine
      ensures other.last != null ==> other.last !in spine
    {
    }

    /** The second half. */
    method Append(other: List<T>, elm: Entry<T>, ghost before: seq<Entry<T>>, ghost moved: seq<Entry<T>>)
      requires Linked() && Receiving(other, before, moved)
      requires elm !in spine && elm.next == null && elm !in other.spine
      modifies other, other.last
      ensures Linked() && spine == old(spine) && size == old(size)
      ensures Receiving(other, before, moved + [elm]) && other.size == old(other.size) + 1 && other.last == elm
    {
      LastApart(other);
      other.LinkedIsChained();
      hide Linked, Chained;
      other.InsertTail(elm);
      assert before + moved + [elm] == before + (moved + [elm]);
    }

    /** LGW_LIST_MOVE_CURRENT. */
    method MoveCurrent(other: List<T>, prev: Entry?<T>, current: Entry<T>, next: Entry?<T>, ghost k: nat,
                       ghost before: seq<Entry<T>>, ghost moved: seq<Entry<T>>)
      requires Linked() && k < |spine| && prev == Before(k) && current == spine[k] && next == After(k)
      requires Receiving(other, before, moved)
      modifies this, prev, current, other, other.last
      ensures Linked() && spine == old(Without(spine, k)) && size == old(size)
      ensures Receiving(other, before, moved + [current]) && other.size == old(other.size) + 1 && other.last == current
    {
      var extracted := current;
      Extract(other, prev, current, next, k, before, moved);
      Append(other, extracted, before, moved);
    }

    /** The body of a traversal that moves the current entry if `doomed`. */
    method VisitMoving(doomed: bool, other: List<T>, prev: Entry?<T>, current: Entry<T>, next: Entry?<T>,
                       ghost all: seq<Entry<T>>, ghost i: nat, ghost kept: seq<Entry<T>>,
                       ghost before: seq<Entry<T>>, ghost moved: seq<Entry<T>>) returns (stays: Entry?<T>)
      requires Traversing(all, i, kept, prev, current, next) && Receiving(other, before, moved)
      modifies this, prev, current, other, other.last
      ensures size == old(size) && other.size == old(other.size) + (if doomed then 1 else 0)
      ensures other.last == if doomed then current else old(other.last)
      ensures Receiving(other, before, if doomed then moved + [current] else moved)
      ensures Traversing(all, i + 1, if doomed then kept else kept + [current], stays, next,
                         if next == null then null else next.next)
    {
      CurrentIs(all, i, kept, prev, current, next);
      PastCurrent(all, i, kept, current);
      hide Linked, After, Before, Without, Receiving;
      stays := current;
      if doomed {
        MoveCurrent(other, prev, current, next, |kept|, before, moved);
        stays := prev;
        Advances(all, i, kept, stays, next);
      } else {
        Advances(all, i, kept + [current], stays, next);
      }
    }

    /** A traversal that moves what `p` selects has passed `i` entries. */
    ghost predicate Moving(other: List<T>, all: seq<Entry<T>>, before: seq<Entry<T>>, base: int, p: T -> bool, i: nat,
                           prev: Entry?<T>, current: Entry?<T>, next: Entry?<T>)
      reads this, spine, other, other.spine
    {
      && i <= |all| && Traversing(all, i, Passed(all, i, p, false), prev, current, next)
      && Receiving(other, before, Passed(all, i, p, true)) && other.size == base + |Passed(all, i, p, true)|
    }

    lemma MovingCurrent(other: List<T>, all: seq<Entry<T>>, before: seq<Entry<T>>, base: int, p: T -> bool, i: nat,
                        prev: Entry?<T>, current: Entry<T>, next: Entry?<T>)
      requires Moving(other, all, before, base, p, i, prev, current, next)
      ensures i < |all| && current == all[i] && (prev != null ==> prev in all)
    {
      CurrentIs(all, i, Passed(all, i, p, false), prev, current, next);
    }

    /** One turn of the loop. */
    method MoveNext(p: T -> bool, other: List<T>, prev: Entry?<T>, current: Entry<T>, next: Entry?<T>, ghost i: nat,
                    ghost all: seq<Entry<T>>, ghost before: seq<Entry<T>>, ghost base: int)
      returns (prev': Entry?<T>, current': Entry?<T>, next': Entry?<T>)
      requires i < |all| && current == all[i] && Moving(other, all, before, base, p, i, prev, current, next)
      modifies this, prev, current, other, other.last
      ensures size == old(size)
      ensures other.last == old(other.last) || other.last == current
      ensures Moving(other, all, before, base, p, i + 1, prev', current', next')
    {
      hide Traversing, Receiving, Passed, Linked;
      ghost var (kept, moved) := (Passed(all, i, p, false), Passed(all, i, p, true));
      var doomed := p(current.data);
      PassedNext(all, i, p);
      assert Passed(all, i + 1, p, false) == if doomed then kept else kept + [current];
      assert Passed(all, i + 1, p, true) == if doomed then moved + [current] else moved;
      prev' := VisitMoving(doomed, other, prev, current, next, all, i, kept, before, moved);
      current' := next;
      next' := if current' != null then current'.next else null;
    }

    lemma MoveStarts(other: List<T>, p: T -> bool, next: Entry?<T>)
      requires Linked() && other != this && other.Linked() && forall e :: e in spine ==> e !in other.spine
      requires next == (if first != null then first.next else null)
      ensures Moving(other, spine, other.spine, other.size, p, 0, null, first, next)
    {
      TraversalStarts(next);
      assert spine[..0] == [] && other.spine + [] == other.spine;
    }

    lemma Moved(other: List<T>, all: seq<Entry<T>>, before: seq<Entry<T>>, base: int, p: T -> bool, i: nat,
                prev: Entry?<T>, next: Entry?<T>)
      requires Moving(other, all, before, base, p, i, prev, null, next)
      ensures Linked() && i == |all| && spine == Filter(all, p, false)
      ensures other.Linked() && other.spine == before + Filter(all, p, true)
      ensures other.size == base + |Filter(all, p, true)|
    {
      Traversed(all, i, Passed(all, i, p, false), prev, next);
      assert all[..|all|] == all;
    }

    /** The loop, from its first test on. */
    method MoveLoop(p: T -> bool, other: List<T>, start: Entry?<T>, after: Entry?<T>,
                    ghost all: seq<Entry<T>>, ghost before: seq<Entry<T>>, ghost base: int)
      returns (prev: Entry?<T>, next: Entry?<T>, ghost i: nat)
      requires Moving(other, all, before, base, p, 0, null, start, after)
      modifies this, all, other, other.last
      ensures size == old(size) && Moving(other, all, before, base, p, i, prev, null, next)
    {
      hide *;
      i := 0;
      prev := null;
      var current := start;
      next := after;
      while current != null
        invariant size == old(size) && i <= |all|
        invariant Moving(other, all, before, base, p, i, prev, current, next)
        invariant other.last == old(other.last) || other.last in all
        decreases |all| - i
      {
        MovingCurrent(other, all, before, base, p, i, prev, current, next);
        prev, current, next := MoveNext(p, other, prev, current, next, i, all, before, base);
        i := i + 1;
      }
    }

    /** A traversal that moves the entries that `p` selects: they are appended to the other list, in their order. */
    method MoveWhere(p: T -> bool, other: List<T>)
      requires Linked() && other != this && other.Linked() && forall e :: e in spine ==> e !in other.spine
      modifies this, spine, other, other.last
      ensures Linked() && spine == Filter(old(spine), p, false) && size == old(size)
      ensures other.Linked() && other.spine == old(other.spine) + Filter(old(spine), p, true)
      ensures other.size == old(other.size) + |Filter(old(spine), p, true)|
    {
      ghost var all, before, base := spine, other.spine, other.size;
      var next := if first != null then first.next else null;
      MoveStarts(other, p, next);
      hide *;
      var prev, after, i := MoveLoop(p, other, first, next, all, before, base);
      Moved(other, all, before, base, p, i, prev, after);
    }

    // ---------- every run of the operations ----------

    /** The entries `loose` are outside the list and have no link; those of other entries outside may be stale. */
    ghost predicate Loose(universe: set<Entry<T>>, loose: set<Entry<T>>)
      reads this, universe
    {
      && (forall e :: e in spine ==> e in universe)
      && (forall e :: e in loose ==> e in universe && e !in spine && e.next == null)
    }

    method Perform(op: Operation<T>, ghost universe: set<Entry<T>>, ghost loose: set<Entry<T>>)
      requires Linked() && Loose(universe, loose) && Allowed(op, spine, loose, universe)
      modifies this, universe
      ensures Linked() && Loose(universe, NextLoose(old(spine), loose, op))
      ensures spine == Apply(old(spine), op) && size - |spine| == old(size - |spine|)
    {
      match op {
        case PushHead(e) => InsertHead(e);
        case PushTail(e) => InsertTail(e);
        case PushAfter(l, e) => PerformAfter(l, e, universe, loose);
        case Drop(e) => PerformDrop(e, universe, loose);
      }
      hide Index, With, Without;
    }

    method PerformAfter(l: Entry<T>, e: Entry<T>, ghost universe: set<Entry<T>>, ghost loose: set<Entry<T>>)
      requires Linked() && Loose(universe, loose) && l in spine && e in universe && e !in spine
      modifies this, universe
      ensures Linked() && Loose(universe, loose - {e})
      ensures spine == With(old(spine), Index(old(spine), l), e) && size - |spine| == old(size - |spine|)
    {
      ghost var k := Index(spine, l);
      ghost var before := spine;
      WithMembers(spine, k, e);
      hide With, Index, Linked, Distinct;
      InsertAfter(l, e, k);
      forall x | x in spine
        ensures x in universe
      {
        assert x in before || x == e;
      }
      forall x | x in loose - {e}
        ensures x in universe && x !in spine && x.next == null
      {
        assert x !in before && x != l;
      }
    }

    method PerformDrop(e: Entry?<T>, ghost universe: set<Entry<T>>, ghost loose: set<Entry<T>>)
      requires Linked() && Loose(universe, loose)
      modifies this, spine
      ensures Linked() && Loose(universe, NextLoose(old(spine), loose, Drop(e)))
      ensures spine == Apply(old(spine), Drop(e)) && size - |spine| == old(size - |spine|)
    {
      ghost var before := spine;
      var r := Remove(e);
      hide Linked, Distinct;
      if r != null {
        RemovedOnce(before, r);
      }
      hide Without, Index;
      forall x | x in NextLoose(before, loose, Drop(e))
        ensures x in universe && x !in spine && x.next == null
      {
        assert x != r ==> x !in before;
      }
    }

    /**
     After any run of insertions and removals the list represents the sequence that the same operations give:
     its links have no cycle and end in null, and `first`, `last` and `size` are those of the sequence.
     */
    method Run(ops: seq<Operation<T>>, ghost universe: set<Entry<T>>, ghost loose: set<Entry<T>>)
      requires Valid() && Loose(universe, loose) && AllAllowed(ops, spine, loose, universe)
      modifies this, universe
      ensures Valid() && spine == ApplyAll(old(spine), ops)
    {
      var i := 0;
      ghost var start := spine;
      ghost var free := loose;
      assert ops[0..] == ops;
      hide Linked, Loose, Apply, Allowed, NextLoose;
      while i < |ops|
        invariant 0 <= i <= |ops| && Linked() && Loose(universe, free) && size == |spine|
        invariant AllAllowed(ops[i..], spine, free, universe) && ApplyAll(spine, ops[i..]) == ApplyAll(start, ops)
      {
        assert ops[i..][0] == ops[i] && ops[i..][1..] == ops[i + 1..];
        ghost var before := spine;
        Perform(ops[i], universe, free);
        free := NextLoose(before, free, ops[i]);
        i := i + 1;
      }
    }
  }

  /** The macros of the list, with their arguments. */
  datatype Operation<T> = PushHead(elm: Entry<T>)
                        | PushTail(elm: Entry<T>)
                        | PushAfter(listelm: Entry<T>, elm: Entry<T>)
                        | Drop(victim: Entry?<T>)

  function Index<T>(s: seq<Entry<T>>, e: Entry<T>): (k: nat)
    requires e in s
    ensures k < |s| && s[k] == e
  {
    if s[0] == e then 0 else 1 + Index(s[1..], e)
  }

  lemma IndexIsUnique<T>(s: seq<Entry<T>>, e: Entry<T>)
    requires Distinct(s) && e in s
    ensures forall k :: 0 <= k < |s| && s[k] == e ==> k == Index(s, e)
  {
  }

  lemma RemovedOnce<T>(s: seq<Entry<T>>, e: Entry<T>)
    requires Distinct(s) && e in s
    ensures forall k :: 0 <= k < |s| && s[k] == e ==> k == Index(s, e)
    ensures var t := Without(s, Index(s, e)); e !in t && forall x :: x in t ==> x in s
  {
    IndexIsUnique(s, e);
    WithoutEntry(s, Index(s, e));
    hide Index, Distinct;
  }

  /** The operations on the sequence that the list represents. */
  function Apply<T>(s: seq<Entry<T>>, op: Operation<T>): seq<Entry<T>> {
    match op
    case PushHead(e) => [e] + s
    case PushTail(e) => s + [e]
    case PushAfter(l, e) => if l in s then With(s, Index(s, l), e) else s
    case Drop(e) => if e != null && e in s then Without(s, Index(s, e)) else s
  }

  function ApplyAll<T>(s: seq<Entry<T>>, ops: seq<Operation<T>>): seq<Entry<T>>
    decreases |ops|
  {
    if ops == [] then s else ApplyAll(Apply(s, ops[0]), ops[1..])
  }

  /** Which entries have no link after the operation: one that is put in has none no more, one taken out has none. */
  ghost function NextLoose<T>(s: seq<Entry<T>>, loose: set<Entry<T>>, op: Operation<T>): set<Entry<T>> {
    match op
    case PushHead(e) => loose - {e}
    case PushTail(e) => loose - {e}
    case PushAfter(_, e) => loose - {e}
    case Drop(e) => if e != null && e in s then loose + {e} else loose
  }

  /**
   An entry is inserted only while it is not in the list, and after one that is. Only the insertion at the tail asks
   for an entry without a link.
   */
  ghost predicate Allowed<T>(op: Operation<T>, s: seq<Entry<T>>, loose: set<Entry<T>>, universe: set<Entry<T>>) {
    match op
    case PushHead(e) => e in universe && e !in s
    case PushTail(e) => e in loose && e !in s
    case PushAfter(l, e) => e in universe && e !in s && l in s
    case Drop(_) => true
  }

  ghost predicate AllAllowed<T>(ops: seq<Operation<T>>, s: seq<Entry<T>>, loose: set<Entry<T>>, universe: set<Entry<T>>)
    decreases |ops|
  {
    || ops == []
    || (Allowed(ops[0], s, loose, universe)
        && AllAllowed(ops[1..], Apply(s, ops[0]), NextLoose(s, loose, ops[0]), universe))
  }
}
