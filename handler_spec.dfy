/**
 What the handler's operations do to its list of active states and to the
 sequence of hook calls, stated as functions on sequences, with the lemmas
 that say what those functions mean.
 */
module HandlerSpec {
  import opened States

  /** One call of a lifecycle hook, recorded by the handler that made it.
      `Entered` also records the context the state was bound to. `Entered` and
      `Exited` record whether an entry with the state's id was in the active
      list when the hook ran. */
  datatype Event =
    | Entered(id: nat, context: object?, registered: bool)
    | Executed(id: nat)
    | Exited(id: nat, registered: bool)

  /** The exit call for entry `i` of `s`, made while `s` is the active list:
      the entry is listed when its hook runs. */
  function ExitOf(s: seq<State>, i: nat): (e: Event)
    requires i < |s|
    ensures e == Exited(s[i].StateID, true)
  {
    Exited(s[i].StateID, s[i] in s)
  }

  /** No two entries of `s` share an id. */
  predicate UniqueIds(s: seq<State>)
  {
    forall i, j :: 0 <= i < |s| && 0 <= j < |s| && s[i].StateID == s[j].StateID ==> i == j
  }

  /** The index of the first entry whose id is `id`, or `|s|` when there is none. */
  function FindId(s: seq<State>, id: nat): (k: nat)
    ensures k <= |s|
    ensures k < |s| ==> s[k].StateID == id
    ensures forall j :: 0 <= j < k ==> s[j].StateID != id
  {
    if s == [] then 0
    else if s[0].StateID == id then 0
    else 1 + FindId(s[1..], id)
  }

  /** The list after removing the first entry whose id is `id` (unchanged when
      there is none). */
  function WithoutId(s: seq<State>, id: nat): (r: seq<State>)
    ensures |r| == (if FindId(s, id) < |s| then |s| - 1 else |s|)
    ensures forall j :: 0 <= j < |r| && j < FindId(s, id) ==> r[j] == s[j]
  {
    var k := FindId(s, id);
    if k == |s| then s else s[..k] + s[k + 1..]
  }

  /** The entries of `s` that are not of variant `v`, in their original order. */
  function WithoutVariant(s: seq<State>, v: Variant): (r: seq<State>)
    ensures |r| <= |s|
  {
    if s == [] then []
    else (if s[0].Kind == v then [] else [s[0]]) + WithoutVariant(s[1..], v)
  }

  /** One exit call for each entry of variant `v`, the entry with the highest
      index first. */
  function ExitsDescending(s: seq<State>, v: Variant): (r: seq<Event>)
    ensures |r| <= |s|
    ensures forall k :: 0 <= k < |r| ==> r[k].Exited? && r[k].registered
  {
    if s == [] then []
    else ExitsDescending(s[1..], v) + (if s[0].Kind == v then [Exited(s[0].StateID, true)] else [])
  }

  /** One execute call per entry of `s`, in index order. */
  function Executions(s: seq<State>): (r: seq<Event>)
    ensures |r| == |s|
    ensures forall k :: 0 <= k < |s| ==> r[k] == Executed(s[k].StateID)
  {
    if s == [] then [] else [Executed(s[0].StateID)] + Executions(s[1..])
  }

  /** One exit call per entry of `s`, in index order. */
  function ExitsInOrder(s: seq<State>): (r: seq<Event>)
    ensures |r| == |s|
    ensures forall k :: 0 <= k < |s| ==> r[k] == Exited(s[k].StateID, true)
  {
    if s == [] then [] else [Exited(s[0].StateID, true)] + ExitsInOrder(s[1..])
  }

  // ---------------------------------------------------------------------------
  // Removal by id

  /** Removing by id drops exactly the first matching entry; every other entry
      keeps its relative order. */
  lemma WithoutIdShape(s: seq<State>, id: nat)
    ensures FindId(s, id) == |s| ==> WithoutId(s, id) == s
    ensures FindId(s, id) < |s| ==>
      var k := FindId(s, id);
      |WithoutId(s, id)| == |s| - 1 && s[k].StateID == id &&
      (forall j :: 0 <= j < k ==> WithoutId(s, id)[j] == s[j]) &&
      (forall j :: k <= j < |s| - 1 ==> WithoutId(s, id)[j] == s[j + 1])
  {
  }

  /** With unique ids, removal by id keeps exactly the entries with another id. */
  lemma WithoutIdMembers(s: seq<State>, id: nat)
    requires UniqueIds(s)
    ensures forall x :: x in WithoutId(s, id) <==> x in s && x.StateID != id
  {
  }

  /** Removal by id keeps ids unique. */
  lemma WithoutIdUnique(s: seq<State>, id: nat)
    requires UniqueIds(s)
    ensures UniqueIds(WithoutId(s, id))
  {
  }

  /** With unique ids, a second removal of the same id finds nothing. */
  lemma RemoveTwice(s: seq<State>, id: nat)
    requires UniqueIds(s)
    ensures FindId(WithoutId(s, id), id) == |WithoutId(s, id)|
  {
  }

  // ---------------------------------------------------------------------------
  // Removal by variant

  /** Removal by variant commutes with concatenation: the kept entries of a
      prefix stay in front of the kept entries of the rest. */
  lemma {:induction false} WithoutVariantAppend(s: seq<State>, t: seq<State>, v: Variant)
    ensures WithoutVariant(s + t, v) == WithoutVariant(s, v) + WithoutVariant(t, v)
  {
    if s == [] {
      assert s + t == t;
    } else {
      assert (s + t)[1..] == s[1..] + t;
      WithoutVariantAppend(s[1..], t, v);
    }
  }

  /** Removal by variant keeps exactly the entries of another variant. */
  lemma {:induction false} WithoutVariantMembers(s: seq<State>, v: Variant)
    ensures forall x :: x in WithoutVariant(s, v) <==> x in s && x.Kind != v
    ensures forall k :: 0 <= k < |WithoutVariant(s, v)| ==> WithoutVariant(s, v)[k] in s
  {
    if s != [] {
      WithoutVariantMembers(s[1..], v);
      assert forall x :: x in s <==> x == s[0] || x in s[1..];
      var r, rt := WithoutVariant(s, v), WithoutVariant(s[1..], v);
      forall k | 0 <= k < |r| ensures r[k] in s {
        if s[0].Kind != v && k == 0 {
        } else {
          var k' := if s[0].Kind == v then k else k - 1;
          assert r[k] == rt[k'];
          assert rt[k'] in s[1..];
        }
      }
    }
  }

  /** One step of the backward scan that removes entries of variant `v`: the
      list with the scanned suffix `s[i + 1..]` filtered, after index `i` is
      looked at, is the list with the suffix `s[i..]` filtered. */
  lemma BackwardScanStep(s: seq<State>, i: nat, v: Variant)
    requires i < |s|
    ensures var cur := s[..i + 1] + WithoutVariant(s[i + 1..], v);
      && cur[i] == s[i]
      && s[..i] + WithoutVariant(s[i..], v) == (if s[i].Kind == v then cur[..i] + cur[i + 1..] else cur)
    ensures ExitsDescending(s[i..], v) ==
      ExitsDescending(s[i + 1..], v) + (if s[i].Kind == v then [Exited(s[i].StateID, true)] else [])
  {
    var t := s[i..];
    assert t[0] == s[i] && t[1..] == s[i + 1..];
    var rest := WithoutVariant(s[i + 1..], v);
    assert WithoutVariant(t, v) == (if s[i].Kind == v then [] else [s[i]]) + rest;
    var cur := s[..i + 1] + rest;
    assert s[..i + 1] == s[..i] + [s[i]];
    assert cur[..i] == s[..i] && cur[i + 1..] == rest;
  }

  /** A list with no entry of variant `v` is left exactly as it is. */
  lemma {:induction false} WithoutVariantNoMatch(s: seq<State>, v: Variant)
    requires forall k :: 0 <= k < |s| ==> s[k].Kind != v
    ensures WithoutVariant(s, v) == s
  {
    if s != [] {
      WithoutVariantNoMatch(s[1..], v);
    }
  }

  /** A list with a head has unique ids exactly when its tail does and the
      head's id occurs nowhere in the tail. */
  lemma UniqueCons(x: State, t: seq<State>)
    ensures UniqueIds([x] + t) <==> UniqueIds(t) && forall y :: y in t ==> y.StateID != x.StateID
  {
    var s := [x] + t;
    if UniqueIds(s) {
      forall i, j | 0 <= i < |t| && 0 <= j < |t| && t[i].StateID == t[j].StateID ensures i == j {
        assert s[i + 1] == t[i] && s[j + 1] == t[j];
      }
      forall y | y in t ensures y.StateID != x.StateID {
        var m :| 0 <= m < |t| && t[m] == y;
        assert s[0] == x && s[m + 1] == y;
      }
    }
    if UniqueIds(t) && forall y :: y in t ==> y.StateID != x.StateID {
      forall i, j | 0 <= i < |s| && 0 <= j < |s| && s[i].StateID == s[j].StateID ensures i == j {
        if i > 0 && j > 0 {
          assert s[i] == t[i - 1] && s[j] == t[j - 1];
        }
      }
    }
  }

  /** Removal by variant keeps ids unique. */
  lemma {:induction false} WithoutVariantUnique(s: seq<State>, v: Variant)
    requires UniqueIds(s)
    ensures UniqueIds(WithoutVariant(s, v))
  {
    if s != [] {
      var t := s[1..];
      assert s == [s[0]] + t;
      UniqueCons(s[0], t);
      WithoutVariantUnique(t, v);
      WithoutVariantMembers(t, v);
      if s[0].Kind != v {
        UniqueCons(s[0], WithoutVariant(t, v));
      }
    }
  }

  /** The exit calls of a removal by variant run backwards: every entry of the
      tail `t` exits before any entry of the prefix `s`. */
  lemma {:induction false} ExitsDescendingAppend(s: seq<State>, t: seq<State>, v: Variant)
    ensures ExitsDescending(s + t, v) == ExitsDescending(t, v) + ExitsDescending(s, v)
  {
    if s == [] {
      assert s + t == t;
    } else {
      assert (s + t)[1..] == s[1..] + t;
      ExitsDescendingAppend(s[1..], t, v);
    }
  }

  /** There is exactly one exit call per removed entry. */
  lemma {:induction false} ExitsDescendingCount(s: seq<State>, v: Variant)
    ensures |ExitsDescending(s, v)| + |WithoutVariant(s, v)| == |s|
  {
    if s != [] {
      ExitsDescendingCount(s[1..], v);
    }
  }

  /** The exit calls name exactly the ids of the entries of variant `v`. */
  lemma {:induction false} ExitsDescendingIds(s: seq<State>, v: Variant, id: nat)
    ensures Exited(id, true) in ExitsDescending(s, v) <==> exists y :: y in s && y.Kind == v && y.StateID == id
  {
    if s != [] {
      ExitsDescendingIds(s[1..], v, id);
      assert forall y :: y in s <==> y == s[0] || y in s[1..];
    }
  }

  // ---------------------------------------------------------------------------
  // One tick

  /** With unique ids, every active state executes exactly once per tick. */
  lemma {:induction false} ExecutedOnce(s: seq<State>, k: nat)
    requires UniqueIds(s)
    requires k < |s|
    ensures multiset(Executions(s))[Executed(s[k].StateID)] == 1
  {
    var e := Executions(s);
    assert e == [e[0]] + Executions(s[1..]);
    var t := s[1..];
    assert UniqueIds(t) by {
      forall i, j | 0 <= i < |t| && 0 <= j < |t| && t[i].StateID == t[j].StateID ensures i == j {
        assert s[i + 1] == t[i] && s[j + 1] == t[j];
      }
    }
    if k == 0 {
      NotExecuted(t, s[0].StateID);
    } else {
      ExecutedOnce(t, k - 1);
      assert e[0] != Executed(s[k].StateID) by { assert s[k].StateID != s[0].StateID; }
    }
  }

  /** A state whose id is not in the list does not execute during a tick. */
  lemma NotExecuted(s: seq<State>, id: nat)
    requires FindId(s, id) == |s|
    ensures multiset(Executions(s))[Executed(id)] == 0
  {
  }
}
