/**
 The webhook's edits as JSON Patch operations (RFC 6902, sections 4.1 to 4.3).  Their
 indices are computed against the document as received; they are applied one after another.
 */
module JsonPatch {

  datatype Option<T> = None | Some(value: T)

  // ---------------------------------------------------------------- removal by position

  function RemoveAt<T>(s: seq<T>, i: nat): (r: seq<T>)
    requires i < |s|
    ensures |r| == |s| - 1
    ensures forall j :: 0 <= j < |r| ==> r[j] == if j < i then s[j] else s[j + 1]
  {
    s[..i] + s[i + 1..]
  }

  /** Remove operations in sequence; an index that does not exist fails the whole patch. */
  function RemoveSeq<T>(s: seq<T>, idxs: seq<nat>): Option<seq<T>>
    decreases |idxs|
  {
    if idxs == [] then Some(s)
    else if idxs[0] >= |s| then None
    else RemoveSeq(RemoveAt(s, idxs[0]), idxs[1..])
  }

  /** What was meant: the entries at the other positions, in order. */
  function Keep<T>(s: seq<T>, idxs: seq<nat>): seq<T> {
    if s == [] then []
    else Keep(s[..|s| - 1], idxs) + (if |s| - 1 in idxs then [] else [s[|s| - 1]])
  }

  predicate Descending(idxs: seq<nat>) {
    forall i, j :: 0 <= i < j < |idxs| ==> idxs[i] > idxs[j]
  }

  ghost predicate Distinct(idxs: seq<nat>) {
    forall i, j :: 0 <= i < j < |idxs| ==> idxs[i] != idxs[j]
  }

  ghost predicate InRange(idxs: seq<nat>, n: nat) {
    forall i :: 0 <= i < |idxs| ==> idxs[i] < n
  }

  lemma {:induction false} KeepSame<T>(s: seq<T>, idxs: seq<nat>, idxs': seq<nat>)
    requires forall p: nat :: p < |s| ==> (p in idxs <==> p in idxs')
    ensures Keep(s, idxs) == Keep(s, idxs')
  {
    if s != [] { KeepSame(s[..|s| - 1], idxs, idxs'); }
  }

  lemma {:induction false} KeepAfterRemoval<T>(s: seq<T>, i: nat, rest: seq<nat>)
    requires i < |s| && InRange(rest, i)
    ensures Keep(RemoveAt(s, i), rest) == Keep(s, [i] + rest)
    decreases |s|
  {
    var init := s[..|s| - 1];
    if i == |s| - 1 {
      assert RemoveAt(s, i) == init;
      KeepSame(init, rest, [i] + rest);
    } else {
      var r := RemoveAt(s, i);
      assert r[..|r| - 1] == RemoveAt(init, i);
      KeepAfterRemoval(init, i, rest);
      assert r[|r| - 1] == s[|s| - 1];
    }
  }

  /** Highest index first, the removals leave exactly the other entries. */
  lemma {:induction false} DescendingRemoves<T>(s: seq<T>, idxs: seq<nat>)
    requires Descending(idxs) && InRange(idxs, |s|)
    ensures RemoveSeq(s, idxs) == Some(Keep(s, idxs))
    decreases |idxs|
  {
    if idxs == [] {
      KeepNothing(s);
    } else {
      DescendingRemoves(RemoveAt(s, idxs[0]), idxs[1..]);
      KeepAfterRemoval(s, idxs[0], idxs[1..]);
      assert idxs == [idxs[0]] + idxs[1..];
    }
  }

  lemma {:induction false} KeepNothing<T>(s: seq<T>)
    ensures Keep(s, []) == s
  {
    if s != [] {
      KeepNothing(s[..|s| - 1]);
      assert s == s[..|s| - 1] + [s[|s| - 1]];
    }
  }

  // ---------------------------------------------------------------- only highest first works

  function Positions(n: nat): (s: seq<nat>)
    ensures |s| == n && forall i :: 0 <= i < n ==> s[i] == i
  {
    seq(n, i => i)
  }

  function Sum(s: seq<nat>): nat {
    if s == [] then 0 else Sum(s[..|s| - 1]) + s[|s| - 1]
  }

  lemma {:induction false} SumRemoveAt(s: seq<nat>, i: nat)
    requires i < |s|
    ensures Sum(s) == Sum(RemoveAt(s, i)) + s[i]
  {
    var init := s[..|s| - 1];
    if i == |s| - 1 {
      assert RemoveAt(s, i) == init;
    } else {
      var r := RemoveAt(s, i);
      SumRemoveAt(init, i);
      assert r[..|r| - 1] == RemoveAt(init, i);
    }
  }

  ghost predicate Increasing(s: seq<nat>) {
    forall i, j :: 0 <= i < j < |s| ==> s[i] < s[j]
  }

  lemma {:induction false} IncreasingGrows(s: seq<nat>, p: nat)
    requires Increasing(s) && p < |s|
    ensures s[p] >= p
    ensures s[p] == p ==> forall q :: 0 <= q <= p ==> s[q] == q
  {
    if p > 0 {
      IncreasingGrows(s, p - 1);
      assert s[p - 1] < s[p];
    }
  }

  lemma {:induction false} SumSplit(a: nat, s: seq<nat>)
    ensures Sum([a] + s) == a + Sum(s)
  {
    if s == [] {
      assert ([a] + s)[..0] == [];
    } else {
      SumSplit(a, s[..|s| - 1]);
      assert ([a] + s)[..|s|] == [a] + s[..|s| - 1];
    }
  }

  /**
   Removing from an increasing row takes away at least the sum of the indices; if it takes away no
   more, then each index removed the entry of that very number, which only highest-first can do.
   */
  lemma {:induction false} RemovalIsHeavy(s: seq<nat>, idxs: seq<nat>)
    requires Increasing(s) && RemoveSeq(s, idxs).Some?
    ensures Sum(s) >= Sum(RemoveSeq(s, idxs).value) + Sum(idxs)
    ensures Sum(s) == Sum(RemoveSeq(s, idxs).value) + Sum(idxs) ==>
              Descending(idxs) && (idxs != [] ==> idxs[0] < |s| && s[idxs[0]] == idxs[0])
    decreases |idxs|
  {
    if idxs != [] {
      var i := idxs[0];
      var rest := idxs[1..];
      var s' := RemoveAt(s, i);
      IncreasingGrows(s, i);
      SumRemoveAt(s, i);
      SumSplit(i, rest);
      assert idxs == [i] + rest;
      RemovalIsHeavy(s', rest);
      if Sum(s) == Sum(RemoveSeq(s, idxs).value) + Sum(idxs) && rest != [] {
        IncreasingGrows(s', rest[0]);
        assert i < |s'| ==> s'[i] != i;
        assert rest[0] < i;
        DescendingCons(i, rest);
      }
    }
  }

  lemma DescendingCons(i: nat, rest: seq<nat>)
    requires Descending(rest) && rest != [] && rest[0] < i
    ensures Descending([i] + rest)
  {
  }

  /** Taking the greatest position out of the list of indices changes nothing below it. */
  lemma TakeOut(idxs: seq<nat>, p: nat, n: nat)
    requires Distinct(idxs) && InRange(idxs, n) && p < |idxs| && idxs[p] == n - 1
    ensures Distinct(RemoveAt(idxs, p)) && InRange(RemoveAt(idxs, p), n - 1)
    ensures forall q: nat :: q < n - 1 ==> (q in idxs <==> q in RemoveAt(idxs, p))
  {
  }

  lemma SumOfPositions(n: nat)
    requires n > 0
    ensures Sum(Positions(n)) == Sum(Positions(n - 1)) + (n - 1)
  {
    assert Positions(n)[..n - 1] == Positions(n - 1);
  }

  ghost predicate Apart(t: seq<nat>, idxs: seq<nat>, n: nat) {
    && Increasing(t) && InRange(t, n) && Distinct(idxs) && InRange(idxs, n)
    && forall i :: 0 <= i < |t| ==> t[i] !in idxs
  }

  lemma TopSurvives(t: seq<nat>, idxs: seq<nat>, n: nat)
    requires n > 0 && Apart(t, idxs, n) && t != [] && t[|t| - 1] == n - 1
    ensures Apart(t[..|t| - 1], idxs, n - 1)
  {
    forall i | 0 <= i < |idxs| ensures idxs[i] < n - 1 { assert idxs[i] in idxs; }
  }

  lemma TopDoesNotSurvive(t: seq<nat>, n: nat)
    requires n > 0 && Increasing(t) && InRange(t, n) && (t == [] || t[|t| - 1] != n - 1)
    ensures InRange(t, n - 1)
  {
    forall i | 0 <= i < |t| ensures t[i] < n - 1 { assert t[i] <= t[|t| - 1]; }
  }

  lemma TopIsRemoved(t: seq<nat>, idxs: seq<nat>, n: nat, p: nat)
    requires n > 0 && Apart(t, idxs, n) && (t == [] || t[|t| - 1] != n - 1) && p < |idxs| && idxs[p] == n - 1
    ensures Apart(t, RemoveAt(idxs, p), n - 1)
  {
    TopDoesNotSurvive(t, n);
    TakeOut(idxs, p, n);
    forall i | 0 <= i < |t| ensures t[i] !in RemoveAt(idxs, p) { assert t[i] !in idxs; }
  }

  lemma TopIsNeither(t: seq<nat>, idxs: seq<nat>, n: nat)
    requires n > 0 && Apart(t, idxs, n) && (t == [] || t[|t| - 1] != n - 1) && n - 1 !in idxs
    ensures Apart(t, idxs, n - 1)
  {
    TopDoesNotSurvive(t, n);
    forall i | 0 <= i < |idxs| ensures idxs[i] < n - 1 { assert idxs[i] in idxs; }
  }

  /** Together they are at most n and, if they are n, they are all the positions. */
  ghost predicate Complete(t: seq<nat>, idxs: seq<nat>, n: nat) {
    |t| + |idxs| <= n && (|t| + |idxs| == n ==> Sum(t) + Sum(idxs) == Sum(Positions(n)))
  }

  lemma AddSurvivor(t: seq<nat>, idxs: seq<nat>, n: nat)
    requires n > 0 && t != [] && t[|t| - 1] == n - 1 && Complete(t[..|t| - 1], idxs, n - 1)
    ensures Complete(t, idxs, n)
  {
    SumOfPositions(n);
  }

  lemma AddRemoved(t: seq<nat>, idxs: seq<nat>, n: nat, p: nat)
    requires n > 0 && p < |idxs| && idxs[p] == n - 1 && Complete(t, RemoveAt(idxs, p), n - 1)
    ensures Complete(t, idxs, n)
  {
    SumOfPositions(n);
    SumRemoveAt(idxs, p);
  }

  lemma NothingBelow(t: seq<nat>, n: nat)
    requires InRange(t, n)
    ensures n == 0 ==> t == []
  {
    assert |t| > 0 ==> t[0] < n;
  }

  /** Survivors and removed positions do not overlap. */
  lemma {:induction false} SurvivorsAndRemoved(t: seq<nat>, idxs: seq<nat>, n: nat)
    requires Apart(t, idxs, n)
    ensures Complete(t, idxs, n)
    decreases n
  {
    if n == 0 {
      NothingBelow(t, n);
      NothingBelow(idxs, n);
    } else if t != [] && t[|t| - 1] == n - 1 {
      TopSurvives(t, idxs, n);
      SurvivorsAndRemoved(t[..|t| - 1], idxs, n - 1);
      AddSurvivor(t, idxs, n);
    } else if n - 1 in idxs {
      var p :| 0 <= p < |idxs| && idxs[p] == n - 1;
      TopIsRemoved(t, idxs, n, p);
      SurvivorsAndRemoved(t, RemoveAt(idxs, p), n - 1);
      AddRemoved(t, idxs, n, p);
    } else {
      TopIsNeither(t, idxs, n);
      SurvivorsAndRemoved(t, idxs, n - 1);
    }
  }

  /** The entries of s at the positions t. */
  function At<T>(s: seq<T>, t: seq<nat>): (r: seq<T>)
    requires InRange(t, |s|)
    ensures |r| == |t| && forall i :: 0 <= i < |t| ==> r[i] == s[t[i]]
  {
    seq(|t|, i requires 0 <= i < |t| => s[t[i]])
  }

  /** Removal does not look at the entries: what survives of any list is what survives of its positions. */
  lemma {:induction false} RemovalFollowsPositions<T>(s: seq<T>, t: seq<nat>, idxs: seq<nat>)
    requires InRange(t, |s|) && Increasing(t)
    ensures RemoveSeq(At(s, t), idxs).Some? <==> RemoveSeq(t, idxs).Some?
    ensures RemoveSeq(t, idxs).Some? ==>
              var t' := RemoveSeq(t, idxs).value;
              && |t'| == |t| - |idxs| && Increasing(t') && InRange(t', |s|)
              && RemoveSeq(At(s, t), idxs).value == At(s, t')
    decreases |idxs|
  {
    if idxs != [] && idxs[0] < |t| {
      var t1 := RemoveAt(t, idxs[0]);
      assert RemoveAt(At(s, t), idxs[0]) == At(s, t1);
      RemovalFollowsPositions(s, t1, idxs[1..]);
    }
  }

  /** The positions of s that survive the removals, in order. */
  lemma Survivors<T>(s: seq<T>, idxs: seq<nat>) returns (t: seq<nat>)
    requires RemoveSeq(s, idxs).Some?
    ensures RemoveSeq(Positions(|s|), idxs) == Some(t)
    ensures Increasing(t) && InRange(t, |s|) && |t| == |s| - |idxs|
    ensures RemoveSeq(s, idxs).value == At(s, t)
  {
    assert At(s, Positions(|s|)) == s;
    RemovalFollowsPositions(s, Positions(|s|), idxs);
    t := RemoveSeq(Positions(|s|), idxs).value;
  }

  lemma {:induction false} KeptIsElsewhere<T>(s: seq<T>, idxs: seq<nat>, i: nat)
    requires i < |Keep(s, idxs)|
    ensures exists j :: 0 <= j < |s| && j !in idxs && s[j] == Keep(s, idxs)[i]
  {
    var n := |s| - 1;
    if i < |Keep(s[..n], idxs)| {
      KeptIsElsewhere(s[..n], idxs, i);
      var j :| 0 <= j < n && j !in idxs && s[..n][j] == Keep(s[..n], idxs)[i];
      assert s[j] == Keep(s, idxs)[i];
    } else {
      assert s[n] == Keep(s, idxs)[i];
    }
  }

  /** No entry at a removed position occurs anywhere else in the list. */
  ghost predicate Unrepeated<T>(s: seq<T>, idxs: seq<nat>)
    requires InRange(idxs, |s|)
  {
    forall i, j :: 0 <= i < |idxs| && 0 <= j < |s| && j != idxs[i] ==> s[j] != s[idxs[i]]
  }

  /** If the removals left what was meant, the survivors are all the positions not named. */
  lemma RightSurvivors<T>(s: seq<T>, idxs: seq<nat>, t: seq<nat>)
    requires InRange(idxs, |s|) && Unrepeated(s, idxs)
    requires InRange(t, |s|) && At(s, t) == Keep(s, idxs)
    ensures forall i :: 0 <= i < |t| ==> t[i] !in idxs
  {
    forall i | 0 <= i < |t| ensures t[i] !in idxs {
      KeptIsElsewhere(s, idxs, i);
      var j :| 0 <= j < |s| && j !in idxs && s[j] == Keep(s, idxs)[i];
    }
  }

  /**
   For any list and any distinct positions in it whose entries do not occur elsewhere: the removals leave
   exactly the other entries, in order, iff they are emitted highest position first.
   */
  lemma RemovalIsRightIff<T>(s: seq<T>, idxs: seq<nat>)
    requires Distinct(idxs) && InRange(idxs, |s|) && Unrepeated(s, idxs)
    ensures RemoveSeq(s, idxs) == Some(Keep(s, idxs)) <==> Descending(idxs)
  {
    if Descending(idxs) {
      DescendingRemoves(s, idxs);
    } else if RemoveSeq(s, idxs) == Some(Keep(s, idxs)) {
      var t := Survivors(s, idxs);
      RightSurvivors(s, idxs, t);
      SurvivorsAndRemoved(t, idxs, |s|);
      RemovalIsHeavy(Positions(|s|), idxs);
    }
  }
}
