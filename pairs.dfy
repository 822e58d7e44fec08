/**
 * Parenthesis pairs of a pattern: the `Parentheses` record, the lookup
 * `ParenthesesSlice.IsPresent`, and the specification of how the pairing
 * loop of `getParenthesesIndex` matches each ')' with a '(' and which
 * pairs the placeholders then select.
 */
module Pairs {
  import opened Bytes
  import opened Sorting

  /**
   * The positions of one '(' and of the ')' paired with it. While the
   * pairing loop runs, `closeIndex == 0` means "not closed yet".
   */
  datatype Parentheses = Parentheses(openIndex: int, closeIndex: int)

  datatype ParenthesesSlice = ParenthesesSlice(parentheses: seq<Parentheses>)
  {
    /** Whether `index` is the opening or the closing position of a stored pair. */
    method IsPresent(index: int) returns (present: bool)
      ensures present <==> Present(parentheses, index)
    {
      for k := 0 to |parentheses|
        invariant forall l :: 0 <= l < k ==> parentheses[l].openIndex != index && parentheses[l].closeIndex != index
      {
        if parentheses[k].openIndex == index || parentheses[k].closeIndex == index {
          return true;
        }
      }
      return false;
    }
  }

  ghost predicate Present(ps: seq<Parentheses>, index: int) {
    exists k :: 0 <= k < |ps| && (ps[k].openIndex == index || ps[k].closeIndex == index)
  }

  // ---------------------------------------------------------------------
  // The pairing loop, one pattern byte at a time.

  /** The last pair that is still open, or -1 when every pair is closed. */
  function LastUnclosed(ps: seq<Parentheses>): (m: int)
    ensures -1 <= m < |ps|
    ensures m >= 0 ==> ps[m].closeIndex == 0
    ensures forall l :: m < l < |ps| ==> ps[l].closeIndex != 0
  {
    if ps == [] then -1
    else if ps[|ps| - 1].closeIndex == 0 then |ps| - 1
    else LastUnclosed(ps[..|ps| - 1])
  }

  /** A ')' at position `i` closes the nearest pair that is still open, if any. */
  function CloseNearest(ps: seq<Parentheses>, i: int): seq<Parentheses> {
    var m := LastUnclosed(ps);
    if m < 0 then ps else ps[m := Parentheses(ps[m].openIndex, i)]
  }

  /** The pairs after the pattern byte `b` at position `i` has been looked at. */
  function Step(ps: seq<Parentheses>, i: int, b: byte): seq<Parentheses> {
    if b == OPEN_PAREN then ps + [Parentheses(i, 0)]
    else if b == CLOSE_PAREN then CloseNearest(ps, i)
    else ps
  }

  /** Every '(' of `p` in order, each with the position of its ')' or 0. */
  function Scan(p: seq<byte>): seq<Parentheses> {
    if p == [] then [] else Step(Scan(p[..|p| - 1]), |p| - 1, p[|p| - 1])
  }

  /** The pairs whose '(' found a ')', in their original order. */
  function Closed(ps: seq<Parentheses>): (r: seq<Parentheses>)
    ensures |r| <= |ps|
  {
    if ps == [] then []
    else Closed(ps[..|ps| - 1]) + if ps[|ps| - 1].closeIndex != 0 then [ps[|ps| - 1]] else []
  }

  /** The filter keeps exactly the pairs that found their ')'. */
  lemma {:induction false} ClosedMembers(ps: seq<Parentheses>)
    ensures forall x :: x in Closed(ps) <==> x in ps && x.closeIndex != 0
  {
    if ps != [] {
      var init := ps[..|ps| - 1];
      ClosedMembers(init);
      assert ps == init + [ps[|ps| - 1]];
    }
  }

  predicate AllPositive(vs: seq<int>) {
    forall k :: 0 <= k < |vs| ==> vs[k] >= 1
  }

  /** For each placeholder value `v` in turn, the `v`-th closed pair, when there is one. */
  function Select(temp: seq<Parentheses>, vs: seq<int>): (r: seq<Parentheses>)
    requires AllPositive(vs)
    ensures |r| <= |vs|
  {
    if vs == [] then []
    else
      var v := vs[|vs| - 1];
      Select(temp, vs[..|vs| - 1]) + if |temp| > v - 1 then [temp[v - 1]] else []
  }

  /** The selection lists, for each value `v` with a `v`-th closed pair, that pair and nothing else. */
  lemma {:induction false} SelectMembers(temp: seq<Parentheses>, vs: seq<int>)
    requires AllPositive(vs)
    ensures forall x :: x in Select(temp, vs) <==> exists k :: 0 <= k < |vs| && vs[k] <= |temp| && x == temp[vs[k] - 1]
  {
    if vs != [] {
      var init := vs[..|vs| - 1];
      var v := vs[|vs| - 1];
      var last: seq<Parentheses> := if |temp| > v - 1 then [temp[v - 1]] else [];
      SelectMembers(temp, init);
      assert Select(temp, vs) == Select(temp, init) + last;
      forall x | x in Select(temp, vs)
        ensures exists k :: 0 <= k < |vs| && vs[k] <= |temp| && x == temp[vs[k] - 1]
      {
        if x in Select(temp, init) {
          var k :| 0 <= k < |init| && init[k] <= |temp| && x == temp[init[k] - 1];
          assert vs[k] == init[k];
        } else {
          assert x in last;
          assert vs[|vs| - 1] <= |temp| && x == temp[vs[|vs| - 1] - 1];
        }
      }
      forall x, k | 0 <= k < |vs| && vs[k] <= |temp| && x == temp[vs[k] - 1]
        ensures x in Select(temp, vs)
      {
        if k < |init| {
          assert init[k] == vs[k];
          assert x in Select(temp, init);
        } else {
          assert x in last;
        }
      }
    }
  }

  /** The selection in terms of the values alone, whatever their order. */
  lemma {:induction false} SelectHas(temp: seq<Parentheses>, vs: seq<int>, x: Parentheses)
    requires AllPositive(vs)
    ensures x in Select(temp, vs) <==> exists v :: v in vs && 1 <= v <= |temp| && x == temp[v - 1]
  {
    if vs != [] {
      var n := |vs| - 1;
      var init, w := vs[..n], vs[n];
      var last: seq<Parentheses> := if |temp| > w - 1 then [temp[w - 1]] else [];
      assert vs == init + [w];
      SelectHas(temp, init, x);
      assert Select(temp, vs) == Select(temp, init) + last;
      if x in Select(temp, init) {
        var v :| v in init && 1 <= v <= |temp| && x == temp[v - 1];
        assert v in vs;
      } else if x in last {
        assert w in vs && 1 <= w <= |temp| && x == temp[w - 1];
      } else {
        forall v | v in vs && 1 <= v <= |temp| ensures x != temp[v - 1] {
          if v !in init {
            assert v == w;
          }
        }
      }
    }
  }

  /** `x` is the `v`-th of the pairs `temp` for some value `v` among `ns`. */
  ghost predicate NamedBy(x: Parentheses, temp: seq<Parentheses>, ns: seq<int>) {
    exists v :: v in ns && 1 <= v <= |temp| && x == temp[v - 1]
  }

  /** Selections by two sequences holding the same values hold the same pairs. */
  lemma SelectSameValues(temp: seq<Parentheses>, vs: seq<int>, ns: seq<int>, x: Parentheses)
    requires AllPositive(vs) && Elems(vs) == Elems(ns)
    ensures x in Select(temp, vs) <==> NamedBy(x, temp, ns)
  {
    SelectHas(temp, vs, x);
    if x in Select(temp, vs) {
      var v :| v in vs && 1 <= v <= |temp| && x == temp[v - 1];
      assert v in Elems(vs);
      assert v in ns;
    } else {
      forall v | v in ns && 1 <= v <= |temp| ensures x != temp[v - 1] {
        assert v in Elems(ns);
        assert v in vs;
      }
    }
  }

  lemma ScanStep(p: seq<byte>, i: nat)
    requires i < |p|
    ensures Scan(p[..i + 1]) == Step(Scan(p[..i]), i, p[i])
  {
    assert p[..i + 1][..i] == p[..i];
  }

  lemma ClosedStep(ps: seq<Parentheses>, i: nat)
    requires i < |ps|
    ensures Closed(ps[..i + 1]) == Closed(ps[..i]) + if ps[i].closeIndex != 0 then [ps[i]] else []
  {
    assert ps[..i + 1][..i] == ps[..i];
  }

  lemma SelectStep(temp: seq<Parentheses>, vs: seq<int>, k: nat)
    requires AllPositive(vs) && k < |vs|
    ensures AllPositive(vs[..k]) && AllPositive(vs[..k + 1])
    ensures Select(temp, vs[..k + 1]) == Select(temp, vs[..k]) + if |temp| > vs[k] - 1 then [temp[vs[k] - 1]] else []
  {
    var pre := vs[..k + 1];
    assert forall j :: 0 <= j < |pre| ==> pre[j] == vs[j];
    assert AllPositive(pre);
    assert pre[..k] == vs[..k];
    assert pre[|pre| - 1] == vs[k];
  }

  // ---------------------------------------------------------------------
  // What the pairing loop establishes.

  /** Every '(' of `p` is recorded once, in order of position. */
  ghost predicate Recorded(p: seq<byte>, ps: seq<Parentheses>) {
    (forall k :: 0 <= k < |ps| ==> 0 <= ps[k].openIndex < |p| && p[ps[k].openIndex] == OPEN_PAREN) &&
    (forall k, l :: 0 <= k < l < |ps| ==> ps[k].openIndex < ps[l].openIndex) &&
    Listed(p, ps)
  }

  /** No '(' of `p` is missing from `ps`. */
  ghost predicate Listed(p: seq<byte>, ps: seq<Parentheses>) {
    forall i :: 0 <= i < |p| && p[i] == OPEN_PAREN ==> exists k :: 0 <= k < |ps| && ps[k].openIndex == i
  }

  /** A closed pair's ')' is a ')' of `p` that follows its '('. */
  ghost predicate ClosesFollow(p: seq<byte>, ps: seq<Parentheses>) {
    forall k :: 0 <= k < |ps| && ps[k].closeIndex != 0 ==>
      0 <= ps[k].openIndex < ps[k].closeIndex < |p| && p[ps[k].closeIndex] == CLOSE_PAREN
  }

  /** A pair opened later lies wholly inside or wholly after a closed pair. */
  ghost predicate NestedAt(ps: seq<Parentheses>) {
    forall k, l :: 0 <= k < l < |ps| && ps[k].closeIndex != 0 ==>
      ps[k].closeIndex < ps[l].openIndex || (ps[l].closeIndex != 0 && ps[l].closeIndex < ps[k].closeIndex)
  }

  /** A ')' that closes nothing comes after every earlier '(' has been closed. */
  ghost predicate StrayCloses(p: seq<byte>, ps: seq<Parentheses>) {
    forall c :: 0 <= c < |p| && p[c] == CLOSE_PAREN ==>
      (exists k :: 0 <= k < |ps| && ps[k].closeIndex != 0 && ps[k].closeIndex == c) ||
      (forall k :: 0 <= k < |ps| && ps[k].openIndex < c ==> 0 < ps[k].closeIndex < c)
  }

  /** Every ')' after a '(' left open closes a '(' opened after it. */
  ghost predicate StrayOpens(p: seq<byte>, ps: seq<Parentheses>) {
    forall k, c :: 0 <= k < |ps| && ps[k].closeIndex == 0 && 0 <= ps[k].openIndex < c < |p| && p[c] == CLOSE_PAREN ==>
      exists l :: k < l < |ps| && ps[l].closeIndex == c
  }

  ghost predicate Matching(p: seq<byte>, ps: seq<Parentheses>) {
    Recorded(p, ps) && ClosesFollow(p, ps) && NestedAt(ps) && StrayCloses(p, ps) && StrayOpens(p, ps)
  }

  /** A byte that is not '(' leaves the record of the '(' complete. */
  lemma RecordedKeep(p: seq<byte>, ps: seq<Parentheses>)
    requires |p| > 0 && p[|p| - 1] != OPEN_PAREN && Recorded(p[..|p| - 1], ps)
    ensures Recorded(p, ps)
  {
    var n := |p| - 1;
    assert forall i :: 0 <= i < n ==> p[..n][i] == p[i];
  }

  /** A '(' is recorded as a new open pair at the end. */
  lemma RecordedOpen(p: seq<byte>, ps: seq<Parentheses>)
    requires |p| > 0 && p[|p| - 1] == OPEN_PAREN && Recorded(p[..|p| - 1], ps)
    ensures Recorded(p, ps + [Parentheses(|p| - 1, 0)])
  {
    var n := |p| - 1;
    var ps' := ps + [Parentheses(n, 0)];
    assert forall i :: 0 <= i < n ==> p[..n][i] == p[i];
    assert forall k :: 0 <= k < |ps| ==> ps'[k] == ps[k];
    forall i | 0 <= i < |p| && p[i] == OPEN_PAREN
      ensures exists k :: 0 <= k < |ps'| && ps'[k].openIndex == i
    {
      if i < n {
        assert p[..n][i] == OPEN_PAREN;
        var k :| 0 <= k < |ps| && ps[k].openIndex == i;
        assert ps'[k].openIndex == i;
      } else {
        assert ps'[|ps|].openIndex == i;
      }
    }
  }

  /** Closing pairs does not touch the record of the '(' positions. */
  lemma RecordedSameOpens(p: seq<byte>, ps: seq<Parentheses>, ps': seq<Parentheses>)
    requires Recorded(p, ps) && |ps'| == |ps|
    requires forall k :: 0 <= k < |ps| ==> ps'[k].openIndex == ps[k].openIndex
    ensures Recorded(p, ps')
  {
    forall i | 0 <= i < |p| && p[i] == OPEN_PAREN
      ensures exists k :: 0 <= k < |ps'| && ps'[k].openIndex == i
    {
      var k :| 0 <= k < |ps| && ps[k].openIndex == i;
      assert ps'[k].openIndex == i;
    }
  }

  lemma RecordedStep(p: seq<byte>, ps: seq<Parentheses>)
    requires |p| > 0 && Recorded(p[..|p| - 1], ps)
    ensures Recorded(p, Step(ps, |p| - 1, p[|p| - 1]))
  {
    var n := |p| - 1;
    if p[n] == OPEN_PAREN {
      RecordedOpen(p, ps);
    } else {
      RecordedKeep(p, ps);
      if p[n] == CLOSE_PAREN {
        RecordedSameOpens(p, ps, CloseNearest(ps, n));
      }
    }
  }

  lemma ClosesFollowStep(p: seq<byte>, ps: seq<Parentheses>)
    requires |p| > 0 && Recorded(p[..|p| - 1], ps) && ClosesFollow(p[..|p| - 1], ps)
    ensures ClosesFollow(p, Step(ps, |p| - 1, p[|p| - 1]))
  {
    var n := |p| - 1;
    var q := p[..n];
    assert forall i :: 0 <= i < n ==> q[i] == p[i];
  }

  lemma NestedStep(p: seq<byte>, ps: seq<Parentheses>)
    requires |p| > 0 && Recorded(p[..|p| - 1], ps) && ClosesFollow(p[..|p| - 1], ps) && NestedAt(ps)
    ensures NestedAt(Step(ps, |p| - 1, p[|p| - 1]))
  {
    var n := |p| - 1;
    if p[n] == CLOSE_PAREN && LastUnclosed(ps) >= 0 {
      var m := LastUnclosed(ps);
      var ps' := ps[m := Parentheses(ps[m].openIndex, n)];
      assert Step(ps, n, p[n]) == ps';
      forall k, l | 0 <= k < l < |ps'| && ps'[k].closeIndex != 0
        ensures ps'[k].closeIndex < ps'[l].openIndex || (ps'[l].closeIndex != 0 && ps'[l].closeIndex < ps'[k].closeIndex)
      {
        if k == m {
          assert ps'[l] == ps[l] && ps[l].closeIndex != 0;
          assert ps[l].closeIndex < n;
        } else if l == m {
          assert ps'[k] == ps[k] && ps[m].closeIndex == 0;
        } else {
          assert ps'[k] == ps[k] && ps'[l] == ps[l];
        }
      }
    }
  }

  lemma StrayClosesStep(p: seq<byte>, ps: seq<Parentheses>)
    requires |p| > 0 && Recorded(p[..|p| - 1], ps) && ClosesFollow(p[..|p| - 1], ps) && StrayCloses(p[..|p| - 1], ps)
    ensures StrayCloses(p, Step(ps, |p| - 1, p[|p| - 1]))
  {
    var n := |p| - 1;
    if p[n] == CLOSE_PAREN && LastUnclosed(ps) >= 0 {
      StrayClosesClose(p, ps);
    } else {
      StrayClosesKeep(p, ps);
    }
  }

  lemma StrayClosesKeep(p: seq<byte>, ps: seq<Parentheses>)
    requires |p| > 0 && ClosesFollow(p[..|p| - 1], ps) && StrayCloses(p[..|p| - 1], ps)
    requires p[|p| - 1] != CLOSE_PAREN || LastUnclosed(ps) < 0
    ensures StrayCloses(p, Step(ps, |p| - 1, p[|p| - 1]))
  {
    var n := |p| - 1;
    var q := p[..n];
    var ps' := Step(ps, n, p[n]);
    assert forall i :: 0 <= i < n ==> q[i] == p[i];
    assert ps' == ps || ps' == ps + [Parentheses(n, 0)];
    forall c | 0 <= c < |p| && p[c] == CLOSE_PAREN
      ensures (exists k :: 0 <= k < |ps'| && ps'[k].closeIndex != 0 && ps'[k].closeIndex == c) ||
              (forall k :: 0 <= k < |ps'| && ps'[k].openIndex < c ==> 0 < ps'[k].closeIndex < c)
    {
      if c < n {
        assert q[c] == CLOSE_PAREN;
        if exists k :: 0 <= k < |ps| && ps[k].closeIndex != 0 && ps[k].closeIndex == c {
          var k :| 0 <= k < |ps| && ps[k].closeIndex != 0 && ps[k].closeIndex == c;
          assert ps'[k] == ps[k];
        }
      }
    }
  }

  lemma StrayClosesClose(p: seq<byte>, ps: seq<Parentheses>)
    requires |p| > 0 && Recorded(p[..|p| - 1], ps) && StrayCloses(p[..|p| - 1], ps)
    requires p[|p| - 1] == CLOSE_PAREN && LastUnclosed(ps) >= 0
    ensures StrayCloses(p, Step(ps, |p| - 1, p[|p| - 1]))
  {
    var n := |p| - 1;
    var q := p[..n];
    var m := LastUnclosed(ps);
    var ps' := ps[m := Parentheses(ps[m].openIndex, n)];
    assert Step(ps, n, p[n]) == ps';
    forall c | 0 <= c < |p| && p[c] == CLOSE_PAREN
      ensures (exists k :: 0 <= k < |ps'| && ps'[k].closeIndex != 0 && ps'[k].closeIndex == c) ||
              (forall k :: 0 <= k < |ps'| && ps'[k].openIndex < c ==> 0 < ps'[k].closeIndex < c)
    {
      if c == n {
        assert ps'[m].closeIndex == c && c != 0;
      } else {
        assert q[c] == CLOSE_PAREN;
        if exists k :: 0 <= k < |ps| && ps[k].closeIndex != 0 && ps[k].closeIndex == c {
          var k :| 0 <= k < |ps| && ps[k].closeIndex != 0 && ps[k].closeIndex == c;
          assert k != m && ps'[k] == ps[k];
          assert ps'[k].closeIndex != 0 && ps'[k].closeIndex == c;
        } else {
          assert forall k :: 0 <= k < |ps| && ps[k].openIndex < c ==> 0 < ps[k].closeIndex < c;
          forall k | 0 <= k < |ps'| && ps'[k].openIndex < c ensures 0 < ps'[k].closeIndex < c {
            assert k != m && ps'[k] == ps[k];
          }
        }
      }
    }
  }

  lemma StrayOpensStep(p: seq<byte>, ps: seq<Parentheses>)
    requires |p| > 0 && Recorded(p[..|p| - 1], ps) && ClosesFollow(p[..|p| - 1], ps) && StrayOpens(p[..|p| - 1], ps)
    ensures StrayOpens(p, Step(ps, |p| - 1, p[|p| - 1]))
  {
    var n := |p| - 1;
    if p[n] == CLOSE_PAREN {
      StrayOpensClose(p, ps);
    } else {
      StrayOpensKeep(p, ps);
    }
  }

  lemma StrayOpensKeep(p: seq<byte>, ps: seq<Parentheses>)
    requires |p| > 0 && StrayOpens(p[..|p| - 1], ps)
    requires p[|p| - 1] != CLOSE_PAREN
    ensures StrayOpens(p, Step(ps, |p| - 1, p[|p| - 1]))
  {
    var n := |p| - 1;
    var q := p[..n];
    var ps' := Step(ps, n, p[n]);
    assert ps' == ps || ps' == ps + [Parentheses(n, 0)];
    forall k, c | 0 <= k < |ps'| && ps'[k].closeIndex == 0 && 0 <= ps'[k].openIndex < c < |p| && p[c] == CLOSE_PAREN
      ensures exists l :: k < l < |ps'| && ps'[l].closeIndex == c
    {
      assert c < n && k < |ps| && ps'[k] == ps[k];
      assert q[c] == p[c];
      var l :| k < l < |ps| && ps[l].closeIndex == c;
      assert ps'[l] == ps[l];
    }
  }

  lemma StrayOpensClose(p: seq<byte>, ps: seq<Parentheses>)
    requires |p| > 0 && StrayOpens(p[..|p| - 1], ps)
    requires p[|p| - 1] == CLOSE_PAREN
    ensures StrayOpens(p, Step(ps, |p| - 1, p[|p| - 1]))
  {
    var n := |p| - 1;
    var q := p[..n];
    var m := LastUnclosed(ps);
    var ps' := Step(ps, n, p[n]);
    assert |ps'| == |ps|;
    assert forall k :: 0 <= k < |ps| && k != m ==> ps'[k] == ps[k];
    forall k, c | 0 <= k < |ps'| && ps'[k].closeIndex == 0 && 0 <= ps'[k].openIndex < c < |p| && p[c] == CLOSE_PAREN
      ensures exists l :: k < l < |ps'| && ps'[l].closeIndex == c
    {
      assert m >= 0 && k != m && k < m;
      assert ps'[k] == ps[k];
      if c == n {
        assert ps'[m].closeIndex == c && c != 0;
      } else {
        assert q[c] == p[c];
        var l :| k < l < |ps| && ps[l].closeIndex == c;
        assert l != m;
        assert ps'[l] == ps[l];
      }
    }
  }

  /**
   * The pairing loop matches parentheses as a stack does: each ')' closes
   * the nearest '(' still open before it, or none when all are closed.
   */
  lemma {:induction false} ScanMatches(p: seq<byte>)
    ensures Matching(p, Scan(p))
  {
    if p != [] {
      var n := |p| - 1;
      ScanMatches(p[..n]);
      var ps := Scan(p[..n]);
      RecordedStep(p, ps);
      ClosesFollowStep(p, ps);
      NestedStep(p, ps);
      StrayClosesStep(p, ps);
      StrayOpensStep(p, ps);
    }
  }

  // ---------------------------------------------------------------------
  // Properties of the pairs that survive the filters.

  ghost predicate PairIn(p: seq<byte>, x: Parentheses) {
    0 <= x.openIndex < x.closeIndex < |p| && p[x.openIndex] == OPEN_PAREN && p[x.closeIndex] == CLOSE_PAREN
  }

  /** Every pair is a '(' of `p` and a ')' of `p` after it. */
  ghost predicate WellFormed(p: seq<byte>, rs: seq<Parentheses>) {
    forall x :: x in rs ==> PairIn(p, x)
  }

  /** Of two pairs, the one opened later lies wholly inside or wholly after the other. */
  ghost predicate Nested(rs: seq<Parentheses>) {
    forall x, y :: x in rs && y in rs && x.openIndex < y.openIndex ==>
      x.closeIndex < y.openIndex || y.closeIndex < x.closeIndex
  }

  ghost predicate OrderedByOpen(rs: seq<Parentheses>) {
    forall k, l :: 0 <= k < l < |rs| ==> rs[k].openIndex < rs[l].openIndex
  }

  /** No position is the '(' or the ')' of two different pairs. */
  ghost predicate Disjoint(rs: seq<Parentheses>) {
    forall k, l :: 0 <= k < l < |rs| ==>
      rs[k].openIndex != rs[l].openIndex && rs[k].openIndex != rs[l].closeIndex &&
      rs[k].closeIndex != rs[l].openIndex && rs[k].closeIndex != rs[l].closeIndex
  }

  lemma {:induction false} ClosedOrdered(ps: seq<Parentheses>)
    requires OrderedByOpen(ps)
    ensures OrderedByOpen(Closed(ps))
  {
    if ps != [] {
      var init := ps[..|ps| - 1];
      ClosedOrdered(init);
      ClosedMembers(init);
      forall x | x in Closed(init) ensures x.openIndex < ps[|ps| - 1].openIndex {
        var k :| 0 <= k < |init| && init[k] == x;
      }
    }
  }

  lemma {:induction false} SelectOrdered(temp: seq<Parentheses>, vs: seq<int>)
    requires OrderedByOpen(temp) && AllPositive(vs) && StrictlyIncreasing(vs)
    ensures OrderedByOpen(Select(temp, vs))
  {
    if vs != [] {
      var init := vs[..|vs| - 1];
      var v := vs[|vs| - 1];
      SelectOrdered(temp, init);
      SelectMembers(temp, init);
      if |temp| > v - 1 {
        forall x | x in Select(temp, init) ensures x.openIndex < temp[v - 1].openIndex {
          var k :| 0 <= k < |init| && init[k] <= |temp| && x == temp[init[k] - 1];
          assert init[k] < v;
        }
      }
    }
  }

  lemma ClosedWellFormed(p: seq<byte>, ps: seq<Parentheses>)
    requires Recorded(p, ps) && ClosesFollow(p, ps)
    ensures WellFormed(p, Closed(ps))
  {
    ClosedMembers(ps);
    forall x | x in Closed(ps) ensures PairIn(p, x) {
      var k :| 0 <= k < |ps| && ps[k] == x;
    }
  }

  lemma ClosedNested(ps: seq<Parentheses>)
    requires OrderedByOpen(ps) && NestedAt(ps)
    ensures Nested(Closed(ps))
  {
    ClosedMembers(ps);
    forall x, y | x in Closed(ps) && y in Closed(ps) && x.openIndex < y.openIndex
      ensures x.closeIndex < y.openIndex || y.closeIndex < x.closeIndex
    {
      var k :| 0 <= k < |ps| && ps[k] == x;
      var l :| 0 <= l < |ps| && ps[l] == y;
      assert k < l;
    }
  }

  /**
   * The closed pairs of a pattern: each is a '(' and a later ')', they are
   * listed by opening position, and they nest properly.
   */
  lemma ClosedPairs(p: seq<byte>)
    ensures WellFormed(p, Closed(Scan(p)))
    ensures OrderedByOpen(Closed(Scan(p)))
    ensures Nested(Closed(Scan(p)))
  {
    var ps := Scan(p);
    ScanMatches(p);
    ClosedOrdered(ps);
    ClosedWellFormed(p, ps);
    ClosedNested(ps);
  }

  /** A pair that found its ')' survives the filter. */
  lemma ClosedKeeps(ps: seq<Parentheses>, j: nat)
    requires j < |ps|
    ensures ps[j].closeIndex != 0 ==> ps[j] in Closed(ps)
  {
    ClosedMembers(ps);
  }

  lemma StrayClosesClosed(p: seq<byte>, ps: seq<Parentheses>)
    requires Listed(p, ps) && StrayCloses(p, ps)
    ensures forall c :: 0 <= c < |p| && p[c] == CLOSE_PAREN && (forall x :: x in Closed(ps) ==> x.closeIndex != c) ==>
      forall o :: 0 <= o < c && p[o] == OPEN_PAREN ==>
        exists x :: x in Closed(ps) && x.openIndex == o && x.closeIndex < c
  {
    var temp := Closed(ps);
    forall c, o | 0 <= c < |p| && p[c] == CLOSE_PAREN && (forall x :: x in temp ==> x.closeIndex != c) &&
                  0 <= o < c && p[o] == OPEN_PAREN
      ensures exists x :: x in temp && x.openIndex == o && x.closeIndex < c
    {
      var k :| 0 <= k < |ps| && ps[k].openIndex == o;
      if exists j :: 0 <= j < |ps| && ps[j].closeIndex != 0 && ps[j].closeIndex == c {
        var j :| 0 <= j < |ps| && ps[j].closeIndex != 0 && ps[j].closeIndex == c;
        ClosedKeeps(ps, j);
      }
      ClosedKeeps(ps, k);
      assert ps[k] in temp;
    }
  }

  lemma StrayOpensClosed(p: seq<byte>, ps: seq<Parentheses>)
    requires Listed(p, ps) && OrderedByOpen(ps) && StrayOpens(p, ps)
    ensures forall o :: 0 <= o < |p| && p[o] == OPEN_PAREN && (forall x :: x in Closed(ps) ==> x.openIndex != o) ==>
      forall c :: o < c < |p| && p[c] == CLOSE_PAREN ==>
        exists x :: x in Closed(ps) && o < x.openIndex && x.closeIndex == c
  {
    var temp := Closed(ps);
    forall o, c | 0 <= o < |p| && p[o] == OPEN_PAREN && (forall x :: x in temp ==> x.openIndex != o) &&
                  o < c < |p| && p[c] == CLOSE_PAREN
      ensures exists x :: x in temp && o < x.openIndex && x.closeIndex == c
    {
      var k :| 0 <= k < |ps| && ps[k].openIndex == o;
      ClosedKeeps(ps, k);
      assert ps[k].closeIndex == 0;
      var l :| k < l < |ps| && ps[l].closeIndex == c;
      ClosedKeeps(ps, l);
      assert ps[l] in temp && o < ps[l].openIndex;
    }
  }

  /**
   * The pairing is the stack discipline and nothing else: a ')' left
   * unpaired has every earlier '(' paired before it, and a '(' left
   * unpaired sees every later ')' paired with a '(' opened after it.
   */
  lemma PairingComplete(p: seq<byte>)
    ensures forall c :: 0 <= c < |p| && p[c] == CLOSE_PAREN && (forall x :: x in Closed(Scan(p)) ==> x.closeIndex != c) ==>
      forall o :: 0 <= o < c && p[o] == OPEN_PAREN ==>
        exists x :: x in Closed(Scan(p)) && x.openIndex == o && x.closeIndex < c
    ensures forall o :: 0 <= o < |p| && p[o] == OPEN_PAREN && (forall x :: x in Closed(Scan(p)) ==> x.openIndex != o) ==>
      forall c :: o < c < |p| && p[c] == CLOSE_PAREN ==>
        exists x :: x in Closed(Scan(p)) && o < x.openIndex && x.closeIndex == c
  {
    ScanMatches(p);
    StrayClosesClosed(p, Scan(p));
    StrayOpensClosed(p, Scan(p));
  }

  /**
   * What the placeholders select: for strictly increasing values of at
   * least 1, the pairs listed are exactly the `v`-th closed pairs that
   * exist; they are ordered by opening position, nest properly and share
   * no position.
   */
  lemma SelectedPairs(p: seq<byte>, vs: seq<int>)
    requires AllPositive(vs) && StrictlyIncreasing(vs)
    ensures var rs := Select(Closed(Scan(p)), vs);
      WellFormed(p, rs) && OrderedByOpen(rs) && Nested(rs) && Disjoint(rs)
  {
    var temp := Closed(Scan(p));
    var rs := Select(temp, vs);
    ClosedPairs(p);
    SelectOrdered(temp, vs);
    SelectMembers(temp, vs);
    forall x | x in rs ensures x in temp {
      var k :| 0 <= k < |vs| && vs[k] <= |temp| && x == temp[vs[k] - 1];
    }
    forall k, l | 0 <= k < l < |rs|
      ensures rs[k].openIndex != rs[l].openIndex && rs[k].openIndex != rs[l].closeIndex &&
              rs[k].closeIndex != rs[l].openIndex && rs[k].closeIndex != rs[l].closeIndex
    {
      assert rs[k] in temp && rs[l] in temp;
    }
  }
}
