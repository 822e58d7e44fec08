/**
 * The placeholder-parentheses utility. A wildcard `pattern` may group parts
 * of itself in parentheses; a `target` refers to the groups by number, as
 * `{1}`, `{2}`, ... The k-th closed pair of parentheses of the pattern
 * belongs to placeholder `{k}`. `RemovePlaceholderParentheses` deletes the
 * parentheses that some placeholder refers to; `AddEscapingParentheses`
 * puts a backslash in front of every other parenthesis.
 */
module ParenthesesUtils {
  import opened Bytes
  import opened Strconv
  import opened BraceScan
  import opened Sorting
  import opened Pairs
  import opened Rewrite
  import opened Runes

  // ---------------------------------------------------------------------
  // Specification.

  /** The integers among the captured groups, in order of occurrence. */
  function Numbers(gs: seq<seq<byte>>): seq<int> {
    if gs == [] then []
    else Numbers(gs[..|gs| - 1]) + match Atoi(gs[|gs| - 1]) case Some(v) => [v] case None => []
  }

  /** The placeholder values of a target, ascending and without repeats. */
  function PlaceholderValues(target: seq<byte>): seq<int> {
    SortedSet(Numbers(Groups(target)))
  }

  /**
   * A placeholder below 1 makes `getParenthesesIndex` index the closed pairs
   * at a negative position, which panics; callers must not pass one.
   */
  predicate PlaceholdersPositive(target: seq<byte>) {
    AllPositive(Numbers(Groups(target)))
  }

  lemma ValuesPositive(target: seq<byte>)
    requires PlaceholdersPositive(target)
    ensures AllPositive(PlaceholderValues(target))
  {
    var ns := Numbers(Groups(target));
    var vs := PlaceholderValues(target);
    forall k | 0 <= k < |vs| ensures vs[k] >= 1 {
      assert vs[k] in Elems(vs);
      var j :| 0 <= j < |ns| && ns[j] == vs[k];
    }
  }

  /** The pairs of `pattern` that a placeholder of `target` refers to. */
  ghost function Associated(pattern: seq<byte>, target: seq<byte>): seq<Parentheses>
    requires PlaceholdersPositive(target)
  {
    ValuesPositive(target);
    Select(Closed(Scan(pattern)), PlaceholderValues(target))
  }

  /** Raised at the parentheses that belong to one of the pairs `ps`. */
  ghost function Deletions(p: seq<byte>, ps: seq<Parentheses>): (f: seq<bool>)
    ensures |f| == |p|
  {
    seq(|p|, i requires 0 <= i < |p| => IsParen(p[i]) && Present(ps, i))
  }

  /** Only parentheses are deleted, and they are ASCII. */
  lemma DeletionsAscii(p: seq<byte>, ps: seq<Parentheses>)
    ensures forall k :: 0 <= k < |p| && Deletions(p, ps)[k] ==> IsParen(p[k]) && !IsHigh(p[k])
  {
  }

  /** Raised at the parentheses that belong to none of the pairs `ps`. */
  ghost function Escapes(p: seq<byte>, ps: seq<Parentheses>): (f: seq<bool>)
    ensures |f| == |p|
  {
    seq(|p|, i requires 0 <= i < |p| => IsParen(p[i]) && !Present(ps, i))
  }

  /** The number of '(' and ')' bytes in `p`. */
  function ParenCount(p: seq<byte>): nat {
    if p == [] then 0 else ParenCount(p[..|p| - 1]) + if IsParen(p[|p| - 1]) then 1 else 0
  }

  ghost function Removed(pattern: seq<byte>, target: seq<byte>): seq<byte>
    requires PlaceholdersPositive(target)
  {
    Strip(pattern, Deletions(pattern, Associated(pattern, target)))
  }

  ghost function Escaped(pattern: seq<byte>, target: seq<byte>): seq<byte>
    requires PlaceholdersPositive(target)
  {
    Escape(pattern, Escapes(pattern, Associated(pattern, target)))
  }

  /**
   * The pairs a placeholder refers to are parentheses of the pattern, each
   * '(' before its ')', listed by opening position, properly nested, and
   * no position belongs to two of them.
   */
  lemma AssociatedPairs(pattern: seq<byte>, target: seq<byte>)
    requires PlaceholdersPositive(target)
    ensures var rs := Associated(pattern, target);
      WellFormed(pattern, rs) && OrderedByOpen(rs) && Nested(rs) && Disjoint(rs)
  {
    ValuesPositive(target);
    SelectedPairs(pattern, PlaceholderValues(target));
  }

  /** Raised at every '(' and ')' of `p`. */
  function ParenFlags(p: seq<byte>): (f: seq<bool>)
    ensures |f| == |p|
    ensures forall i :: 0 <= i < |p| ==> f[i] == IsParen(p[i])
  {
    seq(|p|, i requires 0 <= i < |p| => IsParen(p[i]))
  }

  lemma {:induction false} CountParenFlags(p: seq<byte>)
    ensures Count(ParenFlags(p)) == ParenCount(p)
  {
    if p != [] {
      var n := |p| - 1;
      CountParenFlags(p[..n]);
      assert ParenFlags(p)[..n] == ParenFlags(p[..n]);
    }
  }

  /**
   * The two rewrites split the parentheses of the pattern between them:
   * every '(' and ')' is either deleted by the one or escaped by the other,
   * never both, and no other byte is touched. So the escaped pattern is
   * longer than the stripped one by the number of parentheses.
   */
  lemma RewritesComplement(pattern: seq<byte>, target: seq<byte>)
    requires PlaceholdersPositive(target)
    ensures var del, esc := Deletions(pattern, Associated(pattern, target)), Escapes(pattern, Associated(pattern, target));
      forall i :: 0 <= i < |pattern| ==> ((del[i] || esc[i]) <==> IsParen(pattern[i])) && !(del[i] && esc[i])
    ensures |Escaped(pattern, target)| == |Removed(pattern, target)| + ParenCount(pattern)
  {
    var ps := Associated(pattern, target);
    CountSplit(Deletions(pattern, ps), Escapes(pattern, ps), ParenFlags(pattern));
    CountParenFlags(pattern);
  }

  /** Adding one pair to the pairs raises the deletion flags at its two positions. */
  lemma DeletionsAdd(p: seq<byte>, ps: seq<Parentheses>, x: Parentheses)
    requires PairIn(p, x)
    ensures Deletions(p, ps + [x]) == Deletions(p, ps)[x.openIndex := true][x.closeIndex := true]
  {
    var d, d' := Deletions(p, ps), Deletions(p, ps + [x]);
    forall i | 0 <= i < |p| ensures d'[i] == d[x.openIndex := true][x.closeIndex := true][i] {
      if Present(ps, i) {
        var k :| 0 <= k < |ps| && (ps[k].openIndex == i || ps[k].closeIndex == i);
        assert (ps + [x])[k] == ps[k];
      }
      if Present(ps + [x], i) {
        var k :| 0 <= k < |ps| + 1 && ((ps + [x])[k].openIndex == i || (ps + [x])[k].closeIndex == i);
        if k < |ps| {
          assert ps[k] == (ps + [x])[k];
        }
      }
      assert (ps + [x])[|ps|] == x;
    }
  }

  /** Pairs made of parentheses of `p` that share no position delete two bytes each. */
  lemma {:induction false} DeletionsCount(p: seq<byte>, ps: seq<Parentheses>)
    requires WellFormed(p, ps) && Disjoint(ps)
    ensures Count(Deletions(p, ps)) == 2 * |ps|
  {
    if ps == [] {
      CountNone(Deletions(p, ps));
    } else {
      var n := |ps| - 1;
      var init, x := ps[..n], ps[n];
      assert ps == init + [x];
      assert forall y :: y in init ==> y in ps;
      DeletionsCount(p, init);
      assert PairIn(p, x);
      var d := Deletions(p, init);
      DeletionsAdd(p, init, x);
      assert !Present(init, x.openIndex) && !Present(init, x.closeIndex) by {
        forall k | 0 <= k < |init|
          ensures init[k].openIndex != x.openIndex && init[k].closeIndex != x.openIndex
          ensures init[k].openIndex != x.closeIndex && init[k].closeIndex != x.closeIndex
        {
          assert init[k] == ps[k];
        }
      }
      CountRaise(d, x.openIndex);
      CountRaise(d[x.openIndex := true], x.closeIndex);
    }
  }

  /**
   * `RemovePlaceholderParentheses` deletes exactly the two parentheses of
   * every pair a placeholder refers to, and keeps every other byte of the
   * pattern in its order.
   */
  lemma RemovedLength(pattern: seq<byte>, target: seq<byte>)
    requires PlaceholdersPositive(target)
    ensures |Removed(pattern, target)| == |pattern| - 2 * |Associated(pattern, target)|
    ensures |Encode(Removed(pattern, target))| == |pattern| - 2 * |Associated(pattern, target)| + HighCount(pattern)
  {
    AssociatedPairs(pattern, target);
    DeletionsCount(pattern, Associated(pattern, target));
    DeletionsAscii(pattern, Associated(pattern, target));
    StripHigh(pattern, Deletions(pattern, Associated(pattern, target)));
  }

  /** Every byte of the pattern that is not deleted keeps its place among the kept bytes. */
  lemma RemovedKeeps(pattern: seq<byte>, target: seq<byte>, i: nat)
    requires PlaceholdersPositive(target) && i < |pattern|
    requires !IsParen(pattern[i]) || !Present(Associated(pattern, target), i)
    ensures var del := Deletions(pattern, Associated(pattern, target));
      i - Count(del[..i]) < |Removed(pattern, target)| && Removed(pattern, target)[i - Count(del[..i])] == pattern[i]
    ensures EncodedAt(Encode(Removed(pattern, target)),
      i - Count(Deletions(pattern, Associated(pattern, target))[..i]) + HighCount(pattern[..i]), pattern[i])
  {
    var del := Deletions(pattern, Associated(pattern, target));
    StripKeeps(pattern, del, i);
    DeletionsAscii(pattern, Associated(pattern, target));
    StripEncodedKeeps(pattern, del, i, i - Count(del[..i]) + HighCount(pattern[..i]));
  }

  /** Deleting the backslashes `AddEscapingParentheses` inserted gives the pattern back. */
  lemma EscapedRoundTrip(pattern: seq<byte>, target: seq<byte>)
    requires PlaceholdersPositive(target)
    ensures Unescape(Escaped(pattern, target), Escapes(pattern, Associated(pattern, target))) == pattern
    ensures Unescape(Decode(Encode(Escaped(pattern, target))), Escapes(pattern, Associated(pattern, target))) == pattern
  {
    UnescapeEscape(pattern, Escapes(pattern, Associated(pattern, target)));
    DecodeEncode(Escaped(pattern, target));
  }

  /**
   * Where each byte of the pattern lands in the escaped pattern: shifted by
   * the backslashes inserted before it, and right after a backslash of its
   * own exactly when it is a parenthesis no placeholder refers to.
   */
  lemma EscapedAt(pattern: seq<byte>, target: seq<byte>, i: nat)
    requires PlaceholdersPositive(target) && i < |pattern|
    ensures var esc := Escapes(pattern, Associated(pattern, target));
      var e := Escaped(pattern, target);
      var at := i + Count(esc[..i]) + if esc[i] then 1 else 0;
      at < |e| && e[at] == pattern[i] &&
      (esc[i] ==> e[at - 1] == BACKSLASH) &&
      (esc[i] <==> IsParen(pattern[i]) && !Present(Associated(pattern, target), i))
  {
    var esc := Escapes(pattern, Associated(pattern, target));
    EscapeAt(pattern, esc, i);
    if esc[i] {
      EscapeBackslash(pattern, esc, i);
    }
  }

  /**
   * Where each byte of the pattern lands in what `AddEscapingParentheses`
   * writes: after the encodings of the bytes and backslashes before it,
   * one place further for each high byte before it, and right behind a
   * backslash of its own when it is escaped.
   */
  lemma EscapedWrittenAt(pattern: seq<byte>, target: seq<byte>, i: nat, at: int)
    requires PlaceholdersPositive(target) && i < |pattern|
    requires at == i + Count(Escapes(pattern, Associated(pattern, target))[..i]) + HighCount(pattern[..i])
    ensures !Escapes(pattern, Associated(pattern, target))[i] ==> EncodedAt(Encode(Escaped(pattern, target)), at, pattern[i])
    ensures Escapes(pattern, Associated(pattern, target))[i] ==>
      at < |Encode(Escaped(pattern, target))| && Encode(Escaped(pattern, target))[at] == BACKSLASH &&
      EncodedAt(Encode(Escaped(pattern, target)), at + 1, pattern[i])
  {
    var esc := Escapes(pattern, Associated(pattern, target));
    if esc[i] {
      EscapeEncodedBackslash(pattern, esc, i, at);
      EscapeEncodedFlagged(pattern, esc, i, at + 1);
    } else {
      EscapeEncodedKept(pattern, esc, i, at);
    }
  }

  /**
   * The escaped pattern is longer than the pattern by the number of its
   * parentheses less the two of every pair a placeholder refers to.
   */
  lemma EscapedLength(pattern: seq<byte>, target: seq<byte>)
    requires PlaceholdersPositive(target)
    ensures |Escaped(pattern, target)| == |pattern| + ParenCount(pattern) - 2 * |Associated(pattern, target)|
    ensures |Encode(Escaped(pattern, target))| ==
      |pattern| + ParenCount(pattern) - 2 * |Associated(pattern, target)| + HighCount(pattern)
  {
    RewritesComplement(pattern, target);
    RemovedLength(pattern, target);
    EscapeHigh(pattern, Escapes(pattern, Associated(pattern, target)));
  }

  /**
   * Without a placeholder in the target, removing leaves the pattern as it
   * is and escaping puts a backslash in front of every parenthesis.
   */
  lemma NoPlaceholders(pattern: seq<byte>, target: seq<byte>)
    requires Numbers(Groups(target)) == []
    ensures PlaceholdersPositive(target)
    ensures Associated(pattern, target) == []
    ensures Removed(pattern, target) == pattern
    ensures Escaped(pattern, target) == Escape(pattern, ParenFlags(pattern))
    ensures Encode(Removed(pattern, target)) == pattern <==> HighCount(pattern) == 0
    ensures Encode(Escaped(pattern, target)) == Escape(pattern, ParenFlags(pattern)) <==> HighCount(pattern) == 0
  {
    assert PlaceholderValues(target) == [];
    var del := Deletions(pattern, []);
    StripNothing(pattern, del);
    assert Escapes(pattern, []) == ParenFlags(pattern);
    EncodeAscii(pattern);
    EscapeHigh(pattern, ParenFlags(pattern));
    EncodeAscii(Escape(pattern, ParenFlags(pattern)));
  }

  /**
   * The program writes each kept byte through `string(b)`: the pattern
   * "é", bytes C3 A9, comes back from both rewrites as C3 83 C2 A9 for a
   * target without placeholders (the empty one, say), although nothing is
   * deleted or escaped.
   */
  lemma HighByteWidened(pattern: seq<byte>, target: seq<byte>)
    requires pattern == [0xC3, 0xA9] && Numbers(Groups(target)) == []
    ensures PlaceholdersPositive(target)
    ensures Removed(pattern, target) == pattern && Escaped(pattern, target) == pattern
    ensures Encode(Removed(pattern, target)) == [0xC3, 0x83, 0xC2, 0xA9]
    ensures Encode(Escaped(pattern, target)) == [0xC3, 0x83, 0xC2, 0xA9]
  {
    NoPlaceholders(pattern, target);
    assert ParenFlags(pattern) == [false, false];
    assert Escape(pattern, [false, false]) == pattern by {
      assert pattern[..1] == [0xC3];
      assert Escape([0xC3], [false]) == [0xC3];
    }
    EncodeAcute();
  }

  /**
   * A pair is associated exactly when some placeholder `{v}` of the target
   * names it: it is the `v`-th pair, in order of opening, that found its ')'.
   */
  lemma AssociatedMembers(pattern: seq<byte>, target: seq<byte>, x: Parentheses)
    requires PlaceholdersPositive(target)
    ensures x in Associated(pattern, target) <==> NamedBy(x, Closed(Scan(pattern)), Numbers(Groups(target)))
  {
    ValuesPositive(target);
    SelectSameValues(Closed(Scan(pattern)), PlaceholderValues(target), Numbers(Groups(target)), x);
  }

  // ---------------------------------------------------------------------
  // The operations.

  /** `sort.Ints`: leaves an ascending permutation of the values in the slice. */
  method SortInts(a: array<int>)
    modifies a
    ensures a[..] == Sort(old(a[..]))
    ensures Sorted(a[..]) && multiset(a[..]) == multiset(old(a[..]))
  {
    var sorted := Sort(a[..]);
    forall k | 0 <= k < a.Length {
      a[k] := sorted[k];
    }
    assert a[..] == sorted;
  }

  /**
   * `inPlaceRemoveDuplicate`: sorts the slice, then compacts it. The slice
   * keeps its first `len` elements.
   */
  method InPlaceRemoveDuplicate(a: array<int>) returns (len: nat)
    requires a.Length > 0
    modifies a
    ensures 0 < len <= a.Length
    ensures StrictlyIncreasing(a[..len])
    ensures Elems(a[..len]) == Elems(old(a[..]))
    ensures a[..len] == SortedSet(old(a[..]))
  {
    SortInts(a);
    ghost var sorted := a[..];
    len := Compact(a);
    DedupSorted(sorted);
    PermutationElems(sorted, old(a[..]));
    StrictlyIncreasingUnique(a[..len], SortedSet(old(a[..])));
  }

  /**
   * The compaction loop of `inPlaceRemoveDuplicate`: the write index `j`
   * moves each value that differs from the last one kept down to the next
   * free place. It drops repeats that sit next to each other, so it drops
   * every repeat once the slice is sorted.
   */
  method Compact(a: array<int>) returns (len: nat)
    requires a.Length > 0
    modifies a
    ensures 0 < len <= a.Length
    ensures a[..len] == Dedup(old(a[..]))
  {
    ghost var s := a[..];
    var j := 0;
    assert s[..1] == [s[0]];
    for i := 1 to a.Length
      invariant 0 <= j < i
      invariant forall k :: i <= k < a.Length ==> a[k] == s[k]
      invariant a[..j + 1] == Dedup(s[..i])
      invariant a[j] == s[i - 1]
    {
      DedupStep(s, i);
      if a[j] == a[i] {
        continue;
      }
      ghost var kept := a[..j + 1];
      j := j + 1;
      a[j] := a[i];
      assert a[..j + 1] == kept + [s[i]];
    }
    len := j + 1;
    assert s[..a.Length] == s;
  }

  /**
   * `getPlaceHoldersValue`: the integers written between braces in
   * `target`, ascending and without repeats (empty when there are none).
   */
  method GetPlaceHoldersValue(target: seq<byte>) returns (values: seq<int>)
    ensures StrictlyIncreasing(values)
    ensures Elems(values) == Elems(Numbers(Groups(target)))
    ensures values == PlaceholderValues(target)
  {
    var matches := Groups(target);
    var found: seq<int> := [];
    for k := 0 to |matches|
      invariant found == Numbers(matches[..k])
    {
      assert matches[..k + 1][..k] == matches[..k];
      match Atoi(matches[k]) {
        case Some(number) =>
          found := found + [number];
        case None =>
      }
    }
    assert matches[..|matches|] == matches;
    if found != [] {
      var a := new int[|found|](i requires 0 <= i < |found| => found[i]);
      assert a[..] == found;
      var len := InPlaceRemoveDuplicate(a);
      values := a[..len];
    } else {
      values := [];
    }
  }

  /** The loop body of `getParenthesesIndex` for the ')' at position `i`. */
  method CloseNearestInPlace(parentheses: seq<Parentheses>, i: int) returns (updated: seq<Parentheses>)
    ensures updated == CloseNearest(parentheses, i)
    ensures |updated| == |parentheses|
    ensures forall k :: 0 <= k < |parentheses| ==> updated[k].openIndex == parentheses[k].openIndex
  {
    updated := parentheses;
    var j := |updated| - 1;
    while j >= 0
      invariant -1 <= j < |updated|
      invariant updated == parentheses
      invariant forall l :: j < l < |updated| ==> updated[l].closeIndex != 0
    {
      if updated[j].closeIndex == 0 {
        assert LastUnclosed(parentheses) == j;
        updated := updated[j := Parentheses(updated[j].openIndex, i)];
        return;
      }
      j := j - 1;
    }
    assert LastUnclosed(parentheses) == -1;
  }

  /**
   * The pairing loop of `getParenthesesIndex`: records each '(' as an open
   * pair and lets each ')' close the nearest pair still open.
   */
  method PairParentheses(pattern: seq<byte>) returns (parentheses: seq<Parentheses>)
    ensures parentheses == Scan(pattern)
  {
    parentheses := [];
    for i := 0 to |pattern|
      invariant parentheses == Scan(pattern[..i])
    {
      ScanStep(pattern, i);
      var v := pattern[i];
      if v == OPEN_PAREN {
        parentheses := parentheses + [Parentheses(i, 0)];
      }
      if v == CLOSE_PAREN {
        parentheses := CloseNearestInPlace(parentheses, i);
      }
    }
    assert pattern[..|pattern|] == pattern;
  }

  /** The filter loop of `getParenthesesIndex`: drops the '(' that were never closed. */
  method DropUnclosed(parentheses: seq<Parentheses>) returns (temp: seq<Parentheses>)
    ensures temp == Closed(parentheses)
  {
    temp := [];
    for i := 0 to |parentheses|
      invariant temp == Closed(parentheses[..i])
    {
      ClosedStep(parentheses, i);
      if parentheses[i].closeIndex != 0 {
        temp := temp + [parentheses[i]];
      }
    }
    assert parentheses[..|parentheses|] == parentheses;
  }

  /**
   * The selection loop of `getParenthesesIndex`: for each placeholder value
   * `v` in turn, keeps the `v`-th closed pair when there is one.
   */
  method SelectPairs(temp: seq<Parentheses>, values: seq<int>) returns (result: seq<Parentheses>)
    requires AllPositive(values)
    ensures result == Select(temp, values)
  {
    result := [];
    for k := 0 to |values|
      invariant result == Select(temp, values[..k])
    {
      SelectStep(temp, values, k);
      var v := values[k];
      if |temp| > v - 1 {
        result := result + [temp[v - 1]];
      }
    }
    assert values[..|values|] == values;
  }

  /**
   * `getParenthesesIndex`: pairs each ')' of the pattern with the nearest
   * '(' before it that is still open, drops the '(' never closed, and keeps
   * the `v`-th closed pair for each placeholder value `v` that has one.
   */
  method GetParenthesesIndex(pattern: seq<byte>, target: seq<byte>) returns (result: seq<Parentheses>)
    requires PlaceholdersPositive(target)
    ensures result == Associated(pattern, target)
  {
    var parentheses := PairParentheses(pattern);
    var temp := DropUnclosed(parentheses);
    var values := GetPlaceHoldersValue(target);
    ValuesPositive(target);
    result := SelectPairs(temp, values);
  }

  /**
   * `RemovePlaceholderParentheses`: the pattern without the parentheses
   * that a placeholder of the target refers to.
   */
  method RemovePlaceholderParentheses(pattern: seq<byte>, target: seq<byte>) returns (r: seq<byte>)
    requires PlaceholdersPositive(target)
    ensures r == Encode(Removed(pattern, target))
  {
    var ps := GetParenthesesIndex(pattern, target);
    var parentheses := ParenthesesSlice(ps);
    ghost var del := Deletions(pattern, ps);
    var temp: seq<byte> := [];
    for i := 0 to |pattern|
      invariant temp == Encode(Strip(pattern[..i], del[..i]))
    {
      var present := false;
      if pattern[i] == OPEN_PAREN || pattern[i] == CLOSE_PAREN {
        present := parentheses.IsPresent(i);
      }
      assert present == del[i];
      StripStep(pattern, del, i);
      if present {
        continue;
      } else {
        EncodeSnoc(Strip(pattern[..i], del[..i]), pattern[i]);
        temp := temp + AsRune(pattern[i]);
      }
    }
    assert pattern[..|pattern|] == pattern;
    assert del[..|pattern|] == del;
    r := temp;
  }

  /**
   * `AddEscapingParentheses`: the pattern with a backslash in front of every
   * parenthesis that no placeholder of the target refers to.
   */
  method AddEscapingParentheses(pattern: seq<byte>, target: seq<byte>) returns (r: seq<byte>)
    requires PlaceholdersPositive(target)
    ensures r == Encode(Escaped(pattern, target))
  {
    var ps := GetParenthesesIndex(pattern, target);
    var parentheses := ParenthesesSlice(ps);
    ghost var esc := Escapes(pattern, ps);
    var temp: seq<byte> := [];
    for i := 0 to |pattern|
      invariant temp == Encode(Escape(pattern[..i], esc[..i]))
    {
      var present := true;
      if pattern[i] == OPEN_PAREN || pattern[i] == CLOSE_PAREN {
        present := parentheses.IsPresent(i);
      }
      assert present == !esc[i];
      EscapeStep(pattern, esc, i);
      ghost var done := Escape(pattern[..i], esc[..i]);
      if !present {
        EncodeSnoc(done, BACKSLASH);
        EncodeSnoc(done + [BACKSLASH], pattern[i]);
        temp := temp + [BACKSLASH] + AsRune(pattern[i]);
      } else {
        EncodeSnoc(done, pattern[i]);
        temp := temp + AsRune(pattern[i]);
      }
    }
    assert pattern[..|pattern|] == pattern;
    assert esc[..|pattern|] == esc;
    r := temp;
  }
}
