/**
 * The matches of the regular expression `{([^}]*)}` that the placeholder
 * collector runs over its target: a match starts at a '{', runs to the next
 * '}', and may itself contain '{'. Matches do not overlap; the next search
 * resumes after the '}' that ended the previous match.
 */
module BraceScan {
  import opened Bytes

  /** The first position at or after `from` holding `b`, or `|s|` when there is none. */
  function IndexOf(s: seq<byte>, b: byte, from: nat): (k: nat)
    requires from <= |s|
    ensures from <= k <= |s|
    ensures k < |s| ==> s[k] == b
    ensures forall j :: from <= j < k ==> s[j] != b
    decreases |s| - from
  {
    if from == |s| then |s|
    else if s[from] == b then from
    else IndexOf(s, b, from + 1)
  }

  /** The captured group of every match, in the order the matches occur. */
  function Groups(t: seq<byte>): (gs: seq<seq<byte>>)
    ensures forall k :: 0 <= k < |gs| ==> CLOSE_BRACE !in gs[k]
    ensures forall k :: 0 <= k < |gs| ==> |gs[k]| + 2 <= |t|
    decreases |t|
  {
    var a := IndexOf(t, OPEN_BRACE, 0);
    if a == |t| then []
    else
      var b := IndexOf(t, CLOSE_BRACE, a + 1);
      if b == |t| then []
      else [t[a + 1..b]] + Groups(t[b + 1..])
  }

  /** The text `{g0}{g1}...` made of the given groups. */
  function Braced(gs: seq<seq<byte>>): seq<byte> {
    if gs == [] then [] else [OPEN_BRACE] + gs[0] + [CLOSE_BRACE] + Braced(gs[1..])
  }

  /** `IndexOf` finds the first position at or after `from` that holds `b`. */
  lemma IndexOfFirst(s: seq<byte>, b: byte, from: nat, k: nat)
    requires from <= k < |s| && s[k] == b
    requires forall j :: from <= j < k ==> s[j] != b
    ensures IndexOf(s, b, from) == k
  {
  }

  /**
   * In text that starts with `{g}` for a group `g` without '}', the scan
   * finds the '{' at 0 and the '}' right after `g`, and resumes on the rest.
   */
  lemma BracedFirstMatch(g: seq<byte>, rest: seq<byte>)
    requires CLOSE_BRACE !in g
    ensures var t := [OPEN_BRACE] + g + [CLOSE_BRACE] + rest;
      IndexOf(t, OPEN_BRACE, 0) == 0 && IndexOf(t, CLOSE_BRACE, 1) == |g| + 1 &&
      t[1..|g| + 1] == g && t[|g| + 2..] == rest
  {
    var t := [OPEN_BRACE] + g + [CLOSE_BRACE] + rest;
    IndexOfFirst(t, OPEN_BRACE, 0, 0);
    forall j | 1 <= j < |g| + 1 ensures t[j] != CLOSE_BRACE {
      assert t[j] == g[j - 1];
    }
    IndexOfFirst(t, CLOSE_BRACE, 1, |g| + 1);
    assert t[1..|g| + 1] == g;
    assert t[|g| + 2..] == rest;
  }

  /**
   * Scanning text built from groups that hold no '}' gives back exactly
   * those groups: each '{' opens a match that the following '}' closes.
   */
  lemma {:induction false} GroupsOfBraced(gs: seq<seq<byte>>)
    requires forall k :: 0 <= k < |gs| ==> CLOSE_BRACE !in gs[k]
    ensures Groups(Braced(gs)) == gs
  {
    if gs != [] {
      var g, rest := gs[0], Braced(gs[1..]);
      var t := Braced(gs);
      assert t == [OPEN_BRACE] + g + [CLOSE_BRACE] + rest;
      BracedFirstMatch(g, rest);
      GroupsOfBraced(gs[1..]);
      assert Groups(t) == [g] + Groups(rest);
      assert gs == [g] + gs[1..];
    }
  }

  /** Text without a '}' holds no match at all. */
  lemma {:induction false} NoCloseBraceNoGroups(t: seq<byte>)
    requires CLOSE_BRACE !in t
    ensures Groups(t) == []
  {
    var a := IndexOf(t, OPEN_BRACE, 0);
    if a < |t| {
      var b := IndexOf(t, CLOSE_BRACE, a + 1);
      assert b == |t|;
    }
  }
}
