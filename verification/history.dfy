/** The view history (service/InMemoryHistoryManager.java): at most ten
    entries, oldest first; a view appends a copy, evicting the oldest entry
    when the history is full; removal deletes the first entry with an id. */
module History {
  import opened Model

  /** MAX_HISTORY_SIZE. */
  const MaxHistorySize: nat := 10

  /** The recorded views, oldest first. */
  type History = seq<Item>

  const EmptyHistory: History := []

  /** The last `MaxHistorySize` elements of `s` (all of them when fewer). */
  function LastViews(s: seq<Item>): (r: seq<Item>)
    ensures |r| <= MaxHistorySize
    ensures |s| <= MaxHistorySize ==> r == s
  {
    if |s| <= MaxHistorySize then s else s[|s| - MaxHistorySize..]
  }

  /** `add`: a copy goes to the tail; a full history first loses its head. */
  function Add(h: History, x: Item): (r: History)
    ensures |h| <= MaxHistorySize ==> |r| <= MaxHistorySize
    ensures |r| > 0 && r[|r| - 1] == Clone(x)
    ensures |h| == MaxHistorySize ==> |r| == |h| && r[..|r| - 1] == h[1..]
    ensures |h| != MaxHistorySize ==> |r| == |h| + 1 && r[..|r| - 1] == h
  {
    if |h| == MaxHistorySize then h[1..] + [Clone(x)] else h + [Clone(x)]
  }

  /** `getHistory`: the entries oldest to newest, as a value. */
  function GetHistory(h: History): (r: seq<Item>)
    ensures r == h
  {
    h
  }

  /** Several views in a row. */
  function AddAll(h: History, xs: seq<Item>): History
    decreases |xs|
  {
    if xs == [] then h else AddAll(Add(h, xs[0]), xs[1..])
  }

  lemma LastViewsAppend(a: seq<Item>, b: seq<Item>)
    ensures LastViews(LastViews(a) + b) == LastViews(a + b)
  {
    var la := LastViews(a);
    if |la + b| > MaxHistorySize {
      assert (la + b)[|la + b| - MaxHistorySize..] == (a + b)[|a + b| - MaxHistorySize..];
    }
  }

  lemma AddIsLastViews(h: History, x: Item)
    requires |h| <= MaxHistorySize
    ensures Add(h, x) == LastViews(h + [x])
  {
    assert Clone(x) == x;
    var s := h + [x];
    if |h| == MaxHistorySize {
      assert |s| - MaxHistorySize == 1;
      assert s[1..] == h[1..] + [x];
    } else {
      assert |s| <= MaxHistorySize;
    }
  }

  /** Starting from a history within the bound, any series of views leaves
      exactly the last ten of all entries seen, in view order. */
  lemma {:induction false} AddAllKeepsLastViews(h: History, xs: seq<Item>)
    requires |h| <= MaxHistorySize
    ensures AddAll(h, xs) == LastViews(h + xs)
    decreases |xs|
  {
    if xs != [] {
      AddIsLastViews(h, xs[0]);
      AddAllKeepsLastViews(Add(h, xs[0]), xs[1..]);
      LastViewsStep(h, xs);
    }
  }

  lemma LastViewsStep(h: History, xs: seq<Item>)
    requires xs != []
    ensures LastViews(LastViews(h + [xs[0]]) + xs[1..]) == LastViews(h + xs)
  {
    LastViewsAppend(h + [xs[0]], xs[1..]);
    assert h + [xs[0]] + xs[1..] == h + xs;
  }

  /** `remove(id)`: the first entry whose id is `id` is deleted. */
  function Remove(h: History, id: int): (r: History)
    ensures |r| <= |h|
    decreases |h|
  {
    if h == [] then []
    else if IdOf(h[0]) == id then h[1..]
    else [h[0]] + Remove(h[1..], id)
  }

  /** Exactly one entry goes, the first one with the id; the others keep
      their order. */
  lemma {:induction false} RemoveCutsFirst(h: History, id: int) returns (i: int)
    requires exists k :: 0 <= k < |h| && IdOf(h[k]) == id
    ensures 0 <= i < |h| && IdOf(h[i]) == id
    ensures forall k :: 0 <= k < i ==> IdOf(h[k]) != id
    ensures Remove(h, id) == h[..i] + h[i + 1..]
    decreases |h|
  {
    if IdOf(h[0]) == id {
      i := 0;
    } else {
      var k :| 0 <= k < |h| && IdOf(h[k]) == id;
      assert IdOf(h[1..][k - 1]) == id;
      var j := RemoveCutsFirst(h[1..], id);
      i := j + 1;
      assert forall m :: 1 <= m < i ==> h[m] == h[1..][m - 1];
      RemoveCutStep(h, id, j);
    }
  }

  /** The step of the induction: cutting position `j` of the tail is
      cutting position `j + 1` of the whole. */
  lemma RemoveCutStep(h: History, id: int, j: int)
    requires h != [] && IdOf(h[0]) != id && 0 <= j < |h| - 1
    requires Remove(h[1..], id) == h[1..][..j] + h[1..][j + 1..]
    ensures Remove(h, id) == h[..j + 1] + h[j + 2..]
  {
    var t := h[1..];
    assert Remove(h, id) == [h[0]] + (t[..j] + t[j + 1..]);
    assert h[..j + 1] == [h[0]] + t[..j];
    assert h[j + 2..] == t[j + 1..];
    assert [h[0]] + (t[..j] + t[j + 1..]) == ([h[0]] + t[..j]) + t[j + 1..];
  }

  /** With no entry of the id, removal changes nothing. */
  lemma {:induction false} RemoveAbsent(h: History, id: int)
    requires forall i :: 0 <= i < |h| ==> IdOf(h[i]) != id
    ensures Remove(h, id) == h
    decreases |h|
  {
    if h != [] {
      RemoveAbsent(h[1..], id);
      assert h == [h[0]] + h[1..];
    }
  }

  /** Removal from a suffix that starts with an entry of another id. */
  lemma RemoveSkips(h: History, id: int, i: int)
    requires 0 <= i < |h| && IdOf(h[i]) != id
    ensures Remove(h[i..], id) == [h[i]] + Remove(h[i + 1..], id)
  {
    assert h[i..][0] == h[i] && h[i..][1..] == h[i + 1..];
  }

  /** Removal from a suffix that starts with an entry of the id. */
  lemma RemoveHits(h: History, id: int, i: int)
    requires 0 <= i < |h| && IdOf(h[i]) == id
    ensures Remove(h[i..], id) == h[i + 1..]
  {
    assert h[i..][0] == h[i] && h[i..][1..] == h[i + 1..];
  }

  /** The loop invariant of `RemoveById`: everything before `i` stays. */
  predicate KeptBefore(h: History, id: int, i: int)
    requires 0 <= i <= |h|
  {
    Remove(h, id) == h[..i] + Remove(h[i..], id)
  }

  lemma KeptBeforeAdvances(h: History, id: int, i: int)
    requires 0 <= i < |h| && IdOf(h[i]) != id && KeptBefore(h, id, i)
    ensures KeptBefore(h, id, i + 1)
  {
    RemoveSkips(h, id, i);
    assert h[..i + 1] == h[..i] + [h[i]];
  }

  lemma KeptBeforeEnds(h: History, id: int, i: int)
    requires 0 <= i <= |h| && KeptBefore(h, id, i)
    requires i < |h| ==> IdOf(h[i]) == id
    ensures Remove(h, id) == if i == |h| then h else h[..i] + h[i + 1..]
  {
    if i == |h| {
      assert h[..i] == h && h[i..] == [];
    } else {
      RemoveHits(h, id, i);
    }
  }

  /** The source's loop: scan from the head and cut out the first match. */
  method RemoveById(h: History, id: int) returns (r: History)
    ensures r == Remove(h, id)
  {
    var i := 0;
    assert h[..0] + Remove(h[0..], id) == Remove(h, id) by {
      assert h[..0] == [] && h[0..] == h;
    }
    while i < |h| && IdOf(h[i]) != id
      invariant 0 <= i <= |h|
      invariant KeptBefore(h, id, i)
    {
      KeptBeforeAdvances(h, id, i);
      i := i + 1;
    }
    KeptBeforeEnds(h, id, i);
    if i == |h| {
      r := h;
    } else {
      r := h[..i] + h[i + 1..];
    }
  }
}
