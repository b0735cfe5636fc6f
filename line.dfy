/**
 * One editable line (src/line.rs): the logical text `actual` and the derived
 * `rendered` text in which every tab is expanded to spaces.
 *
 * Two properties of the source are kept exactly as written:
 *  - a tab at LOGICAL index n expands to 8 - n % 8 spaces, whatever rendered
 *    column it lands on (so "\t\t" renders as 8 + 7 spaces);
 *  - the render-position fold moves a tab to rx + 7 - rx % 8, one column short
 *    of the next tab stop (so the position after "a\t" is 7, not 8).
 */
module Lines {
  import opened Bytes

  const TAB_STOP: nat := 8

  // ---------------------------------------------------------------------------
  // Tab expansion (Line::update)
  // ---------------------------------------------------------------------------

  /** What the byte `c` at logical index `n` renders to. */
  function Piece(c: byte, n: nat): (r: seq<byte>)
    ensures 1 <= |r| <= TAB_STOP
    ensures forall i :: 0 <= i < |r| ==> r[i] != TAB
  {
    if c == TAB then Repeat(SPACE, TAB_STOP - n % TAB_STOP) else [c]
  }

  /** The rendered form of a logical text: each byte replaced by its Piece. */
  function Expand(s: seq<byte>): seq<byte>
  {
    if s == [] then [] else Expand(s[..|s| - 1]) + Piece(s[|s| - 1], |s| - 1)
  }

  lemma ExpandStep(s: seq<byte>, n: nat)
    requires n < |s|
    ensures Expand(s[..n + 1]) == Expand(s[..n]) + Piece(s[n], n)
  {
    assert s[..n + 1][..n] == s[..n];
  }

  predicate NoTabs(s: seq<byte>)
  {
    forall i :: 0 <= i < |s| ==> s[i] != TAB
  }

  /** A tab-free line renders to itself. */
  lemma {:induction false} ExpandNoTabs(s: seq<byte>)
    requires NoTabs(s)
    ensures Expand(s) == s
  {
    if s != [] {
      ExpandNoTabs(s[..|s| - 1]);
      assert s == s[..|s| - 1] + [s[|s| - 1]];
    }
  }

  /** Every byte contributes 1 to TAB_STOP rendered bytes. */
  lemma {:induction false} ExpandLength(s: seq<byte>)
    ensures |s| <= |Expand(s)| <= TAB_STOP * |s|
  {
    if s != [] {
      ExpandLength(s[..|s| - 1]);
    }
  }

  /** The rendered text holds no tab. */
  lemma {:induction false} ExpandHasNoTabs(s: seq<byte>)
    ensures NoTabs(Expand(s))
  {
    if s != [] {
      ExpandHasNoTabs(s[..|s| - 1]);
      var p := Piece(s[|s| - 1], |s| - 1);
      var e := Expand(s[..|s| - 1]);
      assert Expand(s) == e + p;
      forall i | 0 <= i < |e + p| ensures (e + p)[i] != TAB {
        if i >= |e| { assert (e + p)[i] == p[i - |e|]; }
      }
    }
  }

  /** Builds the rendered text with a loop, as Line::update extends it piece by piece. */
  method RenderTabs(s: seq<byte>) returns (r: seq<byte>)
    ensures r == Expand(s)
  {
    r := [];
    for n := 0 to |s|
      invariant r == Expand(s[..n])
    {
      ExpandStep(s, n);
      r := r + Piece(s[n], n);
    }
    assert s[..|s|] == s;
  }

  // ---------------------------------------------------------------------------
  // Render position (Line::render_position)
  // ---------------------------------------------------------------------------

  /** One step of the fold: a tab goes to rx + 7 - rx % 8, anything else adds 1. */
  function RenderStep(rx: nat, c: byte): nat
  {
    if c == TAB then rx + (TAB_STOP - 1) - rx % TAB_STOP else rx + 1
  }

  function RenderFold(t: seq<byte>): nat
  {
    if t == [] then 0 else RenderStep(RenderFold(t[..|t| - 1]), t[|t| - 1])
  }

  /** The fold over the first `pos` bytes of `s` (fewer when `s` is shorter). */
  function RenderPos(s: seq<byte>, pos: nat): nat
  {
    RenderFold(s[..Min(pos, |s|)])
  }

  lemma {:induction false} RenderFoldNoTabs(t: seq<byte>)
    requires NoTabs(t)
    ensures RenderFold(t) == |t|
  {
    if t != [] {
      RenderFoldNoTabs(t[..|t| - 1]);
    }
  }

  /** On a tab-free line the render position is the logical position, capped at the length. */
  lemma RenderPosNoTabs(s: seq<byte>, p: nat)
    requires NoTabs(s)
    ensures RenderPos(s, p) == Min(p, |s|)
  {
    RenderFoldNoTabs(s[..Min(p, |s|)]);
  }

  lemma {:induction false} RenderFoldPrefix(t: seq<byte>, k: nat)
    requires k <= |t|
    ensures RenderFold(t[..k]) <= RenderFold(t)
  {
    if k < |t| {
      var u := t[..|t| - 1];
      assert t[..k] == u[..k];
      RenderFoldPrefix(u, k);
    } else {
      assert t[..k] == t;
    }
  }

  /** The render position never decreases as the logical position grows. */
  lemma RenderPosMonotone(s: seq<byte>, p: nat, q: nat)
    requires p <= q
    ensures RenderPos(s, p) <= RenderPos(s, q)
  {
    var t := s[..Min(q, |s|)];
    assert s[..Min(p, |s|)] == t[..Min(p, |s|)];
    RenderFoldPrefix(t, Min(p, |s|));
  }

  /** Past the end of the line the render position stays put. */
  lemma RenderPosPastEnd(s: seq<byte>, p: nat)
    requires |s| <= p
    ensures RenderPos(s, p) == RenderPos(s, |s|) == RenderFold(s)
  {
    assert s[..|s|] == s;
  }

  /** Right after a tab the render position is 7 modulo 8: one short of a tab stop. */
  lemma RenderPosAfterTab(s: seq<byte>, p: nat)
    requires 1 <= p <= |s| && s[p - 1] == TAB
    ensures RenderPos(s, p) % TAB_STOP == TAB_STOP - 1
  {
    var t := s[..p];
    assert t[..|t| - 1] == s[..p - 1];
    var rx := RenderFold(s[..p - 1]);
    assert RenderPos(s, p) == rx + 7 - rx % 8;
    assert rx == 8 * (rx / 8) + rx % 8;
    assert rx + 7 - rx % 8 == 8 * (rx / 8) + 7;
  }

  /** "a\tb": the tab ends at render position 7, while 'b' is rendered at column 8. */
  lemma RenderPosExampleTab()
    ensures RenderPos([B('a'), TAB, B('b')], 2) == 7
    ensures Expand([B('a'), TAB, B('b')]) == [B('a')] + Repeat(SPACE, 7) + [B('b')]
    ensures |Expand([B('a'), TAB, B('b')])| == 9
  {
    var s := [B('a'), TAB, B('b')];
    assert s[..2] == [B('a'), TAB] && s[..2][..1] == [B('a')] && [B('a')][..0] == [];
    assert RenderFold([B('a')]) == 1;
    assert RenderFold(s[..2]) == RenderStep(1, TAB) == 7;
    assert Expand([B('a')]) == [B('a')];
    assert Expand(s[..2]) == [B('a')] + Repeat(SPACE, 7);
    ExpandStep(s, 2);
  }

  /** "\t\t": the second tab adds nothing to the render position, and 7 spaces to the rendered text. */
  lemma RenderPosExampleTwoTabs()
    ensures RenderPos([TAB, TAB], 2) == 7
    ensures Expand([TAB, TAB]) == Repeat(SPACE, 15)
  {
    var s := [TAB, TAB];
    assert s[..2] == s && s[..1] == [TAB] && [TAB][..0] == [];
    assert RenderFold([TAB]) == 7;
    assert RenderFold(s) == RenderStep(7, TAB) == 7;
    assert Expand([TAB]) == Repeat(SPACE, 8);
    ExpandStep(s, 1);
    assert Expand(s) == Repeat(SPACE, 8) + Repeat(SPACE, 7);
    assert Repeat(SPACE, 8) + Repeat(SPACE, 7) == Repeat(SPACE, 15);
  }

  // ---------------------------------------------------------------------------
  // Occurrences of a query in the rendered text (Line::match_indices)
  // ---------------------------------------------------------------------------

  predicate MatchAt(t: seq<byte>, q: seq<byte>, i: nat)
  {
    i + |q| <= |t| && t[i..i + |q|] == q
  }

  ghost predicate Occurs(t: seq<byte>, q: seq<byte>)
  {
    exists i: nat :: MatchAt(t, q, i)
  }

  /** `i` is the leftmost offset where `q` occurs in `t`. */
  ghost predicate IsFirstMatch(t: seq<byte>, q: seq<byte>, i: nat)
  {
    MatchAt(t, q, i) && forall j: nat :: j < i ==> !MatchAt(t, q, j)
  }

  /** Left-to-right, non-overlapping occurrences at offsets from `i` on. */
  function MatchesFrom(t: seq<byte>, q: seq<byte>, i: nat): seq<nat>
    decreases |t| + 1 - i
  {
    if i > |t| then []
    else if MatchAt(t, q, i) then [i] + MatchesFrom(t, q, i + Max(|q|, 1))
    else MatchesFrom(t, q, i + 1)
  }

  function MatchOffsets(t: seq<byte>, q: seq<byte>): seq<nat>
  {
    MatchesFrom(t, q, 0)
  }

  lemma {:induction false} MatchesFromFirst(t: seq<byte>, q: seq<byte>, i: nat)
    ensures MatchesFrom(t, q, i) != [] <==> exists j: nat :: i <= j && MatchAt(t, q, j)
    ensures MatchesFrom(t, q, i) != [] ==>
      var m := MatchesFrom(t, q, i)[0];
      i <= m && MatchAt(t, q, m) && forall j: nat :: i <= j < m ==> !MatchAt(t, q, j)
    decreases |t| + 1 - i
  {
    if i > |t| {
      forall j: nat | i <= j ensures !MatchAt(t, q, j) { }
    } else if !MatchAt(t, q, i) {
      MatchesFromFirst(t, q, i + 1);
      forall j: nat | i <= j && MatchAt(t, q, j) ensures i + 1 <= j { }
    }
  }

  /** Every reported offset is an occurrence, offsets ascend and matches do not overlap. */
  lemma {:induction false} MatchesFromSound(t: seq<byte>, q: seq<byte>, i: nat)
    ensures forall k :: 0 <= k < |MatchesFrom(t, q, i)| ==>
      i <= MatchesFrom(t, q, i)[k] && MatchAt(t, q, MatchesFrom(t, q, i)[k])
    ensures forall k :: 0 <= k < |MatchesFrom(t, q, i)| - 1 ==>
      MatchesFrom(t, q, i)[k] + Max(|q|, 1) <= MatchesFrom(t, q, i)[k + 1]
    decreases |t| + 1 - i
  {
    if i <= |t| {
      if MatchAt(t, q, i) {
        MatchesFromSound(t, q, i + Max(|q|, 1));
      } else {
        MatchesFromSound(t, q, i + 1);
      }
    }
  }

  /** The offsets are empty exactly when the query does not occur; otherwise the first is the leftmost match. */
  lemma MatchOffsetsFirst(t: seq<byte>, q: seq<byte>)
    ensures MatchOffsets(t, q) != [] <==> Occurs(t, q)
    ensures MatchOffsets(t, q) != [] ==> IsFirstMatch(t, q, MatchOffsets(t, q)[0])
  {
    MatchesFromFirst(t, q, 0);
  }

  // ---------------------------------------------------------------------------
  // Edits of the logical text
  // ---------------------------------------------------------------------------

  function InsertAt(s: seq<byte>, p: nat, c: byte): (r: seq<byte>)
    requires p <= |s|
    ensures |r| == |s| + 1
  {
    s[..p] + [c] + s[p..]
  }

  function RemoveAt(s: seq<byte>, p: nat): (r: seq<byte>)
    requires p < |s|
    ensures |r| == |s| - 1
  {
    s[..p] + s[p + 1..]
  }

  /** Removing the byte just inserted gives back the text. */
  lemma RemoveInsert(s: seq<byte>, p: nat, c: byte)
    requires p <= |s|
    ensures RemoveAt(InsertAt(s, p, c), p) == s
  {
    var u := InsertAt(s, p, c);
    assert u[..p] == s[..p];
    assert u[p + 1..] == s[p..];
    assert s == s[..p] + s[p..];
  }

  // ---------------------------------------------------------------------------
  // The Line object
  // ---------------------------------------------------------------------------

  class Line {
    var actual: seq<byte>
    var rendered: seq<byte>

    /** `rendered` is always the expansion of `actual`. */
    ghost predicate Valid()
      reads this
    {
      rendered == Expand(actual)
    }

    constructor (actual: seq<byte>)
      ensures Valid() && this.actual == actual
    {
      this.actual := actual;
      rendered := [];
      new;
      Update();
    }

    /** The byte length of the logical text; the rendered text is at least as long. */
    function Len(): (n: nat)
      reads this
      requires Valid()
      ensures n == |actual| && n <= |rendered|
    {
      ExpandLength(actual);
      |actual|
    }

    function Content(): seq<byte>
      reads this
    {
      actual
    }

    function Rendered(): seq<byte>
      reads this
    {
      rendered
    }

    function RenderPosition(pos: nat): nat
      reads this
    {
      RenderPos(actual, pos)
    }

    /** Called by the buffer but not defined in src/line.rs: taken to be RenderPosition. */
    function CursorToRenderPosition(pos: nat): nat
      reads this
    {
      RenderPosition(pos)
    }

    /** Called by the buffer but not defined in src/line.rs: ascending occurrence offsets in the rendered text. */
    function MatchIndices(query: seq<byte>): seq<nat>
      reads this
    {
      MatchOffsets(rendered, query)
    }

    method Insert(pos: nat, ch: byte)
      requires pos <= |actual|
      modifies this
      ensures Valid() && actual == InsertAt(old(actual), pos, ch)
    {
      actual := actual[..pos] + [ch] + actual[pos..];
      Update();
    }

    method Remove(pos: nat)
      requires pos < |actual|
      modifies this
      ensures Valid() && actual == RemoveAt(old(actual), pos)
    {
      actual := actual[..pos] + actual[pos + 1..];
      Update();
    }

    method PushStr(content: seq<byte>)
      modifies this
      ensures Valid() && actual == old(actual) + content
    {
      actual := actual + content;
      Update();
    }

    /** Not defined in src/line.rs: keeps the first `pos` bytes and returns the rest. */
    method SplitOff(pos: nat) returns (tail: seq<byte>)
      requires pos <= |actual|
      modifies this
      ensures Valid() && actual == old(actual)[..pos] && tail == old(actual)[pos..]
    {
      tail := actual[pos..];
      actual := actual[..pos];
      Update();
    }

    /** Clears `rendered` and extends it with the expansion of `actual`. */
    method Update()
      modifies this
      ensures Valid() && actual == old(actual)
    {
      rendered := [];
      var pieces := RenderTabs(actual);
      rendered := rendered + pieces;
    }
  }
}
