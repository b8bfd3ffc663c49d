/** What the parser skips between two tokens is a gap of the grammar, and a gap is skipped. */
module JsonGaps {
  import opened Bytes
  import opened JsonGrammar
  import opened JsonParsing

  // ---- A gap is skipped ----

  lemma {:induction false} FindNewlineIn(s: bytes, i: nat, j: nat, g: bytes, k: nat)
    requires Occurs(s, i, j, g) && k <= |g|
    ensures FindNewline(g, k) == Least(FindNewline(s, i + k), j) - i
    decreases |g| - k
  {
    if k < |g| {
      OccursAt(s, i, j, g, k);
      FindNewlineIn(s, i, j, g, k + 1);
    }
  }

  lemma {:induction false} FindCloseIn(s: bytes, i: nat, j: nat, g: bytes, k: nat)
    requires Occurs(s, i, j, g) && k <= |g|
    ensures FindClose(g, k) + 1 < |g| ==> FindClose(s, i + k) == i + FindClose(g, k)
    ensures FindClose(s, i + k) + 1 < j ==> FindClose(g, k) == FindClose(s, i + k) - i
    decreases |g| - k
  {
    if k + 1 < |g| {
      OccursAt(s, i, j, g, k);
      OccursAt(s, i, j, g, k + 1);
      FindCloseIn(s, i, j, g, k + 1);
    }
  }

  /** A comment that a gap begins with is found, unless it is the end of the text. */
  lemma CommentOver(s: bytes, st: State, j: nat, g: bytes)
    requires Occurs(s, st.i, j, g) && CommentLength(g) > 0 && (j == |s| ==> CommentLength(g) < |g|)
    ensures ConsumeComment(s, st) == Found(true, st.(i := st.i + CommentLength(g)))
  {
    OccursAt(s, st.i, j, g, 0);
    OccursAt(s, st.i, j, g, 1);
    FindNewlineIn(s, st.i, j, g, 2);
    FindCloseIn(s, st.i, j, g, 2);
  }

  lemma {:induction false} CommentsPast(s: bytes, st: State, j: nat, g: bytes)
    requires IsGap(Comments, g) && Occurs(s, st.i, j, g) && (j == |s| ==> MayEnd(g))
    ensures ConsumeComments(s, st.(i := SkipWs(s, st.i))) == ConsumeComments(s, st.(i := SkipWs(s, j)))
    decreases |g|
  {
    hide FindNewline, FindClose, CommentLength, ConsumeComment;
    if g != [] {
      Head(s, st.i, j, g);
      var n := if IsWs(g[0]) then 1 else CommentLength(g);
      assert g == g[..n] + g[n..];
      var k := Split(s, st.i, j, g[..n], g[n..]);
      if !IsWs(g[0]) { CommentOver(s, st, j, g); }
      CommentsPast(s, st.(i := k), j, g[n..]);
    }
  }

  lemma {:induction false} SkipWsPast(s: bytes, i: nat, j: nat, g: bytes)
    requires IsGap(Standard, g) && Occurs(s, i, j, g)
    ensures SkipWs(s, i) == SkipWs(s, j)
    decreases |g|
  {
    if g != [] {
      Head(s, i, j, g);
      assert g == [g[0]] + g[1..];
      var k := Split(s, i, j, [g[0]], g[1..]);
      SkipWsPast(s, k, j, g[1..]);
    }
  }

  /** Skipping from the start of a gap is skipping from its end. */
  lemma GarbagePast(p: Source, st: State, j: nat, g: bytes)
    requires IsGap(p.strategy, g) && Occurs(p.text, st.i, j, g) && (j == |p.text| ==> MayEnd(g))
    ensures ConsumeGarbage(p, st) == ConsumeGarbage(p, st.(i := j))
  {
    if p.strategy == Comments {
      CommentsPast(p.text, st, j, g);
    } else {
      SkipWsPast(p.text, st.i, j, g);
    }
  }

  /** Where no gap begins nothing is skipped. */
  lemma GarbageStays(p: Source, st: State)
    requires st.i <= |p.text| && (st.i < |p.text| ==> NoGap(p.strategy, p.text[st.i]))
    ensures ConsumeGarbage(p, st) == st
  {
  }

  /** The next token is the first byte after the gap. */
  lemma TokenOver(p: Source, st: State, j: nat, g: bytes)
    requires IsGap(p.strategy, g) && Occurs(p.text, st.i, j, g) && j < |p.text| && NoGap(p.strategy, p.text[j])
    ensures GetNextToken(p, st) == Token(p.text[j], st.(i := j + 1))
  {
    GarbagePast(p, st, j, g);
    GarbageStays(p, st.(i := j));
  }

  lemma EndOver(p: Source, st: State, g: bytes)
    requires IsGap(p.strategy, g) && Occurs(p.text, st.i, |p.text|, g) && MayEnd(g)
    ensures ConsumeGarbage(p, st) == st.(i := |p.text|)
  {
    GarbagePast(p, st, |p.text|, g);
    GarbageStays(p, st.(i := |p.text|));
  }

  /** A gap begins with whitespace or, in COMMENTS mode, a slash. */
  lemma GapHead(mode: Strategy, g: bytes)
    requires IsGap(mode, g) && g != []
    ensures !NoGap(mode, g[0])
  {
  }

  lemma NoGapHere(mode: Strategy, s: bytes, i: nat, j: nat, g: bytes)
    requires i < |s| && NoGap(mode, s[i]) && Occurs(s, i, j, g) && IsGap(mode, g)
    ensures i == j && g == []
  {
    if g != [] {
      Head(s, i, j, g);
      GapHead(mode, g);
    }
  }

  // ---- What is skipped is a gap ----

  /** The text from i to j is a gap. */
  predicate GapAt(mode: Strategy, s: bytes, i: nat, j: nat) {
    i <= j <= |s| && IsGap(mode, s[i..j]) && (j == |s| ==> MayEnd(s[i..j]))
  }

  lemma {:induction false} WsBefore(mode: Strategy, s: bytes, i: nat, j: nat, k: nat)
    requires i <= j && GapAt(mode, s, j, k) && forall n :: i <= n < j ==> IsWs(s[n])
    ensures GapAt(mode, s, i, k)
    decreases j - i
  {
    if i < j {
      WsBefore(mode, s, i + 1, j, k);
      assert s[i..k][1..] == s[i + 1..k];
    }
  }

  /** A comment found is what the text from there on begins with. */
  lemma CommentFound(s: bytes, st: State, k: nat, g: bytes)
    requires st.i <= |s| && ConsumeComment(s, st).found && Occurs(s, st.i, k, g)
    requires var i := ConsumeComment(s, st).st.i; i <= k && (i < |s| && s[i] == LF ==> i < k)
    ensures CommentLength(g) == ConsumeComment(s, st).st.i - st.i
    ensures g != [] && !IsWs(g[0])
  {
    OccursAt(s, st.i, k, g, 0);
    OccursAt(s, st.i, k, g, 1);
    FindNewlineIn(s, st.i, k, g, 2);
    FindCloseIn(s, st.i, k, g, 2);
  }

  lemma CommentBefore(s: bytes, st: State, k: nat)
    requires st.i <= |s| && ConsumeComment(s, st).found
    requires var i := ConsumeComment(s, st).st.i; GapAt(Comments, s, SkipWs(s, i), k)
    ensures GapAt(Comments, s, st.i, k)
  {
    var i := ConsumeComment(s, st).st.i;
    var g := s[st.i..k];
    SkipWsStops(s, i);
    WsBefore(Comments, s, i, SkipWs(s, i), k);
    OccursIsSlice(s, st.i, k);
    CommentFound(s, st, k, g);
    assert g[i - st.i..] == s[i..k];
    ConsCommentGap(g);
  }

  lemma ConsCommentGap(g: bytes)
    requires g != [] && !IsWs(g[0]) && CommentLength(g) > 0 && IsGap(Comments, g[CommentLength(g)..])
    ensures IsGap(Comments, g)
    ensures CommentLength(g) < |g| && MayEnd(g[CommentLength(g)..]) ==> MayEnd(g)
  {
  }

  lemma {:induction false} CommentsFrom(s: bytes, st: State)
    requires st.i <= |s| && (st.i < |s| ==> !IsWs(s[st.i])) && !ConsumeComments(s, st).failed
    ensures var r := ConsumeComments(s, st);
      r == st.(i := r.i) && GapAt(Comments, s, st.i, r.i) && (r.i < |s| ==> NoGap(Comments, s[r.i]))
    decreases |s| - st.i
  {
    var c := ConsumeComment(s, st);
    if c.found {
      SkipWsStops(s, c.st.i);
      CommentsFrom(s, c.st.(i := SkipWs(s, c.st.i)));
      CommentBefore(s, st, ConsumeComments(s, st).i);
    } else {
      assert s[st.i..st.i] == [];
    }
  }

  lemma GapFrom(p: Source, st: State)
    requires st.i <= |p.text| && !ConsumeGarbage(p, st).failed
    ensures var r := ConsumeGarbage(p, st);
      r == st.(i := r.i) && GapAt(p.strategy, p.text, st.i, r.i) && (r.i < |p.text| ==> NoGap(p.strategy, p.text[r.i]))
  {
    var j, r := SkipWs(p.text, st.i), ConsumeGarbage(p, st);
    SkipWsStops(p.text, st.i);
    if p.strategy == Comments {
      CommentsFrom(p.text, st.(i := j));
    } else {
      assert p.text[j..j] == [];
    }
    WsBefore(p.strategy, p.text, st.i, j, r.i);
  }

  /** A token read without a failure is a gap and the byte after it. */
  lemma TokenFrom(p: Source, st: State) returns (j: nat, g: bytes)
    requires st.i <= |p.text| && !GetNextToken(p, st).st.failed
    ensures IsGap(p.strategy, g) && Occurs(p.text, st.i, j, g) && j < |p.text| && NoGap(p.strategy, p.text[j])
    ensures GetNextToken(p, st) == Token(p.text[j], st.(i := j + 1))
  {
    GapFrom(p, st);
    j := ConsumeGarbage(p, st).i;
    g := p.text[st.i..j];
    OccursIsSlice(p.text, st.i, j);
  }

  // ---- Comments that break off ----

  /** A slash that begins no whole comment, or a slash-star comment that ends with the text. */
  predicate BreaksAt(s: bytes, m: nat) {
    m < |s| && s[m] == SLASH && (CommentLength(s[m..]) == 0 || m + CommentLength(s[m..]) == |s|)
  }

  /** Where the cursor is left in it: at the end, at the last byte of an open comment, or after a stray slash. */
  function BreakEnd(s: bytes, m: nat): (j: nat)
    requires BreaksAt(s, m)
    ensures m < j <= |s|
  {
    if m + 1 == |s| || s[m + 1] == SLASH then |s|
    else if s[m + 1] == STAR then
      if m + 2 == |s| || CommentLength(s[m..]) > 0 then |s| else |s| - 1
    else m + 1
  }

  lemma CommentBreaks(s: bytes, st: State)
    requires st.i <= |s| && !st.failed
    ensures var c := ConsumeComment(s, st);
      (c.st.failed <==> BreaksAt(s, st.i)) && (c.st.failed ==> !c.found && c.st.i == BreakEnd(s, st.i))
  {
    var i, g := st.i, s[st.i..];
    OccursIsSlice(s, i, |s|);
    assert s[i..|s|] == g;
    if i + 2 <= |s| {
      FindNewlineIn(s, i, |s|, g, 2);
      FindCloseIn(s, i, |s|, g, 2);
    }
  }

  /** From i a gap leads to a comment that breaks off at m, after which the cursor comes to rest at j. */
  predicate BreaksFrom(mode: Strategy, s: bytes, i: nat, m: nat, j: nat) {
    mode == Comments && i <= m && BreaksAt(s, m) && IsGap(Comments, s[i..m]) && j == SkipWs(s, BreakEnd(s, m))
  }

  lemma {:induction false} CommentsBreak(s: bytes, st: State) returns (m: nat)
    requires st.i <= |s| && !st.failed && (st.i < |s| ==> !IsWs(s[st.i])) && ConsumeComments(s, st).failed
    ensures BreaksFrom(Comments, s, st.i, m, ConsumeComments(s, st).i)
    decreases |s| - st.i
  {
    CommentBreaks(s, st);
    var c := ConsumeComment(s, st);
    if c.found {
      SkipWsStops(s, c.st.i);
      m := CommentsBreak(s, c.st.(i := SkipWs(s, c.st.i)));
      CommentBefore(s, st, m);
    } else {
      m := st.i;
      assert s[m..m] == [];
    }
  }

  lemma BreakOver(s: bytes, st: State, m: nat, j: nat)
    requires st.i <= |s| && !st.failed && BreaksFrom(Comments, s, st.i, m, j)
    ensures var r := ConsumeComments(s, st.(i := SkipWs(s, st.i))); r.failed && r.i == j
  {
    OccursIsSlice(s, st.i, m);
    CommentsPast(s, st, m, s[st.i..m]);
    CommentBreaks(s, st.(i := m));
    assert SkipWs(s, m) == m;
  }

  /**
   * Between two tokens the parser fails exactly where a comment breaks off after a gap, and the
   * place where it comes to rest is determined by the text.
   */
  lemma GarbageBreaks(p: Source, st: State)
    requires st.i <= |p.text| && !st.failed
    ensures ConsumeGarbage(p, st).failed <==> exists m, j :: BreaksFrom(p.strategy, p.text, st.i, m, j)
    ensures forall m, j :: BreaksFrom(p.strategy, p.text, st.i, m, j) ==> ConsumeGarbage(p, st).i == j
  {
    if ConsumeGarbage(p, st).failed {
      var i := SkipWs(p.text, st.i);
      SkipWsStops(p.text, st.i);
      var m := CommentsBreak(p.text, st.(i := i));
      WsBefore(Comments, p.text, st.i, i, m);
      assert BreaksFrom(p.strategy, p.text, st.i, m, ConsumeGarbage(p, st).i);
    }
    forall m, j | BreaksFrom(p.strategy, p.text, st.i, m, j)
      ensures ConsumeGarbage(p, st).failed && ConsumeGarbage(p, st).i == j
    {
      BreakOver(p.text, st, m, j);
    }
  }
}
