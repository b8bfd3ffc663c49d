/** Json::parse_multi: several values in one text. */
module JsonMulti {
  import opened Folding
  import opened Bytes
  import opened JsonNumber
  import opened JsonValue
  import opened JsonGrammar
  import opened JsonParsing
  import opened JsonGaps
  import opened JsonComplete
  import opened JsonSound
  import opened JsonDump
  import opened JsonRoundTrip

  function MultiText(ds: seq<Document>): (s: bytes) {
    if ds == [] then [] else ds[0].pre + (Text(ds[0].value) + (ds[0].post + MultiText(ds[1..])))
  }

  /**
   * Values one after the other, each within the depth limit, the gap between two of them counted
   * to the first. Nothing else separates them, so a number must not run into what follows.
   */
  ghost predicate DerivesRow(mode: Strategy, ds: seq<Document>) {
    ds == [] ||
    (IsGap(mode, ds[0].pre) && IsGap(mode, ds[0].post) && ValidTree(mode, ds[0].value) && Height(ds[0].value) <= MAX_DEPTH
     && ValueEnds(ds[0].value, At(ds[0].post + MultiText(ds[1..]), 0))
     && (|ds| > 1 ==> ds[1].pre == [])
     && DerivesRow(mode, ds[1..]))
  }

  /** The row may be the end of a text: it does not end in a slash-star comment. */
  predicate RowMayEnd(ds: seq<Document>) { ds == [] || MayEnd(ds[|ds| - 1].post) }

  ghost predicate DerivesMulti(mode: Strategy, ds: seq<Document>) { DerivesRow(mode, ds) && RowMayEnd(ds) }

  /** The values in order, errno carried from one to the next. */
  function MultiValues(lib: Libc, ds: seq<Document>, erange: bool): (r: ArrayReading)
    ensures |r.items| == |ds|
  {
    if ds == [] then ArrayReading([], erange)
    else
      var v := Eval(lib, ds[0].value, erange);
      var rest := MultiValues(lib, ds[1..], v.erange);
      ArrayReading([v.value] + rest.items, rest.erange)
  }

  // ---- One round of the loop ----

  lemma Round(p: Source, st: State, stop: nat, values: seq<Json>, v: Result, st1: State)
    requires Ready(p, st) && st.i < |p.text| && stop <= |p.text|
    requires v == ParseJson(p, 0, st) && st1 == ConsumeGarbage(p, v.st)
    ensures !st1.failed ==> ParseMulti(p, st, stop, values) == ParseMulti(p, st1, st1.i, values + [v.value])
    ensures st1.failed ==> ParseMulti(p, st, stop, values) == MultiResult(values + [v.value], stop, st1)
  {
    hide ParseJson, ConsumeGarbage;
  }

  // ---- Completeness ----

  /** On a row the loop reads its values, and fails at the end if the row may not end the text. */
  lemma {:induction false} RowComplete(p: Source, st: State, stop: nat, values: seq<Json>, ds: seq<Document>)
    requires Ready(p, st) && stop == st.i && DerivesRow(p.strategy, ds) && Occurs(p.text, st.i, |p.text|, MultiText(ds))
    ensures var r, e := ParseMulti(p, st, stop, values), MultiValues(p.lib, ds, st.erange);
      r.values == values + e.items && (r.st.failed <==> !RowMayEnd(ds))
      && (!r.st.failed ==> r.stop == |p.text| && r.st == st.(i := |p.text|, erange := e.erange))
    decreases |ds|
  {
    if ds == [] {
      assert values + [] == values;
    } else {
      var d, rest := ds[0], ds[1..];
      assert ds == [d] + rest;
      var j, v := ValueRound(p, st, d, rest);
      var after := ParseJson(p, 0, st).st;
      var values1 := values + [v.value];
      var next := ConsumeGarbage(p, after);
      Round(p, st, stop, values, ParseJson(p, 0, st), next);
      MultiValuesCons(p.lib, d, rest, values, st.erange);
      if rest == [] {
        LastGap(p, after, d.post);
        if MayEnd(d.post) { RowComplete(p, next, j, values1, rest); }
      } else {
        RowComplete(p, next, j, values1, rest);
      }
    }
  }

  lemma MultiValuesCons(lib: Libc, d: Document, rest: seq<Document>, values: seq<Json>, erange: bool)
    ensures var v, r := Eval(lib, d.value, erange), MultiValues(lib, [d] + rest, erange);
      var q := MultiValues(lib, rest, v.erange);
      values + r.items == (values + [v.value]) + q.items && r.erange == q.erange
  {
    assert ([d] + rest)[1..] == rest;
  }

  /** The value of a piece is read; what follows it is the next piece, or the gap at the end. */
  lemma ValueRound(p: Source, st: State, d: Document, rest: seq<Document>) returns (j: nat, v: Reading)
    requires Ready(p, st) && DerivesRow(p.strategy, [d] + rest) && Occurs(p.text, st.i, |p.text|, MultiText([d] + rest))
    ensures st.i < j <= |p.text| && Occurs(p.text, j, |p.text|, MultiText(rest)) && DerivesRow(p.strategy, rest)
    ensures v == Eval(p.lib, d.value, st.erange) && IsGap(p.strategy, d.post)
    ensures var r := ParseJson(p, 0, st);
      r == Result(v.value, st.(i := r.st.i, erange := v.erange)) && Occurs(p.text, r.st.i, j, d.post) && r.st.i <= |p.text|
      && (rest != [] ==> ConsumeGarbage(p, r.st) == r.st.(i := j))
  {
    var a, b;
    a, b, j := PieceParts(p.strategy, p.text, st.i, d, rest);
    v := Eval(p.lib, d.value, st.erange);
    CompleteValue(p, 0, st, a, b, d.pre, d.value);
    if rest != [] {
      GarbagePast(p, st.(i := b, erange := v.erange), j, d.post);
      GarbageStays(p, st.(i := j, erange := v.erange));
    }
  }

  /** Where the value of the first piece, the gap after it and the next piece begin. */
  lemma PieceParts(mode: Strategy, s: bytes, i: nat, d: Document, rest: seq<Document>) returns (a: nat, b: nat, j: nat)
    requires DerivesRow(mode, [d] + rest) && Occurs(s, i, |s|, MultiText([d] + rest))
    ensures Occurs(s, i, a, d.pre) && Occurs(s, a, b, Text(d.value))
    ensures Occurs(s, b, j, d.post) && Occurs(s, j, |s|, MultiText(rest))
    ensures i < j && DerivesRow(mode, rest) && IsGap(mode, d.pre) && IsGap(mode, d.post)
    ensures ValidTree(mode, d.value) && Height(d.value) <= MAX_DEPTH
    ensures ValueEnds(d.value, At(s, b)) && ReadsAlone(d.value, At(s, b), true)
    ensures rest != [] ==> j < |s| && StartsValue(s[j])
  {
    var ds, after := [d] + rest, d.post + MultiText(rest);
    assert ds[1..] == rest;
    a := Split(s, i, |s|, d.pre, Text(d.value) + after);
    b := Split(s, a, |s|, Text(d.value), after);
    j := Split(s, b, |s|, d.post, MultiText(rest));
    FirstByte(mode, d.value);
    if rest != [] {
      assert ds[1] == rest[0];
      NextPiece(mode, s, j, rest);
    }
    if b < |s| { Head(s, b, |s|, after); }
    if d.post != [] {
      Head(s, b, j, d.post);
      GapHead(mode, d.post);
    }
  }

  /** A following value begins with a byte that begins no gap. */
  lemma NextPiece(mode: Strategy, s: bytes, j: nat, rest: seq<Document>)
    requires rest != [] && DerivesRow(mode, rest) && rest[0].pre == [] && Occurs(s, j, |s|, MultiText(rest))
    ensures j < |s| && StartsValue(s[j])
  {
    FirstByte(mode, rest[0].value);
    Head(s, j, |s|, MultiText(rest));
  }

  /** A gap at the end of the text is skipped without failure if and only if it may end a text. */
  lemma LastGap(p: Source, st: State, g: bytes)
    requires Ready(p, st) && IsGap(p.strategy, g) && Occurs(p.text, st.i, |p.text|, g)
    ensures ConsumeGarbage(p, st).failed <==> !MayEnd(g)
    ensures MayEnd(g) ==> ConsumeGarbage(p, st) == st.(i := |p.text|)
  {
    if MayEnd(g) {
      EndOver(p, st, g);
    } else {
      var m, j := LastBreak(p.strategy, p.text, st.i, g);
      GarbageBreaks(p, st);
    }
  }

  lemma LastBreak(mode: Strategy, s: bytes, i: nat, g: bytes) returns (m: nat, j: nat)
    requires IsGap(mode, g) && Occurs(s, i, |s|, g) && !MayEnd(g)
    ensures BreaksFrom(mode, s, i, m, j)
  {
    var n := LastComment(mode, g);
    OccursIsSlice(s, i, |s|);
    m := i + n;
    assert g == s[i..|s|] == s[i..];
    assert s[i..m] == g[..n] && s[m..] == g[n..];
    j := SkipWs(s, BreakEnd(s, m));
  }

  /** A gap that may not end a text is a gap and a comment. */
  lemma {:induction false} LastComment(mode: Strategy, g: bytes) returns (n: nat)
    requires IsGap(mode, g) && !MayEnd(g)
    ensures n < |g| && mode == Comments && IsGap(mode, g[..n]) && g[n] == SLASH && CommentLength(g[n..]) == |g| - n
    decreases |g|
  {
    var k := if IsWs(g[0]) then 1 else CommentLength(g);
    if k == |g| && !IsWs(g[0]) {
      n := 0;
      assert g[0..] == g;
    } else {
      n := LastComment(mode, g[k..]);
      n := n + k;
      assert g[..n][k..] == g[k..][..n - k] && g[n..] == g[k..][n - k..];
      if !IsWs(g[0]) { CommentOfPrefix(g, n); }
    }
  }

  /** Whether a text begins with a comment does not depend on what follows the comment. */
  lemma CommentOfPrefix(g: bytes, n: nat)
    requires 0 < CommentLength(g) < |g| && CommentLength(g) <= n <= |g|
    requires g[1] == SLASH ==> CommentLength(g) < n
    ensures CommentLength(g[..n]) == CommentLength(g)
  {
    OccursIsSlice(g, 0, n);
    assert g[0..n] == g[..n];
    FindNewlineIn(g, 0, n, g[..n], 2);
    FindCloseIn(g, 0, n, g[..n], 2);
  }

  // ---- Soundness ----

  /** The result of the loop from st on, with the stop position there, folded. */
  ghost predicate MultiYields(p: Source, st: State, values: seq<Json>, r: MultiResult) {
    st.i <= |p.text| && forall x: int :: Unfold(x) ==> ParseMulti(p, st, st.i, values) == r
  }

  lemma {:induction false} MultiSound(p: Source, st: State, values: seq<Json>, r: MultiResult) returns (ds: seq<Document>)
    requires Ready(p, st) && MultiYields(p, st, values, r) && !r.st.failed
    ensures DerivesMulti(p.strategy, ds) && Occurs(p.text, st.i, |p.text|, MultiText(ds))
    ensures st.i < |p.text| && NoGap(p.strategy, p.text[st.i]) ==> ds != [] && ds[0].pre == []
    decreases |p.text| - st.i
  {
    hide ParseJson, ConsumeGarbage, ParseMulti, Text, Height;
    if st.i == |p.text| {
      ds := [];
    } else {
      RoundSucceeds(p, st, values, r);
      var i, pre, t, v, st1 := RoundSound(p, st, values);
      var rest := MultiSound(p, st1, values + [v.value], r);
      ds := ConsPiece(p.strategy, p.text, st.i, i, v.st.i, st1.i, |p.text|, pre, t, rest);
      if NoGap(p.strategy, p.text[st.i]) { NoGapHere(p.strategy, p.text, st.i, i, pre); }
    }
  }

  lemma RoundSucceeds(p: Source, st: State, values: seq<Json>, r: MultiResult)
    requires Ready(p, st) && st.i < |p.text| && MultiYields(p, st, values, r) && !r.st.failed
    ensures var v := ParseJson(p, 0, st); var st1 := ConsumeGarbage(p, v.st);
      !st1.failed && MultiYields(p, st1, values + [v.value], r)
  {
    hide ParseJson, ConsumeGarbage;
    assert Unfold(0);
    var v := ParseJson(p, 0, st);
    Round(p, st, st.i, values, v, ConsumeGarbage(p, v.st));
  }

  /** A round without a failure: a gap, a value and a gap. */
  lemma RoundSound(p: Source, st: State, values: seq<Json>)
    returns (i: nat, pre: bytes, t: Tree, v: Result, st1: State)
    requires Ready(p, st) && st.i < |p.text| && !ConsumeGarbage(p, ParseJson(p, 0, st).st).failed
    ensures v == ParseJson(p, 0, st) && st1 == ConsumeGarbage(p, v.st) && Ready(p, st1)
    ensures ParseMulti(p, st, st.i, values) == ParseMulti(p, st1, st1.i, values + [v.value])
    ensures IsGap(p.strategy, pre) && ValidTree(p.strategy, t) && Height(t) <= MAX_DEPTH
    ensures st.i < v.st.i <= st1.i <= |p.text| && !v.st.failed && st1 == v.st.(i := st1.i)
    ensures Occurs(p.text, st.i, i, pre) && Occurs(p.text, i, v.st.i, Text(t)) && ValueEnds(t, At(p.text, v.st.i))
    ensures GapAt(p.strategy, p.text, v.st.i, st1.i) && (st1.i < |p.text| ==> NoGap(p.strategy, p.text[st1.i]))
  {
    v := ParseJson(p, 0, st);
    st1 := ConsumeGarbage(p, v.st);
    Round(p, st, st.i, values, v, st1);
    i, pre, t := ValueFrom(p, 0, st, v);
    GapFrom(p, v.st);
  }

  lemma ConsPiece(mode: Strategy, s: bytes, i: nat, a: nat, b: nat, c: nat, end: nat, pre: bytes, t: Tree, rest: seq<Document>)
    returns (ds: seq<Document>)
    requires IsGap(mode, pre) && Occurs(s, i, a, pre) && Occurs(s, a, b, Text(t)) && GapAt(mode, s, b, c) && c <= end <= |s|
    requires ValidTree(mode, t) && Height(t) <= MAX_DEPTH && ValueEnds(t, At(s, b))
    requires DerivesRow(mode, rest) && Occurs(s, c, end, MultiText(rest)) && (rest != [] ==> rest[0].pre == [])
    ensures ds == [Document(pre, t, s[b..c])] + rest && ds[1..] == rest
    ensures DerivesRow(mode, ds) && Occurs(s, i, end, MultiText(ds))
    ensures RowMayEnd(ds) <==> if rest == [] then MayEnd(s[b..c]) else RowMayEnd(rest)
  {
    var post := s[b..c];
    ds := [Document(pre, t, post)] + rest;
    assert ds[1..] == rest;
    OccursIsSlice(s, b, c);
    Join(s, b, c, end, post, MultiText(rest));
    if post + MultiText(rest) != [] { Head(s, b, end, post + MultiText(rest)); }
    Join(s, a, b, end, Text(t), post + MultiText(rest));
    Join(s, i, a, end, pre, Text(t) + (post + MultiText(rest)));
    assert ValueEnds(t, At(post + MultiText(rest), 0));
    if rest != [] { assert ds[1] == rest[0] && ds[|ds| - 1] == rest[|rest| - 1]; }
  }

  /** parse_multi succeeds exactly on texts that are values one after the other, and returns their values in order. */
  lemma MultiIsTheGrammar(p: Source, err: Error, erange: bool)
    ensures !ParseMulti(p, Start(err, erange), 0, []).st.failed <==>
      exists ds :: DerivesMulti(p.strategy, ds) && p.text == MultiText(ds)
    ensures forall ds :: DerivesMulti(p.strategy, ds) && p.text == MultiText(ds) ==>
      ParseMulti(p, Start(err, erange), 0, []).values == MultiValues(p.lib, ds, erange).items
      && ParseMulti(p, Start(err, erange), 0, []).stop == |p.text|
  {
    if !ParseMulti(p, Start(err, erange), 0, []).st.failed {
      var ds := WholeSound(p, err, erange);
    }
    forall ds | DerivesRow(p.strategy, ds) && p.text == MultiText(ds)
      ensures var r := ParseMulti(p, Start(err, erange), 0, []);
        r.values == MultiValues(p.lib, ds, erange).items && (r.st.failed <==> !RowMayEnd(ds))
        && (!r.st.failed ==> r.stop == |p.text|)
    {
      WholeComplete(p, err, erange, ds);
    }
  }

  lemma WholeSound(p: Source, err: Error, erange: bool) returns (ds: seq<Document>)
    requires !ParseMulti(p, Start(err, erange), 0, []).st.failed
    ensures DerivesMulti(p.strategy, ds) && p.text == MultiText(ds)
  {
    ds := MultiSound(p, Start(err, erange), [], ParseMulti(p, Start(err, erange), 0, []));
    OccursIsSlice(p.text, 0, |p.text|);
    assert p.text[0..|p.text|] == p.text;
  }

  lemma WholeComplete(p: Source, err: Error, erange: bool, ds: seq<Document>)
    requires DerivesRow(p.strategy, ds) && p.text == MultiText(ds)
    ensures var r := ParseMulti(p, Start(err, erange), 0, []);
      r.values == MultiValues(p.lib, ds, erange).items && (r.st.failed <==> !RowMayEnd(ds))
      && (!r.st.failed ==> r.stop == |p.text|)
  {
    OccursIsSlice(p.text, 0, |p.text|);
    assert p.text[0..|p.text|] == p.text;
    RowComplete(p, Start(err, erange), 0, [], ds);
    assert [] + MultiValues(p.lib, ds, erange).items == MultiValues(p.lib, ds, erange).items;
  }

  // ---- The stop position ----

  /** A value in a text that goes on with rest: strtod is given the rest too. */
  function EvalIn(lib: Libc, t: Tree, rest: bytes, erange: bool): (r: Reading) {
    if t.TNum? then ReadNumberIn(lib, t.lit, NumText(t.lit) + rest, erange) else Eval(lib, t, erange)
  }

  /** The values of a row in a text that goes on with tail. */
  function RowIn(lib: Libc, ds: seq<Document>, tail: bytes, erange: bool): (r: ArrayReading)
    ensures |r.items| == |ds|
  {
    if ds == [] then ArrayReading([], erange)
    else
      var v := EvalIn(lib, ds[0].value, ds[0].post + (MultiText(ds[1..]) + tail), erange);
      var rest := RowIn(lib, ds[1..], tail, v.erange);
      ArrayReading([v.value] + rest.items, rest.erange)
  }

  /** A row is not prolonged by tail. */
  predicate RowEnds(ds: seq<Document>, tail: bytes) {
    ds == [] || (var d := ds[|ds| - 1]; ValueEnds(d.value, At(d.post + tail, 0)))
  }

  /**
   * The last value of a row is a zero read by strtod because of a stale ERANGE, and with tail right
   * behind it strtod reads another number.
   */
  predicate HexTail(lib: Libc, ds: seq<Document>, tail: bytes, erange: bool)
    decreases |ds|
  {
    if ds == [] then false
    else if |ds| > 1 then HexTail(lib, ds[1..], tail, Eval(lib, ds[0].value, erange).erange)
    else
      var d := ds[0];
      erange && d.value.TNum? && d.post == [] && HexFollows(d.value.lit, At(tail, 0))
      && lib.strtod(NumText(d.value.lit) + tail).value != lib.strtod(NumText(d.value.lit)).value
  }

  lemma CompleteValueIn(p: Source, st: State, i: nat, end: nat, ws: bytes, t: Tree)
    requires Ready(p, st) && IsGap(p.strategy, ws) && ValidTree(p.strategy, t) && Height(t) <= MAX_DEPTH
    requires Occurs(p.text, st.i, i, ws) && Occurs(p.text, i, end, Text(t)) && ValueEnds(t, At(p.text, end))
    ensures var r := EvalIn(p.lib, t, p.text[end..], st.erange);
      ParseJson(p, 0, st) == Result(r.value, st.(i := end, erange := r.erange))
  {
    hide ParseJson, ParseNumber, ConsumeGarbage, Height, NumText;
    if t.TNum? {
      FirstByte(p.strategy, t);
      Head(p.text, i, end, Text(t));
      TokenOver(p, st, i, ws);
      NumberHere(p, 0, st, i, end, t.lit);
      OccursIsSlice(p.text, i, end);
      assert p.text[i..] == NumText(t.lit) + p.text[end..];
    } else {
      CompleteValue(p, 0, st, i, end, ws, t);
    }
  }

  /** The zero that a stale ERANGE sends to strtod, with an x behind it: the one case in which the reading can differ. */
  lemma EvalInRest(lib: Libc, t: Tree, rest: bytes, erange: bool)
    requires t.TNum? ==> ValidNum(t.lit)
    requires ValueEnds(t, At(rest, 0))
    ensures ReadsAlone(t, At(rest, 0), erange) ==> EvalIn(lib, t, rest, erange) == Eval(lib, t, erange)
    ensures !ReadsAlone(t, At(rest, 0), erange) ==>
      EvalIn(lib, t, rest, erange).value == Number(lib.strtod(NumText(t.lit) + rest).value)
      && Eval(lib, t, erange).value == Number(lib.strtod(NumText(t.lit)).value)
  {
    if t.TNum? {
      if ReadsAlone(t, At(rest, 0), erange) {
        ReadsAsAlone(lib, t.lit, rest, erange);
      }
    }
  }

  /** What follows a row can change its last value only. */
  lemma {:induction false} RowInTail(mode: Strategy, lib: Libc, ds: seq<Document>, tail: bytes, erange: bool)
    requires DerivesRow(mode, ds) && RowEnds(ds, tail)
    ensures var r, e := RowIn(lib, ds, tail, erange).items, MultiValues(lib, ds, erange).items;
      (r == e <==> !HexTail(lib, ds, tail, erange)) && (ds != [] ==> r[..|ds| - 1] == e[..|ds| - 1])
    decreases |ds|
  {
    hide Text, Height, Eval, IsGap, NumText;
    if ds != [] {
      var d, rest := ds[0], ds[1..];
      AfterPiece(mode, ds, tail);
      EvalInRest(lib, d.value, d.post + (MultiText(rest) + tail), erange);
      if rest != [] {
        var v := Eval(lib, d.value, erange);
        assert ds[|ds| - 1] == rest[|rest| - 1];
        RowInTail(mode, lib, rest, tail, v.erange);
        ConsItems(v.value, RowIn(lib, rest, tail, v.erange).items, MultiValues(lib, rest, v.erange).items);
      } else {
        assert ds == [d] && RowIn(lib, ds, tail, erange).items[0] == EvalIn(lib, d.value, d.post + tail, erange).value by {
          assert MultiText(rest) + tail == tail;
        }
        assert MultiValues(lib, ds, erange).items[0] == Eval(lib, d.value, erange).value;
        LastIn(mode, lib, d, tail, erange);
      }
    }
  }

  lemma LastIn(mode: Strategy, lib: Libc, d: Document, tail: bytes, erange: bool)
    requires IsGap(mode, d.post) && (d.value.TNum? ==> ValidNum(d.value.lit)) && ValueEnds(d.value, At(d.post + tail, 0))
    ensures EvalIn(lib, d.value, d.post + tail, erange).value == Eval(lib, d.value, erange).value
      <==> !HexTail(lib, [d], tail, erange)
  {
    EvalInRest(lib, d.value, d.post + tail, erange);
    if d.post != [] {
      GapHead(mode, d.post);
    } else {
      assert d.post + tail == tail;
    }
  }

  lemma ConsItems(v: Json, a: seq<Json>, b: seq<Json>)
    requires |a| == |b| > 0 && a[..|a| - 1] == b[..|b| - 1]
    ensures [v] + a == [v] + b <==> a == b
    ensures ([v] + a)[..|a|] == ([v] + b)[..|b|]
  {
    assert ([v] + a)[1..] == a && ([v] + b)[1..] == b;
    assert ([v] + a)[..|a|] == [v] + a[..|a| - 1] && ([v] + b)[..|b|] == [v] + b[..|b| - 1];
  }

  /** Behind the first piece of a row stands a gap, the next value, or the tail. */
  lemma AfterPiece(mode: Strategy, ds: seq<Document>, tail: bytes)
    requires ds != [] && DerivesRow(mode, ds) && RowEnds(ds, tail)
    ensures var next := At(ds[0].post + (MultiText(ds[1..]) + tail), 0);
      ValueEnds(ds[0].value, next) && (|ds| > 1 ==> ReadsAlone(ds[0].value, next, true))
  {
    var d, rest := ds[0], ds[1..];
    if d.post != [] {
      GapHead(mode, d.post);
    } else if rest != [] {
      assert rest[0] == ds[1];
      FirstByte(mode, rest[0].value);
      assert MultiText(rest)[0] == Text(rest[0].value)[0];
    }
  }

  /** Of the values of r all but those before and the last are the row's, read with the rest of the text behind it. */
  ghost predicate StopsAfter(p: Source, st: State, values: seq<Json>, ds: seq<Document>, r: MultiResult) {
    && st.i <= r.stop <= |p.text| && DerivesRow(p.strategy, ds) && Occurs(p.text, st.i, r.stop, MultiText(ds))
    && RowEnds(ds, p.text[r.stop..]) && |r.values| == |values| + |ds| + 1
    && r.values[..|r.values| - 1] == values + RowIn(p.lib, ds, p.text[r.stop..], st.erange).items
  }

  /** The row that parse_multi has read when it fails. */
  lemma {:induction false} StopFrom(p: Source, st: State, values: seq<Json>) returns (ds: seq<Document>)
    requires Ready(p, st) && ParseMulti(p, st, st.i, values).st.failed
    ensures StopsAfter(p, st, values, ds, ParseMulti(p, st, st.i, values))
    ensures st.i < |p.text| && NoGap(p.strategy, p.text[st.i]) && ds != [] ==> ds[0].pre == []
    decreases |p.text| - st.i, 1
  {
    var v := ParseJson(p, 0, st);
    var st1 := ConsumeGarbage(p, v.st);
    Round(p, st, st.i, values, v, st1);
    if st1.failed {
      ds := [];
      OccursIsSlice(p.text, st.i, st.i);
      assert p.text[st.i..st.i] == [] && (values + [v.value])[..|values|] == values + [];
    } else {
      ds := StopRound(p, st, values);
    }
  }

  lemma {:induction false} StopRound(p: Source, st: State, values: seq<Json>) returns (ds: seq<Document>)
    requires Ready(p, st) && st.i < |p.text| && ParseMulti(p, st, st.i, values).st.failed
    requires !ConsumeGarbage(p, ParseJson(p, 0, st).st).failed
    ensures StopsAfter(p, st, values, ds, ParseMulti(p, st, st.i, values))
    ensures NoGap(p.strategy, p.text[st.i]) && ds != [] ==> ds[0].pre == []
    decreases |p.text| - st.i, 0
  {
    hide ParseJson, ConsumeGarbage, ParseMulti, Text, Height, Eval, RowEnds, RowIn, EvalIn, DerivesRow, IsGap, ValidTree;
    var i, pre, t, v, st1 := RoundSound(p, st, values);
    var r := ParseMulti(p, st, st.i, values);
    var rest := StopFrom(p, st1, values + [v.value]);
    var tail := p.text[r.stop..];
    ds := ConsPiece(p.strategy, p.text, st.i, i, v.st.i, st1.i, r.stop, pre, t, rest);
    if NoGap(p.strategy, p.text[st.i]) { NoGapHere(p.strategy, p.text, st.i, i, pre); }
    CompleteValueIn(p, st, i, v.st.i, pre, t);
    RestOfText(p.text, v.st.i, st1.i, r.stop, MultiText(rest));
    RowInCons(p.lib, ds, tail, st.erange, values, v);
    RowEndsCons(p.text, v.st.i, ds[0], rest, tail);
  }

  lemma RowEndsCons(s: bytes, b: nat, d: Document, rest: seq<Document>, tail: bytes)
    requires b <= |s| && s[b..] == d.post + (MultiText(rest) + tail) && ValueEnds(d.value, At(s, b)) && RowEnds(rest, tail)
    ensures RowEnds([d] + rest, tail)
  {
    if rest == [] {
      assert MultiText(rest) + tail == tail;
      assert At(s, b) == At(s[b..], 0);
    } else {
      assert ([d] + rest)[|rest|] == rest[|rest| - 1];
    }
  }

  lemma RestOfText(s: bytes, b: nat, c: nat, stop: nat, text: bytes)
    requires b <= c <= |s| && Occurs(s, c, stop, text)
    ensures s[b..] == s[b..c] + (text + s[stop..])
  {
    OccursIsSlice(s, c, stop);
    assert s[c..] == s[c..stop] + s[stop..];
  }

  lemma RowInCons(lib: Libc, ds: seq<Document>, tail: bytes, erange: bool, values: seq<Json>, v: Result)
    requires ds != []
    requires var e := EvalIn(lib, ds[0].value, ds[0].post + (MultiText(ds[1..]) + tail), erange);
      v.value == e.value && v.st.erange == e.erange
    ensures values + RowIn(lib, ds, tail, erange).items == values + [v.value] + RowIn(lib, ds[1..], tail, v.st.erange).items
  {
  }

  /**
   * When parse_multi fails, the text cut at parser_stop_pos is a row of documents, one fewer than
   * the elements returned. Parsed again it gives every element but the last, except that the one
   * before it differs if and only if it is a zero with a stale ERANGE and an x behind it from which
   * strtod reads on. The second parse succeeds unless the cut leaves a slash-star comment at the
   * end, which happens in COMMENTS mode only.
   */
  lemma StopPrefix(p: Source, err: Error, erange: bool) returns (ds: seq<Document>)
    requires ParseMulti(p, Start(err, erange), 0, []).st.failed
    ensures var r := ParseMulti(p, Start(err, erange), 0, []);
      var cut := ParseMulti(p.(text := p.text[..r.stop]), Start(err, erange), 0, []);
      && DerivesRow(p.strategy, ds) && p.text[..r.stop] == MultiText(ds) && |r.values| == |ds| + 1
      && (cut.st.failed <==> !RowMayEnd(ds)) && (!cut.st.failed ==> cut.stop == r.stop)
      && (cut.values == r.values[..|ds|] <==> !HexTail(p.lib, ds, p.text[r.stop..], erange))
      && |cut.values| == |ds| && (ds != [] ==> cut.values[..|ds| - 1] == r.values[..|ds| - 1])
    ensures p.strategy == Standard ==> RowMayEnd(ds)
  {
    hide ParseMulti, Text, Height, HexTail;
    var st, r := Start(err, erange), ParseMulti(p, Start(err, erange), 0, []);
    ds := StopFrom(p, st, []);
    var tail := p.text[r.stop..];
    OccursIsSlice(p.text, 0, r.stop);
    assert p.text[0..r.stop] == p.text[..r.stop];
    WholeComplete(p.(text := p.text[..r.stop]), err, erange, ds);
    RowInTail(p.strategy, p.lib, ds, tail, erange);
    StopValues(r.values, RowIn(p.lib, ds, tail, erange).items, |ds|);
    if p.strategy == Standard && ds != [] { StandardRow(ds); }
  }

  lemma StopValues(values: seq<Json>, items: seq<Json>, n: nat)
    requires |values| == n + 1 && |items| == n && values[..|values| - 1] == [] + items
    ensures values[..n] == items && (n > 0 ==> values[..n - 1] == items[..n - 1])
  {
    assert [] + items == items;
    if n > 0 { assert values[..n - 1] == values[..n][..n - 1]; }
  }

  lemma {:induction false} StandardRow(ds: seq<Document>)
    requires ds != [] && DerivesRow(Standard, ds)
    ensures MayEnd(ds[|ds| - 1].post)
    decreases |ds|
  {
    if |ds| > 1 {
      assert ds[1..][|ds| - 2] == ds[|ds| - 1];
      StandardRow(ds[1..]);
    } else {
      StandardGap(ds[0].post);
    }
  }

  lemma {:induction false} StandardGap(g: bytes)
    requires IsGap(Standard, g)
    ensures MayEnd(g)
    decreases |g|
  {
    if g != [] { StandardGap(g[1..]); }
  }

  // ---- A number that the cut changes ----

  /** 1e999 0x10 */
  const HEX_AFTER_RANGE: bytes := [49, LOWER_E, 57, 57, 57, SPACE, ZERO, LOWER_X, 49, ZERO]

  const OUT_OF_RANGE := NumLit(false, [49], [], Exp(LOWER_E, [], [57, 57, 57]))
  const JUST_ZERO := NumLit(false, [ZERO], [], NoExp)

  /**
   * When 1e999 sets ERANGE, the 0 that follows is read by strtod, which is given 0x10 and reads 16.
   * The parse fails at the x; parsed again up to there, the text gives 0.
   */
  lemma CutChangesNumber(lib: Libc, err: Error)
    requires lib.strtod(HEX_AFTER_RANGE[..5]).erange && lib.strtod(HEX_AFTER_RANGE[6..]).value != lib.strtod([ZERO]).value
    ensures var p := Source(HEX_AFTER_RANGE, Standard, lib);
      var r := ParseMulti(p, Start(err, false), 0, []);
      var first := Number(lib.strtod(HEX_AFTER_RANGE[..5]).value);
      && r.st.failed && r.stop == 7 && r.values == [first, Number(lib.strtod(HEX_AFTER_RANGE[6..]).value), Nul]
      && ParseMulti(p.(text := p.text[..7]), Start(err, false), 0, []).values == [first, Number(lib.strtod([ZERO]).value)]
  {
    hide ParseMulti;
    var p := Source(HEX_AFTER_RANGE, Standard, lib);
    FirstRound(p, err);
    SecondRound(p, State(6, false, err, true), [Number(lib.strtod(HEX_AFTER_RANGE[..5]).value)]);
    CutValues(p.(text := p.text[..7]), err);
  }

  lemma LiteralTexts()
    ensures NumText(OUT_OF_RANGE) == HEX_AFTER_RANGE[..5] && NumText(JUST_ZERO) == [ZERO]
    ensures ValidNum(OUT_OF_RANGE) && ValidNum(JUST_ZERO)
  {
  }

  lemma FirstRound(p: Source, err: Error)
    requires p.text == HEX_AFTER_RANGE && p.strategy == Standard && p.lib.strtod(HEX_AFTER_RANGE[..5]).erange
    ensures ParseMulti(p, Start(err, false), 0, [])
      == ParseMulti(p, State(6, false, err, true), 6, [Number(p.lib.strtod(HEX_AFTER_RANGE[..5]).value)])
  {
    hide ParseMulti, ParseJson, GetNextToken, ConsumeGarbage;
    var st, t := Start(err, false), TNum(OUT_OF_RANGE);
    var after := State(5, false, err, true);
    LiteralTexts();
    OccursIsSlice(p.text, 0, 5);
    assert p.text[0..5] == p.text[..5];
    OccursIsSlice(p.text, 0, 0);
    assert p.text[0..0] == [];
    CompleteValueIn(p, st, 0, 5, [], t);
    EvalInRest(p.lib, t, p.text[5..], false);
    SpaceOver(p, after);
    Round(p, st, 0, [], ParseJson(p, 0, st), after.(i := 6));
    assert [] + [Number(p.lib.strtod(HEX_AFTER_RANGE[..5]).value)] == [Number(p.lib.strtod(HEX_AFTER_RANGE[..5]).value)];
  }

  lemma SpaceOver(p: Source, st: State)
    requires p.text == HEX_AFTER_RANGE && st.i == 5
    ensures ConsumeGarbage(p, st) == st.(i := 6)
  {
    OccursIsSlice(p.text, 5, 6);
    assert p.text[5..6] == [SPACE] && [SPACE][1..] == [];
    GarbagePast(p, st, 6, [SPACE]);
    GarbageStays(p, st.(i := 6));
  }

  lemma SecondRound(p: Source, st: State, values: seq<Json>)
    requires p.text == HEX_AFTER_RANGE && p.strategy == Standard && Ready(p, st) && st.i == 6 && st.erange
    ensures var r := ParseMulti(p, st, 6, values);
      r.st.failed && r.stop == 7 && r.values == values + [Number(p.lib.strtod(HEX_AFTER_RANGE[6..]).value), Nul]
  {
    hide ParseMulti, ParseJson, GetNextToken, ConsumeGarbage;
    var t, v := TNum(JUST_ZERO), Number(p.lib.strtod(HEX_AFTER_RANGE[6..]).value);
    LiteralTexts();
    OccursIsSlice(p.text, 6, 7);
    assert p.text[6..7] == [ZERO] && p.text[6..] == [ZERO] + p.text[7..];
    OccursIsSlice(p.text, 6, 6);
    assert p.text[6..6] == [];
    CompleteValueIn(p, st, 6, 7, [], t);
    EvalInRest(p.lib, t, p.text[7..], true);
    GarbageStays(p, st.(i := 7));
    Round(p, st, 6, values, ParseJson(p, 0, st), st.(i := 7));
    FailsAtX(p, st.(i := 7));
    Round(p, st.(i := 7), 7, values + [v], ParseJson(p, 0, st.(i := 7)), ConsumeGarbage(p, ParseJson(p, 0, st.(i := 7)).st));
    assert values + [v] + [Nul] == values + [v, Nul];
  }

  lemma FailsAtX(p: Source, st: State)
    requires p.text == HEX_AFTER_RANGE && p.strategy == Standard && Ready(p, st) && st.i == 7
    ensures ParseJson(p, 0, st).value == Nul && ConsumeGarbage(p, ParseJson(p, 0, st).st).failed
  {
    GarbageStays(p, st);
    assert GetNextToken(p, st) == Token(LOWER_X, st.(i := 8));
  }

  lemma CutValues(q: Source, err: Error)
    requires q.text == HEX_AFTER_RANGE[..7] && q.strategy == Standard && q.lib.strtod(HEX_AFTER_RANGE[..5]).erange
    ensures ParseMulti(q, Start(err, false), 0, []).values
      == [Number(q.lib.strtod(HEX_AFTER_RANGE[..5]).value), Number(q.lib.strtod([ZERO]).value)]
  {
    hide ParseMulti, MultiText, DerivesRow, MultiValues, NumText;
    var d1, d2 := Document([], TNum(OUT_OF_RANGE), [SPACE]), Document([], TNum(JUST_ZERO), []);
    LiteralTexts();
    assert [SPACE][1..] == [];
    TwoPieces(q.lib, d1, d2);
    assert HEX_AFTER_RANGE[..7] == HEX_AFTER_RANGE[..5] + ([SPACE] + ([ZERO] + []));
    WholeComplete(q, err, false, [d1, d2]);
  }

  lemma TwoPieces(lib: Libc, d1: Document, d2: Document)
    requires d1.pre == d2.pre == [] && IsGap(Standard, d1.post) && IsGap(Standard, d2.post)
    requires ValidTree(Standard, d1.value) && Height(d1.value) <= MAX_DEPTH
    requires ValidTree(Standard, d2.value) && Height(d2.value) <= MAX_DEPTH
    requires d1.post != [] && ValueEnds(d1.value, d1.post[0]) && ValueEnds(d2.value, At(d2.post, 0))
    ensures DerivesRow(Standard, [d1, d2])
    ensures MultiText([d1, d2]) == Text(d1.value) + (d1.post + (Text(d2.value) + d2.post))
    ensures var v := Eval(lib, d1.value, false);
      MultiValues(lib, [d1, d2], false).items == [v.value, Eval(lib, d2.value, v.erange).value]
  {
    hide Text, Height, Eval, ValidTree;
    assert [d1, d2][1..] == [d2] && [d2][1..] == [];
    assert d2.post + [] == d2.post;
    assert MultiText([d2]) == [] + (Text(d2.value) + d2.post);
    assert DerivesRow(Standard, [d2]);
  }

  // ---- Dumps in a row ----

  /** Each value dumped and followed by a separator. */
  function DumpedInRow(lib: Libc, vs: seq<Json>, seps: seq<bytes>): (s: bytes)
    requires |vs| == |seps|
  {
    if vs == [] then [] else Dumped(lib, vs[0]) + (seps[0] + DumpedInRow(lib, vs[1..], seps[1..]))
  }

  /** No number runs into the dump that follows it. */
  predicate SeparatedRow(lib: Libc, vs: seq<Json>, seps: seq<bytes>)
    requires |vs| == |seps|
  {
    vs == [] || (Separated(vs[0], seps[0] + DumpedInRow(lib, vs[1..], seps[1..])) && SeparatedRow(lib, vs[1..], seps[1..]))
  }

  ghost function Pieces(lib: Libc, vs: seq<Json>, seps: seq<bytes>): (ds: seq<Document>)
    requires |vs| == |seps|
    ensures |ds| == |vs| && forall k :: 0 <= k < |ds| ==> ds[k].post == seps[k]
  {
    if vs == [] then [] else [Document([], TreeOf(lib, vs[0]), seps[0])] + Pieces(lib, vs[1..], seps[1..])
  }

  ghost predicate Dumpable(lib: Libc, v: Json) { Valid(v) && Printable(lib, v) && Depth(v) <= MAX_DEPTH }

  lemma {:induction false} PiecesInRow(mode: Strategy, lib: Libc, vs: seq<Json>, seps: seq<bytes>)
    requires |vs| == |seps| && (forall k :: 0 <= k < |vs| ==> Dumpable(lib, vs[k]))
    requires (forall k :: 0 <= k < |seps| ==> IsGap(mode, seps[k])) && SeparatedRow(lib, vs, seps)
    ensures var ds := Pieces(lib, vs, seps);
      DerivesRow(mode, ds) && MultiText(ds) == DumpedInRow(lib, vs, seps)
      && MultiValues(lib, ds, false) == ArrayReading(RetagItems(lib, vs), false)
      && (ds != [] ==> ds[0].pre == [])
    decreases |vs|
  {
    if vs != [] {
      var v, rest := vs[0], Pieces(lib, vs[1..], seps[1..]);
      assert Dumpable(lib, v);
      TreeIsValid(mode, lib, v);
      TextIsDump(lib, v);
      EvalIsRetag(lib, v);
      PiecesInRow(mode, lib, vs[1..], seps[1..]);
      PieceBefore(mode, lib, v, Document([], TreeOf(lib, v), seps[0]), rest, Dumped(lib, v));
      var ds := Pieces(lib, vs, seps);
      assert ds[1..] == rest;
    }
  }

  lemma PieceBefore(mode: Strategy, lib: Libc, v: Json, d: Document, rest: seq<Document>, text: bytes)
    requires d.pre == [] && d.value == TreeOf(lib, v) && IsGap(mode, d.post) && ValidTree(mode, d.value) && Height(d.value) <= MAX_DEPTH
    requires Text(d.value) == text && DerivesRow(mode, rest) && (rest != [] ==> rest[0].pre == [])
    requires Separated(v, d.post + MultiText(rest))
    ensures DerivesRow(mode, [d] + rest) && MultiText([d] + rest) == text + (d.post + MultiText(rest))
  {
    assert ([d] + rest)[1..] == rest;
    if rest != [] { assert ([d] + rest)[1] == rest[0]; }
    assert [] + (text + (d.post + MultiText(rest))) == text + (d.post + MultiText(rest));
  }

  /**
   * Dumped values one after the other, with gaps where they are needed or wanted, are parsed back to
   * exactly the list, up to the tags.
   */
  lemma ParseDumpedInRow(mode: Strategy, lib: Libc, vs: seq<Json>, seps: seq<bytes>, err: Error)
    requires |vs| == |seps| && (forall k :: 0 <= k < |vs| ==> Dumpable(lib, vs[k]))
    requires (forall k :: 0 <= k < |seps| ==> IsGap(mode, seps[k])) && SeparatedRow(lib, vs, seps)
    requires seps != [] ==> MayEnd(seps[|seps| - 1])
    ensures var p := Source(DumpedInRow(lib, vs, seps), mode, lib);
      var r := ParseMulti(p, Start(err, false), 0, []);
      r.values == RetagItems(lib, vs) && !r.st.failed && r.stop == |p.text|
  {
    hide ParseMulti, DerivesRow, MultiText, DumpedInRow, Pieces;
    var p, ds := Source(DumpedInRow(lib, vs, seps), mode, lib), Pieces(lib, vs, seps);
    PiecesInRow(mode, lib, vs, seps);
    if ds != [] { assert ds[|ds| - 1].post == seps[|seps| - 1]; }
    WholeComplete(p, err, false, ds);
  }
}
