/**
 * What a failed parse returns. json11.hpp promises Json() from it; what the code returns depends on
 * where the text breaks off.
 */
module JsonFailures {
  import opened Folding
  import opened Bytes
  import opened JsonValue
  import opened JsonGrammar
  import opened JsonParsing
  import opened JsonGaps
  import opened JsonComplete
  import opened JsonSound

  // ---- Garbage up to the end ----

  /** From k on there is nothing but a gap, or a gap and a comment that breaks off with the cursor at the end. */
  ghost predicate OnlyGarbage(mode: Strategy, s: bytes, k: nat) {
    k <= |s| && ((IsGap(mode, s[k..]) && MayEnd(s[k..])) || exists m: nat :: BreaksFrom(mode, s, k, m, |s|))
  }

  lemma CommentIgnoresFailure(s: bytes, st: State, st': State)
    requires st.i == st'.i <= |s|
    ensures var c, c' := ConsumeComment(s, st), ConsumeComment(s, st'); c.found == c'.found && c.st.i == c'.st.i
  {
    hide FindNewline, FindClose;
  }

  /** What is skipped does not depend on whether the parse has failed. */
  lemma {:induction false} CommentsIgnoreFailure(s: bytes, st: State, st': State)
    requires st.i == st'.i <= |s|
    ensures ConsumeComments(s, st).i == ConsumeComments(s, st').i
    decreases |s| - st.i
  {
    hide ConsumeComment, SkipWs;
    CommentIgnoresFailure(s, st, st');
    var c, c' := ConsumeComment(s, st), ConsumeComment(s, st');
    if c.found {
      CommentsIgnoreFailure(s, c.st.(i := SkipWs(s, c.st.i)), c'.st.(i := SkipWs(s, c'.st.i)));
    }
  }

  lemma GarbageToEnd(p: Source, st: State)
    requires st.i <= |p.text|
    ensures ConsumeGarbage(p, st).i == |p.text| <==> OnlyGarbage(p.strategy, p.text, st.i)
  {
    var clean, ws := st.(failed := false), SkipWs(p.text, st.i);
    CommentsIgnoreFailure(p.text, st.(i := ws), clean.(i := ws));
    CleanToEnd(p, clean);
  }

  lemma CleanToEnd(p: Source, st: State)
    requires Ready(p, st)
    ensures ConsumeGarbage(p, st).i == |p.text| <==> OnlyGarbage(p.strategy, p.text, st.i)
  {
    hide ConsumeGarbage, MayEnd, IsGap;
    GarbageBreaks(p, st);
    OccursIsSlice(p.text, st.i, |p.text|);
    assert p.text[..|p.text|] == p.text;
    if !ConsumeGarbage(p, st).failed { GapFrom(p, st); }
    if IsGap(p.strategy, p.text[st.i..]) && MayEnd(p.text[st.i..]) {
      EndOver(p, st, p.text[st.i..]);
    }
  }

  /** Where a comment breaks off, no number or keyword can go on. */
  lemma BreakDelimits(mode: Strategy, s: bytes, k: nat, m: nat, j: nat, t: Tree)
    requires BreaksFrom(mode, s, k, m, j)
    ensures k < |s| && ValueEnds(t, s[k]) && ReadsAlone(t, s[k], true)
  {
    if k < m { GapHead(mode, s[k..m]); }
  }

  // ---- A failed value ----

  /** After a gap from a to i, a string that breaks off. */
  predicate StringBreaksOff(p: Source, a: nat, i: nat) {
    && a <= i < |p.text| && IsGap(p.strategy, p.text[a..i])
    && p.text[i] == QUOTE && LexString(p.text, i + 1).LexError?
  }

  /**
   * After a gap from a to i, the container t up to k, and then a comment that breaks off and leaves
   * the cursor at j, on the closing bracket.
   */
  ghost predicate ContainerBreaksOff(p: Source, depth: nat, a: nat, i: nat, k: nat, j: nat, t: Tree) {
    && a <= i <= k <= j < |p.text| && IsGap(p.strategy, p.text[a..i])
    && IsContainer(t) && ValidTree(p.strategy, t) && depth + Height(t) <= MAX_DEPTH
    && p.text[i..k] == OpenText(p.strategy, t) && p.text[j] == Bracket(t)
    && exists m: nat :: BreaksFrom(p.strategy, p.text, k, m, j)
  }

  lemma StringBreaks(p: Source, depth: nat, st: State, i: nat)
    requires Ready(p, st) && depth <= MAX_DEPTH && StringBreaksOff(p, st.i, i)
    ensures var r := ParseJson(p, depth, st);
      r.st.failed && r.value == Str([]) && r.st.i == LexString(p.text, i + 1).pos
  {
    OccursIsSlice(p.text, st.i, i);
    TokenOver(p, st, i, p.text[st.i..i]);
  }

  lemma ContainerBreaks(p: Source, depth: nat, st: State, i: nat, k: nat, j: nat, t: Tree)
    requires Ready(p, st) && ContainerBreaksOff(p, depth, st.i, i, k, j, t)
    ensures var r := ParseJson(p, depth, st);
      r.st.failed && r.value == Eval(p.lib, t, st.erange).value && HasItems(r.value) && r.st.i == j + 1
  {
    hide ParseJson, Height, GetNextToken;
    var at := st.(i := k, erange := Eval(p.lib, t, st.erange).erange);
    OccursIsSlice(p.text, st.i, i);
    OccursIsSlice(p.text, i, k);
    BracketAfterBreak(p, at, j, Bracket(t));
    CompleteContainer(p, depth, st, i, k, p.text[st.i..i], t, GetNextToken(p, at).st);
  }

  /** The bracket after a comment that broke off is the next token all the same. */
  lemma BracketAfterBreak(p: Source, st: State, j: nat, ch: byte)
    requires Ready(p, st) && j < |p.text| && p.text[j] == ch && exists m: nat :: BreaksFrom(p.strategy, p.text, st.i, m, j)
    ensures var t := GetNextToken(p, st); t.ch == ch && t.st.failed && t.st.i == j + 1 && Closes(p, st, ch, t.st)
  {
    GarbageBreaks(p, st);
    var m :| BreaksFrom(p.strategy, p.text, st.i, m, j);
  }

  /**
   * parse_json that fails returns null, but for a string that breaks off, for which it returns the
   * empty string, and a container whose closing bracket follows a comment that breaks off, for which
   * it returns the container.
   */
  lemma FailedValue(p: Source, depth: nat, st: State)
    requires Ready(p, st) && depth <= MAX_DEPTH && ParseJson(p, depth, st).st.failed
    ensures var r := ParseJson(p, depth, st);
      && (r.value == Str([]) <==> exists i: nat :: StringBreaksOff(p, st.i, i))
      && (HasItems(r.value) <==> exists i: nat, k: nat, j: nat, t :: ContainerBreaksOff(p, depth, st.i, i, k, j, t))
      && (r.value == Nul || r.value == Str([]) || HasItems(r.value))
    ensures forall i: nat :: StringBreaksOff(p, st.i, i) ==> ParseJson(p, depth, st).st.i == LexString(p.text, i + 1).pos
    ensures forall i: nat, k: nat, j: nat, t :: ContainerBreaksOff(p, depth, st.i, i, k, j, t) ==>
      ParseJson(p, depth, st).value == Eval(p.lib, t, st.erange).value && ParseJson(p, depth, st).st.i == j + 1
  {
    hide ParseJson;
    var r := ParseJson(p, depth, st);
    if HasItems(r.value) {
      var i, k, j, t := ContainerBroke(p, depth, st, r);
    } else if r.value != Nul {
      var i := StringBroke(p, depth, st);
    }
    forall i: nat | StringBreaksOff(p, st.i, i) ensures r.value == Str([]) && r.st.i == LexString(p.text, i + 1).pos {
      StringBreaks(p, depth, st, i);
    }
    forall i: nat, k: nat, j: nat, t | ContainerBreaksOff(p, depth, st.i, i, k, j, t)
      ensures HasItems(r.value) && r.value == Eval(p.lib, t, st.erange).value && r.st.i == j + 1
    {
      ContainerBreaks(p, depth, st, i, k, j, t);
    }
  }

  /** A failed value that is neither null nor a container is the empty string, of a string that broke off. */
  lemma StringBroke(p: Source, depth: nat, st: State) returns (i: nat)
    requires Ready(p, st) && depth <= MAX_DEPTH
    requires var r := ParseJson(p, depth, st); r.st.failed && r.value != Nul && !HasItems(r.value)
    ensures ParseJson(p, depth, st).value == Str([]) && StringBreaksOff(p, st.i, i)
  {
    hide ConsumeGarbage, ParseNumber, ParseElements, ParseMembers, Expect, IsGap;
    var g;
    i, g := TokenFrom(p, st);
    OccursIsSlice(p.text, st.i, i);
    if p.text[i] != QUOTE { NoStringFails(p, depth, st, i); }
  }

  lemma NoStringFails(p: Source, depth: nat, st: State, i: nat)
    requires Ready(p, st) && depth <= MAX_DEPTH && i < |p.text| && p.text[i] != QUOTE
    requires GetNextToken(p, st) == Token(p.text[i], st.(i := i + 1)) && ParseJson(p, depth, st).st.failed
    ensures ParseJson(p, depth, st).value == Nul || HasItems(ParseJson(p, depth, st).value)
  {
    hide ConsumeGarbage, GetNextToken;
    var c := p.text[i];
    if c == LBRACE {
      var t1 := GetNextToken(p, st.(i := i + 1));
      if t1.ch != RBRACE { FailedMembers(p, depth, t1.ch, t1.st, []); }
    } else if c == LBRACKET {
      var t1 := GetNextToken(p, st.(i := i + 1));
      if t1.ch != RBRACKET { FailedElements(p, depth, t1.st, []); }
    }
  }

  lemma {:induction false} FailedMembers(p: Source, depth: nat, ch: byte, st: State, data: seq<Field>)
    requires st.i <= |p.text| && depth <= MAX_DEPTH
    ensures var r := ParseMembers(p, depth, ch, st, data); r.value == Nul || r.value.Object?
    decreases |p.text| - st.i
  {
    hide ConsumeGarbage, GetNextToken, ParseJson, ParseString;
    var key := ParseString(p.text, st);
    var t1 := GetNextToken(p, key.st);
    var v := ParseJson(p, depth + 1, t1.st);
    var t2 := GetNextToken(p, v.st);
    if ch == QUOTE && !key.st.failed && t1.ch == COLON && !v.st.failed && t2.ch == COMMA {
      var t3 := GetNextToken(p, t2.st);
      FailedMembers(p, depth, t3.ch, t3.st, Insert(data, key.value, v.value));
    }
  }

  lemma {:induction false} FailedElements(p: Source, depth: nat, st: State, data: seq<Json>)
    requires 0 < st.i <= |p.text| && depth <= MAX_DEPTH
    ensures var r := ParseElements(p, depth, st, data); r.value == Nul || r.value.Array?
    decreases |p.text| - st.i
  {
    hide ConsumeGarbage, GetNextToken, ParseJson;
    var v := ParseJson(p, depth + 1, st.(i := st.i - 1));
    var t := GetNextToken(p, v.st);
    if !v.st.failed && t.ch == COMMA {
      FailedElements(p, depth, GetNextToken(p, t.st).st, data + [v.value]);
    }
  }

  lemma ContainerBroke(p: Source, depth: nat, st: State, r: Result) returns (i: nat, k: nat, j: nat, t: Tree)
    requires Ready(p, st) && depth <= MAX_DEPTH && r == ParseJson(p, depth, st) && r.st.failed && HasItems(r.value)
    ensures ContainerBreaksOff(p, depth, st.i, i, k, j, t)
  {
    hide ParseJson, ConsumeGarbage, Height;
    var ws;
    i, ws := ValueToken(p, depth, st, r);
    k, t := ContainerFrom(p, depth, st, i, r);
    OccursIsSlice(p.text, st.i, i);
    OccursIsSlice(p.text, i, k);
    j := BreakBeforeBracket(p, State(k, false, st.err, r.st.erange), Bracket(t), r.st);
  }

  lemma BreakBeforeBracket(p: Source, st: State, ch: byte, close: State) returns (j: nat)
    requires Ready(p, st) && Closes(p, st, ch, close) && close.failed && ch != 0
    ensures st.i <= j < |p.text| && p.text[j] == ch && exists m: nat :: BreaksFrom(p.strategy, p.text, st.i, m, j)
  {
    hide ConsumeGarbage;
    assert Unfold(0);
    GarbageBreaks(p, st);
    j := ConsumeGarbage(p, st).i;
  }

  // ---- A failed parse ----

  ghost predicate BreaksOffInString(p: Source) {
    exists i: nat :: StringBreaksOff(p, 0, i) && OnlyGarbage(p.strategy, p.text, LexString(p.text, i + 1).pos)
  }

  /** The text up to k derives by d, which ends there, and then a comment breaks off at the end. */
  ghost predicate CommentBreaksOff(p: Source, d: Document, k: nat) {
    && k <= |p.text| && Derives(p.strategy, p.text[..k], d) && d.post == []
    && exists m: nat :: BreaksFrom(p.strategy, p.text, k, m, |p.text|)
  }

  ghost predicate BreaksOffAfterValue(p: Source) { exists d, k: nat :: CommentBreaksOff(p, d, k) && d.value != TNull }

  ghost predicate BreaksOffInContainer(p: Source) {
    exists i: nat, k: nat, j: nat, t :: ContainerBreaksOff(p, 0, 0, i, k, j, t) && OnlyGarbage(p.strategy, p.text, j + 1)
  }

  lemma EvalNull(lib: Libc, t: Tree, erange: bool)
    ensures Eval(lib, t, erange).value == Nul <==> t == TNull
  {
  }

  lemma ValueThenBreak(p: Source, err: Error, erange: bool, d: Document, k: nat)
    requires CommentBreaksOff(p, d, k)
    ensures var r := Parse(p, Start(err, erange)); r.st.failed && r.value == Eval(p.lib, d.value, erange).value
  {
    hide ParseJson, Text, Height;
    var st, v := Start(err, erange), Eval(p.lib, d.value, erange);
    var m :| BreaksFrom(p.strategy, p.text, k, m, |p.text|);
    OccursIsSlice(p.text, 0, k);
    assert p.text[0..k] == p.text[..k] == d.pre + Text(d.value);
    var i := Split(p.text, 0, k, d.pre, Text(d.value));
    BreakDelimits(p.strategy, p.text, k, m, |p.text|, d.value);
    CompleteValue(p, 0, st, i, k, d.pre, d.value);
    GarbageBreaks(p, st.(i := k, erange := v.erange));
    ParseStep(p, st, Result(v.value, st.(i := k, erange := v.erange)), ConsumeGarbage(p, st.(i := k, erange := v.erange)));
  }

  /** A value read whole, after which only a comment can have failed. */
  lemma BreakAfterValue(p: Source, err: Error, erange: bool) returns (d: Document, k: nat)
    requires var v := ParseJson(p, 0, Start(err, erange)); var st1 := ConsumeGarbage(p, v.st);
      !v.st.failed && st1.failed && st1.i == |p.text|
    ensures CommentBreaksOff(p, d, k)
  {
    hide ParseJson, ConsumeGarbage, Text, Height;
    var st, v := Start(err, erange), ParseJson(p, 0, Start(err, erange));
    var i, ws, t := ValueFrom(p, 0, st, v);
    d, k := Document(ws, t, []), v.st.i;
    OccursIsSlice(p.text, 0, k);
    Join(p.text, 0, i, k, ws, Text(t));
    assert p.text[0..k] == p.text[..k] && Text(t) + [] == Text(t);
    GarbageBreaks(p, v.st);
  }

  /** A parse that fails with a value other than null broke off in one of three ways. */
  lemma SomethingBroke(p: Source, err: Error, erange: bool)
    requires var r := Parse(p, Start(err, erange)); r.st.failed && r.value != Nul
    ensures BreaksOffInString(p) || BreaksOffAfterValue(p) || BreaksOffInContainer(p)
  {
    hide ParseJson, ConsumeGarbage, Text, Height, LexString, Eval, OnlyGarbage, IsGap, Derives, BreaksFrom, ContainerBreaksOff;
    var st, v := Start(err, erange), ParseJson(p, 0, Start(err, erange));
    GarbageToEnd(p, v.st);
    if !v.st.failed {
      var d, k := BreakAfterValue(p, err, erange);
      ValueThenBreak(p, err, erange, d, k);
      EvalNull(p.lib, d.value, erange);
    } else {
      FailedValue(p, 0, st);
      if HasItems(v.value) {
        var i: nat, k: nat, j: nat, t :| ContainerBreaksOff(p, 0, 0, i, k, j, t);
        assert OnlyGarbage(p.strategy, p.text, j + 1);
      } else {
        var i: nat :| StringBreaksOff(p, 0, i);
        assert OnlyGarbage(p.strategy, p.text, LexString(p.text, i + 1).pos);
      }
    }
  }

  /**
   * json11.hpp promises Json() from a parse that fails. Something else comes back exactly if the
   * text is a string that breaks off with only garbage behind it, or a value and a comment that
   * breaks off at the end, or a container whose closing bracket follows a comment that breaks off:
   * then it is the empty string, the value, or the container.
   */
  lemma FailedParseReturnsNull(p: Source, err: Error, erange: bool)
    ensures var r := Parse(p, Start(err, erange));
      r.st.failed && r.value != Nul <==> BreaksOffInString(p) || BreaksOffAfterValue(p) || BreaksOffInContainer(p)
    ensures BreaksOffInString(p) ==> Parse(p, Start(err, erange)).value == Str([])
    ensures forall d, k: nat :: CommentBreaksOff(p, d, k) ==>
      Parse(p, Start(err, erange)).st.failed && Parse(p, Start(err, erange)).value == Eval(p.lib, d.value, erange).value
    ensures forall i: nat, k: nat, j: nat, t :: ContainerBreaksOff(p, 0, 0, i, k, j, t) && OnlyGarbage(p.strategy, p.text, j + 1) ==>
      Parse(p, Start(err, erange)).value == Eval(p.lib, t, erange).value
  {
    hide ParseJson, ConsumeGarbage, Text, Height, LexString, Eval;
    var st, v := Start(err, erange), ParseJson(p, 0, Start(err, erange));
    var r, st1 := Parse(p, st), ConsumeGarbage(p, v.st);
    GarbageToEnd(p, v.st);
    if r.st.failed && r.value != Nul { SomethingBroke(p, err, erange); }
    forall d, k: nat | CommentBreaksOff(p, d, k)
      ensures r.st.failed && r.value == Eval(p.lib, d.value, erange).value && (r.value == Nul <==> d.value == TNull)
    {
      ValueThenBreak(p, err, erange, d, k);
      EvalNull(p.lib, d.value, erange);
    }
    forall i: nat | StringBreaksOff(p, 0, i) ensures v.st.failed && v.value == Str([]) && v.st.i == LexString(p.text, i + 1).pos {
      StringBreaks(p, 0, st, i);
    }
    forall i: nat, k: nat, j: nat, t | ContainerBreaksOff(p, 0, 0, i, k, j, t)
      ensures v.st.failed && v.value == Eval(p.lib, t, erange).value && HasItems(v.value) && v.st.i == j + 1
    {
      ContainerBreaks(p, 0, st, i, k, j, t);
    }
  }

  // ---- The promise broken ----

  /** A lone quotation mark fails and returns Json(""), in both modes. */
  lemma UnterminatedString(mode: Strategy, lib: Libc, err: Error)
    ensures var r := Parse(Source([QUOTE], mode, lib), Start(err, false));
      r.st.failed && r.st.err == EndInString && r.value == Str([])
  {
    var p := Source([QUOTE], mode, lib);
    GarbageStays(p, Start(err, false));
    assert GetNextToken(p, Start(err, false)) == Token(QUOTE, State(1, false, err, false));
  }

  /** In COMMENTS mode {/} fails and returns the empty object. */
  lemma SlashInBraces(lib: Libc, err: Error)
    ensures var r := Parse(Source([LBRACE, SLASH, RBRACE], Comments, lib), Start(err, false));
      r.st.failed && r.value == Object([])
  {
    hide Parse;
    var p, t := Source([LBRACE, SLASH, RBRACE], Comments, lib), TEmptyObject([]);
    assert p.text[0..0] == [] && p.text[0..1] == [LBRACE] + [] && p.text[1..1] == [] && p.text[3..] == [];
    assert p.text[1..] == [SLASH, RBRACE];
    assert BreaksFrom(Comments, p.text, 1, 1, 2);
    assert ContainerBreaksOff(p, 0, 0, 0, 1, 2, t);
    FailedParseReturnsNull(p, err, false);
  }

  /** In COMMENTS mode []/ fails and returns the empty array. */
  lemma SlashAfterArray(lib: Libc, err: Error)
    ensures var r := Parse(Source([LBRACKET, RBRACKET, SLASH], Comments, lib), Start(err, false));
      r.st.failed && r.value == Array([])
  {
    hide Parse;
    var p, d := Source([LBRACKET, RBRACKET, SLASH], Comments, lib), Document([], TEmptyArray([]), []);
    assert p.text[..2] == [] + (([LBRACKET] + ([] + [RBRACKET])) + []);
    SlashAtEnd(p.text, 2);
    assert CommentBreaksOff(p, d, 2);
    FailedParseReturnsNull(p, err, false);
  }

  /** In COMMENTS mode ""/ fails and returns the empty string, although no string breaks off in it. */
  lemma SlashAfterString(lib: Libc, err: Error)
    ensures var r := Parse(Source([QUOTE, QUOTE, SLASH], Comments, lib), Start(err, false));
      r.st.failed && r.value == Str([])
  {
    hide Parse;
    var p, d := Source([QUOTE, QUOTE, SLASH], Comments, lib), Document([], TStr([]), []);
    assert p.text[..2] == [] + (([QUOTE] + ([] + [QUOTE])) + []);
    SlashAtEnd(p.text, 2);
    assert CommentBreaksOff(p, d, 2);
    FailedParseReturnsNull(p, err, false);
  }

  lemma SlashAtEnd(s: bytes, k: nat)
    requires |s| == k + 1 && s[k] == SLASH
    ensures BreaksFrom(Comments, s, k, k, |s|)
  {
    assert s[k..k] == [];
  }
}
