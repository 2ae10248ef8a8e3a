/** strtok: a destructive tokenizer with a global cursor, and the token lists it produces. */
module StringTokens {
  import opened Machine
  import opened CString

  // ---------- The tokens of a string ----------

  /** How many characters at the start of t satisfy (or do not satisfy) membership in delims. */
  function Leading(t: seq<uint8>, delims: seq<uint8>, member: bool): (n: nat)
    ensures n <= |t|
    ensures forall i :: 0 <= i < n ==> (t[i] in delims) == member
    ensures n < |t| ==> (t[n] in delims) != member
  {
    if t == [] || (t[0] in delims) != member then 0 else 1 + Leading(t[1..], delims, member)
  }

  /** What is left of u after its first token and the delimiter that ends it. */
  function AfterToken(u: seq<uint8>, delims: seq<uint8>): (r: seq<uint8>)
    ensures |r| <= |u| && (u != [] && u[0] !in delims ==> |r| < |u|)
  {
    var n := Leading(u, delims, false);
    if n < |u| then u[n + 1..] else []
  }

  /** The tokens of t: its maximal runs of characters that are not delimiters, in order. */
  function Tokens(t: seq<uint8>, delims: seq<uint8>): (toks: seq<seq<uint8>>)
    decreases |t|
  {
    var u := t[Leading(t, delims, true)..];
    if u == [] then [] else [u[..Leading(u, delims, false)]] + Tokens(AfterToken(u, delims), delims)
  }

  /** t is a token: not empty and free of delimiters. */
  ghost predicate IsToken(t: seq<uint8>, delims: seq<uint8>) {
    t != [] && forall i :: 0 <= i < |t| ==> t[i] !in delims
  }

  lemma {:induction false} TokensAreTokens(t: seq<uint8>, delims: seq<uint8>, k: nat)
    requires k < |Tokens(t, delims)|
    ensures IsToken(Tokens(t, delims)[k], delims)
    decreases |t|
  {
    var u := t[Leading(t, delims, true)..];
    if k > 0 {
      TokensAreTokens(AfterToken(u, delims), delims, k - 1);
    }
    hide Tokens, AfterToken;
  }

  /** The characters that are not delimiters. */
  function Kept(t: seq<uint8>, delims: seq<uint8>): seq<uint8> {
    if t == [] then [] else (if t[0] in delims then [] else [t[0]]) + Kept(t[1..], delims)
  }

  function Flatten(toks: seq<seq<uint8>>): seq<uint8> {
    if toks == [] then [] else toks[0] + Flatten(toks[1..])
  }

  lemma {:induction false} KeptSplit(t: seq<uint8>, delims: seq<uint8>, n: nat)
    requires n <= |t|
    ensures Kept(t, delims) == Kept(t[..n], delims) + Kept(t[n..], delims)
    decreases n
  {
    if n > 0 {
      KeptSplit(t[1..], delims, n - 1);
      assert t[..n][1..] == t[1..][..n - 1] && t[n..] == t[1..][n - 1..];
    } else {
      assert t[..0] == [] && t[0..] == t;
    }
  }

  lemma {:induction false} KeptUniform(t: seq<uint8>, delims: seq<uint8>, member: bool)
    requires forall i :: 0 <= i < |t| ==> (t[i] in delims) == member
    ensures Kept(t, delims) == if member then [] else t
  {
    if t != [] {
      KeptUniform(t[1..], delims, member);
    }
  }

  /** Nothing but delimiters is lost, and nothing is reordered. */
  lemma {:induction false} TokensKeepEverythingElse(t: seq<uint8>, delims: seq<uint8>)
    ensures Flatten(Tokens(t, delims)) == Kept(t, delims)
    decreases |t|
  {
    var s := Leading(t, delims, true);
    var u := t[s..];
    KeptSplit(t, delims, s);
    KeptUniform(t[..s], delims, true);
    if u != [] {
      TokensKeepEverythingElse(AfterToken(u, delims), delims);
      KeptAfterToken(u, delims);
      var tok, toks := u[..Leading(u, delims, false)], Tokens(AfterToken(u, delims), delims);
      assert Tokens(t, delims) == [tok] + toks;
      assert ([tok] + toks)[1..] == toks;
    }
    hide Tokens, AfterToken, Leading;
  }

  lemma KeptAfterToken(u: seq<uint8>, delims: seq<uint8>)
    ensures Kept(u, delims) == u[..Leading(u, delims, false)] + Kept(AfterToken(u, delims), delims)
  {
    var n := Leading(u, delims, false);
    assert Kept([], delims) == [];
    hide Kept, Leading;
    KeptSplit(u, delims, n);
    KeptUniform(u[..n], delims, false);
    if n < |u| {
      KeptDelimiter(u[n..], delims);
      assert u[n..][1..] == u[n + 1..];
    } else {
      assert u[n..] == [];
    }
  }

  lemma KeptDelimiter(t: seq<uint8>, delims: seq<uint8>)
    requires t != [] && t[0] in delims
    ensures Kept(t, delims) == Kept(t[1..], delims)
  {
  }

  /** Tokens written with one delimiter after each. */
  function Joined(toks: seq<seq<uint8>>, delim: uint8): seq<uint8> {
    if toks == [] then [] else toks[0] + [delim] + Joined(toks[1..], delim)
  }

  lemma {:induction false} LeadingIs(t: seq<uint8>, delims: seq<uint8>, member: bool, n: nat)
    requires n <= |t| && forall i :: 0 <= i < n ==> (t[i] in delims) == member
    requires n < |t| ==> (t[n] in delims) != member
    ensures Leading(t, delims, member) == n
    decreases n
  {
    if n > 0 {
      LeadingIs(t[1..], delims, member, n - 1);
    }
  }

  /** Tokenizing undoes joining: every list of tokens comes back, boundaries included. */
  lemma {:induction false} TokensUndoJoin(toks: seq<seq<uint8>>, delims: seq<uint8>, delim: uint8)
    requires delim in delims && forall k :: 0 <= k < |toks| ==> IsToken(toks[k], delims)
    ensures Tokens(Joined(toks, delim), delims) == toks
  {
    if toks != [] {
      var t, n := Joined(toks, delim), |toks[0]|;
      LeadingIs(t, delims, true, 0);
      assert t[0..] == t;
      LeadingIs(t, delims, false, n);
      assert t[..n] == toks[0];
      assert t[n + 1..] == Joined(toks[1..], delim);
      TokensUndoJoin(toks[1..], delims, delim);
    }
  }

  // ---------- Where the tokens are ----------

  predicate DelimAt(t: seq<uint8>, delims: seq<uint8>, k: nat)
    requires k < |t|
  {
    t[k] in delims
  }

  /** The first position at or after `from` that holds no delimiter, or, for member false, that holds one. */
  function Skip(t: seq<uint8>, delims: seq<uint8>, member: bool, from: nat): (p: nat)
    requires from <= |t|
    ensures from <= p <= |t|
    decreases |t| - from
  {
    if from == |t| || DelimAt(t, delims, from) != member then from else Skip(t, delims, member, from + 1)
  }

  lemma {:induction false} SkipStops(t: seq<uint8>, delims: seq<uint8>, member: bool, from: nat)
    requires from <= |t|
    ensures var p := Skip(t, delims, member, from);
      && (p < |t| ==> DelimAt(t, delims, p) != member)
      && forall k :: from <= k < p ==> DelimAt(t, delims, k) == member
    decreases |t| - from
  {
    hide DelimAt;
    if from < |t| && DelimAt(t, delims, from) == member {
      SkipStops(t, delims, member, from + 1);
    }
  }

  /** Suffixes and pieces of a text, by name. */
  function From(t: seq<uint8>, a: nat): seq<uint8>
    requires a <= |t|
  {
    t[a..]
  }

  function Between(t: seq<uint8>, a: nat, b: nat): seq<uint8>
    requires a <= b <= |t|
  {
    t[a..b]
  }

  lemma Pieces(t: seq<uint8>, a: nat, b: nat)
    requires a <= b <= |t|
    ensures |From(t, a)| == |t| - a && From(From(t, a), b - a) == From(t, b)
    ensures Between(From(t, a), 0, b - a) == Between(t, a, b)
  {
  }

  ghost predicate LeadIs(t: seq<uint8>, delims: seq<uint8>, member: bool, n: nat) {
    Leading(t, delims, member) == n
  }

  lemma {:induction false} SkipIsLeading(t: seq<uint8>, delims: seq<uint8>, member: bool, from: nat)
    requires from <= |t|
    ensures LeadIs(From(t, from), delims, member, Skip(t, delims, member, from) - from)
    decreases |t| - from
  {
    if from < |t| && DelimAt(t, delims, from) == member {
      assert t[from..][1..] == t[from + 1..];
      SkipIsLeading(t, delims, member, from + 1);
    }
  }

  datatype Span = Span(start: nat, end: nat)

  /** The positions of the tokens of t from position `from` on. */
  function Spans(t: seq<uint8>, delims: seq<uint8>, from: nat): (spans: seq<Span>)
    requires from <= |t|
    decreases |t| - from
  {
    var start := Skip(t, delims, true, from);
    if start == |t| then []
    else
      var end := Skip(t, delims, false, start);
      [Span(start, end)] + if end < |t| then Spans(t, delims, end + 1) else []
  }

  /** The characters of a span form a run without delimiters that no neighbour extends. */
  ghost predicate MaximalRun(t: seq<uint8>, delims: seq<uint8>, s: Span) {
    && s.start < s.end <= |t| && (forall k :: s.start <= k < s.end ==> !DelimAt(t, delims, k))
    && (s.start == 0 || DelimAt(t, delims, s.start - 1))
    && (s.end == |t| || DelimAt(t, delims, s.end))
  }

  /** The first span and those after it. */
  lemma FirstSpan(t: seq<uint8>, delims: seq<uint8>, from: nat) returns (first: Span, rest: seq<Span>)
    requires from <= |t| && Spans(t, delims, from) != []
    ensures first.start == Skip(t, delims, true, from) && first.end == Skip(t, delims, false, first.start)
    ensures from <= first.start < first.end <= |t| && first.start < |t|
    ensures rest == if first.end < |t| then Spans(t, delims, first.end + 1) else []
    ensures Spans(t, delims, from) == [first] + rest && |Spans(t, delims, from)| == 1 + |rest|
  {
    hide DelimAt, Skip;
    var start := Skip(t, delims, true, from);
    SpansUnfold(t, delims, from);
    SkipMoves(t, delims, from);
    hide Spans;
    first := Span(start, Skip(t, delims, false, start));
    rest := if first.end < |t| then Spans(t, delims, first.end + 1) else [];
  }

  /** The spans of a text, unfolded once. */
  lemma SpansUnfold(t: seq<uint8>, delims: seq<uint8>, from: nat)
    requires from <= |t|
    ensures var start := Skip(t, delims, true, from);
      Spans(t, delims, from) ==
        if start == |t| then []
        else
          var end := Skip(t, delims, false, start);
          [Span(start, end)] + if end < |t| then Spans(t, delims, end + 1) else []
  {
    hide DelimAt, Skip;
  }

  lemma SkipMoves(t: seq<uint8>, delims: seq<uint8>, from: nat)
    requires from <= |t|
    ensures var start := Skip(t, delims, true, from);
      start < |t| ==> start < Skip(t, delims, false, start)
  {
    hide DelimAt;
    SkipStops(t, delims, true, from);
  }

  /** Span k of a text: the first one, or a span of what follows the first and its delimiter. */
  ghost predicate IsSpan(t: seq<uint8>, delims: seq<uint8>, from: nat, k: nat, s: Span) {
    from <= |t| && k < |Spans(t, delims, from)| && Spans(t, delims, from)[k] == s
  }

  lemma NextSpan(t: seq<uint8>, delims: seq<uint8>, from: nat, k: nat, s: Span) returns (first: Span)
    requires IsSpan(t, delims, from, k, s)
    ensures from <= |t| && from <= first.start < first.end <= |t|
    ensures first.start == Skip(t, delims, true, from) < |t| && first.end == Skip(t, delims, false, first.start)
    ensures if k == 0 then s == first else first.end < |t| && IsSpan(t, delims, first.end + 1, k - 1, s)
  {
    var rest;
    first, rest := FirstSpan(t, delims, from);
    hide Spans, Skip, DelimAt;
  }

  lemma {:induction false} SpansAreMaximal(t: seq<uint8>, delims: seq<uint8>, from: nat, k: nat, s: Span)
    requires IsSpan(t, delims, from, k, s) && (from == 0 || DelimAt(t, delims, from - 1))
    ensures from <= s.start && MaximalRun(t, delims, s)
    decreases k
  {
    hide IsSpan, Skip, MaximalRun, DelimAt;
    var first := NextSpan(t, delims, from, k, s);
    FirstIsMaximal(t, delims, from, first);
    if k > 0 {
      SpansAreMaximal(t, delims, first.end + 1, k - 1, s);
    }
  }

  lemma FirstIsMaximal(t: seq<uint8>, delims: seq<uint8>, from: nat, s: Span)
    requires from <= |t| && (from == 0 || DelimAt(t, delims, from - 1))
    requires s.start == Skip(t, delims, true, from) < |t| && s.end == Skip(t, delims, false, s.start)
    ensures MaximalRun(t, delims, s) && (s.end < |t| ==> DelimAt(t, delims, s.end))
  {
    SkipStops(t, delims, true, from);
    SkipStops(t, delims, false, s.start);
    assert s.start > from ==> DelimAt(t, delims, s.start - 1);
    assert Skip(t, delims, false, s.start) > s.start;
    hide Skip, DelimAt;
  }

  /** Later tokens start behind the delimiter that ends the earlier ones. */
  lemma {:induction false} SpansAreInOrder(t: seq<uint8>, delims: seq<uint8>, from: nat, k: nat, r: Span, l: nat,
                                           s: Span)
    requires k < l && IsSpan(t, delims, from, k, r) && IsSpan(t, delims, from, l, s)
    requires from == 0 || DelimAt(t, delims, from - 1)
    ensures r.end < s.start
    decreases k
  {
    hide IsSpan, Skip, DelimAt, MaximalRun;
    var first := NextSpan(t, delims, from, k, r);
    var again := NextSpan(t, delims, from, l, s);
    FirstIsMaximal(t, delims, from, first);
    if k == 0 {
      SpansAreMaximal(t, delims, first.end + 1, l - 1, s);
    } else {
      SpansAreInOrder(t, delims, first.end + 1, k - 1, r, l - 1, s);
    }
  }

  lemma {:induction false} EveryCharacterHasASpan(t: seq<uint8>, delims: seq<uint8>, from: nat, q: nat)
    returns (k: nat, s: Span)
    requires from <= q < |t| && !DelimAt(t, delims, q)
    ensures IsSpan(t, delims, from, k, s) && s.start <= q < s.end
    decreases |t| - from
  {
    hide Skip, DelimAt, IsSpan, Spans;
    s := SpanAhead(t, delims, from, q);
    k := 0;
    if q >= s.end {
      var first := s;
      k, s := EveryCharacterHasASpan(t, delims, first.end + 1, q);
      SpanAfter(t, delims, from, first, k, s);
      k := k + 1;
    }
  }

  /** The first span starts at or before a character that is no delimiter, and does not end at it. */
  lemma SpanAhead(t: seq<uint8>, delims: seq<uint8>, from: nat, q: nat) returns (first: Span)
    requires from <= q < |t| && !DelimAt(t, delims, q)
    ensures IsSpan(t, delims, from, 0, first) && first.start <= q && first.end != q && from < first.end <= |t|
  {
    SkipStops(t, delims, true, from);
    assert Skip(t, delims, true, from) <= q;
    assert Spans(t, delims, from) != [];
    var rest;
    first, rest := FirstSpan(t, delims, from);
    SkipStops(t, delims, false, first.start);
    hide Skip, DelimAt, Spans;
  }

  lemma SpanAfter(t: seq<uint8>, delims: seq<uint8>, from: nat, first: Span, k: nat, s: Span)
    requires IsSpan(t, delims, from, 0, first) && first.end < |t| && IsSpan(t, delims, first.end + 1, k, s)
    ensures IsSpan(t, delims, from, k + 1, s)
  {
    hide Skip, DelimAt, Spans;
    var again, rest := FirstSpan(t, delims, from);
    TailAt(first, rest, k);
  }

  lemma TailAt(first: Span, rest: seq<Span>, k: nat)
    requires k < |rest|
    ensures ([first] + rest)[k + 1] == rest[k]
  {
  }

  /** The tokens are the texts of the spans. */
  ghost predicate TokensAt(t: seq<uint8>, toks: seq<seq<uint8>>, spans: seq<Span>) {
    && |toks| == |spans|
    && forall k :: 0 <= k < |spans| ==> TextOf(t, spans[k], toks[k])
  }

  ghost predicate TextOf(t: seq<uint8>, s: Span, tok: seq<uint8>) {
    s.start <= s.end <= |t| && tok == t[s.start..s.end]
  }

  lemma {:induction false} TokensAreSpans(t: seq<uint8>, delims: seq<uint8>, from: nat)
    requires from <= |t|
    ensures TokensAt(t, Tokens(From(t, from), delims), Spans(t, delims, from))
    decreases |t| - from
  {
    hide Tokens, Skip, From, TokensAt;
    if Skip(t, delims, true, from) == |t| {
      NoTokenLeft(t, delims, from);
      NothingAt(t);
    } else {
      var first, rest := FirstSpan(t, delims, from);
      hide Spans;
      var toks := FirstToken(t, delims, from, first);
      if first.end < |t| {
        TokensAreSpans(t, delims, first.end + 1);
      } else {
        NothingAt(t);
      }
      OneMoreToken(t, first, toks, rest);
    }
  }

  lemma NoTokenLeft(t: seq<uint8>, delims: seq<uint8>, from: nat)
    requires from <= |t| && Skip(t, delims, true, from) == |t|
    ensures Tokens(From(t, from), delims) == [] && Spans(t, delims, from) == []
  {
    hide Skip, LeadIs, Tokens, From;
    SkipIsLeading(t, delims, true, from);
    Pieces(t, from, from);
    AllDelims(From(t, from), delims);
  }

  lemma AllDelims(t: seq<uint8>, delims: seq<uint8>)
    requires LeadIs(t, delims, true, |t|)
    ensures Tokens(t, delims) == []
  {
    hide Leading;
  }

  lemma FirstToken(t: seq<uint8>, delims: seq<uint8>, from: nat, s: Span) returns (toks: seq<seq<uint8>>)
    requires from <= s.start < s.end <= |t|
    requires s.start == Skip(t, delims, true, from) && s.end == Skip(t, delims, false, s.start)
    ensures toks == if s.end < |t| then Tokens(From(t, s.end + 1), delims) else []
    ensures Tokens(From(t, from), delims) == [Between(t, s.start, s.end)] + toks
  {
    hide Tokens, Skip, LeadIs, From, Between;
    SkipIsLeading(t, delims, true, from);
    SkipIsLeading(t, delims, false, s.start);
    Pieces(t, from, s.start);
    Pieces(t, s.start, s.end);
    if s.end < |t| {
      Pieces(t, s.start, s.end + 1);
    }
    toks := CutIs(From(t, from), delims, s.start - from, From(t, s.start), s.end - s.start);
  }

  /** The tokens of a text, unfolded once. */
  lemma CutIs(t: seq<uint8>, delims: seq<uint8>, l: nat, u: seq<uint8>, n: nat) returns (toks: seq<seq<uint8>>)
    requires LeadIs(t, delims, true, l) && l <= |t| && u == From(t, l) && u != []
    requires LeadIs(u, delims, false, n) && n <= |u|
    ensures toks == if n < |u| then Tokens(From(u, n + 1), delims) else []
    ensures Tokens(t, delims) == [Between(u, 0, n)] + toks
  {
    toks := Tokens(AfterToken(u, delims), delims);
    NoTokens(delims);
    hide Leading;
    assert u[..n] == u[0..n];
    assert Tokens(t, delims) == [u[..n]] + toks;
    hide Tokens;
  }

  lemma NothingAt(t: seq<uint8>)
    ensures TokensAt(t, [], [])
  {
  }

  lemma OneMoreToken(t: seq<uint8>, s: Span, toks: seq<seq<uint8>>, spans: seq<Span>)
    requires s.start <= s.end <= |t| && TokensAt(t, toks, spans)
    ensures TokensAt(t, [Between(t, s.start, s.end)] + toks, [s] + spans)
  {
    assert TextOf(t, s, Between(t, s.start, s.end));
    hide TextOf, Between;
  }

  lemma NoTokens(delims: seq<uint8>)
    ensures Tokens([], delims) == []
  {
  }

  /** The tokens are exactly the maximal runs, in order: each is one, each ends before the next begins, and every
      character that is no delimiter lies in one. */
  lemma TokensAreMaximalRuns(t: seq<uint8>, delims: seq<uint8>) returns (spans: seq<Span>)
    ensures TokensAt(t, Tokens(t, delims), spans)
    ensures forall k :: 0 <= k < |spans| ==> MaximalRun(t, delims, spans[k])
    ensures forall k, l :: 0 <= k < l < |spans| ==> spans[k].end < spans[l].start
    ensures forall q :: 0 <= q < |t| && !DelimAt(t, delims, q) ==> InSomeSpan(spans, q)
  {
    spans := Spans(t, delims, 0);
    assert From(t, 0) == t;
    TokensAreSpans(t, delims, 0);
    hide Spans, Tokens, MaximalRun, DelimAt;
    forall k | 0 <= k < |spans|
      ensures MaximalRun(t, delims, spans[k])
    {
      SpansAreMaximal(t, delims, 0, k, spans[k]);
    }
    forall k, l | 0 <= k < l < |spans|
      ensures spans[k].end < spans[l].start
    {
      SpansAreInOrder(t, delims, 0, k, spans[k], l, spans[l]);
    }
    forall q | 0 <= q < |t| && !DelimAt(t, delims, q)
      ensures InSomeSpan(spans, q)
    {
      var k, s := EveryCharacterHasASpan(t, delims, 0, q);
    }
  }

  predicate InSomeSpan(spans: seq<Span>, q: nat) {
    exists k :: 0 <= k < |spans| && spans[k].start <= q < spans[k].end
  }

  // ---------- strtok ----------

  /** The global `last`: a buffer and a position in it, or null. */
  class StrTok {
    var buf: array?<uint8>
    var at: nat

    constructor ()
      ensures buf == null
    {
      buf := null;
      at := 0;
    }

    /** What the cursor still has to tokenize. */
    ghost function Text(): seq<uint8>
      reads this, buf
    {
      if buf == null then [] else CStr(buf[..], at)
    }

    ghost predicate Valid()
      reads this, buf
    {
      buf != null ==> Terminated(buf[..], at)
    }

    /** `strtok`. A string argument only counts while the cursor is null. Returns whether there is a token
        and, if so, its buffer and position. */
    method Next(str: array?<uint8>, delims: seq<uint8>) returns (tok: array?<uint8>, start: nat)
      requires Valid() && 0 !in delims
      requires str != null ==> Terminated(str[..], 0)
      modifies this, str, buf
      ensures Valid()
      ensures var text := if old(buf) != null then old(Text()) else if str != null then old(CStr(str[..], 0)) else [];
        && Tokens(text, delims) == (if tok == null then [] else [CStr(tok[..], start)] + Tokens(Text(), delims))
        && (tok == null ==> buf == null)
        && (tok != null ==> Terminated(tok[..], start))
      ensures tok != null ==> buf == tok == if old(buf) != null then old(buf) else str
    {
      tok, start := null, 0;
      if str == null && buf == null {
        return;
      }
      if buf == null {
        buf, at := str, 0;
      }
      hide Tokens, Leading, CStr, Cut, CutEnd, AfterToken, Terminated;
      ghost var from := at;
      at := SkipDelims(buf, at, delims);
      TokensFrom(buf[..], from, at, delims);
      if buf[at] == 0 {
        buf := null;
        return;
      }
      tok, start := buf, at;
      ghost var before := buf[..];
      at := CutToken(buf, at, delims);
      CutTokenSplits(before, buf[..], start, delims);
    }
  }

  /** After skipping the delimiters, either the string has ended or its first token starts here. */
  lemma TokensFrom(s: seq<uint8>, from: nat, at: nat, delims: seq<uint8>)
    requires Terminated(s, from) && at == from + Leading(CStr(s, from), delims, true)
    ensures at < |s|
    ensures s[at] == 0 ==> Tokens(CStr(s, from), delims) == []
    ensures s[at] != 0 ==> var u := CStr(s, at);
      Tokens(CStr(s, from), delims) == [u[..Leading(u, delims, false)]] + Tokens(AfterToken(u, delims), delims)
  {
    var t, u := CStr(s, from), CStr(s, at);
    CStrIs(s, from);
    CStrSuffix(s, from, at - from);
    assert u == [] <==> s[at] == 0;
    assert u == t[Leading(t, delims, true)..];
    hide CStr, AfterToken, Leading;
  }

  /** The innermost loops of `strtok`: the index of c among the delimiters, or their number. */
  method FindDelim(c: uint8, delims: seq<uint8>) returns (i: nat)
    ensures i <= |delims| && (i < |delims| <==> c in delims)
  {
    i := 0;
    while i < |delims|
      invariant 0 <= i <= |delims| && c !in delims[..i]
    {
      if c == delims[i] {
        return;
      }
      i := i + 1;
    }
  }

  lemma LeadingStep(s: seq<uint8>, at: nat, delims: seq<uint8>, member: bool)
    requires Terminated(s, at) && s[at] != 0 && (s[at] in delims) == member
    ensures CStr(s, at) != [] && Terminated(s, at + 1)
    ensures Leading(CStr(s, at), delims, member) == 1 + Leading(CStr(s, at + 1), delims, member)
  {
    assert CStr(s, at)[1..] == CStr(s, at + 1);
  }

  /** Skipping the delimiters in front of a token. */
  method SkipDelims(s: array<uint8>, from: nat, delims: seq<uint8>) returns (p: nat)
    requires Terminated(s[..], from) && 0 !in delims
    ensures p == from + Leading(CStr(s[..], from), delims, true) && Terminated(s[..], p)
  {
    p := from;
    while true
      invariant from <= p && Terminated(s[..], p)
      invariant from + Leading(CStr(s[..], from), delims, true) == p + Leading(CStr(s[..], p), delims, true)
      decreases s.Length - p
    {
      var i := FindDelim(s[p], delims);
      if i == |delims| {
        return;
      }
      LeadingStep(s[..], p, delims, true);
      p := p + 1;
    }
  }

  /** The buffer after cutting the token at `from`: its delimiter, if any, becomes NUL. */
  ghost function Cut(s: seq<uint8>, from: nat, delims: seq<uint8>): (r: seq<uint8>)
    requires Terminated(s, from)
    ensures |r| == |s|
  {
    var t := CStr(s, from);
    var n := Leading(t, delims, false);
    if n < |t| then s[from + n := 0] else s
  }

  /** Where the cursor ends up: past the delimiter, or on the final NUL. */
  ghost function CutEnd(s: seq<uint8>, from: nat, delims: seq<uint8>): nat {
    var t := CStr(s, from);
    var n := Leading(t, delims, false);
    if n < |t| then from + n + 1 else from + n
  }

  /** Finding the end of a token and cutting it off. */
  method CutToken(s: array<uint8>, from: nat, delims: seq<uint8>) returns (p: nat)
    requires Terminated(s[..], from) && 0 !in delims
    modifies s
    ensures s[..] == Cut(old(s[..]), from, delims)
    ensures p == CutEnd(old(s[..]), from, delims)
  {
    p := from;
    while s[p] != 0
      invariant from <= p && s[..] == old(s[..]) && Terminated(s[..], p)
      invariant |CStr(s[..], from)| == p - from + |CStr(s[..], p)|
      invariant from + Leading(CStr(s[..], from), delims, false) == p + Leading(CStr(s[..], p), delims, false)
      decreases s.Length - p
    {
      var i := FindDelim(s[p], delims);
      if i < |delims| {
        assert CStr(s[..], p)[0] in delims;
        s[p] := 0;
        assert s[..] == old(s[..])[p := 0];
        p := p + 1;
        return;
      }
      LeadingStep(s[..], p, delims, false);
      p := p + 1;
    }
  }

  /** After the cut the token and what follows it are both strings of their own. */
  lemma CutTokenSplits(s: seq<uint8>, s': seq<uint8>, from: nat, delims: seq<uint8>)
    requires Terminated(s, from) && s' == Cut(s, from, delims)
    ensures var t, p := CStr(s, from), CutEnd(s, from, delims);
      && CStr(s', from) == t[..Leading(t, delims, false)] && Terminated(s', from)
      && CStr(s', p) == AfterToken(t, delims) && Terminated(s', p)
  {
    var t, p := CStr(s, from), CutEnd(s, from, delims);
    var n := Leading(t, delims, false);
    CStrIs(s, from);
    if n < |t| {
      assert s' == s[from + n := 0] && p == from + n + 1 && AfterToken(t, delims) == t[n + 1..];
      hide CStr, Leading, Terminated, Cut, CutEnd, AfterToken;
      ZeroSplits(s, from, |t|, n);
    } else {
      assert s' == s && p == from + n && AfterToken(t, delims) == [] && t[..n] == t;
      hide Leading, Cut, CutEnd, AfterToken;
      CStrAt(s', p, 0);
    }
  }

  /** Storing a NUL inside a string makes two strings of it. */
  lemma ZeroSplits(s: seq<uint8>, from: nat, len: nat, n: nat)
    requires n < len && from + len < |s| && s[from + len] == 0 && forall i :: from <= i < from + len ==> s[i] != 0
    ensures var s' := s[from + n := 0];
      && CStr(s', from) == s[from..from + len][..n] && Terminated(s', from)
      && CStr(s', from + n + 1) == s[from..from + len][n + 1..] && Terminated(s', from + n + 1)
  {
    var s' := s[from + n := 0];
    CStrAt(s', from, n);
    CStrAt(s', from + n + 1, len - n - 1);
    hide CStr;
  }
}
