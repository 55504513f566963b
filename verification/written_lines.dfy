/** How command lines can be written, and that the shell understands them as they were meant. */
module WrittenLines {
  import opened CommandLine
  import opened Wrappers

  // ---------- Words ----------

  /** How a word is written: as it is, wrapped in a quote character, or, at the end of a line, after one that is
      never closed. */
  datatype Style = Plain | Wrapped(q: char) | Unclosed(q: char)

  function Written(w: seq<char>, style: Style): seq<char> {
    match style
    case Plain => w
    case Wrapped(q) => [q] + w + [q]
    case Unclosed(q) => [q] + w
  }

  /** A blank, or one of the characters from tab to carriage return. */
  predicate White(c: char) {
    c as int == 32 || 9 <= c as int <= 13
  }

  predicate Gap(s: seq<char>) {
    forall i :: 0 <= i < |s| ==> White(s[i])
  }

  lemma WhiteIsSpace(c: char)
    ensures White(c) <==> IsSpace(c)
  {
  }

  /** A word may be written after a quote that it does not contain, and it may be left as it is if it does not start
      with a quote and has no white space. */
  predicate Writable(w: seq<char>, style: Style) {
    match style
    case Plain => w != [] && w[0] != '"' && w[0] != '\'' && forall i :: 0 <= i < |w| ==> !White(w[i])
    case Wrapped(q) => (q == '"' || q == '\'') && q !in w
    case Unclosed(q) => (q == '"' || q == '\'') && q !in w
  }

  /** Written words with gaps before, between and after them. */
  ghost function WrittenLine(ws: seq<seq<char>>, styles: seq<Style>, gaps: seq<seq<char>>): (s: seq<char>)
    requires |ws| == |styles| && |gaps| == |ws| + 1
  {
    gaps[0] + if ws == [] then [] else Written(ws[0], styles[0]) + WrittenLine(ws[1..], styles[1..], gaps[1..])
  }

  /** The words can be told apart: gaps are white space, there is some after a plain word that is not the last one, and
      nothing follows a quote that is never closed. */
  ghost predicate Legible(ws: seq<seq<char>>, styles: seq<Style>, gaps: seq<seq<char>>) {
    && |ws| == |styles| && |gaps| == |ws| + 1
    && (forall i :: 0 <= i < |gaps| ==> Gap(gaps[i]))
    && (forall i :: 0 <= i < |ws| ==> Writable(ws[i], styles[i]))
    && (forall i :: 0 <= i < |ws| - 1 ==> !styles[i].Unclosed? && (styles[i].Plain? ==> gaps[i + 1] != []))
    && (forall i :: 0 <= i < |ws| && styles[i].Unclosed? ==> gaps[i + 1] == [])
  }

  lemma LegibleRest(ws: seq<seq<char>>, styles: seq<Style>, gaps: seq<seq<char>>)
    requires Legible(ws, styles, gaps) && ws != []
    ensures Legible(ws[1..], styles[1..], gaps[1..])
  {
    hide Gap, Writable;
  }

  /** `parseline` undoes writing; if there are too many words, it leaves out the last ones. */
  lemma {:induction false} WritingRoundTrip(ws: seq<seq<char>>, styles: seq<Style>, gaps: seq<seq<char>>, cap: nat)
    requires Legible(ws, styles, gaps)
    ensures Words(WrittenLine(ws, styles, gaps), cap) == if |ws| <= cap then ws else ws[..cap]
    decreases |ws|
  {
    hide Words, Written, Writable, Gap, WrittenLine;
    WrittenInside(ws, styles, gaps);
    if cap == 0 {
      NoWords(cap);
    } else if ws == [] {
      LeadingGap(gaps[0], [], cap);
      NoWords(cap);
    } else {
      var rest := WrittenLine(ws[1..], styles[1..], gaps[1..]);
      LegibleRest(ws, styles, gaps);
      AfterPlain(ws, styles, gaps);
      LeadingGap(gaps[0], Written(ws[0], styles[0]) + rest, cap);
      FirstWritten(ws[0], styles[0], rest, cap);
      WritingRoundTrip(ws[1..], styles[1..], gaps[1..], cap - 1);
      assert ws == [ws[0]] + ws[1..];
    }
  }

  lemma WrittenInside(ws: seq<seq<char>>, styles: seq<Style>, gaps: seq<seq<char>>)
    requires |ws| == |styles| && |gaps| == |ws| + 1
    ensures ws == [] ==> WrittenLine(ws, styles, gaps) == gaps[0] + []
    ensures ws != [] ==>
              WrittenLine(ws, styles, gaps)
              == gaps[0] + (Written(ws[0], styles[0]) + WrittenLine(ws[1..], styles[1..], gaps[1..]))
  {
    hide Written;
  }

  /** What follows a plain word starts with white space, and nothing follows a quote that is never closed. */
  lemma AfterPlain(ws: seq<seq<char>>, styles: seq<Style>, gaps: seq<seq<char>>)
    requires Legible(ws, styles, gaps) && ws != []
    ensures var rest := WrittenLine(ws[1..], styles[1..], gaps[1..]);
            && (styles[0].Plain? && rest != [] ==> White(rest[0]))
            && (styles[0].Unclosed? ==> rest == [])
  {
    hide Writable, Written, WrittenLine;
    WrittenInside(ws[1..], styles[1..], gaps[1..]);
  }

  lemma {:induction false} LeadingGap(gap: seq<char>, s: seq<char>, cap: nat)
    requires Gap(gap)
    ensures Words(gap + s, cap) == Words(s, cap)
  {
    hide Words, White;
    FirstOfGap(gap, s);
    if gap != [] {
      LeadingGap(gap[1..], s, cap);
      LeadingSpace(gap[0], gap[1..] + s, cap);
    }
  }

  lemma FirstOfGap(gap: seq<char>, s: seq<char>)
    ensures gap + s == if gap == [] then s else [gap[0]] + (gap[1..] + s)
  {
  }

  lemma LeadingSpace(c: char, s: seq<char>, cap: nat)
    requires White(c)
    ensures Words([c] + s, cap) == Words(s, cap)
  {
    var t := [c] + s;
    assert t[1..] == s;
    assert Span(t, Spaces) == 1 + Span(s, Spaces);
    assert t[1 + Span(s, Spaces)..] == s[Span(s, Spaces)..];
  }

  lemma FirstWritten(w: seq<char>, style: Style, rest: seq<char>, cap: nat)
    requires Writable(w, style) && cap > 0
    requires style.Plain? && rest != [] ==> White(rest[0])
    requires style.Unclosed? ==> rest == []
    ensures Words(Written(w, style) + rest, cap) == [w] + Words(rest, cap - 1)
  {
    hide Words, Span, White;
    match style {
      case Plain => FirstPlain(w, rest, cap);
      case Wrapped(q) => FirstWrapped(w, q, rest, cap);
      case Unclosed(q) => FirstUnclosed(w, q, cap);
        assert [q] + w + [] == [q] + w;
    }
  }

  lemma SpanPlain(w: seq<char>, rest: seq<char>)
    requires Writable(w, Plain) && (rest != [] ==> White(rest[0]))
    ensures Span(w + rest, Spaces) == 0 && Span(w + rest, NotSpaces) == |w|
  {
    hide Span;
    SpanIs(w + rest, Spaces, 0);
    SpanIs(w + rest, NotSpaces, |w|);
  }

  lemma FirstPlain(w: seq<char>, rest: seq<char>, cap: nat)
    requires Writable(w, Plain) && cap > 0 && (rest != [] ==> White(rest[0]))
    ensures Words(w + rest, cap) == [w] + Words(rest, cap - 1)
  {
    hide Words, Span, IsSpace, White;
    SpanPlain(w, rest);
    ConcatParts(w, rest);
    MoreWords(w + rest, cap);
    if rest == [] {
      NoWords(cap - 1);
    } else {
      LeadingSpace(rest[0], rest[1..], cap - 1);
      assert [rest[0]] + rest[1..] == rest;
    }
  }

  lemma FirstWrapped(w: seq<char>, q: char, rest: seq<char>, cap: nat)
    requires Writable(w, Wrapped(q)) && cap > 0
    ensures Words([q] + w + [q] + rest, cap) == [w] + Words(rest, cap - 1)
  {
    hide Words, Span, IsSpace;
    var t, u := [q] + w + [q] + rest, w + ([q] + rest);
    Requote(w, q, rest);
    SpanQuote(q, u);
    SpanUpTo(w, q, [q] + rest);
    ConcatParts([q], u);
    ConcatParts(w, [q] + rest);
    ConcatParts([q], rest);
    MoreWords(t, cap);
  }

  lemma FirstUnclosed(w: seq<char>, q: char, cap: nat)
    requires Writable(w, Unclosed(q)) && cap > 0
    ensures Words([q] + w, cap) == [w] + Words([], cap - 1)
  {
    hide Words, Span, IsSpace;
    SpanQuote(q, w);
    SpanUpTo(w, q, []);
    ConcatParts([q], w);
    ConcatParts(w, []);
    assert w + [] == w;
    MoreWords([q] + w, cap);
  }

  lemma Requote(w: seq<char>, q: char, rest: seq<char>)
    ensures [q] + w + [q] + rest == [q] + (w + ([q] + rest))
  {
  }

  lemma SpanQuote(q: char, u: seq<char>)
    requires q == '"' || q == '\''
    ensures Span([q] + u, Spaces) == 0
  {
    hide Span;
    SpanIs([q] + u, Spaces, 0);
  }

  lemma SpanUpTo(w: seq<char>, q: char, u: seq<char>)
    requires q !in w && (u != [] ==> u[0] == q)
    ensures Span(w + u, Not(q)) == |w|
  {
    hide Span;
    SpanIs(w + u, Not(q), |w|);
  }

  /** Every string is a written line, so that the round trip says what the words of any string are. */
  lemma {:induction false} EveryLineIsWritten(s: seq<char>)
    returns (ws: seq<seq<char>>, styles: seq<Style>, gaps: seq<seq<char>>)
    ensures Legible(ws, styles, gaps) && WrittenLine(ws, styles, gaps) == s
    ensures gaps[0] == s[..Span(s, Spaces)] && (s == [] ==> ws == [])
    decreases |s|
  {
    hide WrittenLine, Span, Legible, Gap, Writable;
    var n := Span(s, Spaces);
    var gap, t := s[..n], s[n..];
    LeadIsGap(s);
    CutAt(s, n);
    if t == [] {
      ws, styles, gaps := [], [], [gap];
      NoWordIsLegible(gap);
      assert gap == s;
    } else {
      var w, style, rest := FirstOf(t);
      var ws', styles', gaps' := EveryLineIsWritten(rest);
      ws, styles, gaps := [w] + ws', [style] + styles', [gap] + gaps';
      LeadIsGap(rest);
      OneMoreWord(w, style, gap, ws', styles', gaps');
      assert s == gap + (Written(w, style) + rest);
    }
  }

  lemma LeadIsGap(s: seq<char>)
    ensures var n := Span(s, Spaces); Gap(s[..n]) && (n < |s| ==> !White(s[n]))
    ensures s != [] && White(s[0]) ==> Span(s, Spaces) > 0
  {
    hide Span;
    SpanSpec(s, Spaces);
  }

  lemma CutAt(s: seq<char>, n: nat)
    requires n <= |s|
    ensures s == s[..n] + s[n..]
  {
  }

  lemma NoWordIsLegible(gap: seq<char>)
    requires Gap(gap)
    ensures Legible([], [], [gap]) && WrittenLine([], [], [gap]) == gap
  {
    assert gap + [] == gap;
  }

  /** The word that `t` starts with, how it is written, and what follows. */
  lemma FirstOf(t: seq<char>) returns (w: seq<char>, style: Style, rest: seq<char>)
    requires t != [] && !White(t[0])
    ensures Writable(w, style) && t == Written(w, style) + rest && |rest| < |t|
    ensures style.Plain? && rest != [] ==> White(rest[0])
    ensures style.Unclosed? ==> rest == []
  {
    hide Span;
    if t[0] == '"' || t[0] == '\'' {
      var u := t[1..];
      var n := Span(u, Not(t[0]));
      SpanSpec(u, Not(t[0]));
      w, style, rest := u[..n], if n < |u| then Wrapped(t[0]) else Unclosed(t[0]), if n < |u| then u[n + 1..] else [];
      Quoted(t, n);
    } else {
      var n := Span(t, NotSpaces);
      SpanSpec(t, NotSpaces);
      w, style, rest := t[..n], Plain, t[n..];
    }
  }

  lemma Quoted(t: seq<char>, n: nat)
    requires t != [] && n < |t|
    ensures var u := t[1..];
            t == if n < |u| then [t[0]] + u[..n] + [u[n]] + u[n + 1..] else [t[0]] + u[..n] + []
  {
  }

  lemma OneMoreWord(w: seq<char>, style: Style, gap: seq<char>,
                    ws: seq<seq<char>>, styles: seq<Style>, gaps: seq<seq<char>>)
    requires Legible(ws, styles, gaps) && Writable(w, style) && Gap(gap)
    requires style.Plain? && ws != [] ==> gaps[0] != []
    requires style.Unclosed? ==> ws == [] && gaps[0] == []
    ensures Legible([w] + ws, [style] + styles, [gap] + gaps)
    ensures WrittenLine([w] + ws, [style] + styles, [gap] + gaps)
         == gap + (Written(w, style) + WrittenLine(ws, styles, gaps))
  {
    hide Gap, Writable, Written, WrittenLine;
    WrittenInside([w] + ws, [style] + styles, [gap] + gaps);
    assert ([w] + ws)[1..] == ws && ([style] + styles)[1..] == styles && ([gap] + gaps)[1..] == gaps;
  }

  // ---------- Quotes ----------

  /** A closed piece leaves no quote open. */
  ghost predicate Closed(s: seq<char>) {
    QuoteAt(s, |s|) == NoQuote
  }

  ghost predicate WithoutBars(s: seq<char>) {
    forall i :: 0 <= i < |s| ==> !IsBar(s, i)
  }

  lemma {:induction false} QuoteAtPrefix(a: seq<char>, b: seq<char>, i: nat)
    requires i <= |a|
    ensures QuoteAt(a + b, i) == QuoteAt(a, i)
    decreases i
  {
    if i > 0 {
      QuoteAtPrefix(a, b, i - 1);
    }
  }

  lemma {:induction false} QuoteAtAfter(a: seq<char>, b: seq<char>, i: nat)
    requires Closed(a) && i <= |b|
    ensures QuoteAt(a + b, |a| + i) == QuoteAt(b, i)
    decreases i
  {
    if i == 0 {
      QuoteAtPrefix(a, b, |a|);
    } else {
      QuoteAtAfter(a, b, i - 1);
      assert (a + b)[|a| + i - 1] == b[i - 1];
    }
  }

  /** The quote that stays open after the character `q`. */
  ghost function Opened(q: char): Quote {
    if q == '"' then InDouble else InSingle
  }

  lemma {:induction false} InsideQuote(q: char, w: seq<char>, i: nat)
    requires (q == '"' || q == '\'') && q !in w && i <= |w|
    ensures QuoteAt([q] + w, i + 1) == Opened(q)
    decreases i
  {
    if i > 0 {
      InsideQuote(q, w, i - 1);
      assert ([q] + w)[i] == w[i - 1] && w[i - 1] in w;
    } else {
      assert QuoteAt([q] + w, 0) == NoQuote;
    }
  }

  /** Whatever stands between two equal quotes, bars and the other quotes included, after closed text: it has no bar
      outside quotes, and the text is closed again. */
  lemma QuotedIsInert(a: seq<char>, q: char, w: seq<char>, rest: seq<char>)
    requires Closed(a) && (q == '"' || q == '\'') && q !in w
    ensures Closed(a + ([q] + w + [q]))
    ensures forall i :: |a| <= i < |a| + |w| + 2 ==> !IsBar(a + ([q] + w + [q]) + rest, i)
  {
    var b := [q] + w + [q];
    forall i | |a| <= i <= |a| + |w| + 2
      ensures QuoteAt(a + b + rest, i) == if i == |a| || i == |a| + |w| + 2 then NoQuote else Opened(q)
    {
      QuoteAtPrefix(a + b, rest, i);
      QuoteAtAfter(a, b, i - |a|);
      QuoteInside(q, w, i - |a|);
    }
    QuoteAtPrefix(a + b, rest, |a + b|);
    assert forall i :: |a| <= i < |a| + |w| + 2 ==> (a + b + rest)[i] == b[i - |a|];
    hide QuoteAt;
    assert b[0] == q && b[|w| + 1] == q;
  }

  lemma QuoteInside(q: char, w: seq<char>, i: nat)
    requires (q == '"' || q == '\'') && q !in w && i <= |w| + 2
    ensures QuoteAt([q] + w + [q], i) == if i == 0 || i == |w| + 2 then NoQuote else Opened(q)
  {
    if 0 < i <= |w| + 1 {
      InsideQuote(q, w, i - 1);
      QuoteAtPrefix([q] + w, [q], i);
    } else if i == |w| + 2 {
      InsideQuote(q, w, |w|);
      QuoteAtPrefix([q] + w, [q], i - 1);
      assert ([q] + w + [q])[i - 1] == q;
    }
  }

  /** After a quote that is never closed there is no bar outside quotes. */
  lemma UnclosedIsInert(a: seq<char>, q: char, w: seq<char>)
    requires Closed(a) && (q == '"' || q == '\'') && q !in w
    ensures !Closed(a + ([q] + w))
    ensures forall i :: |a| <= i < |a| + |w| + 1 ==> !IsBar(a + ([q] + w), i)
  {
    var b := [q] + w;
    forall i | |a| < i <= |a + b|
      ensures QuoteAt(a + b, i) == Opened(q)
    {
      QuoteAtAfter(a, b, i - |a|);
      InsideQuote(q, w, i - |a| - 1);
    }
    assert (a + b)[|a|] == q;
  }

  /** In text without quotes, after closed text, the bars are bars outside quotes. */
  lemma PlainBarsCount(a: seq<char>, u: seq<char>, rest: seq<char>)
    requires Closed(a) && '"' !in u && '\'' !in u
    ensures Closed(a + u)
    ensures forall i :: |a| <= i < |a| + |u| ==> (IsBar(a + u + rest, i) <==> u[i - |a|] == '|')
  {
    forall i | |a| <= i <= |a| + |u|
      ensures QuoteAt(a + u + rest, i) == NoQuote
    {
      QuoteAtPrefix(a + u, rest, i);
      QuoteAtAfter(a, u, i - |a|);
      NoQuoteInside(u, i - |a|);
    }
    QuoteAtPrefix(a + u, rest, |a + u|);
    hide QuoteAt;
    assert forall i :: |a| <= i < |a| + |u| ==> (a + u + rest)[i] == u[i - |a|];
  }

  lemma {:induction false} NoQuoteInside(u: seq<char>, i: nat)
    requires i <= |u| && '"' !in u && '\'' !in u
    ensures QuoteAt(u, i) == NoQuote
    decreases i
  {
    if i > 0 {
      NoQuoteInside(u, i - 1);
      assert u[i - 1] in u;
    }
  }

  lemma NothingIsClosed()
    ensures Closed([]) && WithoutBars([])
  {
  }

  /** Text with its quotes closed and no bar outside them. */
  ghost predicate Inert(s: seq<char>) {
    Closed(s) && WithoutBars(s)
  }

  lemma InertConcat(a: seq<char>, b: seq<char>)
    requires Inert(a) && Inert(b)
    ensures Inert(a + b)
  {
    QuoteAtAfter(a, b, |b|);
    forall i | 0 <= i < |a + b|
      ensures !IsBar(a + b, i)
    {
      if i < |a| {
        QuoteAtPrefix(a, b, i);
        assert !IsBar(a, i);
      } else {
        QuoteAtAfter(a, b, i - |a|);
        assert !IsBar(b, i - |a|);
      }
    }
  }

  lemma InertText(u: seq<char>)
    requires '"' !in u && '\'' !in u && '|' !in u
    ensures Inert(u)
  {
    NothingIsClosed();
    PlainBarsCount([], u, []);
    hide QuoteAt;
    assert [] + u == u && u + [] == u;
  }

  lemma InertQuoted(q: char, w: seq<char>)
    requires (q == '"' || q == '\'') && q !in w
    ensures Inert([q] + w + [q])
  {
    var b := [q] + w + [q];
    NothingIsClosed();
    QuotedIsInert([], q, w, []);
    hide QuoteAt;
    assert [] + b == b && b + [] == b;
  }

  /** The words do not disturb the splitting into segments: plain words have neither quotes nor bars. */
  ghost predicate Harmless(ws: seq<seq<char>>, styles: seq<Style>) {
    && |ws| == |styles|
    && forall i :: 0 <= i < |ws| ==>
         !styles[i].Unclosed? && (styles[i].Plain? ==> '"' !in ws[i] && '\'' !in ws[i] && '|' !in ws[i])
  }

  /** A written line is one segment: its quotes are closed, and its bars are all inside quotes. */
  lemma {:induction false} WrittenIsInert(ws: seq<seq<char>>, styles: seq<Style>, gaps: seq<seq<char>>)
    requires Legible(ws, styles, gaps) && Harmless(ws, styles)
    ensures Inert(WrittenLine(ws, styles, gaps))
    decreases |ws|
  {
    hide Inert, WrittenLine;
    WrittenInside(ws, styles, gaps);
    InertGap(gaps[0]);
    if ws == [] {
      assert gaps[0] + [] == gaps[0];
    } else {
      LegibleRest(ws, styles, gaps);
      WrittenIsInert(ws[1..], styles[1..], gaps[1..]);
      InertWord(ws[0], styles[0]);
      var rest := WrittenLine(ws[1..], styles[1..], gaps[1..]);
      InertConcat(Written(ws[0], styles[0]), rest);
      InertConcat(gaps[0], Written(ws[0], styles[0]) + rest);
    }
  }

  lemma InertGap(gap: seq<char>)
    requires Gap(gap)
    ensures Inert(gap)
  {
    hide Inert;
    InertText(gap);
  }

  lemma InertWord(w: seq<char>, style: Style)
    requires Writable(w, style) && !style.Unclosed?
    requires style.Plain? ==> '"' !in w && '\'' !in w && '|' !in w
    ensures Inert(Written(w, style))
  {
    hide Inert;
    match style {
      case Plain => InertText(w);
      case Wrapped(q) => InertQuoted(q, w);
    }
  }

  // ---------- Command lines ----------

  lemma {:induction false} NextBarAfter(a: seq<char>, b: seq<char>, from: nat)
    requires Closed(a) && from <= |b|
    ensures NextBar(a + b, |a| + from) == |a| + NextBar(b, from)
    decreases |b| - from
  {
    if from < |b| {
      QuoteAtAfter(a, b, from);
      assert IsBar(a + b, |a| + from) == IsBar(b, from);
      if !IsBar(b, from) {
        NextBarAfter(a, b, from + 1);
      }
    }
  }

  lemma {:induction false} PiecesAfter(a: seq<char>, b: seq<char>, from: nat)
    requires Closed(a) && from <= |b|
    ensures Pieces(a + b, |a| + from) == Pieces(b, from)
    decreases |b| - from
  {
    hide QuoteAt, NextBar, IsBar, Pieces, Closed;
    FirstPiece(a + b, |a| + from);
    FirstPiece(b, from);
    var n := NextBar(b, from);
    NextBarAfter(a, b, from);
    SliceAfter(a, b, from, n);
    if n < |b| {
      PiecesAfter(a, b, n + 1);
    }
  }

  lemma SliceAfter(a: seq<char>, b: seq<char>, i: nat, j: nat)
    requires i <= j <= |b|
    ensures (a + b)[|a| + i..|a| + j] == b[i..j] && |a + b| == |a| + |b|
  {
  }

  lemma BarAfterPiece(p: seq<char>, rest: seq<char>)
    requires WithoutBars(p) && Closed(p)
    ensures var s := p + ['|'] + rest; NextBar(s, 0) == |p| && Closed(p + ['|'])
  {
    var s := p + ['|'] + rest;
    assert s == p + (['|'] + rest);
    forall i | 0 <= i < |p|
      ensures !IsBar(s, i)
    {
      QuoteAtPrefix(p, ['|'] + rest, i);
      assert !IsBar(p, i);
    }
    QuoteAtPrefix(p, ['|'] + rest, |p|);
    QuoteAtPrefix(p, ['|'], |p|);
    assert IsBar(s, |p|);
  }

  /** Pieces that are closed and have no bar outside quotes are found again when they are joined by bars. */
  lemma {:induction false} JoinedPieces(ps: seq<seq<char>>)
    requires ps != [] && forall i :: 0 <= i < |ps| ==> WithoutBars(ps[i]) && (i < |ps| - 1 ==> Closed(ps[i]))
    ensures Pieces(Join(ps), 0) == ps
    decreases |ps|
  {
    hide QuoteAt, NextBar, WithoutBars, Closed, Pieces, Join;
    var p := ps[0];
    if |ps| == 1 {
      OnePiece(p);
      JoinOne(p);
      assert ps == [p];
    } else {
      var rest, a := Join(ps[1..]), p + ['|'];
      JoinedPieces(ps[1..]);
      BarAfterPiece(p, rest);
      PiecesAfter(a, rest, 0);
      JoinMore(p, ps[1..]);
      assert ps == [p] + ps[1..];
      FirstPiece(a + rest, 0);
      ConcatParts(p, ['|'] + rest);
      assert a + rest == p + (['|'] + rest);
    }
  }

  lemma OnePiece(p: seq<char>)
    requires WithoutBars(p)
    ensures Pieces(p, 0) == [p]
  {
    hide QuoteAt;
    assert NextBar(p, 0) == |p|;
    assert p[0..|p|] == p;
  }

  /** A piece between bars: it is not blank, it has no ampersand, and its bars are inside quotes. */
  ghost predicate Fit(p: seq<char>) {
    !Blank(p) && '&' !in p && WithoutBars(p)
  }

  /** Pieces joined by bars, and the mark of a background job with what follows it. */
  ghost function CommandText(ps: seq<seq<char>>, mark: Option<seq<char>>): seq<char>
    requires ps != []
  {
    Join(WithMark(ps, mark))
  }

  ghost function WithMark(ps: seq<seq<char>>, mark: Option<seq<char>>): (qs: seq<seq<char>>)
    requires ps != []
    ensures |qs| == |ps|
  {
    if mark.None? then ps else ps[|ps| - 1 := ps[|ps| - 1] + (['&'] + mark.value)]
  }

  /** Trimming takes away the gaps around a text. */
  lemma TrimIs(before: seq<char>, t: seq<char>, after: seq<char>)
    requires Gap(before) && Gap(after) && t != [] && !White(t[0]) && !White(t[|t| - 1])
    ensures Trim(before + t + after) == t
  {
    hide Trim, Span, TrimRight;
    var s := before + t + after;
    SpanIs(s, Spaces, |before|);
    TrimSpec(s);
    TrimKeeps(s);
    assert s[|before| + |t| - 1] == t[|t| - 1];
    LastAtSpec(s, |before| + |t| - 1);
    assert !Blank(s);
    ConcatParts(before + t, after);
    ConcatParts(before, t);
    assert s[|before|..|before| + |t|] == t;
  }

  /** What trimming takes away. */
  lemma TrimParts(p: seq<char>) returns (before: seq<char>, after: seq<char>)
    requires !Blank(p)
    ensures Gap(before) && Gap(after) && p == before + Trim(p) + after
    ensures Trim(p) != [] && !White(Trim(p)[0]) && !White(Trim(p)[|Trim(p)| - 1])
  {
    hide Trim, Span;
    TrimSpec(p);
    TrimKeeps(p);
    var a := Span(p, Spaces);
    var b := a + |Trim(p)|;
    before, after := p[..a], p[b..];
    CutAt(p[..b], a);
    CutAt(p, b);
    assert p[..b][..a] == p[..a] && p[..b][a..] == p[a..b];
  }

  /** The mark is found, whatever white space is around it, and taken away. */
  lemma MarkIsFound(p: seq<char>, gap: seq<char>)
    requires !Blank(p) && Gap(gap)
    ensures var t := Trim(p + (['&'] + gap)); EndsInAmp(t) && WithoutAmp(t) == Trim(p)
  {
    hide Trim;
    var before, after := TrimParts(p);
    var t := Trim(p);
    var m := t + after + ['&'];
    assert before + m + gap == p + (['&'] + gap);
    TrimIs(before, m, gap);
    assert m[..|m| - 1] == [] + t + after;
    TrimIs([], t, after);
  }

  lemma NoMarkIsFound(p: seq<char>)
    requires !Blank(p) && '&' !in p
    ensures !EndsInAmp(Trim(p)) && GoodSegment(Trim(p))
  {
    hide Trim;
    TrimKeeps(p);
  }

  lemma MarkedWithoutBars(p: seq<char>, gap: seq<char>)
    requires WithoutBars(p) && Gap(gap)
    ensures WithoutBars(p + (['&'] + gap))
  {
    var s := p + (['&'] + gap);
    forall i | 0 <= i < |s|
      ensures !IsBar(s, i)
    {
      if i < |p| {
        QuoteAtPrefix(p, ['&'] + gap, i);
        assert !IsBar(p, i);
      } else {
        assert i == |p| ==> s[i] == '&';
        assert i > |p| ==> s[i] == gap[i - |p| - 1];
      }
    }
  }

  lemma LastTrimmed(ps: seq<seq<char>>, qs: seq<seq<char>>)
    requires ps != [] && |qs| == |ps| && qs[..|ps| - 1] == ps[..|ps| - 1]
    requires WithoutAmp(Trim(qs[|ps| - 1])) == Trim(ps[|ps| - 1])
    ensures var ts := Trimmed(qs); ts[..|ts| - 1] + [WithoutAmp(ts[|ts| - 1])] == Trimmed(ps)
  {
    hide Trim, WithoutAmp;
    var n := |ps| - 1;
    assert forall i :: 0 <= i < n ==> qs[i] == qs[..n][i] == ps[..n][i] == ps[i];
  }

  lemma PieceNotBlank(s: seq<char>, k: nat)
    requires k <= |s| && !Blank(s[k..])
    ensures !Blank(s)
  {
    var i :| 0 <= i < |s[k..]| && !IsSpace(s[k..][i]);
    assert s[k + i] == s[k..][i];
  }

  /** `parse_line` undoes writing a command line: up to 16 pieces, with white space around them, joined by bars, with or
      without the mark. */
  lemma CommandRoundTrip(ps: seq<seq<char>>, mark: Option<seq<char>>)
    requires 1 <= |ps| <= 16 && forall i :: 0 <= i < |ps| ==> Fit(ps[i]) && (i < |ps| - 1 ==> Closed(ps[i]))
    requires mark.Some? ==> Gap(mark.value)
    ensures Parse(CommandText(ps, mark)) == Some(Command(Trimmed(ps), mark.Some?))
  {
    hide Trim, QuoteAt, Closed, WithoutBars, GoodSegment, Pieces, Join, EndsInAmp, WithoutAmp, Blank, Gap;
    var line, qs, n := CommandText(ps, mark), WithMark(ps, mark), |ps| - 1;
    forall i | 0 <= i <= n
      ensures GoodSegment(Trim(ps[i])) && !EndsInAmp(Trim(ps[i]))
    {
      NoMarkIsFound(ps[i]);
    }
    LastIsMarked(ps[n], mark);
    JoinedPieces(qs);
    LastTrimmed(ps, qs);
    LastPieceEndsLine(line, 0);
    PieceNotBlank(line, |line| - |qs[n]|);
    TrimKeeps(line);
  }

  lemma LastIsMarked(p: seq<char>, mark: Option<seq<char>>)
    requires Fit(p) && (mark.Some? ==> Gap(mark.value))
    ensures var q := if mark.None? then p else p + (['&'] + mark.value);
            && WithoutBars(q) && !Blank(q) && WithoutAmp(Trim(q)) == Trim(p) && EndsInAmp(Trim(q)) == mark.Some?
  {
    hide Trim, WithoutBars, Gap;
    NoMarkIsFound(p);
    if mark.Some? {
      MarkedWithoutBars(p, mark.value);
      MarkIsFound(p, mark.value);
      var i :| 0 <= i < |p| && !IsSpace(p[i]);
      assert (p + (['&'] + mark.value))[i] == p[i];
    }
  }

  // ---------- Whole lines ----------

  /** The words of one segment, how each is written, and the white space around them. */
  datatype Segment = Segment(ws: seq<seq<char>>, styles: seq<Style>, gaps: seq<seq<char>>)

  /** One to 127 words, without an ampersand or a newline anywhere, and in plain words neither quotes nor bars. */
  ghost predicate Proper(segment: Segment) {
    && 1 <= |segment.ws| <= 127
    && Legible(segment.ws, segment.styles, segment.gaps) && Harmless(segment.ws, segment.styles)
    && (forall i :: 0 <= i < |segment.ws| ==> '&' !in segment.ws[i] && '\n' !in segment.ws[i])
    && (forall i :: 0 <= i < |segment.gaps| ==> '\n' !in segment.gaps[i])
  }

  ghost function TextOf(segment: Segment): seq<char>
    requires Proper(segment)
  {
    WrittenLine(segment.ws, segment.styles, segment.gaps)
  }

  ghost function Texts(segments: seq<Segment>): (ps: seq<seq<char>>)
    requires forall i :: 0 <= i < |segments| ==> Proper(segments[i])
    ensures |ps| == |segments| && forall i :: 0 <= i < |ps| ==> ps[i] == TextOf(segments[i])
  {
    seq(|segments|, i requires 0 <= i < |segments| => TextOf(segments[i]))
  }

  lemma {:induction false} NeverWritten(c: char, ws: seq<seq<char>>, styles: seq<Style>, gaps: seq<seq<char>>)
    requires |ws| == |styles| && |gaps| == |ws| + 1 && c != '"' && c != '\''
    requires forall i :: 0 <= i < |ws| ==> Writable(ws[i], styles[i]) && c !in ws[i]
    requires forall i :: 0 <= i < |gaps| ==> c !in gaps[i]
    ensures c !in WrittenLine(ws, styles, gaps)
    decreases |ws|
  {
    hide WrittenLine;
    WrittenInside(ws, styles, gaps);
    if ws != [] {
      NeverWritten(c, ws[1..], styles[1..], gaps[1..]);
    }
  }

  /** The text without the gaps at its ends. */
  lemma {:induction false} OuterGaps(ws: seq<seq<char>>, styles: seq<Style>, gaps: seq<seq<char>>)
    requires |ws| == |styles| && |gaps| == |ws| + 1 && ws != []
    ensures WrittenLine(ws, styles, gaps)
         == gaps[0] + WrittenLine(ws, styles, gaps[0 := []][|ws| := []]) + gaps[|ws|]
    decreases |ws|
  {
    hide WrittenLine, Written;
    var inner := gaps[0 := []][|ws| := []];
    WrittenInside(ws, styles, gaps);
    WrittenInside(ws, styles, inner);
    var w := Written(ws[0], styles[0]);
    WrittenInside(ws[1..], styles[1..], gaps[1..]);
    WrittenInside(ws[1..], styles[1..], inner[1..]);
    if |ws| == 1 {
      assert gaps[0] + (w + (gaps[1] + [])) == gaps[0] + ([] + (w + ([] + []))) + gaps[1];
    } else {
      OuterGaps(ws[1..], styles[1..], gaps[1..]);
      OuterGaps(ws[1..], styles[1..], inner[1..]);
      assert gaps[1..][0 := []][|ws| - 1 := []] == inner[1..][0 := []][|ws| - 1 := []];
      var core := WrittenLine(ws[1..], styles[1..], gaps[1..][0 := []][|ws| - 1 := []]);
      MoveOut(gaps[0], w, gaps[1], core, gaps[|ws|]);
    }
  }

  lemma MoveOut(a: seq<char>, w: seq<char>, b: seq<char>, core: seq<char>, c: seq<char>)
    ensures a + (w + (b + core + c)) == a + ([] + (w + (b + core + []))) + c
  {
  }

  /** Without the gaps at its ends, the text starts and ends with a character that is not white space. */
  lemma {:induction false} SolidEnds(ws: seq<seq<char>>, styles: seq<Style>, gaps: seq<seq<char>>)
    requires Legible(ws, styles, gaps) && Harmless(ws, styles) && ws != [] && gaps[|ws|] == []
    ensures var s := WrittenLine(ws, styles, gaps);
            s != [] && !White(s[|s| - 1]) && (gaps[0] == [] ==> !White(s[0]))
    decreases |ws|
  {
    hide WrittenLine, Gap;
    WrittenInside(ws, styles, gaps);
    WrittenInside(ws[1..], styles[1..], gaps[1..]);
    SolidWord(ws[0], styles[0]);
    if |ws| > 1 {
      LegibleRest(ws, styles, gaps);
      SolidEnds(ws[1..], styles[1..], gaps[1..]);
    }
  }

  lemma SolidWord(w: seq<char>, style: Style)
    requires Writable(w, style) && !style.Unclosed?
    ensures var s := Written(w, style); s != [] && !White(s[0]) && !White(s[|s| - 1])
  {
  }

  /** A segment comes back trimmed, and its words are the same. */
  lemma SegmentComesBack(segment: Segment)
    requires Proper(segment)
    ensures Fit(TextOf(segment)) && Closed(TextOf(segment)) && '\n' !in TextOf(segment)
    ensures Words(Line(Trim(TextOf(segment))), 127) == segment.ws
  {
    hide Trim, WrittenLine, Words, Writable, Gap, White, WithoutBars, Closed;
    var ws, styles, gaps, n := segment.ws, segment.styles, segment.gaps, |segment.ws|;
    var inner := gaps[0 := []][n := []];
    var core := WrittenLine(ws, styles, inner);
    InnerIsLegible(ws, styles, gaps);
    OuterGaps(ws, styles, gaps);
    SolidEnds(ws, styles, inner);
    TrimIs(gaps[0], core, gaps[n]);
    TrimKeeps(TextOf(segment));
    WrittenIsInert(ws, styles, gaps);
    NeverWritten('&', ws, styles, gaps);
    NeverWritten('\n', ws, styles, gaps);
    NeverWritten('\n', ws, styles, inner);
    NoNewline(core);
    WritingRoundTrip(ws, styles, inner, 127);
  }

  lemma InnerIsLegible(ws: seq<seq<char>>, styles: seq<Style>, gaps: seq<seq<char>>)
    requires Legible(ws, styles, gaps) && ws != []
    ensures Legible(ws, styles, gaps[0 := []][|ws| := []]) && Gap(gaps[0]) && Gap(gaps[|ws|])
    ensures forall i :: 0 <= i < |ws| ==> Writable(ws[i], styles[i])
    ensures forall i :: 0 <= i < |gaps| ==> '&' !in gaps[i]
  {
    hide Writable;
    forall i | 0 <= i < |gaps|
      ensures '&' !in gaps[i]
    {
      assert Gap(gaps[i]);
    }
  }

  lemma NoNewline(s: seq<char>)
    requires '\n' !in s
    ensures Line(s) == s
  {
    hide Span;
    SpanIs(s, Not('\n'), |s|);
  }

  /** What comes before the first newline. */
  lemma LineIs(s: seq<char>, rest: seq<char>)
    requires '\n' !in s && (rest != [] ==> rest[0] == '\n')
    ensures Line(s + rest) == s
  {
    hide Span;
    SpanIs(s + rest, Not('\n'), |s|);
  }

  lemma {:induction false} NeverJoined(c: char, ps: seq<seq<char>>)
    requires ps != [] && c != '|' && forall i :: 0 <= i < |ps| ==> c !in ps[i]
    ensures c !in Join(ps)
  {
    if |ps| > 1 {
      NeverJoined(c, ps[1..]);
    }
  }

  /** A whole line, understood as it was meant: up to 16 segments of up to 127 words each, every word as it is or in
      quotes, with any white space around the words and around the mark of a background job, up to the newline. */
  lemma WholeLineComesBack(segments: seq<Segment>, mark: Option<seq<char>>, rest: seq<char>)
    requires 1 <= |segments| <= 16 && forall i :: 0 <= i < |segments| ==> Proper(segments[i])
    requires mark.Some? ==> Gap(mark.value) && '\n' !in mark.value
    requires rest != [] ==> rest[0] == '\n'
    ensures var r := Parse(Line(CommandText(Texts(segments), mark) + rest));
            && r.Some? && r.value.bg == mark.Some? && |r.value.segments| == |segments|
            && forall i :: 0 <= i < |segments| ==> Words(Line(r.value.segments[i]), 127) == segments[i].ws
  {
    hide Trim, Proper, TextOf, Fit, Closed, Words, Join, Parse;
    var ps := Texts(segments);
    forall i | 0 <= i < |ps|
      ensures Fit(ps[i]) && Closed(ps[i]) && '\n' !in ps[i] && Words(Line(Trim(ps[i])), 127) == segments[i].ws
    {
      SegmentComesBack(segments[i]);
    }
    var qs := WithMark(ps, mark);
    forall i | 0 <= i < |qs|
      ensures '\n' !in qs[i]
    {
      assert '\n' !in ps[i];
    }
    NeverJoined('\n', qs);
    LineIs(CommandText(ps, mark), rest);
    CommandRoundTrip(ps, mark);
  }

  /** A quoted bar and a tab: two stages, the first of them with the argument `a|b`, in the background. */
  lemma QuotedBarComesBack()
    ensures var r := Parse(Line(" echo 'a|b' |\twc\t-l & \n"));
            && r.Some? && r.value.bg && |r.value.segments| == 2
            && Words(Line(r.value.segments[0]), 127) == ["echo", "a|b"]
            && Words(Line(r.value.segments[1]), 127) == ["wc", "-l"]
  {
    hide Proper, TextOf, Parse, Words, Line, CommandText;
    var a, b := Echo(), Count();
    TwoPieces([a, b]);
    WholeLineComesBack([a, b], Some(" "), "\n");
    hide Written;
    ExampleText();
  }

  lemma ExampleText()
    ensures var a, b := " " + "echo" + " " + Written("a|b", Wrapped('\'')) + " ", "\t" + "wc" + "\t" + "-l" + " ";
            a + ['|'] + (b + "& ") + "\n" == " echo 'a|b' |\twc\t-l & \n"
  {
  }

  function Echo(): (segment: Segment)
    ensures Proper(segment) && segment.ws == ["echo", "a|b"]
    ensures TextOf(segment) == " " + "echo" + " " + Written("a|b", Wrapped('\'')) + " "
  {
    hide Gap, Written, Proper, TextOf;
    EchoIsGood();
    TwoProper("echo", Plain, "a|b", Wrapped('\''), " ", " ", " ");
    Segment(["echo", "a|b"], [Plain, Wrapped('\'')], [" ", " ", " "])
  }

  function Count(): (segment: Segment)
    ensures Proper(segment) && segment.ws == ["wc", "-l"]
    ensures TextOf(segment) == "\t" + "wc" + "\t" + "-l" + " "
  {
    hide Proper, TextOf;
    TwoProper("wc", Plain, "-l", Plain, "\t", "\t", " ");
    Segment(["wc", "-l"], [Plain, Plain], ["\t", "\t", " "])
  }

  lemma EchoIsGood()
    ensures GoodWord("echo", Plain) && GoodWord("a|b", Wrapped('\'')) && Gap(" ")
  {
  }

  ghost predicate GoodWord(w: seq<char>, style: Style) {
    && Writable(w, style) && !style.Unclosed? && '&' !in w && '\n' !in w
    && (style.Plain? ==> '"' !in w && '\'' !in w && '|' !in w)
  }

  lemma TwoProper(v: seq<char>, x: Style, w: seq<char>, y: Style, a: seq<char>, b: seq<char>, c: seq<char>)
    requires GoodWord(v, x) && GoodWord(w, y) && Gap(a) && Gap(b) && Gap(c) && b != []
    requires '\n' !in a && '\n' !in b && '\n' !in c
    ensures var segment := Segment([v, w], [x, y], [a, b, c]);
            Proper(segment) && TextOf(segment) == a + Written(v, x) + b + Written(w, y) + c
  {
    hide Gap, Writable, Written;
    var segment := Segment([v, w], [x, y], [a, b, c]);
    assert Proper(segment);
    TwoWords(segment);
    Flattened(a, Written(v, x), b, Written(w, y), c);
  }

  lemma Flattened(a: seq<char>, v: seq<char>, b: seq<char>, w: seq<char>, c: seq<char>)
    ensures a + (v + (b + (w + (c + [])))) == a + v + b + w + c
  {
  }

  lemma TwoPieces(segments: seq<Segment>)
    requires |segments| == 2 && forall i :: 0 <= i < 2 ==> Proper(segments[i])
    ensures CommandText(Texts(segments), Some(" ")) == TextOf(segments[0]) + ['|'] + (TextOf(segments[1]) + "& ")
  {
    hide Proper, TextOf, Join;
    var qs := WithMark(Texts(segments), Some(" "));
    assert qs == [qs[0]] + [qs[1]];
    JoinMore(qs[0], [qs[1]]);
    JoinOne(qs[1]);
  }

  lemma TwoWords(segment: Segment)
    requires Proper(segment) && |segment.ws| == 2
    ensures var ws, styles, gaps := segment.ws, segment.styles, segment.gaps;
            TextOf(segment)
            == gaps[0] + (Written(ws[0], styles[0]) + (gaps[1] + (Written(ws[1], styles[1]) + (gaps[2] + []))))
  {
    var ws, styles, gaps := segment.ws, segment.styles, segment.gaps;
    hide WrittenLine, Written, Gap, Writable;
    WrittenInside(ws, styles, gaps);
    WrittenInside(ws[1..], styles[1..], gaps[1..]);
    WrittenInside(ws[1..][1..], styles[1..][1..], gaps[1..][1..]);
  }
}
