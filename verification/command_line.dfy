/** What the phase 3 shell understands by a command line, as functions on strings. */
module CommandLine {
  import opened Wrappers

  const MAXARGS := 128
  const MAXCMDS := 16

  /** `isspace`, in the C locale. */
  predicate IsSpace(c: char) {
    c == ' ' || c == '\t' || c == '\n' || c as int == 11 || c as int == 12 || c == '\r'
  }

  predicate IsQuote(c: char) {
    c == '"' || c == '\''
  }

  /** The characters that one of the scanning loops passes over. */
  datatype Kind = Spaces | NotSpaces | Not(c: char) | Any

  predicate Passes(k: Kind, c: char) {
    match k
    case Spaces => IsSpace(c)
    case NotSpaces => !IsSpace(c)
    case Not(d) => c != d
    case Any => true
  }

  /** How many characters at the front of `s` are of this kind. */
  ghost function Span(s: seq<char>, k: Kind): (n: nat)
    ensures n <= |s|
  {
    if s == [] || !Passes(k, s[0]) then 0 else 1 + Span(s[1..], k)
  }

  lemma {:induction false} SpanSpec(s: seq<char>, k: Kind)
    ensures forall i :: 0 <= i < Span(s, k) ==> Passes(k, s[i])
    ensures Span(s, k) < |s| ==> !Passes(k, s[Span(s, k)])
  {
    if s != [] && Passes(k, s[0]) {
      SpanSpec(s[1..], k);
    }
  }

  lemma {:induction false} SpanIs(s: seq<char>, k: Kind, n: nat)
    requires n <= |s| && (forall i :: 0 <= i < n ==> Passes(k, s[i])) && (n < |s| ==> !Passes(k, s[n]))
    ensures Span(s, k) == n
    decreases n
  {
    if n > 0 {
      SpanIs(s[1..], k, n - 1);
    }
  }

  /** The line proper: what comes before the first newline. */
  ghost function Line(w: seq<char>): (line: seq<char>)
    ensures line <= w
  {
    w[..Span(w, Not('\n'))]
  }

  ghost function TrimRight(s: seq<char>): seq<char> {
    if s != [] && IsSpace(s[|s| - 1]) then TrimRight(s[..|s| - 1]) else s
  }

  /** `s` without the white space at its ends. */
  ghost function Trim(s: seq<char>): seq<char> {
    TrimRight(s[Span(s, Spaces)..])
  }

  lemma {:induction false} TrimRightSpec(s: seq<char>)
    ensures var t := TrimRight(s);
            && |t| <= |s| && t == s[..|t|] && (forall i :: |t| <= i < |s| ==> IsSpace(s[i]))
            && (t != [] ==> !IsSpace(t[|t| - 1]))
  {
    if s != [] && IsSpace(s[|s| - 1]) {
      TrimRightSpec(s[..|s| - 1]);
    }
  }

  lemma SliceOfSlice(s: seq<char>, a: nat, n: nat)
    requires a + n <= |s|
    ensures s[a..][..n] == s[a..a + n]
  {
  }

  /** What trimming leaves has no white space at its ends, and nothing but white space was cut off. */
  lemma TrimSpec(s: seq<char>)
    ensures var a, t := Span(s, Spaces), Trim(s);
            && a + |t| <= |s| && t == s[a..a + |t|]
            && (forall i :: 0 <= i < a || a + |t| <= i < |s| ==> IsSpace(s[i]))
            && (t != [] ==> !IsSpace(t[0]) && !IsSpace(t[|t| - 1]))
  {
    var a := Span(s, Spaces);
    SpanSpec(s, Spaces);
    TrimRightSpec(s[a..]);
    hide TrimRight, Span, IsSpace;
    SliceOfSlice(s, a, |Trim(s)|);
    forall i | a + |Trim(s)| <= i < |s|
      ensures IsSpace(s[i])
    {
      assert s[a..][i - a] == s[i];
    }
  }

  // ---------- Words ----------

  /** `parseline`: at most `cap` words. A quote at the start of a word takes everything up to the next such quote. */
  ghost function Words(s: seq<char>, cap: nat): (w: seq<seq<char>>)
    ensures |w| <= cap
    decreases cap
  {
    var t := s[Span(s, Spaces)..];
    if cap == 0 || t == [] then []
    else [FirstWord(t)] + Words(AfterWord(t), cap - 1)
  }

  ghost function FirstWord(t: seq<char>): seq<char>
    requires t != []
  {
    if IsQuote(t[0]) then t[1..][..Span(t[1..], Not(t[0]))] else t[..Span(t, NotSpaces)]
  }

  /** What follows the first word and the character that ends it. */
  ghost function AfterWord(t: seq<char>): seq<char>
    requires t != []
  {
    if IsQuote(t[0]) then Rest(t[1..], Span(t[1..], Not(t[0]))) else Rest(t, Span(t, NotSpaces))
  }

  ghost function Rest(t: seq<char>, n: nat): seq<char>
    requires n <= |t|
  {
    if n < |t| then t[n + 1..] else []
  }

  lemma NoWords(cap: nat)
    ensures Words([], cap) == []
    ensures forall s :: Words(s, 0) == []
  {
  }

  lemma MoreWords(s: seq<char>, cap: nat)
    requires cap > 0 && Span(s, Spaces) < |s|
    ensures var t := s[Span(s, Spaces)..]; Words(s, cap) == [FirstWord(t)] + Words(AfterWord(t), cap - 1)
  {
    hide Span, FirstWord, AfterWord;
  }

  lemma ConcatParts(a: seq<char>, b: seq<char>)
    ensures (a + b)[0..] == a + b && (a + b)[..|a|] == a && (a + b)[|a|..] == b
    ensures b != [] ==> (a + b)[|a|] == b[0] && (a + b)[|a| + 1..] == b[1..]
    ensures a != [] ==> (a + b)[0] == a[0]
  {
  }

  // ---------- Pieces ----------

  datatype Quote = NoQuote | InSingle | InDouble

  function Toggle(q: Quote, c: char): Quote {
    if c == '\'' && q != InDouble then (if q == InSingle then NoQuote else InSingle)
    else if c == '"' && q != InSingle then (if q == InDouble then NoQuote else InDouble)
    else q
  }

  /** The quote that position `i` is in. */
  ghost function QuoteAt(s: seq<char>, i: nat): Quote
    requires i <= |s|
  {
    if i == 0 then NoQuote else Toggle(QuoteAt(s, i - 1), s[i - 1])
  }

  /** A bar outside quotes. */
  ghost predicate IsBar(s: seq<char>, i: nat)
    requires i < |s|
  {
    s[i] == '|' && QuoteAt(s, i) == NoQuote
  }

  ghost function NextBar(s: seq<char>, from: nat): (b: nat)
    requires from <= |s|
    ensures from <= b <= |s| && (b < |s| ==> IsBar(s, b)) && forall i :: from <= i < b ==> !IsBar(s, i)
    decreases |s| - from
  {
    if from == |s| || IsBar(s, from) then from else NextBar(s, from + 1)
  }

  /** The parts of `s[from..]` between the bars outside quotes. */
  ghost function Pieces(s: seq<char>, from: nat): (ps: seq<seq<char>>)
    requires from <= |s|
    ensures ps != []
    decreases |s| - from
  {
    var b := NextBar(s, from);
    [s[from..b]] + (if b < |s| then Pieces(s, b + 1) else [])
  }

  ghost function Join(ps: seq<seq<char>>): seq<char>
    requires ps != []
  {
    if |ps| == 1 then ps[0] else ps[0] + ['|'] + Join(ps[1..])
  }

  /** The pieces are the line. */
  lemma {:induction false} PiecesJoin(s: seq<char>, from: nat)
    requires from <= |s|
    ensures Join(Pieces(s, from)) == s[from..]
    decreases |s| - from
  {
    hide Join, QuoteAt, NextBar, Pieces;
    FirstPiece(s, from);
    var b := NextBar(s, from);
    if b < |s| {
      PiecesJoin(s, b + 1);
      JoinMore(s[from..b], Pieces(s, b + 1));
      SplitAt(s, from, b);
    } else {
      JoinOne(s[from..|s|]);
    }
  }

  lemma SplitAt(s: seq<char>, from: nat, b: nat)
    requires from <= b < |s|
    ensures s[from..] == s[from..b] + [s[b]] + s[b + 1..]
  {
  }

  lemma JoinOne(p: seq<char>)
    ensures Join([p]) == p
  {
  }

  lemma JoinMore(p: seq<char>, ps: seq<seq<char>>)
    requires ps != []
    ensures Join([p] + ps) == p + ['|'] + Join(ps)
  {
    assert ([p] + ps)[1..] == ps;
  }

  lemma FirstPiece(s: seq<char>, from: nat)
    requires from <= |s|
    ensures var b := NextBar(s, from);
            Pieces(s, from) == if b < |s| then [s[from..b]] + Pieces(s, b + 1) else [s[from..|s|]]
  {
    hide NextBar;
  }

  lemma {:induction false} LastPieceEndsLine(s: seq<char>, from: nat)
    requires from <= |s|
    ensures var ps := Pieces(s, from); var p := ps[|ps| - 1]; from + |p| <= |s| && p == s[|s| - |p|..]
    decreases |s| - from
  {
    hide QuoteAt, NextBar, IsBar, Pieces;
    FirstPiece(s, from);
    var b := NextBar(s, from);
    if b < |s| {
      LastPieceEndsLine(s, b + 1);
      LastOfMore(s[from..b], Pieces(s, b + 1));
    } else {
      EndOf(s, from);
    }
  }

  lemma LastOfMore(p: seq<char>, ps: seq<seq<char>>)
    requires ps != []
    ensures ([p] + ps)[|[p] + ps| - 1] == ps[|ps| - 1]
  {
  }

  lemma EndOf(s: seq<char>, from: nat)
    requires from <= |s|
    ensures s[from..|s|] == s[|s| - (|s| - from)..] && |s[from..|s|]| == |s| - from
  {
  }

  /** Trimming a string and trimming an end of it that is not blank leave the same last character. */
  lemma SameLast(s: seq<char>, k: nat)
    requires k <= |s| && Trim(s[k..]) != []
    ensures var t, u := Trim(s), Trim(s[k..]); t != [] && t[|t| - 1] == u[|u| - 1]
  {
    hide Trim, TrimRight, Span, IsSpace;
    TrimSpec(s);
    TrimSpec(s[k..]);
    var a, t, b, u := Span(s, Spaces), Trim(s), Span(s[k..], Spaces), Trim(s[k..]);
    var last := k + b + |u| - 1;
    assert s[k..][b + |u| - 1] == s[last] && !IsSpace(s[last]);
    assert a <= last < a + |t|;
    var m := a + |t| - 1;
    assert s[m] == t[|t| - 1] && !IsSpace(s[m]);
    assert s[k..][m - k] == s[m];
  }

  // ---------- Command lines ----------

  datatype Command = Command(segments: seq<seq<char>>, bg: bool)

  ghost function Trimmed(ps: seq<seq<char>>): (ts: seq<seq<char>>)
    ensures |ts| == |ps| && forall i :: 0 <= i < |ps| ==> ts[i] == Trim(ps[i])
  {
    seq(|ps|, i requires 0 <= i < |ps| => Trim(ps[i]))
  }

  predicate EndsInAmp(s: seq<char>) {
    s != [] && s[|s| - 1] == '&'
  }

  /** The last segment, without the mark of a background job. */
  ghost function WithoutAmp(s: seq<char>): seq<char> {
    if EndsInAmp(s) then Trim(s[..|s| - 1]) else s
  }

  ghost function Segments(line: seq<char>): (segments: seq<seq<char>>)
    ensures segments != []
  {
    var ts := Trimmed(Pieces(line, 0));
    ts[..|ts| - 1] + [WithoutAmp(ts[|ts| - 1])]
  }

  predicate GoodSegment(s: seq<char>) {
    s != [] && '&' !in s
  }

  ghost predicate Acceptable(segments: seq<seq<char>>) {
    |segments| <= MAXCMDS && forall i :: 0 <= i < |segments| ==> GoodSegment(segments[i])
  }

  /** `parse_line`: a blank line has no segment; a line fails if a segment is empty or has another ampersand,
      or if there are too many. */
  ghost function Parse(line: seq<char>): Option<Command> {
    var ts := Trimmed(Pieces(line, 0));
    if Trim(line) == [] then Some(Command([], false))
    else if Acceptable(Segments(line)) then Some(Command(Segments(line), EndsInAmp(ts[|ts| - 1])))
    else None
  }

  /** Every segment of an accepted line gives `parseline` at least one word, so that no stage of a pipeline
      is skipped. */
  lemma SegmentsHaveWords(line: seq<char>, i: nat)
    requires Parse(line).Some? && i < |Parse(line).value.segments|
    ensures Words(Line(Parse(line).value.segments[i]), MAXARGS - 1) != []
  {
    hide Pieces, Trim;
    var ps := Pieces(line, 0);
    var ts := Trimmed(ps);
    var segment := Segments(line)[i];
    assert GoodSegment(segment);
    TrimSpec(ps[i]);
    if i == |ts| - 1 && EndsInAmp(ts[i]) {
      TrimSpec(ts[i][..|ts[i]| - 1]);
    }
    assert !IsSpace(segment[0]);
    var first := Line(segment);
    assert first != [] && first[0] == segment[0];
    assert first[Span(first, Spaces)..] == first;
  }

  /** An accepted line asks for a background job exactly if its last character that is not white space
      is an ampersand. */
  lemma BackgroundIff(line: seq<char>)
    requires Parse(line).Some? && Parse(line).value.segments != []
    ensures Parse(line).value.bg <==> EndsInAmp(Trim(line))
  {
    hide Trim;
    var ps := Pieces(line, 0);
    var p := ps[|ps| - 1];
    var segments := Segments(line);
    assert GoodSegment(segments[|ps| - 1]);
    LastPieceEndsLine(line, 0);
    SameLast(line, |line| - |p|);
  }

  // ---------- Lines that fail ----------

  predicate Blank(s: seq<char>) {
    forall i :: 0 <= i < |s| ==> IsSpace(s[i])
  }

  /** The positions of the bars outside quotes. */
  ghost function Bars(s: seq<char>, from: nat): (bars: set<nat>)
    requires from <= |s|
  {
    set i: nat | from <= i < |s| && IsBar(s, i)
  }

  /** Each bar outside quotes, and nothing else, begins another piece. */
  lemma {:induction false} PiecesAreCounted(s: seq<char>, from: nat)
    requires from <= |s|
    ensures |Pieces(s, from)| == 1 + |Bars(s, from)|
    decreases |s| - from
  {
    hide QuoteAt, IsBar, Pieces;
    FirstPiece(s, from);
    var b := NextBar(s, from);
    if b < |s| {
      PiecesAreCounted(s, b + 1);
      BarsAfter(s, from);
    } else {
      assert Bars(s, from) == {};
    }
  }

  lemma BarsAfter(s: seq<char>, from: nat)
    requires from <= |s| && NextBar(s, from) < |s|
    ensures var b := NextBar(s, from); b !in Bars(s, b + 1) && Bars(s, from) == {b} + Bars(s, b + 1)
  {
    hide NextBar, IsBar;
  }

  /** The position of the last character that is not white space, or -1 if there is none. */
  ghost function LastAt(s: seq<char>): (last: int)
    ensures -1 <= last < |s|
  {
    TrimRightSpec(s);
    |TrimRight(s)| - 1
  }

  lemma LastAtSpec(s: seq<char>, last: int)
    requires -1 <= last < |s| && (last >= 0 ==> !IsSpace(s[last])) && forall i :: last < i < |s| ==> IsSpace(s[i])
    ensures LastAt(s) == last
  {
    TrimRightSpec(s);
  }

  /** A piece without the mark of a background job, if it ends in one. */
  ghost function WithoutMark(p: seq<char>): seq<char> {
    if LastAt(p) >= 0 && p[LastAt(p)] == '&' then p[..LastAt(p)] else p
  }

  /** There is an ampersand that does not mark a background job. */
  ghost predicate StrayAmp(s: seq<char>) {
    exists i :: 0 <= i < |s| && s[i] == '&' && i != LastAt(s)
  }

  /** Trimming a string leaves nothing of it exactly if it is blank, and it loses no ampersand. */
  lemma TrimKeeps(s: seq<char>)
    ensures Trim(s) == [] <==> Blank(s)
    ensures '&' in Trim(s) <==> '&' in s
    ensures !Blank(s) ==> LastAt(s) == Span(s, Spaces) + |Trim(s)| - 1
  {
    hide Trim, TrimRight, Span;
    TrimSpec(s);
    var a, t := Span(s, Spaces), Trim(s);
    if t != [] {
      assert s[a] == t[0] && s[a + |t| - 1] == t[|t| - 1];
      LastAtSpec(s, a + |t| - 1);
    }
    if '&' in s {
      var i :| 0 <= i < |s| && s[i] == '&';
      assert s[i] == t[i - a];
    }
  }

  lemma BlankFrom(s: seq<char>, a: nat)
    requires a <= |s| && forall i :: 0 <= i < a ==> IsSpace(s[i])
    ensures Blank(s) <==> Blank(s[a..])
  {
    assert forall i :: a <= i < |s| ==> s[i] == s[a..][i - a];
  }

  /** An ampersand is stray exactly if it is between the white space at the front and the last character. */
  lemma StrayBefore(s: seq<char>, a: nat)
    requires a <= LastAt(s) && forall i :: 0 <= i < a || LastAt(s) < i < |s| ==> IsSpace(s[i])
    ensures StrayAmp(s) <==> '&' in s[a..LastAt(s)]
  {
    hide LastAt;
    assert forall i :: a <= i < LastAt(s) ==> s[i] == s[a..LastAt(s)][i - a];
  }

  lemma CutLast(s: seq<char>, a: nat, b: nat)
    requires a < b <= |s|
    ensures var t := s[a..b];
            t[|t| - 1] == s[b - 1] && t == t[..|t| - 1] + [s[b - 1]] && t[..|t| - 1] == s[a..b - 1] == s[..b - 1][a..]
  {
  }

  /** The last segment is good exactly if its piece without the mark is not blank and the only ampersand is the mark. */
  lemma LastSegment(p: seq<char>)
    ensures GoodSegment(WithoutAmp(Trim(p))) <==> !Blank(WithoutMark(p)) && !StrayAmp(p)
  {
    hide Trim, TrimRight, LastAt, Span, IsSpace, StrayAmp, Blank;
    TrimSpec(p);
    TrimKeeps(p);
    if Blank(p) {
      BlankHasNoMark(p);
    } else {
      var a, last := Span(p, Spaces), LastAt(p);
      var cut := p[a..last];
      CutLast(p, a, last + 1);
      TrimKeeps(cut);
      BlankFrom(p[..last], a);
      StrayBefore(p, a);
    }
  }

  lemma BlankHasNoMark(p: seq<char>)
    requires Blank(p)
    ensures Blank(WithoutMark(p)) && WithoutAmp([]) == []
  {
  }

  ghost predicate AmpBeforeLast(ps: seq<seq<char>>) {
    exists i :: 0 <= i < |ps| - 1 && '&' in ps[i]
  }

  lemma AmpInMore(p: seq<char>, ps: seq<seq<char>>)
    requires ps != []
    ensures AmpBeforeLast([p] + ps) <==> '&' in p || AmpBeforeLast(ps)
  {
    var qs := [p] + ps;
    assert qs[0] == p;
    assert forall i :: 0 <= i < |ps| ==> qs[i + 1] == ps[i];
    assert forall i :: 1 <= i < |qs| ==> qs[i] == ps[i - 1];
  }

  ghost predicate AmpWithin(s: seq<char>, from: nat, end: nat)
    requires from <= end <= |s|
  {
    exists i :: from <= i < end && s[i] == '&'
  }

  /** The characters before the last piece are those of the other pieces, and bars. */
  lemma {:induction false} AmpInPieces(s: seq<char>, from: nat)
    requires from <= |s|
    ensures var ps := Pieces(s, from); var p := ps[|ps| - 1];
            from <= |s| - |p| && (AmpWithin(s, from, |s| - |p|) <==> AmpBeforeLast(ps))
    decreases |s| - from
  {
    hide QuoteAt, NextBar, Pieces, AmpBeforeLast, AmpWithin;
    FirstPiece(s, from);
    var b := NextBar(s, from);
    if b < |s| {
      AmpInPieces(s, b + 1);
      var ps := Pieces(s, b + 1);
      LastOfMore(s[from..b], ps);
      AmpInMore(s[from..b], ps);
      AmpAround(s, from, b, |s| - |ps[|ps| - 1]|);
    } else {
      NoneBeforeLast(s, from);
    }
  }

  lemma AmpAround(s: seq<char>, from: nat, b: nat, end: nat)
    requires from <= b < end <= |s| && s[b] != '&'
    ensures AmpWithin(s, from, end) <==> '&' in s[from..b] || AmpWithin(s, b + 1, end)
  {
    assert forall i :: from <= i < b ==> s[i] == s[from..b][i - from];
  }

  lemma NoneBeforeLast(s: seq<char>, from: nat)
    requires from <= |s|
    ensures !AmpWithin(s, from, |s| - |s[from..|s|]|)
    ensures !AmpBeforeLast([s[from..|s|]])
  {
  }

  /** If an end of a string is not blank, the last character that is not white space is there. */
  lemma StrayAtEnd(s: seq<char>, k: nat)
    requires k <= |s| && !Blank(s[k..])
    ensures StrayAmp(s) <==> AmpWithin(s, 0, k) || StrayAmp(s[k..])
  {
    hide TrimRight, LastAt;
    var p := s[k..];
    LastAtIs(p);
    var last := LastAt(p);
    assert p[last] == s[k + last];
    forall i | k + last < i < |s|
      ensures IsSpace(s[i])
    {
      assert s[i] == p[i - k];
    }
    LastAtSpec(s, k + last);
    if i :| 0 <= i < |s| && s[i] == '&' && i != k + last && i >= k {
      assert p[i - k] == '&';
    }
    if i :| 0 <= i < |p| && p[i] == '&' && i != last {
      assert s[k + i] == '&';
    }
  }

  lemma LastAtIs(s: seq<char>)
    requires !Blank(s)
    ensures var last := LastAt(s); last >= 0 && !IsSpace(s[last]) && forall i :: last < i < |s| ==> IsSpace(s[i])
  {
    TrimRightSpec(s);
  }

  /** An ampersand of the line is stray exactly if it is in a piece before the last, or stray in the last. */
  lemma StrayInPieces(line: seq<char>)
    requires var ps := Pieces(line, 0); !Blank(ps[|ps| - 1])
    ensures var ps := Pieces(line, 0);
            StrayAmp(line) <==> StrayAmp(ps[|ps| - 1]) || AmpBeforeLast(ps)
  {
    hide Pieces, StrayAmp, AmpWithin, AmpBeforeLast, Blank;
    var ps := Pieces(line, 0);
    LastPieceEndsLine(line, 0);
    AmpInPieces(line, 0);
    StrayAtEnd(line, |line| - |ps[|ps| - 1]|);
  }

  /** A line that is not blank fails exactly if it has more than 15 bars outside quotes, or a piece is blank
      (the last one when its mark is cut), or an ampersand is not the last character that is not white space. */
  lemma FailsIff(line: seq<char>)
    ensures var ps := Pieces(line, 0);
            Parse(line).None? <==>
            && !Blank(line)
            && (|| |Bars(line, 0)| > 15
                || (exists i :: 0 <= i < |ps| && Blank(if i == |ps| - 1 then WithoutMark(ps[i]) else ps[i]))
                || StrayAmp(line))
  {
    hide Trim, Pieces, StrayAmp, LastAt, Blank, WithoutAmp, WithoutMark, Bars;
    var ps, segments := Pieces(line, 0), Segments(line);
    var n := |ps| - 1;
    TrimKeeps(line);
    PiecesAreCounted(line, 0);
    LastSegment(ps[n]);
    assert GoodSegment(segments[n]) <==> !Blank(WithoutMark(ps[n])) && !StrayAmp(ps[n]);
    forall i | 0 <= i < n
      ensures segments[i] == Trim(ps[i])
      ensures GoodSegment(segments[i]) <==> !Blank(ps[i]) && '&' !in ps[i]
    {
      TrimKeeps(ps[i]);
    }
    if Blank(ps[n]) {
      BlankHasNoMark(ps[n]);
    } else {
      StrayInPieces(line);
    }
  }
}
