/** Null-terminated strings in a memory. */
module CStrings {
  /** The string `w` is at `a`. */
  ghost predicate Holds(m: seq<char>, a: nat, w: seq<char>) {
    a + |w| < |m| && m[a..a + |w|] == w && m[a + |w|] == '\0' && '\0' !in w
  }

  /** A null-terminated string in the memory, character by character. */
  lemma HoldsIff(m: seq<char>, a: nat, w: seq<char>)
    ensures Holds(m, a, w) <==>
            && a + |w| < |m| && m[a + |w|] == '\0'
            && forall i :: 0 <= i < |w| ==> m[a + i] == w[i] && w[i] != '\0'
  {
    if Holds(m, a, w) {
      forall i | 0 <= i < |w|
        ensures m[a + i] == w[i] && w[i] != '\0'
      {
        assert m[a..a + |w|][i] == w[i];
        assert w[i] in w;
      }
    }
  }

  ghost predicate SameBelow(m: seq<char>, m': seq<char>, n: nat) {
    |m| == |m'| && forall i :: 0 <= i < n && i < |m| ==> m[i] == m'[i]
  }

  ghost predicate SameFrom(m: seq<char>, m': seq<char>, n: nat) {
    |m| == |m'| && forall i :: n <= i < |m| ==> m[i] == m'[i]
  }

  lemma CharAt(m: seq<char>, a: nat, w: seq<char>, k: nat)
    requires Holds(m, a, w) && k <= |w|
    ensures a + k < |m| && m[a + k] == (if k < |w| then w[k] else '\0') && (k < |w| ==> w[k] != '\0')
  {
    if k < |w| {
      assert m[a..a + |w|][k] == w[k];
      assert w[k] in w;
    }
  }

  lemma Tail(m: seq<char>, a: nat, w: seq<char>, k: nat)
    requires Holds(m, a, w) && k <= |w|
    ensures Holds(m, a + k, w[k..])
  {
    assert m[a + k..a + |w|] == m[a..a + |w|][k..];
  }

  /** A null character that is written into a string ends it there. */
  lemma Cut(m: seq<char>, a: nat, w: seq<char>, k: nat)
    requires Holds(m, a, w) && k <= |w|
    ensures a + k < |m| && Holds(m[a + k := '\0'], a, w[..k])
    ensures SameBelow(m, m[a + k := '\0'], a + k) && SameFrom(m, m[a + k := '\0'], a + k + 1)
  {
    var m' := m[a + k := '\0'];
    assert m'[a..a + k] == m[a..a + |w|][..k];
  }

  lemma StillHoldsBelow(m: seq<char>, m': seq<char>, n: nat, a: nat, w: seq<char>)
    requires Holds(m, a, w) && SameBelow(m, m', n) && a + |w| < n
    ensures Holds(m', a, w)
  {
    assert m'[a..a + |w|] == m[a..a + |w|];
  }

  lemma StillHoldsFrom(m: seq<char>, m': seq<char>, n: nat, a: nat, w: seq<char>)
    requires Holds(m, a, w) && SameFrom(m, m', n) && n <= a
    ensures Holds(m', a, w)
  {
    assert m'[a..a + |w|] == m[a..a + |w|];
  }

  /** The strings are at these places, one after the other, and all end before `limit`. */
  ghost predicate Stored(m: seq<char>, at: seq<nat>, ws: seq<seq<char>>, limit: nat) {
    && |at| == |ws|
    && (forall i :: 0 <= i < |at| ==> Holds(m, at[i], ws[i]) && at[i] + |ws[i]| < limit)
    && (forall i, j :: 0 <= i < j < |at| ==> at[i] + |ws[i]| < at[j])
  }

  lemma StoredMeans(m: seq<char>, at: seq<nat>, ws: seq<seq<char>>, limit: nat)
    requires Stored(m, at, ws, limit)
    ensures |at| == |ws| && forall i :: 0 <= i < |at| ==> Holds(m, at[i], ws[i]) && at[i] + |ws[i]| < limit
    ensures forall i, j :: 0 <= i < j < |at| ==> at[i] + |ws[i]| < at[j]
  {
    hide Holds;
  }

  lemma StillStored(m: seq<char>, m': seq<char>, at: seq<nat>, ws: seq<seq<char>>, limit: nat, n: nat)
    requires Stored(m, at, ws, limit) && SameBelow(m, m', n) && limit <= n
    ensures Stored(m', at, ws, limit)
  {
    hide Holds;
    forall i | 0 <= i < |at|
      ensures Holds(m', at[i], ws[i])
    {
      StillHoldsBelow(m, m', n, at[i], ws[i]);
    }
  }

  lemma StoredMore(m: seq<char>, at: seq<nat>, ws: seq<seq<char>>, limit: nat, a: nat, w: seq<char>, limit': nat)
    requires Stored(m, at, ws, limit) && Holds(m, a, w) && limit <= a && a + |w| < limit'
    ensures Stored(m, at + [a], ws + [w], limit')
  {
    hide Holds;
    var at', ws' := at + [a], ws + [w];
    forall i | 0 <= i < |at'|
      ensures Holds(m, at'[i], ws'[i]) && at'[i] + |ws'[i]| < limit'
    {
      assert i < |at| ==> at'[i] == at[i] && ws'[i] == ws[i];
    }
  }
}

/** The parsers of the phase 3 shell, which overwrite the line in place. */
module Parsers {
  import opened CommandLine
  import opened CStrings
  import opened Wrappers

  /** A loop that passes over characters of one kind, and stops at the end of the string. */
  method Scan(buf: array<char>, p: nat, k: Kind, ghost w: seq<char>) returns (r: nat)
    requires Holds(buf[..], p, w)
    ensures r == p + Span(w, k) < buf.Length
  {
    hide Holds, Span;
    r := p;
    CharAt(buf[..], p, w, 0);
    while buf[r] != '\0' && Passes(k, buf[r])
      invariant p <= r <= p + |w| && r < buf.Length
      invariant buf[r] == (if r - p < |w| then w[r - p] else '\0') && (r - p < |w| ==> w[r - p] != '\0')
      invariant forall i :: 0 <= i < r - p ==> Passes(k, w[i])
      decreases p + |w| - r
    {
      r := r + 1;
      CharAt(buf[..], p, w, r - p);
    }
    SpanIs(w, k, r - p);
  }

  /** A null character written into the string. */
  method End(buf: array<char>, a: nat, k: nat, ghost w: seq<char>)
    requires Holds(buf[..], a, w) && k <= |w|
    modifies buf
    ensures Holds(buf[..], a, w[..k])
    ensures SameBelow(old(buf[..]), buf[..], a + k) && SameFrom(old(buf[..]), buf[..], a + k + 1)
  {
    hide Holds;
    ghost var m := buf[..];
    Cut(m, a, w, k);
    buf[a + k] := '\0';
    assert buf[..] == m[a + k := '\0'];
  }

  /** `trim_ws`. */
  method TrimWs(buf: array<char>, s: nat, ghost w: seq<char>) returns (r: nat)
    requires Holds(buf[..], s, w)
    modifies buf
    ensures r == s + Span(w, Spaces) && Span(w, Spaces) + |Trim(w)| <= |w|
    ensures Holds(buf[..], r, Trim(w))
    ensures SameBelow(old(buf[..]), buf[..], s) && SameFrom(old(buf[..]), buf[..], s + |w|)
  {
    hide Holds, Span, TrimRight;
    ghost var m := buf[..];
    TrimSpec(w);
    SpanSpec(w, Spaces);
    r := Scan(buf, s, Spaces, w);
    ghost var u := w[Span(w, Spaces)..];
    Tail(m, s, w, Span(w, Spaces));
    CharAt(m, r, u, 0);
    if buf[r] == '\0' {
      assert Trim(w) == u;
      return;
    }
    var n := Scan(buf, r, Any, u);
    SpanOfAny(u);
    var end := n - 1;
    assert u[..end + 1 - r] == u;
    while end > r && IsSpace(buf[end])
      invariant r <= end < r + |u| && end < buf.Length && Holds(buf[..], r, u[..end + 1 - r])
      invariant TrimRight(u[..end + 1 - r]) == TrimRight(u)
      invariant SameBelow(m, buf[..], s) && SameFrom(m, buf[..], s + |w|)
    {
      ghost var x := u[..end + 1 - r];
      CharAt(buf[..], r, x, end - r);
      TrimOne(x);
      assert x[..end - r] == u[..end - r];
      End(buf, r, end - r, x);
      end := end - 1;
    }
    CharAt(buf[..], r, u[..end + 1 - r], end - r);
    TrimNone(u[..end + 1 - r]);
  }

  lemma SpanOfAny(s: seq<char>)
    ensures Span(s, Any) == |s|
  {
    SpanIs(s, Any, |s|);
  }

  lemma TrimOne(x: seq<char>)
    requires x != [] && IsSpace(x[|x| - 1])
    ensures TrimRight(x) == TrimRight(x[..|x| - 1])
  {
  }

  lemma TrimNone(x: seq<char>)
    ensures x == [] || !IsSpace(x[|x| - 1]) ==> TrimRight(x) == x
  {
  }

  /** `buf[strcspn(buf, "\n")] = '\0'`, on the string at `a`. */
  method CutAtNewline(buf: array<char>, a: nat, ghost w: seq<char>)
    requires Holds(buf[..], a, w)
    modifies buf
    ensures Holds(buf[..], a, Line(w))
    ensures SameBelow(old(buf[..]), buf[..], a) && SameFrom(old(buf[..]), buf[..], a + |w| + 1)
  {
    hide Holds, Span;
    var n := Scan(buf, a, Not('\n'), w);
    End(buf, a, n - a, w);
  }

  /** `strchr(.., '&') != NULL`. */
  method HasAmp(buf: array<char>, s: nat, ghost w: seq<char>) returns (found: bool)
    requires Holds(buf[..], s, w)
    ensures found <==> '&' in w
  {
    hide Holds, Span;
    var n := Scan(buf, s, Not('&'), w);
    SpanSpec(w, Not('&'));
    CharAt(buf[..], s, w, n - s);
    found := buf[n] != '\0';
  }

  // ---------- parse_line ----------

  /** The pieces that the scan has left behind, `start` being where the current one starts. */
  ghost predicate Behind(line: seq<char>, start: nat, done: seq<seq<char>>) {
    && start <= |line| && Pieces(line, 0) == done + Pieces(line, start)
    && |done| < MAXCMDS && (forall i :: 0 <= i < |done| ==> GoodSegment(Trim(done[i])))
    && (done != [] ==> Trim(line) != [])
  }

  ghost predicate NoBars(line: seq<char>, from: nat, to: nat)
    requires to <= |line|
  {
    forall i :: from <= i < to ==> !IsBar(line, i)
  }

  lemma NextPiece(line: seq<char>, start: nat, p: nat)
    requires start <= p <= |line| && NoBars(line, start, p) && (p < |line| ==> IsBar(line, p))
    ensures Pieces(line, start) == [line[start..p]] + (if p < |line| then Pieces(line, p + 1) else [])
  {
    hide QuoteAt;
    assert NextBar(line, start) == p;
  }

  lemma BarIsNotBlank(line: seq<char>, p: nat)
    requires p < |line| && IsBar(line, p)
    ensures Trim(line) != []
  {
    hide QuoteAt;
    TrimSpec(line);
  }

  lemma StoredNone(m: seq<char>, limit: nat)
    ensures Stored(m, [], Trimmed([]), limit)
  {
  }

  /** At a bar, the piece before it is complete: the line fails, or the scan goes on behind the bar. */
  lemma PieceDone(line: seq<char>, start: nat, done: seq<seq<char>>, p: nat)
    requires Behind(line, start, done) && start <= p < |line| && NoBars(line, start, p) && IsBar(line, p)
    ensures var piece := line[start..p];
            if !GoodSegment(Trim(piece)) || |done| + 1 == MAXCMDS then Parse(line).None?
            else Behind(line, p + 1, done + [piece])
  {
    hide QuoteAt, NextBar, Pieces, Trim;
    var piece := line[start..p];
    NextPiece(line, start, p);
    BarIsNotBlank(line, p);
    var ps, rest := Pieces(line, 0), Pieces(line, p + 1);
    assert ps == (done + [piece]) + rest;
    assert ps[|done|] == piece;
    var segments := Segments(line);
    assert |segments| == |ps| && segments[|done|] == Trim(piece);
  }

  /** At the end of the line, the last piece decides. */
  lemma LastPieceDone(line: seq<char>, start: nat, done: seq<seq<char>>)
    requires Behind(line, start, done) && NoBars(line, start, |line|)
    ensures var t := Trim(line[start..]);
            Parse(line) == if done == [] && t == [] then Some(Command([], false))
                           else if GoodSegment(WithoutAmp(t)) then
                             Some(Command(Trimmed(done) + [WithoutAmp(t)], EndsInAmp(t)))
                           else None
  {
    hide QuoteAt, NextBar, Pieces, Trim;
    NextPiece(line, start, |line|);
    var last := line[start..];
    assert line[start..|line|] == last;
    var ps := Pieces(line, 0);
    assert ps == done + [last] && ps[|done|] == last;
    assert Trimmed(ps)[..|done|] == Trimmed(done);
    OnlyPiece(line, start, done);
    var segments := Segments(line);
    assert segments == Trimmed(done) + [WithoutAmp(Trim(last))];
    assert segments[|done|] == WithoutAmp(Trim(last));
  }

  lemma OnlyPiece(line: seq<char>, start: nat, done: seq<seq<char>>)
    requires Behind(line, start, done) && NoBars(line, start, |line|)
    ensures done == [] ==> line[start..] == line
  {
    NextPiece(line, start, |line|);
    if done == [] {
      PiecesJoin(line, 0);
      PiecesJoin(line, start);
      assert line[0..] == line;
    }
  }

  lemma StartBehind(line: seq<char>)
    ensures Behind(line, 0, [])
  {
    assert [] + Pieces(line, 0) == Pieces(line, 0);
  }

  /** The segments of the result are in the buffer, one after the other. */
  ghost predicate Parsed(m: seq<char>, rc: int, at: seq<nat>, bg: bool, r: Option<Command>) {
    if r.None? then rc == -1
    else rc == 0 && bg == r.value.bg && Stored(m, at, r.value.segments, |m|)
  }

  /** What `parse_line` does at a bar: it ends the piece there, trims it, and looks at what is left. */
  method TakePiece(buf: array<char>, ghost line: seq<char>, start: nat, p: nat,
                   ghost segments: seq<nat>, ghost done: seq<seq<char>>)
    returns (ok: bool, at: nat)
    requires start <= p < |line|
    requires Holds(buf[..], start, line[start..]) && Stored(buf[..], segments, Trimmed(done), start)
    modifies buf
    ensures ok == GoodSegment(Trim(line[start..p]))
    ensures Holds(buf[..], p + 1, line[p + 1..])
    ensures Stored(buf[..], segments + [at], Trimmed(done + [line[start..p]]), p + 1)
  {
    hide Holds, Trim, Stored, Span;
    ghost var m := buf[..];
    ghost var piece := line[start..p];
    Tail(m, start, line[start..], p + 1 - start);
    assert line[start..][p + 1 - start..] == line[p + 1..];
    assert line[start..][..p - start] == piece;
    End(buf, start, p - start, line[start..]);
    ghost var m1 := buf[..];
    StillHoldsFrom(m, m1, p + 1, p + 1, line[p + 1..]);
    StillStored(m, m1, segments, Trimmed(done), start, start);
    at := TrimWs(buf, start, piece);
    StillHoldsFrom(m1, buf[..], p + 1, p + 1, line[p + 1..]);
    StillStored(m1, buf[..], segments, Trimmed(done), start, start);
    StoredMore(buf[..], segments, Trimmed(done), start, at, Trim(piece), p + 1);
    assert Trimmed(done + [piece]) == Trimmed(done) + [Trim(piece)];
    CharAt(buf[..], at, Trim(piece), 0);
    var amp := HasAmp(buf, at, Trim(piece));
    ok := buf[at] != '\0' && !amp;
  }

  /** What `parse_line` does after its loop. */
  method TakeLast(buf: array<char>, ghost line: seq<char>, start: nat, given: seq<nat>, ghost done: seq<seq<char>>)
    returns (rc: int, segments: seq<nat>, bg: bool)
    requires start <= |line| && Holds(buf[..], start, line[start..]) && Stored(buf[..], given, Trimmed(done), start)
    requires Behind(line, start, done) && NoBars(line, start, |line|) && |done| < MAXCMDS
    modifies buf
    ensures Parsed(buf[..], rc, segments, bg, Parse(line)) && |segments| <= MAXCMDS
  {
    hide Holds, Trim, Stored, Span, Behind, Parse;
    LastPieceDone(line, start, done);
    ghost var m := buf[..];
    StoredCount(m, given, Trimmed(done), start);
    StartsInside(m, start, line[start..]);
    segments, bg := given, false;
    var at := TrimWs(buf, start, line[start..]);
    ghost var t := Trim(line[start..]);
    StillStored(m, buf[..], given, Trimmed(done), start, start);
    CharAt(buf[..], at, t, 0);
    if buf[at] == '\0' {
      assert t == [];
      if segments == [] {
        StoredNone(buf[..], |buf[..]|);
        return 0, segments, bg;
      }
      return -1, segments, bg;
    }
    var end := Scan(buf, at, Any, t);
    SpanOfAny(t);
    var last := end - 1;
    CharAt(buf[..], at, t, last - at);
    if buf[last] == '&' {
      ghost var m1 := buf[..];
      End(buf, at, last - at, t);
      StillStored(m1, buf[..], given, Trimmed(done), start, start);
      bg := true;
      ghost var m2 := buf[..];
      at := TrimWs(buf, at, t[..|t| - 1]);
      StillStored(m2, buf[..], given, Trimmed(done), start, start);
      t := Trim(t[..|t| - 1]);
      CharAt(buf[..], at, t, 0);
      if buf[at] == '\0' {
        return -1, segments, bg;
      }
    }
    var amp := HasAmp(buf, at, t);
    if amp {
      return -1, segments, bg;
    }
    StartsInside(buf[..], at, t);
    StoredMore(buf[..], given, Trimmed(done), start, at, t, |buf[..]|);
    return 0, segments + [at], bg;
  }

  lemma StoredCount(m: seq<char>, at: seq<nat>, ws: seq<seq<char>>, limit: nat)
    requires Stored(m, at, ws, limit)
    ensures |at| == |ws|
  {
  }

  lemma StartsInside(m: seq<char>, a: nat, w: seq<char>)
    requires Holds(m, a, w)
    ensures a + |w| < |m|
  {
  }

  lemma QuoteStart(line: seq<char>)
    ensures QuoteAt(line, 0) == NoQuote
  {
  }

  lemma NoBarsYet(line: seq<char>, p: nat)
    requires p <= |line|
    ensures NoBars(line, p, p)
  {
  }

  /** What the character at `p` does to the quotes, and whether it is a bar outside them. */
  lemma QuoteStep(line: seq<char>, p: nat)
    requires p < |line|
    ensures QuoteAt(line, p + 1) == Toggle(QuoteAt(line, p), line[p])
    ensures IsBar(line, p) <==> line[p] == '|' && QuoteAt(line, p) == NoQuote
    ensures forall start :: 0 <= start <= p && NoBars(line, start, p) && !IsBar(line, p) ==> NoBars(line, start, p + 1)
  {
    hide QuoteAt;
    assert forall start :: 0 <= start <= p && NoBars(line, start, p) && !IsBar(line, p) ==> NoBars(line, start, p + 1);
    QuoteNext(line, p);
  }

  lemma QuoteNext(line: seq<char>, p: nat)
    requires p < |line|
    ensures QuoteAt(line, p + 1) == Toggle(QuoteAt(line, p), line[p])
  {
  }

  /** `parse_line`. The arguments are the text in the buffer and its first line. */
  method ParseLine(buf: array<char>, ghost w: seq<char>) returns (rc: int, segments: seq<nat>, bg: bool)
    requires Holds(buf[..], 0, w)
    modifies buf
    ensures |segments| <= 16
    ensures var r := Parse(Line(w));
            rc == (if r.None? then -1 else 0)
            && (r.Some? ==> var cs := r.value.segments;
                            && bg == r.value.bg && |segments| == |cs|
                            && (forall i :: 0 <= i < |cs| ==> Holds(buf[..], segments[i], cs[i]))
                            && (forall i, j :: 0 <= i < j < |cs| ==> segments[i] + |cs[i]| < segments[j]))
  {
    hide Holds, Pieces, Trim, Stored, Behind, Trimmed, QuoteAt, IsBar, NoBars, Span, Parse;
    ghost var line, done := Line(w), [];
    var inSingle, inDouble := false, false;
    CutAtNewline(buf, 0, w);
    segments, bg := [], false;
    var p, start := 0, 0;
    StartBehind(line);
    QuoteStart(line);
    NoBarsYet(line, 0);
    CharAt(buf[..], 0, line, 0);
    StartsInside(buf[..], 0, line);
    StoredNone(buf[..], 0);
    assert line[0..] == line;
    while buf[p] != '\0'
      invariant start <= p <= |line| < buf.Length && Holds(buf[..], start, line[start..])
      invariant buf[p] == (if p < |line| then line[p] else '\0') && (p < |line| ==> line[p] != '\0')
      invariant QuoteAt(line, p) == (if inSingle then InSingle else if inDouble then InDouble else NoQuote)
      invariant !(inSingle && inDouble) && NoBars(line, start, p)
      invariant Behind(line, start, done) && |segments| == |done| < MAXCMDS
      invariant Stored(buf[..], segments, Trimmed(done), start)
      decreases |line| - p
    {
      QuoteStep(line, p);
      if buf[p] == '\'' && !inDouble {
        inSingle := !inSingle;
      } else if buf[p] == '"' && !inSingle {
        inDouble := !inDouble;
      } else if !inSingle && !inDouble && buf[p] == '|' {
        var ok, at := TakePiece(buf, line, start, p, segments, done);
        PieceDone(line, start, done, p);
        if !ok {
          return -1, segments, bg;
        }
        segments := segments + [at];
        done := done + [line[start..p]];
        if |segments| >= MAXCMDS {
          return -1, segments, bg;
        }
        start := p + 1;
        NoBarsYet(line, start);
      }
      p := p + 1;
      CharAt(buf[..], start, line[start..], p - start);
    }
    rc, segments, bg := TakeLast(buf, line, start, segments, done);
    if rc == 0 {
      StoredMeans(buf[..], segments, Parse(line).value.segments, buf.Length);
    }
  }

  // ---------- parseline ----------

  /** One word: the characters of one kind, ended by a null character where the next character was. */
  method TakeWord(buf: array<char>, start: nat, k: Kind, ghost u: seq<char>) returns (p: nat)
    requires Holds(buf[..], start, u)
    modifies buf
    ensures Holds(buf[..], start, u[..Span(u, k)]) && Holds(buf[..], p, Rest(u, Span(u, k)))
    ensures p == start + (if Span(u, k) < |u| then Span(u, k) + 1 else |u|)
    ensures SameBelow(old(buf[..]), buf[..], start) && SameFrom(old(buf[..]), buf[..], start + |u|)
  {
    hide Holds, Span;
    ghost var m, n := buf[..], Span(u, k);
    var r := Scan(buf, start, k, u);
    CharAt(m, start, u, n);
    if buf[r] != '\0' {
      Tail(m, start, u, n + 1);
      End(buf, start, r - start, u);
      StillHoldsFrom(m, buf[..], r + 1, r + 1, u[n + 1..]);
      p := r + 1;
    } else {
      Tail(m, start, u, n);
      assert u[..n] == u && u[n..] == [];
      p := r;
    }
  }

  /** The next word of `t`, which starts where the white space has ended. */
  method NextWord(buf: array<char>, p: nat, ghost t: seq<char>) returns (start: nat, p': nat)
    requires Holds(buf[..], p, t) && t != []
    modifies buf
    ensures Holds(buf[..], start, FirstWord(t)) && Holds(buf[..], p', AfterWord(t))
    ensures p <= start && start + |FirstWord(t)| <= p' && p' + |AfterWord(t)| == p + |t|
    ensures AfterWord(t) != [] ==> start + |FirstWord(t)| < p'
    ensures SameBelow(old(buf[..]), buf[..], p) && SameFrom(old(buf[..]), buf[..], p + |t|)
  {
    hide Holds, Span;
    CharAt(buf[..], p, t, 0);
    var c := buf[p];
    if IsQuote(c) {
      Tail(buf[..], p, t, 1);
      start := p + 1;
      p' := TakeWord(buf, start, Not(c), t[1..]);
    } else {
      start := p;
      p' := TakeWord(buf, start, NotSpaces, t);
    }
  }

  ghost predicate AllFrom(at: seq<nat>, a: nat) {
    forall i :: 0 <= i < |at| ==> a <= at[i]
  }

  /** The words so far, and the rest of the line at `p`. */
  ghost predicate WordsSoFar(m: seq<char>, at: seq<nat>, line: seq<char>, done: seq<seq<char>>,
                             a: nat, p: nat, rest: seq<char>) {
    && Holds(m, p, rest) && a <= p && p + |rest| == a + |line| && AllFrom(at, a)
    && Stored(m, at, done, if rest == [] then a + |line| + 1 else p)
    && |done| <= MAXARGS - 1
    && Words(line, MAXARGS - 1) == done + Words(rest, MAXARGS - 1 - |done|)
  }

  lemma NoWordLeft(s: seq<char>, cap: nat)
    requires cap == 0 || s[Span(s, Spaces)..] == []
    ensures Words(s, cap) == []
  {
  }

  lemma OneWordMore(s: seq<char>, cap: nat, t: seq<char>)
    requires cap > 0 && t == s[Span(s, Spaces)..] && t != []
    ensures Words(s, cap) == [FirstWord(t)] + Words(AfterWord(t), cap - 1)
  {
  }

  lemma StoredWider(m: seq<char>, at: seq<nat>, ws: seq<seq<char>>, limit: nat, limit': nat)
    requires Stored(m, at, ws, limit) && limit <= limit'
    ensures Stored(m, at, ws, limit')
  {
  }

  /** One iteration of the loop of `parseline`. */
  method OneWord(buf: array<char>, p: nat, ghost at: seq<nat>, ghost line: seq<char>, ghost done: seq<seq<char>>,
                 ghost a: nat, ghost rest: seq<char>)
    returns (more: bool, start: nat, p': nat, ghost done': seq<seq<char>>, ghost rest': seq<char>)
    requires WordsSoFar(buf[..], at, line, done, a, p, rest) && rest != [] && |done| < MAXARGS - 1
    modifies buf
    ensures SameBelow(old(buf[..]), buf[..], a) && SameFrom(old(buf[..]), buf[..], a + |line|)
    ensures !more ==> AllFrom(at, a) && Stored(buf[..], at, Words(line, MAXARGS - 1), a + |line| + 1)
    ensures more ==> WordsSoFar(buf[..], at + [start], line, done', a, p', rest') && |done'| == |done| + 1
  {
    hide Holds, Span, Stored, Words, FirstWord, AfterWord;
    ghost var m := buf[..];
    var q := Scan(buf, p, Spaces, rest);
    ghost var t := rest[Span(rest, Spaces)..];
    Tail(m, p, rest, Span(rest, Spaces));
    CharAt(m, q, t, 0);
    done', rest', p', start := done, rest, p, p;
    if buf[q] == '\0' {
      NoWordLeft(rest, MAXARGS - 1 - |done|);
      assert done + [] == done;
      StoredWider(m, at, done, p, a + |line| + 1);
      return false, start, p', done', rest';
    }
    OneWordMore(rest, MAXARGS - 1 - |done|, t);
    start, p' := NextWord(buf, q, t);
    StillStored(m, buf[..], at, done, p, p);
    done', rest' := done + [FirstWord(t)], AfterWord(t);
    assert done + ([FirstWord(t)] + Words(rest', MAXARGS - 1 - |done'|)) == done' + Words(rest', MAXARGS - 1 - |done'|);
    StoredMore(buf[..], at, done, p, start, FirstWord(t), if rest' == [] then a + |line| + 1 else p');
    return true, start, p', done', rest';
  }

  /** `parseline`, on the string at `a`: the words are in the buffer, each ended by a null character,
      one after the other, and nothing else in the buffer has changed. */
  method ParseWords(buf: array<char>, a: nat, ghost w: seq<char>) returns (argv: seq<nat>)
    requires Holds(buf[..], a, w)
    modifies buf
    ensures var ws := Words(Line(w), 127);
            && |argv| == |ws| <= 127
            && (forall i :: 0 <= i < |ws| ==>
                  Holds(buf[..], argv[i], ws[i]) && a <= argv[i] && argv[i] + |ws[i]| <= a + |w|)
            && (forall i, j :: 0 <= i < j < |ws| ==> argv[i] + |ws[i]| < argv[j])
    ensures SameBelow(old(buf[..]), buf[..], a) && SameFrom(old(buf[..]), buf[..], a + |w| + 1)
  {
    hide Holds, Span, Stored, Words, WordsSoFar, AllFrom;
    CutAtNewline(buf, a, w);
    ghost var line, done := Line(w), [];
    ghost var rest := line;
    argv := [];
    var p: nat := a;
    WordsStart(buf[..], a, line);
    CharAt(buf[..], a, line, 0);
    while buf[p] != '\0'
      invariant p < buf.Length && (buf[p] == '\0' <==> rest == [])
      invariant WordsSoFar(buf[..], argv, line, done, a, p, rest) && |argv| == |done| < MAXARGS - 1
      invariant SameBelow(old(buf[..]), buf[..], a) && SameFrom(old(buf[..]), buf[..], a + |w| + 1)
      decreases MAXARGS - |done|
    {
      var more, start;
      more, start, p, done, rest := OneWord(buf, p, argv, line, done, a, rest);
      if !more {
        StoredWider(buf[..], argv, Words(line, MAXARGS - 1), a + |line| + 1, a + |w| + 1);
        WordsInside(buf[..], argv, Words(line, MAXARGS - 1), a, a + |w| + 1);
        return;
      }
      argv := argv + [start];
      WordsRest(buf[..], argv, line, done, a, p, rest);
      if |argv| >= MAXARGS - 1 {
        break;
      }
    }
    WordsEnd(buf[..], argv, line, done, a, p, rest);
    StoredWider(buf[..], argv, Words(line, MAXARGS - 1), a + |line| + 1, a + |w| + 1);
    WordsInside(buf[..], argv, Words(line, MAXARGS - 1), a, a + |w| + 1);
  }

  lemma WordsInside(m: seq<char>, at: seq<nat>, ws: seq<seq<char>>, a: nat, limit: nat)
    requires Stored(m, at, ws, limit) && AllFrom(at, a)
    ensures |at| == |ws|
    ensures forall i :: 0 <= i < |ws| ==> Holds(m, at[i], ws[i]) && a <= at[i] && at[i] + |ws[i]| < limit
    ensures forall i, j :: 0 <= i < j < |ws| ==> at[i] + |ws[i]| < at[j]
  {
    hide Holds;
  }

  lemma WordsStart(m: seq<char>, a: nat, line: seq<char>)
    requires Holds(m, a, line)
    ensures WordsSoFar(m, [], line, [], a, a, line)
  {
    assert [] + Words(line, MAXARGS - 1) == Words(line, MAXARGS - 1);
  }

  lemma WordsRest(m: seq<char>, at: seq<nat>, line: seq<char>, done: seq<seq<char>>, a: nat, p: nat, rest: seq<char>)
    requires WordsSoFar(m, at, line, done, a, p, rest)
    ensures p < |m| && (m[p] == '\0' <==> rest == []) && |at| == |done|
  {
    hide Words, Span;
    CharAt(m, p, rest, 0);
  }

  lemma WordsEnd(m: seq<char>, at: seq<nat>, line: seq<char>, done: seq<seq<char>>, a: nat, p: nat, rest: seq<char>)
    requires WordsSoFar(m, at, line, done, a, p, rest) && (rest == [] || |done| == MAXARGS - 1)
    ensures AllFrom(at, a) && Stored(m, at, Words(line, MAXARGS - 1), a + |line| + 1)
  {
    hide Words, Span, Holds, Stored;
    NoWords(MAXARGS - 1 - |done|);
    assert done + [] == done;
    if rest != [] {
      StoredWider(m, at, done, p, a + |line| + 1);
    }
  }
}

/** Both parsers on one buffer. */
module LineReading {
  import opened CommandLine
  import opened CStrings
  import opened Parsers
  import opened WrittenLines
  import opened Wrappers

  /** The words of some segments are in the buffer, all of them before `limit`. */
  ghost predicate WordsBelow(m: seq<char>, argvs: seq<seq<nat>>, segments: seq<Segment>, limit: nat) {
    && |argvs| <= |segments|
    && forall i :: 0 <= i < |argvs| ==> WordsAt(m, argvs[i], segments[i].ws, limit)
  }

  ghost predicate WordsAt(m: seq<char>, argv: seq<nat>, ws: seq<seq<char>>, limit: nat) {
    && |argv| == |ws|
    && forall k :: 0 <= k < |argv| ==> Holds(m, argv[k], ws[k]) && argv[k] + |ws[k]| < limit
  }

  lemma StillAt(m: seq<char>, m': seq<char>, argvs: seq<seq<nat>>, segments: seq<Segment>, limit: nat, limit': nat)
    requires WordsBelow(m, argvs, segments, limit) && SameBelow(m, m', limit) && limit <= limit'
    ensures WordsBelow(m', argvs, segments, limit')
  {
    hide Holds;
    forall i | 0 <= i < |argvs|
      ensures WordsAt(m', argvs[i], segments[i].ws, limit')
    {
      forall k | 0 <= k < |argvs[i]|
        ensures Holds(m', argvs[i][k], segments[i].ws[k])
      {
        StillHoldsBelow(m, m', limit, argvs[i][k], segments[i].ws[k]);
      }
    }
  }

  /** The segments that are still to be parsed. */
  ghost predicate SegmentsFrom(m: seq<char>, at: seq<nat>, cs: seq<seq<char>>, n: nat) {
    && |at| == |cs|
    && (forall i :: n <= i < |at| ==> Holds(m, at[i], cs[i]))
    && (forall i, j :: 0 <= i < j < |at| ==> at[i] + |cs[i]| < at[j])
  }

  lemma StillThere(m: seq<char>, m': seq<char>, at: seq<nat>, cs: seq<seq<char>>, n: nat)
    requires SegmentsFrom(m, at, cs, n) && n < |at| && SameFrom(m, m', at[n] + |cs[n]| + 1)
    ensures SegmentsFrom(m', at, cs, n + 1)
  {
    hide Holds;
    forall i | n + 1 <= i < |at|
      ensures Holds(m', at[i], cs[i])
    {
      StillHoldsFrom(m, m', at[n] + |cs[n]| + 1, at[i], cs[i]);
    }
  }

  /** A line in the buffer is parsed into segments, and these, one after the other, into words, as the loop of
      `launch_pipeline` does: in the end all the words that were written are in the buffer. */
  method ReadCommand(buf: array<char>,
                     ghost segments: seq<Segment>, ghost mark: Option<seq<char>>, ghost rest: seq<char>)
    returns (argvs: seq<seq<nat>>, bg: bool)
    requires 1 <= |segments| <= 16 && forall i :: 0 <= i < |segments| ==> Proper(segments[i])
    requires mark.Some? ==> Gap(mark.value) && '\n' !in mark.value
    requires rest != [] ==> rest[0] == '\n'
    requires Holds(buf[..], 0, CommandText(Texts(segments), mark) + rest)
    modifies buf
    ensures bg == mark.Some? && |argvs| == |segments|
    ensures forall i :: 0 <= i < |segments| ==> |argvs[i]| == |segments[i].ws|
    ensures forall i, k :: 0 <= i < |segments| && 0 <= k < |argvs[i]| ==> Holds(buf[..], argvs[i][k], segments[i].ws[k])
  {
    hide Proper, Holds, CommandText, Words, Parse, Line, WordsAt;
    WholeLineComesBack(segments, mark, rest);
    ghost var text := CommandText(Texts(segments), mark) + rest;
    ghost var cs := Parse(Line(text)).value.segments;
    var rc, at;
    rc, at, bg := ParseLine(buf, text);
    argvs := [];
    for n := 0 to |at|
      invariant |argvs| == n && SegmentsFrom(buf[..], at, cs, n)
      invariant WordsBelow(buf[..], argvs, segments, if n < |at| then at[n] else buf.Length)
    {
      ghost var m := buf[..];
      ghost var limit := if n + 1 < |at| then at[n + 1] else buf.Length;
      HoldsInside(m, at[n], cs[n]);
      var argv := ParseWords(buf, at[n], cs[n]);
      StillThere(m, buf[..], at, cs, n);
      StillAt(m, buf[..], argvs, segments, at[n], limit);
      AtBelow(buf[..], argv, segments[n].ws, at[n] + |cs[n]| + 1, limit);
      argvs := argvs + [argv];
    }
    AllAt(buf[..], argvs, segments, buf.Length);
  }

  lemma HoldsInside(m: seq<char>, a: nat, w: seq<char>)
    requires Holds(m, a, w)
    ensures a + |w| < |m|
  {
  }

  lemma AtBelow(m: seq<char>, argv: seq<nat>, ws: seq<seq<char>>, end: nat, limit: nat)
    requires |argv| == |ws| && end <= limit
    requires forall k :: 0 <= k < |ws| ==> Holds(m, argv[k], ws[k]) && argv[k] + |ws[k]| < end
    ensures WordsAt(m, argv, ws, limit)
  {
    hide Holds;
  }

  lemma AllAt(m: seq<char>, argvs: seq<seq<nat>>, segments: seq<Segment>, limit: nat)
    requires WordsBelow(m, argvs, segments, limit)
    ensures forall i :: 0 <= i < |argvs| ==> |argvs[i]| == |segments[i].ws|
    ensures forall i, k :: 0 <= i < |argvs| && 0 <= k < |argvs[i]| ==> Holds(m, argvs[i][k], segments[i].ws[k])
  {
    hide Holds;
    assert forall i :: 0 <= i < |argvs| ==> WordsAt(m, argvs[i], segments[i].ws, limit);
  }
}
