/**
 * The line framer and duplicate filter of the tail trigger's `data` handler,
 * as functions: how one chunk of `tail` output becomes lines, and which of
 * those lines are forwarded given the previously seen line.
 */
module Framing {
  import opened Text

  /** The separator the handler splits on. */
  const LineFeed: char := '\n'

  // ---------------------------------------------------------------------------
  // Framing one chunk
  // ---------------------------------------------------------------------------

  /** The pieces that survive `filter((line) => line.trim() !== '')`. */
  function NonBlank(pieces: seq<string>): seq<string> {
    if pieces == [] then []
    else if AllWhitespace(pieces[0]) then NonBlank(pieces[1..])
    else [pieces[0]] + NonBlank(pieces[1..])
  }

  /** The lines of one chunk: split on line feeds, blank pieces dropped.
      A chunk is framed on its own; a line cut by a chunk boundary comes out
      as two lines. */
  function ChunkLines(chunk: string): (r: seq<string>)
    ensures forall i :: 0 <= i < |r| ==> !AllWhitespace(r[i]) && LineFeed !in r[i]
  {
    var pieces := Split(chunk, LineFeed);
    NonBlankElements(pieces);
    NonBlank(pieces)
  }

  /** `b` keeps all elements of `a`, in the same order, possibly with others between. */
  predicate IsSubsequence<T(==)>(a: seq<T>, b: seq<T>) {
    || a == []
    || (b != [] && ((a[0] == b[0] && IsSubsequence(a[1..], b[1..])) || IsSubsequence(a, b[1..])))
  }

  lemma {:induction false} NonBlankAppend(a: seq<string>, b: seq<string>)
    ensures NonBlank(a + b) == NonBlank(a) + NonBlank(b)
  {
    if a != [] {
      var x, t := a[0], a[1..];
      assert a == [x] + t;
      assert a + b == [x] + (t + b);
      NonBlankAppend(t, b);
      NonBlankCons(x, t + b);
      NonBlankCons(x, t);
      var keep := if AllWhitespace(x) then [] else [x];
      assert keep + (NonBlank(t) + NonBlank(b)) == (keep + NonBlank(t)) + NonBlank(b);
    } else {
      assert a + b == b;
    }
  }

  /** Every line the filter keeps is one of the pieces and is not blank. */
  lemma {:induction false} NonBlankElements(pieces: seq<string>)
    ensures forall i :: 0 <= i < |NonBlank(pieces)| ==> !AllWhitespace(NonBlank(pieces)[i]) && NonBlank(pieces)[i] in pieces
  {
    if pieces != [] {
      NonBlankElements(pieces[1..]);
      var r := NonBlank(pieces[1..]);
      if !AllWhitespace(pieces[0]) {
        forall i | 0 <= i < |NonBlank(pieces)|
          ensures !AllWhitespace(NonBlank(pieces)[i]) && NonBlank(pieces)[i] in pieces
        {
          if i > 0 {
            assert NonBlank(pieces)[i] == r[i - 1];
          }
        }
      }
    }
  }

  /** One unfolding of NonBlank, on pieces given by their first element. */
  lemma NonBlankCons(x: string, t: seq<string>)
    ensures NonBlank([x] + t) == (if AllWhitespace(x) then [] else [x]) + NonBlank(t)
  {
    assert ([x] + t)[0] == x;
    assert ([x] + t)[1..] == t;
  }

  /** A line survives the filter exactly when it occurs and is not blank. */
  lemma {:induction false} NonBlankMembership(pieces: seq<string>, x: string)
    ensures x in NonBlank(pieces) <==> x in pieces && !AllWhitespace(x)
  {
    if pieces != [] {
      NonBlankMembership(pieces[1..], x);
      assert pieces == [pieces[0]] + pieces[1..];
    }
  }

  /** The filter keeps every non-blank piece as often as it occurs. */
  lemma {:induction false} NonBlankKeepsCount(pieces: seq<string>, x: string)
    requires !AllWhitespace(x)
    ensures multiset(NonBlank(pieces))[x] == multiset(pieces)[x]
  {
    if pieces != [] {
      NonBlankKeepsCount(pieces[1..], x);
      assert pieces == [pieces[0]] + pieces[1..];
      assert multiset(pieces) == multiset([pieces[0]]) + multiset(pieces[1..]);
    }
  }

  /** The filter keeps the order of the pieces. */
  lemma {:induction false} NonBlankIsSubsequence(pieces: seq<string>)
    ensures IsSubsequence(NonBlank(pieces), pieces)
  {
    if pieces != [] {
      NonBlankIsSubsequence(pieces[1..]);
      var r := NonBlank(pieces[1..]);
      if !AllWhitespace(pieces[0]) {
        assert ([pieces[0]] + r)[1..] == r;
      }
    }
  }

  /** The filter drops everything exactly when every piece is blank. */
  lemma {:induction false} NonBlankAllBlank(pieces: seq<string>)
    ensures NonBlank(pieces) == [] <==> forall i :: 0 <= i < |pieces| ==> AllWhitespace(pieces[i])
  {
    if pieces != [] {
      NonBlankAllBlank(pieces[1..]);
      assert forall i :: 1 <= i < |pieces| ==> pieces[i] == pieces[1..][i - 1];
    }
  }

  /** Joining pieces with line feeds gives an all-whitespace string exactly when
      every piece is all whitespace, a line feed being whitespace itself. */
  lemma {:induction false} JoinAllWhitespace(pieces: seq<string>)
    ensures AllWhitespace(Join(pieces, LineFeed))
        <==> forall i :: 0 <= i < |pieces| ==> AllWhitespace(pieces[i])
  {
    if |pieces| > 1 {
      JoinAllWhitespace(pieces[1..]);
      var p := pieces[0];
      var j := Join(pieces[1..], LineFeed);
      var s := p + [LineFeed] + j;
      assert forall k :: 0 <= k < |p| ==> s[k] == p[k];
      assert forall k :: 0 <= k < |j| ==> s[|p| + 1 + k] == j[k];
      assert forall i :: 1 <= i < |pieces| ==> pieces[i] == pieces[1..][i - 1];
      if AllWhitespace(s) {
        assert AllWhitespace(p);
        assert AllWhitespace(j);
      }
    }
  }

  /** A chunk yields no line exactly when it is all whitespace. */
  lemma ChunkLinesEmptyIff(chunk: string)
    ensures ChunkLines(chunk) == [] <==> AllWhitespace(chunk)
  {
    var pieces := Split(chunk, LineFeed);
    NonBlankAllBlank(pieces);
    JoinSplit(chunk, LineFeed);
    JoinAllWhitespace(pieces);
  }

  /** A chunk boundary that falls on a line feed frames nothing differently:
      the two chunks give the lines of their concatenation. */
  lemma ChunkLinesAtLineFeed(a: string, b: string)
    ensures ChunkLines(a + [LineFeed] + b) == ChunkLines(a) + ChunkLines(b)
  {
    SplitAtSeparator(a, b, LineFeed);
    NonBlankAppend(Split(a, LineFeed), Split(b, LineFeed));
  }

  /** A line cut by a chunk boundary is framed as two lines, not reassembled. */
  lemma ChunkBoundaryInsideLine()
    ensures ChunkLines("err") + ChunkLines("or") == ["err", "or"]
    ensures ChunkLines("error") == ["error"]
  {
    SplitNoSeparator("err", LineFeed);
    SplitNoSeparator("or", LineFeed);
    SplitNoSeparator("error", LineFeed);
    assert !IsWhitespace('e') && !IsWhitespace('o');
  }

  // ---------------------------------------------------------------------------
  // The duplicate filter
  // ---------------------------------------------------------------------------

  /** The lines the loop forwards, starting from `previous`: a line is emitted
      unless deduplication is on and it equals the line just before it; every
      line becomes the new `previous`. */
  function Emitted<T(==)>(previous: T, lines: seq<T>, deduplicate: bool): seq<T>
    decreases lines
  {
    if lines == [] then []
    else Forward(previous, lines[0], deduplicate) + Emitted(lines[0], lines[1..], deduplicate)
  }

  /** The test `!deduplicate || line !== previous`: the line, or nothing. */
  function Forward<T(==)>(previous: T, line: T, deduplicate: bool): seq<T> {
    if !deduplicate || line != previous then [line] else []
  }

  /** Every forwarded line is one of the input lines, so whatever holds of
      every framed line holds of every emitted one. */
  lemma {:induction false} EmittedElements<T>(previous: T, lines: seq<T>, deduplicate: bool)
    ensures forall i :: 0 <= i < |Emitted(previous, lines, deduplicate)| ==> Emitted(previous, lines, deduplicate)[i] in lines
  {
    if lines != [] {
      var x, t := lines[0], lines[1..];
      EmittedElements(x, t, deduplicate);
      var f, r := Forward(previous, x, deduplicate), Emitted(x, t, deduplicate);
      forall i | 0 <= i < |f + r| ensures (f + r)[i] in lines {
        if i < |f| {
          assert (f + r)[i] == x;
        } else {
          assert (f + r)[i] == r[i - |f|];
        }
      }
    }
  }

  /** One unfolding of Emitted, on lines given by their first element. */
  lemma EmittedCons<T>(previous: T, x: T, t: seq<T>, deduplicate: bool)
    ensures Emitted(previous, [x] + t, deduplicate) == Forward(previous, x, deduplicate) + Emitted(x, t, deduplicate)
  {
    assert ([x] + t)[0] == x;
    assert ([x] + t)[1..] == t;
  }

  /** `previous` after the loop: the last line, or the old value when there is none. */
  function LastLine<T>(previous: T, lines: seq<T>): T {
    if lines == [] then previous else lines[|lines| - 1]
  }

  predicate NoAdjacentDuplicates<T(==)>(s: seq<T>) {
    forall i :: 0 < i < |s| ==> s[i - 1] != s[i]
  }

  /** Reference definition of collapsing runs: each maximal run of equal
      adjacent elements is replaced by one copy of it. */
  function Squash<T(==)>(s: seq<T>): (r: seq<T>)
    ensures |r| <= |s|
    ensures s != [] ==> r != [] && r[0] == s[0]
  {
    if |s| <= 1 then s
    else if s[0] == s[1] then Squash(s[1..])
    else [s[0]] + Squash(s[1..])
  }

  lemma {:induction false} SquashNoAdjacentDuplicates<T>(s: seq<T>)
    ensures NoAdjacentDuplicates(Squash(s))
  {
    if |s| > 1 {
      SquashNoAdjacentDuplicates(s[1..]);
    }
  }

  lemma {:induction false} SquashIsSubsequence<T>(s: seq<T>)
    ensures IsSubsequence(Squash(s), s)
  {
    if |s| > 1 {
      SquashIsSubsequence(s[1..]);
      var t := Squash(s[1..]);
      if s[0] != s[1] {
        assert ([s[0]] + t)[1..] == t;
      }
    }
  }

  /** Collapsing runs changes nothing once there are none: squashing is idempotent. */
  lemma {:induction false} SquashOfNoAdjacentDuplicates<T>(s: seq<T>)
    requires NoAdjacentDuplicates(s)
    ensures Squash(s) == s
  {
    if |s| > 1 {
      assert s[0] != s[1];
      SquashOfNoAdjacentDuplicates(s[1..]);
      assert [s[0]] + s[1..] == s;
    }
  }

  /** Processing lines one after another equals processing their concatenation,
      with `previous` carried over; this is what lets the filter's state span
      `data` events. */
  lemma {:induction false} EmittedAppend<T>(previous: T, a: seq<T>, b: seq<T>, deduplicate: bool)
    ensures Emitted(previous, a + b, deduplicate)
         == Emitted(previous, a, deduplicate) + Emitted(LastLine(previous, a), b, deduplicate)
    ensures LastLine(previous, a + b) == LastLine(LastLine(previous, a), b)
    decreases a
  {
    LastLineAppend(previous, a, b);
    if a == [] {
      assert a + b == b;
    } else {
      var x, t := a[0], a[1..];
      assert a == [x] + t;
      assert a + b == [x] + (t + b);
      EmittedAppend(x, t, b, deduplicate);
      EmittedCons(previous, x, t + b, deduplicate);
      EmittedCons(previous, x, t, deduplicate);
      LastLineAppend(x, t, []);
      LastLineAppend(previous, [x], t);
      var f := Forward(previous, x, deduplicate);
      var et := Emitted(x, t, deduplicate);
      var eb := Emitted(LastLine(x, t), b, deduplicate);
      assert f + (et + eb) == (f + et) + eb;
    }
  }

  /** One more line at the end: it is forwarded or not by comparison with the
      line before it, and becomes `previous`. */
  lemma EmittedSnoc<T>(previous: T, a: seq<T>, x: T, deduplicate: bool)
    ensures Emitted(previous, a + [x], deduplicate)
         == Emitted(previous, a, deduplicate) + Forward(LastLine(previous, a), x, deduplicate)
    ensures LastLine(previous, a + [x]) == x
  {
    EmittedAppend(previous, a, [x], deduplicate);
    assert Emitted(LastLine(previous, a), [x], deduplicate)
        == Forward(LastLine(previous, a), x, deduplicate) + Emitted(x, [], deduplicate);
  }

  lemma LastLineAppend<T>(previous: T, a: seq<T>, b: seq<T>)
    ensures LastLine(previous, a + b) == LastLine(LastLine(previous, a), b)
  {
    if a == [] {
      assert a + b == b;
    } else if b != [] {
      assert (a + b)[|a + b| - 1] == b[|b| - 1];
    } else {
      assert a + b == a;
    }
  }

  /** With deduplication off every line is forwarded, duplicates included. */
  lemma {:induction false} EmittedWithoutDeduplication<T>(previous: T, lines: seq<T>)
    ensures Emitted(previous, lines, false) == lines
    decreases lines
  {
    if lines != [] {
      EmittedWithoutDeduplication(lines[0], lines[1..]);
      assert [lines[0]] + lines[1..] == lines;
    }
  }

  /** With deduplication on, the output is the run-collapsed stream that starts
      at `previous`, minus `previous` itself. */
  lemma {:induction false} EmittedIsSquash<T>(previous: T, lines: seq<T>)
    ensures Emitted(previous, lines, true) == Squash([previous] + lines)[1..]
    decreases lines
  {
    if lines != [] {
      var s := [previous] + lines;
      EmittedIsSquash(lines[0], lines[1..]);
      assert s[1..] == [lines[0]] + lines[1..] == lines;
      assert s[1] == lines[0];
    }
  }

  /** With deduplication on, no two forwarded lines in a row are equal, and the
      first one differs from `previous`. */
  lemma EmittedNoAdjacentDuplicates<T>(previous: T, lines: seq<T>)
    ensures NoAdjacentDuplicates(Emitted(previous, lines, true))
    ensures Emitted(previous, lines, true) != [] ==> Emitted(previous, lines, true)[0] != previous
  {
    var s := Squash([previous] + lines);
    EmittedIsSquash(previous, lines);
    SquashNoAdjacentDuplicates([previous] + lines);
    assert forall i :: 0 <= i < |s| - 1 ==> s[1..][i] == s[i + 1];
    if |s| > 1 {
      assert s[0] == previous;
    }
  }

  /** The forwarded lines are among the input lines, in their order. */
  lemma {:induction false} EmittedIsSubsequence<T>(previous: T, lines: seq<T>, deduplicate: bool)
    ensures IsSubsequence(Emitted(previous, lines, deduplicate), lines)
    decreases lines
  {
    if lines != [] {
      EmittedIsSubsequence(lines[0], lines[1..], deduplicate);
      var r := Emitted(lines[0], lines[1..], deduplicate);
      if !deduplicate || lines[0] != previous {
        assert ([lines[0]] + r)[1..] == r;
      } else {
        assert [] + r == r;
      }
    }
  }

  function Repeat<T>(x: T, k: nat): (r: seq<T>)
    ensures |r| == k && forall i :: 0 <= i < k ==> r[i] == x
  {
    if k == 0 then [] else [x] + Repeat(x, k - 1)
  }

  /** A run of equal lines yields its first element, or nothing when it
      continues `previous`. */
  lemma {:induction false} EmittedRun<T>(previous: T, x: T, k: nat, rest: seq<T>)
    requires k >= 1
    ensures Emitted(previous, Repeat(x, k) + rest, true)
         == (if x == previous then [] else [x]) + Emitted(x, rest, true)
  {
    EmittedAppend(previous, Repeat(x, k), rest, true);
    RunEmitsAtMostOne(previous, x, k);
  }

  lemma {:induction false} RunEmitsAtMostOne<T>(previous: T, x: T, k: nat)
    requires k >= 1
    ensures Emitted(previous, Repeat(x, k), true) == (if x == previous then [] else [x])
    ensures LastLine(previous, Repeat(x, k)) == x
    decreases k
  {
    if k > 1 {
      RunEmitsAtMostOne(x, x, k - 1);
      assert Repeat(x, k)[1..] == Repeat(x, k - 1);
    }
  }

  /** Three equal lines and a fourth: collapsed to two with deduplication,
      all four forwarded without it. */
  lemma DeduplicationExample()
    ensures Emitted("", ["A", "A", "A", "B"], true) == ["A", "B"]
    ensures Emitted("", ["A", "A", "A", "B"], false) == ["A", "A", "A", "B"]
  {
    EmittedWithoutDeduplication("", ["A", "A", "A", "B"]);
  }

  /** The first line after a blank `previous` is always forwarded. */
  lemma FirstLineEmitted(previous: string, lines: seq<string>, deduplicate: bool)
    requires AllWhitespace(previous)
    requires lines != [] && !AllWhitespace(lines[0])
    ensures Emitted(previous, lines, deduplicate) != []
    ensures Emitted(previous, lines, deduplicate)[0] == lines[0]
  {
  }

  /** What holds of everything forwarded since the handler was created, when
      `previous` started as "" and only non-blank lines were framed. */
  lemma StreamFacts(seen: seq<string>, deduplicate: bool)
    requires forall i :: 0 <= i < |seen| ==> !AllWhitespace(seen[i])
    ensures IsSubsequence(Emitted("", seen, deduplicate), seen)
    ensures !deduplicate ==> Emitted("", seen, deduplicate) == seen
    ensures deduplicate ==> NoAdjacentDuplicates(Emitted("", seen, deduplicate))
    ensures seen != [] ==> (Emitted("", seen, deduplicate) != [] && Emitted("", seen, deduplicate)[0] == seen[0])
    ensures forall i :: 0 <= i < |Emitted("", seen, deduplicate)| ==>
              Emitted("", seen, deduplicate)[i] in seen && !AllWhitespace(Emitted("", seen, deduplicate)[i])
  {
    EmittedElements("", seen, deduplicate);
    EmittedIsSubsequence("", seen, deduplicate);
    EmittedWithoutDeduplication("", seen);
    EmittedNoAdjacentDuplicates("", seen);
    if seen != [] {
      FirstLineEmitted("", seen, deduplicate);
    }
  }
}
