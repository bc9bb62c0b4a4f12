/**
 * `chunkText` of backend/rag.js: split a text into sentences at white-space runs that
 * follow `.`, `!` or `?`, then pack the sentences greedily into chunks of at most
 * maxChars UTF-16 code units, joined by single spaces and trimmed.
 */
module Chunker {
  import opened Text

  /** The default chunk size of `chunkText`, used by `createTopicFromText`. */
  const DefaultMaxChars: int := 800

  predicate IsTerminator(c: char) {
    c == '.' || c == '!' || c == '?'
  }

  /** Position q is where `/(?<=[.!?])\s+/` can match: after a terminator, at white space. */
  predicate IsBoundary(t: string, q: int) {
    0 < q < |t| && IsTerminator(t[q - 1]) && IsSpace(t[q])
  }

  /**
   * `String.prototype.split` with the sentence regex, from the piece starting at p with
   * the search position at q: each match ends the current piece and is dropped, and the
   * rest of the text after the last match is the last piece.
   */
  function SplitFrom(t: string, p: nat, q: nat): (ss: seq<string>)
    requires p <= q <= |t|
    ensures |ss| > 0
    decreases |t| - q
  {
    if q == |t| then [t[p..]]
    else if IsBoundary(t, q) then
      var e := SpaceRunEnd(t, q);
      assert e > q;
      [t[p..q]] + SplitFrom(t, e, e)
    else SplitFrom(t, p, q + 1)
  }

  /** `text.split(/(?<=[.!?])\s+/)`; the empty text gives [""]. */
  function Sentences(text: string): (ss: seq<string>)
    ensures |ss| > 0
  {
    SplitFrom(text, 0, 0)
  }

  predicate IsSpaceRun(s: string) {
    |s| > 0 && forall i :: 0 <= i < |s| ==> IsSpace(s[i])
  }

  predicate EndsWithTerminator(s: string) {
    |s| > 0 && IsTerminator(s[|s| - 1])
  }

  predicate StartsWithSpace(s: string) {
    |s| > 0 && IsSpace(s[0])
  }

  /** No position inside s is a boundary: the split never cuts s. */
  predicate Uncut(s: string) {
    forall j :: 0 < j < |s| ==> !IsBoundary(s, j)
  }

  /** Separator i is a whole white-space run right after a terminator. */
  predicate SeparatedAt(ss: seq<string>, seps: seq<string>, i: nat)
    requires |ss| == |seps| + 1 && i < |seps|
  {
    IsSpaceRun(seps[i]) && EndsWithTerminator(ss[i]) && !StartsWithSpace(ss[i + 1])
  }

  /**
   * ss are the pieces of t between the separators seps: t is ss[0] + seps[0] + ss[1] + ...,
   * each separator is a whole white-space run right after a terminator, and no piece has
   * a boundary inside it.
   */
  ghost predicate IsSeparation(t: string, ss: seq<string>, seps: seq<string>) {
    |ss| == |seps| + 1 &&
    Interleave(ss, seps) == t &&
    (forall i :: 0 <= i < |seps| ==> SeparatedAt(ss, seps, i)) &&
    (forall i :: 0 <= i < |ss| ==> Uncut(ss[i]))
  }

  lemma UncutSlice(t: string, p: nat, q: nat)
    requires p <= q <= |t|
    requires forall j :: p < j < q ==> !IsBoundary(t, j)
    ensures Uncut(t[p..q])
  {
    forall j | 0 < j < q - p
      ensures !IsBoundary(t[p..q], j)
    {
      assert t[p..q][j - 1] == t[p + j - 1] && t[p..q][j] == t[p + j];
      assert !IsBoundary(t, p + j);
    }
  }

  /** Putting one more piece and separator in front of a separation. */
  lemma SeparationCons(first: string, sep: string, rest: seq<string>, seps: seq<string>, u: string)
    requires IsSeparation(u, rest, seps)
    requires IsSpaceRun(sep) && EndsWithTerminator(first) && Uncut(first) && !StartsWithSpace(rest[0])
    ensures IsSeparation(first + sep + u, [first] + rest, [sep] + seps)
  {
    var ss, seps2 := [first] + rest, [sep] + seps;
    assert ss[1..] == rest && seps2[1..] == seps;
    assert Interleave(ss, seps2) == first + sep + u;
    forall i | 0 <= i < |seps2|
      ensures SeparatedAt(ss, seps2, i)
    {
      if i > 0 {
        assert SeparatedAt(rest, seps, i - 1);
      }
    }
    forall i | 0 <= i < |ss|
      ensures Uncut(ss[i])
    {
      if i > 0 {
        assert ss[i] == rest[i - 1];
      }
    }
  }

  /** The first piece of a split starts the text being split. */
  lemma {:induction false} SplitFromFirst(t: string, p: nat, q: nat)
    requires p <= q <= |t|
    ensures |SplitFrom(t, p, q)[0]| <= |t| - p
    ensures SplitFrom(t, p, q)[0] == t[p..p + |SplitFrom(t, p, q)[0]|]
    decreases |t| - q
  {
    if q < |t| && !IsBoundary(t, q) {
      SplitFromFirst(t, p, q + 1);
    }
  }

  /** The step of the split at a match: the piece before it and the separator go in front. */
  lemma SeparationAtBoundary(t: string, p: nat, q: nat, seps: seq<string>)
    requires p <= q < |t| && IsBoundary(t, q)
    requires p > 0 ==> IsSpace(t[p - 1])
    requires forall j :: p < j < q ==> !IsBoundary(t, j)
    requires IsSeparation(t[SpaceRunEnd(t, q)..], SplitFrom(t, SpaceRunEnd(t, q), SpaceRunEnd(t, q)), seps)
    requires var e := SpaceRunEnd(t, q); SplitFrom(t, e, e)[0] == t[e..e + |SplitFrom(t, e, e)[0]|]
    ensures IsSeparation(t[p..], SplitFrom(t, p, q), [t[q..SpaceRunEnd(t, q)]] + seps)
  {
    var e := SpaceRunEnd(t, q);
    var rest := SplitFrom(t, e, e);
    var first := t[p..q];
    var sep := t[q..e];
    assert q > p;
    UncutSlice(t, p, q);
    assert !StartsWithSpace(rest[0]) by {
      if |rest[0]| > 0 {
        assert rest[0][0] == t[e];
      }
    }
    SeparationCons(first, sep, rest, seps, t[e..]);
    assert t[p..e] == first + sep;
    assert t[p..] == t[p..e] + t[e..];
    assert SplitFrom(t, p, q) == [first] + rest;
  }

  lemma {:induction false} SplitFromSeparates(t: string, p: nat, q: nat) returns (seps: seq<string>)
    requires p <= q <= |t|
    requires p > 0 ==> IsSpace(t[p - 1])
    requires forall j :: p < j < q ==> !IsBoundary(t, j)
    ensures IsSeparation(t[p..], SplitFrom(t, p, q), seps)
    decreases |t| - q
  {
    if q == |t| {
      UncutSlice(t, p, q);
      assert t[p..] == t[p..q];
      assert SplitFrom(t, p, q) == [t[p..]];
      assert Interleave([t[p..]], []) == t[p..];
      seps := [];
    } else if IsBoundary(t, q) {
      var e := SpaceRunEnd(t, q);
      var rest := SplitFromSeparates(t, e, e);
      SplitFromFirst(t, e, e);
      SeparationAtBoundary(t, p, q, rest);
      seps := [t[q..e]] + rest;
    } else {
      seps := SplitFromSeparates(t, p, q + 1);
      assert SplitFrom(t, p, q) == SplitFrom(t, p, q + 1);
    }
  }

  /** The sentences are exactly the pieces of the text between separator runs. */
  lemma SentencesSeparate(text: string)
    ensures exists seps :: IsSeparation(text, Sentences(text), seps)
  {
    var seps := SplitFromSeparates(text, 0, 0);
    assert text[0..] == text;
    assert IsSeparation(text, Sentences(text), seps);
  }

  /** A white-space run from q that stops at m, before a character that is not white space, ends at m. */
  lemma SpaceRunEndsAt(t: string, q: nat, m: nat)
    requires q <= m <= |t|
    requires forall j :: q <= j < m ==> IsSpace(t[j])
    requires m == |t| || !IsSpace(t[m])
    ensures SpaceRunEnd(t, q) == m
  {
  }

  /** What follows the first separator of a separation: the end of the text, or no white space. */
  lemma SeparationAfterFirst(t: string, ss: seq<string>, seps: seq<string>)
    requires IsSeparation(t, ss, seps) && seps != []
    ensures t == ss[0] + seps[0] + Interleave(ss[1..], seps[1..])
    ensures var m := |ss[0]| + |seps[0]|; m == |t| || !IsSpace(t[m])
  {
    var rest := Interleave(ss[1..], seps[1..]);
    assert SeparatedAt(ss, seps, 0);
    assert |seps| >= 2 ==> ss[1] != [] by {
      if |seps| >= 2 {
        assert SeparatedAt(ss, seps, 1);
      }
    }
    if |seps| == 1 {
      assert rest == ss[1];
    }
    if ss[1] != [] {
      assert rest[0] == ss[1][0];
    }
  }

  /** Dropping the first piece and separator of a separation leaves a separation of the rest. */
  lemma SeparationRest(t: string, ss: seq<string>, seps: seq<string>)
    requires IsSeparation(t, ss, seps) && seps != []
    ensures IsSeparation(t[|ss[0]| + |seps[0]|..], ss[1..], seps[1..])
  {
    SeparationAfterFirst(t, ss, seps);
    assert t[|ss[0]| + |seps[0]|..] == Interleave(ss[1..], seps[1..]);
    forall i | 0 <= i < |seps| - 1
      ensures SeparatedAt(ss[1..], seps[1..], i)
    {
      assert SeparatedAt(ss, seps, i + 1);
    }
    forall i | 0 <= i < |ss| - 1
      ensures Uncut(ss[1..][i])
    {
      assert ss[1..][i] == ss[i + 1];
    }
  }

  /**
   * The first piece of a separation ends at a boundary, and the first separator is the
   * whole white-space run there.
   */
  lemma SeparationFirst(t: string, ss: seq<string>, seps: seq<string>)
    requires IsSeparation(t, ss, seps) && seps != []
    ensures |ss[0]| < |t| && t[..|ss[0]|] == ss[0] && IsBoundary(t, |ss[0]|)
    ensures SpaceRunEnd(t, |ss[0]|) == |ss[0]| + |seps[0]|
    ensures t[|ss[0]|..SpaceRunEnd(t, |ss[0]|)] == seps[0]
  {
    var q, m := |ss[0]|, |ss[0]| + |seps[0]|;
    SeparationAfterFirst(t, ss, seps);
    assert SeparatedAt(ss, seps, 0);
    assert t[..q] == ss[0] && t[q..m] == seps[0];
    assert t[q - 1] == ss[0][q - 1] && t[q] == seps[0][0];
    forall j | q <= j < m
      ensures IsSpace(t[j])
    {
      assert t[j] == seps[0][j - q];
    }
    SpaceRunEndsAt(t, q, m);
  }

  /** A boundary inside the first piece of a separation is impossible. */
  lemma NoBoundaryInFirst(t: string, ss: seq<string>, seps: seq<string>, q: int)
    requires IsSeparation(t, ss, seps) && 0 < q < |ss[0]|
    ensures !IsBoundary(t, q)
  {
    assert !IsBoundary(ss[0], q);
    if seps == [] {
      assert t == ss[0];
    } else {
      assert t == ss[0] + seps[0] + Interleave(ss[1..], seps[1..]);
      assert t[q - 1] == ss[0][q - 1] && t[q] == ss[0][q];
    }
  }

  /** A text has one separation only: its pieces and separators are determined by the text. */
  lemma {:induction false} SeparationUnique(t: string, ss1: seq<string>, seps1: seq<string>, ss2: seq<string>, seps2: seq<string>)
    requires IsSeparation(t, ss1, seps1) && IsSeparation(t, ss2, seps2)
    ensures ss1 == ss2 && seps1 == seps2
    decreases |seps1|
  {
    if seps1 == [] && seps2 == [] {
      assert ss1 == [t] == ss2;
    } else if seps1 == [] {
      SeparationFirst(t, ss2, seps2);
      assert false;
    } else if seps2 == [] {
      SeparationFirst(t, ss1, seps1);
      assert false;
    } else {
      SeparationFirst(t, ss1, seps1);
      SeparationFirst(t, ss2, seps2);
      var q1, q2 := |ss1[0]|, |ss2[0]|;
      if q1 < q2 {
        NoBoundaryInFirst(t, ss2, seps2, q1);
      } else if q2 < q1 {
        NoBoundaryInFirst(t, ss1, seps1, q2);
      }
      assert ss1[0] == ss2[0] && seps1[0] == seps2[0];
      SeparationRest(t, ss1, seps1);
      SeparationRest(t, ss2, seps2);
      var u := t[q1 + |seps1[0]|..];
      SeparationUnique(u, ss1[1..], seps1[1..], ss2[1..], seps2[1..]);
      assert ss1 == [ss1[0]] + ss1[1..] && ss2 == [ss2[0]] + ss2[1..];
      assert seps1 == [seps1[0]] + seps1[1..] && seps2 == [seps2[0]] + seps2[1..];
    }
  }

  /** The sentences are the only pieces that separate the text: a separation is the split. */
  lemma SentencesUnique(text: string, ss: seq<string>, seps: seq<string>)
    requires IsSeparation(text, ss, seps)
    ensures ss == Sentences(text)
  {
    SentencesSeparate(text);
    var seps0 :| IsSeparation(text, Sentences(text), seps0);
    SeparationUnique(text, ss, seps, Sentences(text), seps0);
  }

  /** Every sentence but the last ends with a terminator, so none of them is empty. */
  lemma SentencesNonEmptyBeforeLast(text: string)
    ensures forall i :: 0 <= i < |Sentences(text)| - 1 ==>
      EndsWithTerminator(Sentences(text)[i]) && Sentences(text)[i] != ""
  {
    SentencesSeparate(text);
    var seps :| IsSeparation(text, Sentences(text), seps);
    forall i | 0 <= i < |Sentences(text)| - 1
      ensures EndsWithTerminator(Sentences(text)[i]) && Sentences(text)[i] != ""
    {
      assert SeparatedAt(Sentences(text), seps, i);
    }
  }

  /** The size test of the loop: `(current + " " + s).length > maxChars`. */
  predicate Overflows(current: string, s: string, maxChars: int) {
    Utf16Length(current + " " + s) > maxChars
  }

  /** The groups laid end to end. */
  function Flatten(groups: seq<seq<string>>): seq<string>
  {
    if groups == [] then [] else Flatten(groups[..|groups| - 1]) + groups[|groups| - 1]
  }

  /** The group's sentences joined by single spaces: the loop's `current` buffer. */
  function Buffer(group: seq<string>): string {
    JoinWith(group, " ")
  }

  /**
   * The chunks pushed for the groups, in order: each buffer trimmed, except that an
   * empty (falsy) buffer pushes nothing.
   */
  function Emit(groups: seq<seq<string>>): seq<string>
  {
    if groups == [] then []
    else
      var b := Buffer(groups[|groups| - 1]);
      Emit(groups[..|groups| - 1]) + (if b != "" then [Trim(b)] else [])
  }

  /**
   * groups is the greedy packing of the sentences ss: the groups are non-empty runs that
   * cover ss in order; within a group every sentence passed the size test against the
   * buffer before it, and every group after the first starts with a sentence that failed
   * the size test against the whole previous group.
   */
  ghost predicate IsGreedyPacking(ss: seq<string>, groups: seq<seq<string>>, maxChars: int) {
    Flatten(groups) == ss &&
    (forall j :: 0 <= j < |groups| ==> |groups[j]| > 0) &&
    (forall j, k :: 0 <= j < |groups| && 0 < k < |groups[j]| ==>
      !Overflows(Buffer(groups[j][..k]), groups[j][k], maxChars)) &&
    (forall j :: 0 < j < |groups| ==> Overflows(Buffer(groups[j - 1]), groups[j][0], maxChars))
  }

  lemma FlattenSnoc(groups: seq<seq<string>>, g: seq<string>)
    ensures Flatten(groups + [g]) == Flatten(groups) + g
  {
    assert (groups + [g])[..|groups|] == groups;
  }

  lemma EmitSnoc(groups: seq<seq<string>>, g: seq<string>)
    ensures Emit(groups + [g]) == Emit(groups) + (if Buffer(g) != "" then [Trim(Buffer(g))] else [])
  {
    assert (groups + [g])[..|groups|] == groups;
  }

  /** The sentence passed the size test: it joins the open group. */
  lemma PackingAppend(ss: seq<string>, groups: seq<seq<string>>, open: seq<string>, s: string, maxChars: int)
    requires open != [] && IsGreedyPacking(ss, groups + [open], maxChars)
    requires !Overflows(Buffer(open), s, maxChars)
    ensures IsGreedyPacking(ss + [s], groups + [open + [s]], maxChars)
  {
    var g, g2 := groups + [open], groups + [open + [s]];
    FlattenSnoc(groups, open);
    FlattenSnoc(groups, open + [s]);
    forall j, k | 0 <= j < |g2| && 0 < k < |g2[j]|
      ensures !Overflows(Buffer(g2[j][..k]), g2[j][k], maxChars)
    {
      if j < |groups| {
        assert g2[j] == g[j];
      } else if k < |open| {
        assert g2[j][..k] == open[..k] && g2[j][k] == open[k];
        assert g[j] == open;
      } else {
        assert g2[j][..k] == open;
      }
    }
    forall j | 0 < j < |g2|
      ensures Overflows(Buffer(g2[j - 1]), g2[j][0], maxChars)
    {
      assert g2[j - 1] == g[j - 1] && g2[j][0] == g[j][0];
    }
  }

  /** The sentence failed the size test: the open group is closed and a new one starts. */
  lemma PackingBreak(ss: seq<string>, groups: seq<seq<string>>, open: seq<string>, s: string, maxChars: int)
    requires open != [] && IsGreedyPacking(ss, groups + [open], maxChars)
    requires Overflows(Buffer(open), s, maxChars)
    ensures IsGreedyPacking(ss + [s], groups + [open] + [[s]], maxChars)
  {
    var g, g2 := groups + [open], groups + [open] + [[s]];
    FlattenSnoc(g, [s]);
    forall j, k | 0 <= j < |g2| && 0 < k < |g2[j]|
      ensures !Overflows(Buffer(g2[j][..k]), g2[j][k], maxChars)
    {
      assert j < |g|;
      assert g2[j] == g[j];
    }
    forall j | 0 < j < |g2|
      ensures Overflows(Buffer(g2[j - 1]), g2[j][0], maxChars)
    {
      if j < |g| {
        assert g2[j - 1] == g[j - 1] && g2[j][0] == g[j][0];
      }
    }
  }

  /**
   * One step of the greedy packing: sentence s joins the last group unless it fails the
   * size test against that group's buffer, in which case it starts a new group.
   */
  function Place(groups: seq<seq<string>>, s: string, maxChars: int): seq<seq<string>> {
    if groups == [] then [[s]]
    else
      var last := groups[|groups| - 1];
      if Overflows(Buffer(last), s, maxChars) then groups + [[s]]
      else groups[..|groups| - 1] + [last + [s]]
  }

  /** Placing one more sentence keeps the packing greedy. */
  lemma PlaceGreedy(ss: seq<string>, groups: seq<seq<string>>, s: string, maxChars: int)
    requires IsGreedyPacking(ss, groups, maxChars)
    ensures IsGreedyPacking(ss + [s], Place(groups, s, maxChars), maxChars)
  {
    if groups == [] {
      FlattenSnoc([], [s]);
    } else {
      var closed, open := groups[..|groups| - 1], groups[|groups| - 1];
      assert groups == closed + [open];
      if Overflows(Buffer(open), s, maxChars) {
        PackingBreak(ss, closed, open, s, maxChars);
      } else {
        PackingAppend(ss, closed, open, s, maxChars);
      }
    }
  }

  /** The greedy packing of ss: its sentences placed one by one from the front. */
  function Pack(ss: seq<string>, maxChars: int): (groups: seq<seq<string>>)
    ensures groups == [] <==> ss == []
  {
    if ss == [] then [] else Place(Pack(ss[..|ss| - 1], maxChars), ss[|ss| - 1], maxChars)
  }

  /** Pack is a greedy packing: the loop's buffers satisfy IsGreedyPacking. */
  lemma {:induction false} PackIsGreedy(ss: seq<string>, maxChars: int)
    ensures IsGreedyPacking(ss, Pack(ss, maxChars), maxChars)
    decreases |ss|
  {
    if ss != [] {
      var init, s := ss[..|ss| - 1], ss[|ss| - 1];
      PackIsGreedy(init, maxChars);
      PlaceGreedy(init, Pack(init, maxChars), s, maxChars);
      assert ss == init + [s];
    }
  }

  /** A greedy packing whose last group is one sentence: the rest is a greedy packing and that sentence overflowed. */
  lemma PackingLastAlone(ss: seq<string>, closed: seq<seq<string>>, s: string, maxChars: int)
    requires IsGreedyPacking(ss, closed + [[s]], maxChars)
    ensures ss == Flatten(closed) + [s]
    ensures IsGreedyPacking(Flatten(closed), closed, maxChars)
    ensures closed != [] ==> Overflows(Buffer(closed[|closed| - 1]), s, maxChars)
  {
    var g := closed + [[s]];
    FlattenSnoc(closed, [s]);
    forall j, k | 0 <= j < |closed| && 0 < k < |closed[j]|
      ensures !Overflows(Buffer(closed[j][..k]), closed[j][k], maxChars)
    {
      assert closed[j] == g[j];
    }
    forall j | 0 < j < |closed|
      ensures Overflows(Buffer(closed[j - 1]), closed[j][0], maxChars)
    {
      assert closed[j - 1] == g[j - 1] && closed[j] == g[j];
    }
    forall j | 0 <= j < |closed|
      ensures |closed[j]| > 0
    {
      assert closed[j] == g[j];
    }
    if closed != [] {
      assert g[|closed|] == [s];
    }
  }

  /**
   * A greedy packing whose last group has two or more sentences: without its last
   * sentence it is a greedy packing, and that sentence passed the size test.
   */
  lemma PackingLastJoined(ss: seq<string>, closed: seq<seq<string>>, open: seq<string>, s: string, maxChars: int)
    requires open != [] && IsGreedyPacking(ss, closed + [open + [s]], maxChars)
    ensures ss == Flatten(closed) + open + [s]
    ensures IsGreedyPacking(Flatten(closed) + open, closed + [open], maxChars)
    ensures !Overflows(Buffer(open), s, maxChars)
  {
    var g, g2 := closed + [open + [s]], closed + [open];
    FlattenSnoc(closed, open);
    FlattenSnoc(closed, open + [s]);
    forall j, k | 0 <= j < |g2| && 0 < k < |g2[j]|
      ensures !Overflows(Buffer(g2[j][..k]), g2[j][k], maxChars)
    {
      if j < |closed| {
        assert g2[j] == g[j];
      } else {
        assert g[j][..k] == open[..k] && g[j][k] == open[k];
      }
    }
    forall j | 0 < j < |g2|
      ensures Overflows(Buffer(g2[j - 1]), g2[j][0], maxChars)
    {
      assert g2[j - 1] == g[j - 1] && g2[j][0] == g[j][0];
    }
    assert g[|closed|][..|open|] == open && g[|closed|][|open|] == s;
  }

  /** The greedy packing is unique: Pack is the only grouping IsGreedyPacking admits. */
  lemma {:induction false} GreedyPackingUnique(ss: seq<string>, groups: seq<seq<string>>, maxChars: int)
    requires IsGreedyPacking(ss, groups, maxChars)
    ensures groups == Pack(ss, maxChars)
    decreases |ss|
  {
    if groups == [] {
      assert ss == [];
    } else {
      var n := |groups| - 1;
      var closed, last := groups[..n], groups[n];
      assert groups == closed + [last];
      assert last != [];
      var s := last[|last| - 1];
      if |last| == 1 {
        assert last == [s];
        PackingLastAlone(ss, closed, s, maxChars);
        GreedyPackingUnique(Flatten(closed), closed, maxChars);
        PackSnoc(Flatten(closed), s, maxChars);
      } else {
        var open := last[..|last| - 1];
        assert last == open + [s];
        PackingLastJoined(ss, closed, open, s, maxChars);
        GreedyPackingUnique(Flatten(closed) + open, closed + [open], maxChars);
        PackSnoc(Flatten(closed) + open, s, maxChars);
        assert (closed + [open])[..n] == closed;
      }
    }
  }

  /** Packing one more sentence places it into the packing of the sentences before it. */
  lemma PackSnoc(ss: seq<string>, s: string, maxChars: int)
    ensures Pack(ss + [s], maxChars) == Place(Pack(ss, maxChars), s, maxChars)
  {
    assert (ss + [s])[..|ss|] == ss;
  }

  /** One loop iteration: the packing of the first i + 1 sentences places sentence i. */
  lemma PackStep(ss: seq<string>, i: nat, maxChars: int)
    requires i < |ss|
    ensures Pack(ss[..i + 1], maxChars) == Place(Pack(ss[..i], maxChars), ss[i], maxChars)
  {
    assert ss[..i + 1] == ss[..i] + [ss[i]];
    PackSnoc(ss[..i], ss[i], maxChars);
  }

  /** What `chunkText(text, maxChars)` returns: the emitted buffers of the greedy packing of the sentences. */
  function Chunks(text: string, maxChars: int): seq<string> {
    Emit(Pack(Sentences(text), maxChars))
  }

  /** `chunkText(text, maxChars)`: the sentence loop with its `current` buffer. */
  method ChunkText(text: string, maxChars: int) returns (chunks: seq<string>)
    ensures chunks == Chunks(text, maxChars)
  {
    var sentences := Sentences(text);
    SentencesNonEmptyBeforeLast(text);
    chunks := [];
    var current := "";
    // the groups already pushed, and the sentences in `current`
    ghost var closed: seq<seq<string>> := [];
    ghost var open: seq<string> := [];
    for i := 0 to |sentences|
      invariant i == 0 ==> closed == [] && open == [] && current == ""
      invariant i > 0 ==> Pack(sentences[..i], maxChars) == closed + [open] && current == Buffer(open)
      invariant 0 < i < |sentences| ==> current != ""
      invariant chunks == Emit(closed)
    {
      var s := sentences[i];
      PackStep(sentences, i, maxChars);
      if i == 0 {
        assert sentences[..i] == [];
      } else {
        assert (closed + [open])[..|closed|] == closed && (closed + [open])[|closed|] == open;
      }
      if Utf16Length(current + " " + s) > maxChars {
        if current != "" {
          chunks := chunks + [Trim(current)];
        }
        if i > 0 {
          EmitSnoc(closed, open);
          closed := closed + [open];
        }
        open := [s];
        current := s;
      } else {
        if i > 0 {
          JoinWithSnoc(open, s, " ");
        } else {
          assert open + [s] == [s];
        }
        open := open + [s];
        current := current + (if current != "" then " " else "") + s;
      }
    }
    if current != "" {
      chunks := chunks + [Trim(current)];
    }
    EmitSnoc(closed, open);
    assert sentences[..|sentences|] == sentences;
  }

  // ---- What the greedy packing promises about the chunks ----

  lemma {:induction false} FlattenCons(g: seq<string>, rest: seq<seq<string>>)
    ensures Flatten([g] + rest) == g + Flatten(rest)
    decreases |rest|
  {
    if rest == [] {
      assert Flatten([g]) == Flatten([]) + g;
    } else {
      var n := |rest| - 1;
      assert [g] + rest == ([g] + rest[..n]) + [rest[n]];
      FlattenSnoc([g] + rest[..n], rest[n]);
      FlattenCons(g, rest[..n]);
      assert rest == rest[..n] + [rest[n]];
      FlattenSnoc(rest[..n], rest[n]);
    }
  }

  /** Every sentence of every group is one of the flattened sentences. */
  lemma {:induction false} FlattenMember(groups: seq<seq<string>>, j: nat, k: nat)
    requires j < |groups| && k < |groups[j]|
    ensures groups[j][k] in Flatten(groups)
    decreases |groups|
  {
    var n := |groups| - 1;
    if j < n {
      FlattenMember(groups[..n], j, k);
      assert groups[..n][j] == groups[j];
    } else {
      assert Flatten(groups) == Flatten(groups[..n]) + groups[n];
    }
  }

  /** A non-empty text starts with a non-empty sentence. */
  lemma FirstSentenceNonEmpty(text: string)
    requires text != ""
    ensures Sentences(text)[0] != ""
  {
    var ss := Sentences(text);
    if |ss| == 1 {
      SentencesSeparate(text);
      var seps :| IsSeparation(text, ss, seps);
      assert seps == [];
    } else {
      SentencesNonEmptyBeforeLast(text);
    }
  }

  /** Joining the sentences with single spaces never makes the text longer. */
  lemma JoinedSentencesNoLonger(text: string)
    ensures Utf16Length(Buffer(Sentences(text))) <= Utf16Length(text)
  {
    var ss := Sentences(text);
    SentencesSeparate(text);
    var seps :| IsSeparation(text, ss, seps);
    var ones := seq(|ss| - 1, _ => " ");
    forall i | 0 <= i < |ones|
      ensures Utf16Length(ones[i]) <= Utf16Length(seps[i])
    {
      assert SeparatedAt(ss, seps, i);
      assert Utf16Length(ones[i]) == 1 by {
        assert ones[i][..0] == [];
      }
    }
    InterleaveLengthMonotone(ss, ones, seps);
  }

  /** No chunk is pushed only when every group's buffer is empty. */
  lemma {:induction false} EmitEmpty(groups: seq<seq<string>>)
    ensures Emit(groups) == [] <==> forall j :: 0 <= j < |groups| ==> Buffer(groups[j]) == ""
    decreases |groups|
  {
    if groups != [] {
      var n := |groups| - 1;
      var init := groups[..n];
      EmitEmpty(init);
      assert Emit(groups) == Emit(init) + (if Buffer(groups[n]) != "" then [Trim(Buffer(groups[n]))] else []);
      assert forall j :: 0 <= j < n ==> init[j] == groups[j];
    }
  }

  /** chunkText returns no chunk exactly when the text is empty. */
  lemma ChunksEmptyIff(text: string, maxChars: int)
    ensures Chunks(text, maxChars) == [] <==> text == ""
  {
    var ss := Sentences(text);
    var groups := Pack(ss, maxChars);
    PackIsGreedy(ss, maxChars);
    FlattenCons(groups[0], groups[1..]);
    assert groups == [groups[0]] + groups[1..];
    assert groups[0] <= ss;
    EmitEmpty(groups);
    JoinWithEmpty(groups[0], " ");
    if text == "" {
      assert ss == [""];
      assert groups[0] == [""];
      assert Flatten(groups[1..]) == [];
    } else {
      FirstSentenceNonEmpty(text);
      assert groups[0][0] == ss[0];
    }
  }

  /** The index of the group that chunk i of Emit(groups) was pushed for. */
  lemma {:induction false} EmittedFrom(groups: seq<seq<string>>, i: nat) returns (j: nat)
    requires i < |Emit(groups)|
    ensures j < |groups| && Buffer(groups[j]) != "" && Emit(groups)[i] == Trim(Buffer(groups[j]))
    decreases |groups|
  {
    var n := |groups| - 1;
    if i < |Emit(groups[..n])| {
      j := EmittedFrom(groups[..n], i);
      assert groups[..n][j] == groups[j];
    } else {
      j := n;
    }
  }

  /** A group of two or more sentences passed the size test, so its buffer fits. */
  lemma PackedGroupFits(ss: seq<string>, groups: seq<seq<string>>, maxChars: int, j: nat)
    requires IsGreedyPacking(ss, groups, maxChars)
    requires j < |groups| && |groups[j]| >= 2
    ensures Utf16Length(Buffer(groups[j])) <= maxChars
  {
    var g := groups[j];
    var n := |g| - 1;
    assert !Overflows(Buffer(g[..n]), g[n], maxChars);
    assert g == g[..n] + [g[n]];
    JoinWithSnoc(g[..n], g[n], " ");
  }

  /**
   * Every chunk is at most maxChars long, unless it is a single sentence that is longer
   * on its own; the result names the group the chunk came from.
   */
  lemma ChunkLengthBound(text: string, maxChars: int, i: nat)
    requires i < |Chunks(text, maxChars)|
    ensures Utf16Length(Chunks(text, maxChars)[i]) <= maxChars ||
      exists s :: s in Sentences(text) && Chunks(text, maxChars)[i] == Trim(s)
  {
    var groups := Pack(Sentences(text), maxChars);
    PackIsGreedy(Sentences(text), maxChars);
    var j := EmittedFrom(groups, i);
    if |groups[j]| >= 2 {
      PackedGroupFits(Sentences(text), groups, maxChars, j);
      TrimShorter(Buffer(groups[j]));
    } else {
      var s := groups[j][0];
      assert groups[j] == [s];
      FlattenMember(groups, j, 0);
      assert Chunks(text, maxChars)[i] == Trim(s);
    }
  }

  /** A greedy packing with a second group: the whole space-joined sequence is longer than maxChars. */
  lemma SecondGroupOverflows(ss: seq<string>, groups: seq<seq<string>>, maxChars: int)
    requires IsGreedyPacking(ss, groups, maxChars)
    requires |groups| >= 2
    ensures Utf16Length(Buffer(ss)) > maxChars
  {
    var g0 := groups[0];
    FlattenCons(groups[0], groups[1..]);
    assert groups == [groups[0]] + groups[1..];
    FlattenCons(groups[1], groups[2..]);
    assert groups[1..] == [groups[1]] + groups[2..];
    var n := |g0|;
    assert ss == g0 + groups[1] + Flatten(groups[2..]);
    assert ss[..n + 1] == g0 + [groups[1][0]];
    assert Overflows(Buffer(g0), groups[1][0], maxChars);
    JoinWithSnoc(g0, groups[1][0], " ");
    JoinWithPrefix(ss[..n + 1], ss[n + 1..], " ");
    assert ss[..n + 1] + ss[n + 1..] == ss;
    Utf16PrefixShorter(Buffer(ss[..n + 1]), Buffer(ss));
  }

  /** A greedy packing of the sentences of a non-empty text no longer than maxChars has a single group. */
  lemma ShortTextOneGroup(text: string, groups: seq<seq<string>>, maxChars: int)
    requires IsGreedyPacking(Sentences(text), groups, maxChars)
    requires text != "" && Utf16Length(text) <= maxChars
    ensures groups == [Sentences(text)]
  {
    var ss := Sentences(text);
    if |groups| >= 2 {
      SecondGroupOverflows(ss, groups, maxChars);
      JoinedSentencesNoLonger(text);
      assert false;
    }
    FlattenCons(groups[0], groups[1..]);
    assert groups == [groups[0]] + groups[1..];
    assert Flatten(groups[1..]) == [];
    assert groups[0] == ss;
  }

  /** A non-empty text no longer than maxChars becomes one chunk: its sentences, space-joined and trimmed. */
  lemma ShortTextOneChunk(text: string, maxChars: int)
    requires text != "" && Utf16Length(text) <= maxChars
    ensures Chunks(text, maxChars) == [Trim(Buffer(Sentences(text)))]
  {
    var ss := Sentences(text);
    var groups := Pack(ss, maxChars);
    PackIsGreedy(ss, maxChars);
    ShortTextOneGroup(text, groups, maxChars);
    ChunksEmptyIff(text, maxChars);
    assert Emit(groups) == Emit([]) + (if Buffer(ss) != "" then [Trim(Buffer(ss))] else []);
  }

  /** Without a terminator the split leaves the rest of the text whole. */
  lemma {:induction false} SplitWithoutTerminator(t: string, p: nat, q: nat)
    requires p <= q <= |t|
    requires forall i :: 0 <= i < |t| ==> !IsTerminator(t[i])
    ensures SplitFrom(t, p, q) == [t[p..]]
    decreases |t| - q
  {
    if q < |t| {
      assert !IsBoundary(t, q) by {
        if 0 < q {
          assert !IsTerminator(t[q - 1]);
        }
      }
      SplitWithoutTerminator(t, p, q + 1);
    }
  }

  /** A text of white space only is one sentence, and its chunk is the empty string. */
  lemma BlankTextEmptyChunk(text: string, maxChars: int)
    requires text != "" && forall i :: 0 <= i < |text| ==> IsSpace(text[i])
    ensures Chunks(text, maxChars) == [""]
  {
    var groups := Pack(Sentences(text), maxChars);
    PackIsGreedy(Sentences(text), maxChars);
    forall i | 0 <= i < |text|
      ensures !IsTerminator(text[i])
    {
      assert IsSpace(text[i]);
    }
    SplitWithoutTerminator(text, 0, 0);
    assert text[0..] == text;
    FlattenCons(groups[0], groups[1..]);
    assert groups == [groups[0]] + groups[1..];
    assert groups[0] == [text];
    assert Flatten(groups[1..]) == [];
    assert groups == [[text]];
    assert Buffer([text]) == text;
    var r := Trim(text);
    assert Emit(groups) == Emit([]) + [r];
  }
}
